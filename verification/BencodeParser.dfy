/** The parser as the program runs it: an object that moves `pos_` over its input, and the encoder
    that appends to a growing string. Each method is proved to compute its function in `Bencode`. */
module BencodeParsing {
  import opened Bytes
  import opened Decimal
  import opened Bencode

  class BencodeParser {
    const input: bytes
    var pos: nat

    constructor (input: bytes)
      ensures this.input == input && pos == 0
    {
      this.input := input;
      pos := 0;
    }

    method Parse() returns (r: Result<Value, ParseError>)
      requires pos == 0
      modifies this
      ensures r == Bencode.Parse(input)
    {
      r := ParseValue();
      if r.Ok? && pos < |input| {
        r := Err(TrailingBytes);
      }
    }

    /** `r` is the outcome of a parse from `start`, and `pos` has moved behind what was read. */
    ghost predicate Agrees<T>(p: Parsed<T>, r: Result<T, ParseError>)
      reads this
    {
      match p
      case Done(v, next) => r == Ok(v) && pos == next
      case Fail(e) => r == Err(e)
    }

    method ParseValue() returns (r: Result<Value, ParseError>)
      requires pos <= |input|
      modifies this
      ensures Agrees(Bencode.ParseValue(input, old(pos)), r)
      decreases |input| - pos, 1
    {
      if pos >= |input| {
        return Err(UnexpectedEnd);
      }
      var ch := input[pos];
      if ch == CH_I {
        var n := ParseInteger();
        match n { case Ok(x) => return Ok(Integer(x)); case Err(e) => return Err(e); }
      }
      if ch == CH_L {
        var items := ParseList();
        match items { case Ok(x) => return Ok(List(x)); case Err(e) => return Err(e); }
      }
      if ch == CH_D {
        var entries := ParseDictionary();
        match entries { case Ok(x) => return Ok(Dictionary(x)); case Err(e) => return Err(e); }
      }
      if ZERO <= ch <= NINE {
        var text := ParseText();
        match text { case Ok(x) => return Ok(Text(x)); case Err(e) => return Err(e); }
      }
      r := Err(InvalidToken);
    }

    /** Moves `pos` to the next `c`, or to the end of the input. */
    method SkipTo(c: byte)
      requires pos <= |input|
      modifies this
      ensures pos == ScanTo(input, old(pos), c)
    {
      while pos < |input| && input[pos] != c
        invariant pos <= |input|
        invariant ScanTo(input, pos, c) == ScanTo(input, old(pos), c)
      {
        pos := pos + 1;
      }
    }

    method ParseInteger() returns (r: Result<int, ParseError>)
      requires pos < |input|
      modifies this
      ensures Agrees(Bencode.ParseInteger(input, old(pos)), r)
    {
      pos := pos + 1;
      var start := pos;
      SkipTo(CH_E);
      if pos >= |input| {
        return Err(UnterminatedInteger);
      }
      var token := input[start..pos];
      pos := pos + 1;
      var value := FromCharsInt64(token);
      if value.None? {
        return Err(InvalidInteger);
      }
      r := Ok(value.value);
    }

    method ParseText() returns (r: Result<bytes, ParseError>)
      requires pos <= |input|
      modifies this
      ensures Agrees(Bencode.ParseText(input, old(pos)), r)
    {
      var start := pos;
      SkipTo(COLON);
      if pos >= |input| {
        return Err(InvalidLengthHeader);
      }
      var length := FromCharsSize(input[start..pos]);
      if length.None? {
        return Err(InvalidLength);
      }
      pos := pos + 1;
      if pos + length.value > |input| {
        return Err(StringExceedsInput);
      }
      r := Ok(input[pos..pos + length.value]);
      pos := pos + length.value;
    }

    method ParseList() returns (r: Result<seq<Value>, ParseError>)
      requires pos < |input|
      modifies this
      ensures Agrees(Bencode.ParseItems(input, old(pos) + 1), r)
      decreases |input| - pos, 0
    {
      pos := pos + 1;
      var list: seq<Value> := [];
      BehindEmpty(list, Bencode.ParseItems(input, pos));
      while pos < |input| && input[pos] != CH_E
        invariant old(pos) < pos <= |input|
        invariant Bencode.ParseItems(input, old(pos) + 1) == Prepended(list, Bencode.ParseItems(input, pos))
        decreases |input| - pos
      {
        var before := pos;
        var item := ParseValue();
        if item.Err? {
          return Err(item.error);
        }
        ItemsStep(list, item.value, before, pos);
        list := list + [item.value];
      }
      if pos >= |input| {
        return Err(UnterminatedList);
      }
      BehindEmpty(list, Bencode.ParseItems(input, pos));
      pos := pos + 1;
      r := Ok(list);
    }

    method ParseDictionary() returns (r: Result<seq<Entry>, ParseError>)
      requires pos < |input|
      modifies this
      ensures match Bencode.ParsePairs(input, old(pos) + 1)
              case Done(pairs, next) => r == Ok(Build(pairs)) && pos == next
              case Fail(e) => r == Err(e)
      decreases |input| - pos, 0
    {
      pos := pos + 1;
      var dictionary: seq<Entry> := [];
      ghost var pairs: seq<Entry> := [];
      BehindEmpty(pairs, Bencode.ParsePairs(input, pos));
      while pos < |input| && input[pos] != CH_E
        invariant old(pos) < pos <= |input|
        invariant Bencode.ParsePairs(input, old(pos) + 1) == Prepended(pairs, Bencode.ParsePairs(input, pos))
        invariant dictionary == Build(pairs)
        decreases |input| - pos
      {
        ghost var before := pos;
        var key := ParseText();
        if key.Err? {
          return Err(key.error);
        }
        ghost var at := pos;
        var item := ParseValue();
        if item.Err? {
          return Err(item.error);
        }
        PairsStep(pairs, Entry(key.value, item.value), before, at, pos);
        dictionary := Emplace(dictionary, key.value, item.value);
        pairs := pairs + [Entry(key.value, item.value)];
      }
      if pos >= |input| {
        return Err(UnterminatedDictionary);
      }
      BehindEmpty(pairs, Bencode.ParsePairs(input, pos));
      pos := pos + 1;
      r := Ok(dictionary);
    }

    lemma ItemsStep(list: seq<Value>, item: Value, before: nat, after: nat)
      requires before < |input| && input[before] != CH_E
      requires Bencode.ParseValue(input, before) == Done(item, after)
      ensures Prepended(list, Bencode.ParseItems(input, before)) ==
              Prepended(list + [item], Bencode.ParseItems(input, after))
    {
      var tail := Bencode.ParseItems(input, after);
      if tail.Done? {
        assert list + ([item] + tail.value) == list + [item] + tail.value;
      }
    }

    lemma PairsStep(pairs: seq<Entry>, pair: Entry, before: nat, at: nat, after: nat)
      requires before < |input| && input[before] != CH_E
      requires Bencode.ParseText(input, before) == Done(pair.key, at)
      requires Bencode.ParseValue(input, at) == Done(pair.value, after)
      ensures Prepended(pairs, Bencode.ParsePairs(input, before)) ==
              Prepended(pairs + [pair], Bencode.ParsePairs(input, after))
    {
      var tail := Bencode.ParsePairs(input, after);
      if tail.Done? {
        assert pairs + ([pair] + tail.value) == pairs + [pair] + tail.value;
      }
    }
  }

  /** What is still to be parsed, put behind what the loop has collected. */
  ghost function Prepended<T>(front: seq<T>, rest: Parsed<seq<T>>): Parsed<seq<T>> {
    match rest
    case Done(xs, next) => Done(front + xs, next)
    case Fail(e) => Fail(e)
  }

  lemma BehindEmpty<T>(front: seq<T>, rest: Parsed<seq<T>>)
    ensures Prepended([], rest) == rest
    ensures rest.Done? && rest.value == [] ==> Prepended(front, rest) == Done(front, rest.next)
  {
    if rest.Done? {
      assert [] + rest.value == rest.value;
      assert front + [] == front;
    }
  }

  method EncodeBencode(value: Value) returns (out: bytes)
    ensures out == Encode(value)
    decreases value
  {
    match value
    case Integer(n) =>
      out := [CH_I] + (SignedDigits(n) + [CH_E]);
    case Text(s) =>
      out := EncodeText(s);
    case List(items) =>
      out := EncodeList(items);
    case Dictionary(entries) =>
      out := EncodeDictionary(entries);
  }

  method EncodeList(items: seq<Value>) returns (out: bytes)
    ensures out == [CH_L] + EncodeItems(items)
    decreases items
  {
    out := [CH_L];
    for i := 0 to |items|
      invariant out + EncodeItems(items[i..]) == [CH_L] + EncodeItems(items)
    {
      var item := EncodeBencode(items[i]);
      ItemsFrom(items, i);
      Append(out, item, [], EncodeItems(items[i + 1..]));
      out := out + item;
    }
    out := out + [CH_E];
  }

  method EncodeDictionary(entries: seq<Entry>) returns (out: bytes)
    ensures out == [CH_D] + EncodeEntries(entries)
    decreases entries
  {
    out := [CH_D];
    for i := 0 to |entries|
      invariant out + EncodeEntries(entries[i..]) == [CH_D] + EncodeEntries(entries)
    {
      var child := EncodeBencode(entries[i].value);
      EntriesFrom(entries, i);
      Append(out, EncodeText(entries[i].key), child, EncodeEntries(entries[i + 1..]));
      out := out + EncodeText(entries[i].key);
      out := out + child;
    }
    out := out + [CH_E];
  }

  lemma ItemsFrom(items: seq<Value>, i: nat)
    requires i < |items|
    ensures EncodeItems(items[i..]) == Encode(items[i]) + EncodeItems(items[i + 1..])
  {
    assert items[i..][1..] == items[i + 1..];
  }

  lemma EntriesFrom(entries: seq<Entry>, i: nat)
    requires i < |entries|
    ensures EncodeEntries(entries[i..]) ==
            EncodeText(entries[i].key) + (Encode(entries[i].value) + EncodeEntries(entries[i + 1..]))
  {
    assert entries[i..][1..] == entries[i + 1..];
  }

  lemma Append(out: bytes, a: bytes, b: bytes, rest: bytes)
    ensures out + (a + (b + rest)) == out + a + b + rest
    ensures b == [] ==> out + (a + rest) == out + a + rest
  {
  }
}
