/** What the bencode encoder and parser are to each other. */
module BencodeTheorems {
  import opened Bytes
  import opened Machine
  import opened Decimal
  import opened Bencode

  // ----- the ordered dictionary

  lemma {:induction false} EmplaceAscending(es: seq<Entry>, key: bytes, value: Value)
    requires Ascending(es)
    ensures Ascending(Emplace(es, key, value))
    ensures forall e <- Emplace(es, key, value) :: e in es || e == Entry(key, value)
    ensures forall e <- es :: e in Emplace(es, key, value)
  {
    if es != [] && key != es[0].key {
      LessTotal(key, es[0].key);
      if Less(key, es[0].key) {
        forall i | 0 <= i < |es| ensures Less(key, es[i].key) {
          if i > 0 { LessTransitive(key, es[0].key, es[i].key); }
        }
      } else {
        var rest := Emplace(es[1..], key, value);
        EmplaceAscending(es[1..], key, value);
        forall e | e in rest ensures Less(es[0].key, e.key) {
          if e != Entry(key, value) {
            var i :| 0 <= i < |es[1..]| && es[1..][i] == e;
            assert es[i + 1] == e;
          }
        }
        forall e | e in es ensures e in [es[0]] + rest {
          if e != es[0] { assert e in es[1..]; }
        }
      }
    }
  }

  /** Insertion keeps an existing key and adds a missing one; every other key is left alone. */
  lemma {:induction false} EmplaceFinds(es: seq<Entry>, key: bytes, value: Value, k: bytes)
    requires Ascending(es)
    ensures Find(Emplace(es, key, value), k) ==
            if k == key && Find(es, key).None? then Some(value) else Find(es, k)
  {
    if es != [] && key != es[0].key {
      if Less(key, es[0].key) {
        SmallerNotFound(es, key);
      } else {
        EmplaceFinds(es[1..], key, value, k);
        assert ([es[0]] + Emplace(es[1..], key, value))[1..] == Emplace(es[1..], key, value);
      }
    }
  }

  lemma {:induction false} SmallerNotFound(es: seq<Entry>, key: bytes)
    requires Ascending(es) && (es == [] || Less(key, es[0].key))
    ensures Find(es, key).None?
    ensures ([Entry(key, Integer(0))] + es)[1..] == es
  {
    if es != [] {
      LessIrreflexive(key);
      if |es| > 1 { LessTransitive(key, es[0].key, es[1].key); }
      SmallerNotFound(es[1..], key);
    }
  }

  lemma {:induction false} FindAppend(es: seq<Entry>, last: Entry, k: bytes)
    ensures Find(es + [last], k) ==
            if Find(es, k).None? && k == last.key then Some(last.value) else Find(es, k)
  {
    if es != [] {
      assert (es + [last])[1..] == es[1..] + [last];
      FindAppend(es[1..], last, k);
    }
  }

  /** The dictionary built from a list of pairs is ordered, holds only given pairs, and gives every
      key the value of its FIRST occurrence: later duplicates are dropped. */
  lemma {:induction false} BuildFirstWins(pairs: seq<Entry>, k: bytes)
    ensures Ascending(Build(pairs))
    ensures forall e <- Build(pairs) :: e in pairs
    ensures Find(Build(pairs), k) == Find(pairs, k)
  {
    if pairs != [] {
      var front, last := pairs[..|pairs| - 1], pairs[|pairs| - 1];
      BuildFirstWins(front, k);
      BuildFirstWins(front, last.key);
      EmplaceAscending(Build(front), last.key, last.value);
      EmplaceFinds(Build(front), last.key, last.value, k);
      FindAppend(front, last, k);
      assert front + [last] == pairs;
    }
  }

  /** Pairs already in strict key order are stored unchanged. */
  lemma {:induction false} BuildOrdered(pairs: seq<Entry>)
    requires Ascending(pairs)
    ensures Build(pairs) == pairs
  {
    if pairs != [] {
      var front, last := pairs[..|pairs| - 1], pairs[|pairs| - 1];
      BuildOrdered(front);
      EmplaceLast(front, last);
      assert front + [last] == pairs;
    }
  }

  lemma {:induction false} EmplaceLast(es: seq<Entry>, last: Entry)
    requires forall e <- es :: Less(e.key, last.key)
    ensures Emplace(es, last.key, last.value) == es + [last]
  {
    if es != [] {
      LessIrreflexive(last.key);
      if Less(last.key, es[0].key) {
        LessTransitive(es[0].key, last.key, es[0].key);
        LessIrreflexive(es[0].key);
      }
      EmplaceLast(es[1..], last);
    }
  }

  // ----- round trip

  lemma {:induction false} ScanToFinds(s: bytes, pos: nat, end: nat, c: byte)
    requires pos <= end < |s| && s[end] == c
    requires forall i :: pos <= i < end ==> s[i] != c
    ensures ScanTo(s, pos, c) == end
    decreases end - pos
  {
    if pos < end { ScanToFinds(s, pos + 1, end, c); }
  }

  /** The scan for a delimiter stops behind a text that does not hold the delimiter. */
  lemma ScanToDelimiter(s: bytes, pos: nat, t: bytes, c: byte)
    requires c !in t
    requires Occurs(s, pos, t) && Occurs(s, pos + |t|, [c])
    ensures pos + |t| < |s| && ScanTo(s, pos, c) == pos + |t|
    ensures s[pos..pos + |t|] == t
  {
    OccursSlice(s, pos, t);
    OccursOne(s, pos + |t|, c);
    forall i | pos <= i < pos + |t| ensures s[i] != c {
      assert s[i] == s[pos..pos + |t|][i - pos];
    }
    ScanToFinds(s, pos, pos + |t|, c);
  }

  lemma RoundTripInteger(s: bytes, pos: nat, n: int)
    requires INT64_MIN <= n <= INT64_MAX
    requires Occurs(s, pos, Encode(Integer(n)))
    ensures ParseInteger(s, pos) == Done(n, pos + |Encode(Integer(n))|)
  {
    var t := SignedDigits(n);
    OccursSplit3(s, pos, [CH_I], t, [CH_E]);
    ScanToDelimiter(s, pos + 1, t, CH_E);
    FromCharsInt64Inverts(n);
  }

  lemma TextOccurs(s: bytes, pos: nat, t: bytes)
    ensures var colon := pos + |Digits(|t|)|;
            && |EncodeText(t)| == |Digits(|t|)| + 1 + |t|
            && (Occurs(s, pos, EncodeText(t)) <==>
                Occurs(s, pos, Digits(|t|)) && Occurs(s, colon, [COLON]) && Occurs(s, colon + 1, t))
  {
    OccursSplit3(s, pos, Digits(|t|), [COLON], t);
  }

  lemma RoundTripText(s: bytes, pos: nat, t: bytes)
    requires |t| < TWO_64
    requires Occurs(s, pos, EncodeText(t))
    ensures ParseText(s, pos) == Done(t, pos + |EncodeText(t)|)
    ensures IsDigit(s[pos])
  {
    var d := Digits(|t|);
    TextOccurs(s, pos, t);
    ScanToDelimiter(s, pos, d, COLON);
    OccursSlice(s, pos + |d| + 1, t);
    FromCharsSizeInverts(|t|);
    assert IsDigit(s[pos..pos + |d|][0]);
  }

  /** Round trip in context: wherever the encoding of a value stands in an input, the parser started
      there returns that value and stops exactly behind its last byte. */
  lemma {:induction false} RoundTrip(s: bytes, pos: nat, v: Value)
    requires Valid(v)
    requires Occurs(s, pos, Encode(v))
    ensures ParseValue(s, pos) == Done(v, pos + |Encode(v)|)
    decreases v
  {
    match v
    case Integer(n) =>
      RoundTripInteger(s, pos, n);
    case Text(t) =>
      RoundTripText(s, pos, t);
    case List(items) =>
      OccursSplit(s, pos, [CH_L], EncodeItems(items));
      OccursOne(s, pos, CH_L);
      RoundTripItems(s, pos + 1, items);
      ListStep(s, pos, items, pos + 1 + |EncodeItems(items)|);
    case Dictionary(entries) =>
      OccursSplit(s, pos, [CH_D], EncodeEntries(entries));
      OccursOne(s, pos, CH_D);
      RoundTripEntries(s, pos + 1, entries);
      DictionaryStep(s, pos, entries, pos + 1 + |EncodeEntries(entries)|);
  }

  lemma ListStep(s: bytes, pos: nat, items: seq<Value>, end: nat)
    requires pos < |s| && s[pos] == CH_L && ParseItems(s, pos + 1) == Done(items, end)
    ensures ParseValue(s, pos) == Done(List(items), end)
  {
  }

  lemma DictionaryStep(s: bytes, pos: nat, entries: seq<Entry>, end: nat)
    requires pos < |s| && s[pos] == CH_D && ParsePairs(s, pos + 1) == Done(entries, end) && Ascending(entries)
    ensures ParseValue(s, pos) == Done(Dictionary(entries), end)
  {
    BuildOrdered(entries);
  }

  lemma {:induction false} RoundTripItems(s: bytes, pos: nat, items: seq<Value>)
    requires forall x <- items :: Valid(x)
    requires Occurs(s, pos, EncodeItems(items))
    ensures ParseItems(s, pos) == Done(items, pos + |EncodeItems(items)|)
    decreases items
  {
    if items == [] {
      OccursOne(s, pos, CH_E);
    } else {
      var rest, mid := items[1..], pos + |Encode(items[0])|;
      OccursSplit(s, pos, Encode(items[0]), EncodeItems(rest));
      RoundTrip(s, pos, items[0]);
      assert forall x <- rest :: x in items;
      RoundTripItems(s, mid, rest);
      assert s[pos] == Encode(items[0])[0];
      ItemsStep(s, pos, items, mid, mid + |EncodeItems(rest)|);
    }
  }

  lemma {:induction false} RoundTripEntries(s: bytes, pos: nat, entries: seq<Entry>)
    requires forall e <- entries :: |e.key| < TWO_64 && Valid(e.value)
    requires Occurs(s, pos, EncodeEntries(entries))
    ensures ParsePairs(s, pos) == Done(entries, pos + |EncodeEntries(entries)|)
    decreases entries, 1
  {
    if entries == [] {
      OccursOne(s, pos, CH_E);
    } else {
      var rest := entries[1..];
      var at, mid := RoundTripEntry(s, pos, entries);
      RoundTripEntries(s, mid, rest);
      PairsStep(s, pos, entries, at, mid, mid + |EncodeEntries(rest)|);
    }
  }

  lemma {:induction false} RoundTripEntry(s: bytes, pos: nat, entries: seq<Entry>) returns (at: nat, mid: nat)
    requires entries != [] && Occurs(s, pos, EncodeEntries(entries))
    requires forall e <- entries :: |e.key| < TWO_64 && Valid(e.value)
    ensures pos < |s| && s[pos] != CH_E
    ensures ParseText(s, pos) == Done(entries[0].key, at) && ParseValue(s, at) == Done(entries[0].value, mid)
    ensures Occurs(s, mid, EncodeEntries(entries[1..])) && forall e <- entries[1..] :: e in entries
    ensures |EncodeEntries(entries)| == mid - pos + |EncodeEntries(entries[1..])|
    decreases entries, 0
  {
    at := pos + |EncodeText(entries[0].key)|;
    mid := at + |Encode(entries[0].value)|;
    EntriesOccur(s, pos, entries);
    RoundTripText(s, pos, entries[0].key);
    RoundTrip(s, at, entries[0].value);
  }

  lemma EntriesOccur(s: bytes, pos: nat, entries: seq<Entry>)
    requires entries != [] && Occurs(s, pos, EncodeEntries(entries))
    ensures var at := pos + |EncodeText(entries[0].key)|;
            var mid := at + |Encode(entries[0].value)|;
            && Occurs(s, pos, EncodeText(entries[0].key)) && Occurs(s, at, Encode(entries[0].value))
            && Occurs(s, mid, EncodeEntries(entries[1..]))
            && |EncodeEntries(entries)| == mid - pos + |EncodeEntries(entries[1..])|
  {
    OccursSplit3(s, pos, EncodeText(entries[0].key), Encode(entries[0].value), EncodeEntries(entries[1..]));
  }

  lemma ItemsStep(s: bytes, pos: nat, items: seq<Value>, mid: nat, end: nat)
    requires pos < |s| && s[pos] != CH_E && items != []
    requires ParseValue(s, pos) == Done(items[0], mid)
    requires ParseItems(s, mid) == Done(items[1..], end)
    ensures ParseItems(s, pos) == Done(items, end)
  {
    assert items == [items[0]] + items[1..];
  }

  lemma PairsStep(s: bytes, pos: nat, pairs: seq<Entry>, at: nat, mid: nat, end: nat)
    requires pos < |s| && s[pos] != CH_E && pairs != []
    requires ParseText(s, pos) == Done(pairs[0].key, at)
    requires ParseValue(s, at) == Done(pairs[0].value, mid)
    requires ParsePairs(s, mid) == Done(pairs[1..], end)
    ensures ParsePairs(s, pos) == Done(pairs, end)
  {
    PairsCons(s, pos, pairs[0].key, at, pairs[0].value, mid, pairs[1..], end);
    assert pairs == [Entry(pairs[0].key, pairs[0].value)] + pairs[1..];
  }

  lemma PairsCons(s: bytes, pos: nat, key: bytes, at: nat, value: Value, mid: nat, rest: seq<Entry>, end: nat)
    requires pos < |s| && s[pos] != CH_E && ParseText(s, pos) == Done(key, at)
    requires ParseValue(s, at) == Done(value, mid) && ParsePairs(s, mid) == Done(rest, end)
    ensures ParsePairs(s, pos) == Done([Entry(key, value)] + rest, end)
  {
  }

  /** Decoding an encoded value gives the value back. */
  lemma ParseEncode(v: Value)
    requires Valid(v)
    ensures Parse(Encode(v)) == Ok(v)
  {
    OccursSlice(Encode(v), 0, Encode(v));
    RoundTrip(Encode(v), 0, v);
  }

  /** No encoding is a prefix of another value's encoding; in particular the encoding is injective. */
  lemma EncodePrefixFree(u: Value, v: Value)
    requires Valid(u) && Valid(v)
    requires Encode(u) <= Encode(v)
    ensures u == v
  {
    OccursSlice(Encode(v), 0, Encode(u));
    OccursSlice(Encode(v), 0, Encode(v));
    RoundTrip(Encode(v), 0, u);
    RoundTrip(Encode(v), 0, v);
  }

  // ----- the bound check of strings

  /** The check as the code writes it, with a 64-bit addition, decides as the parser here does exactly
      when the addition does not wrap; when it wraps, it lets the string pass and the position moves back. */
  lemma BoundCheckIff(pos: nat, length: nat, size: nat)
    requires pos <= size < TWO_64 && length < TWO_64
    ensures (Add64(pos, length) > size <==> length > size - pos) <==> pos + length < TWO_64
    ensures pos + length >= TWO_64 ==> Add64(pos, length) < pos
  {
    if pos + length < TWO_64 {
      Add64Exact(pos, length);
    } else {
      assert Add64(pos, length) == pos + length - TWO_64;
    }
  }

  // ----- parsed values are values

  /** Whatever the parser returns is a value the C++ types can hold. */
  lemma {:induction false} ParsedValid(s: bytes, pos: nat)
    requires pos <= |s| && ParseValue(s, pos).Done?
    ensures Valid(ParseValue(s, pos).value)
    decreases |s| - pos, 0
  {
    if s[pos] == CH_L {
      ParsedItemsValid(s, pos + 1);
    } else if s[pos] == CH_D {
      ParsedPairsValid(s, pos + 1);
      BuildFirstWins(ParsePairs(s, pos + 1).value, []);
    }
  }

  lemma {:induction false} ParsedItemsValid(s: bytes, pos: nat)
    requires pos <= |s| && ParseItems(s, pos).Done?
    ensures forall x <- ParseItems(s, pos).value :: Valid(x)
    decreases |s| - pos, 1
  {
    if s[pos] != CH_E {
      ParsedValid(s, pos);
      ParsedItemsValid(s, ParseValue(s, pos).next);
    }
  }

  lemma {:induction false} ParsedPairsValid(s: bytes, pos: nat)
    requires pos <= |s| && ParsePairs(s, pos).Done?
    ensures forall e <- ParsePairs(s, pos).value :: |e.key| < TWO_64 && Valid(e.value)
    decreases |s| - pos, 1
  {
    if s[pos] != CH_E {
      var at := ParseText(s, pos).next;
      ParsedValid(s, at);
      ParsedPairsValid(s, ParseValue(s, at).next);
    }
  }

  // ----- the canonical form

  lemma IntegerCanonical(s: bytes, pos: nat)
    requires pos < |s| && ParseInteger(s, pos).Done? && s[pos] == CH_I
    ensures var r := ParseInteger(s, pos);
            var t := Encode(Integer(r.value));
            Occurs(s, pos, t) && r.next == pos + |t| <==> CanonicalSigned(s[pos + 1..ScanTo(s, pos + 1, CH_E)])
  {
    var r := ParseInteger(s, pos);
    var end := ScanTo(s, pos + 1, CH_E);
    Int64TextUnique(s[pos + 1..end]);
    BracketedOccurs(s, pos, end, SignedDigits(r.value));
  }

  lemma BracketedOccurs(s: bytes, pos: nat, end: nat, d: bytes)
    requires pos < end < |s| && s[pos] == CH_I && s[end] == CH_E
    ensures var t := [CH_I] + (d + [CH_E]);
            Occurs(s, pos, t) && end + 1 == pos + |t| <==> d == s[pos + 1..end]
  {
    OccursSplit3(s, pos, [CH_I], d, [CH_E]);
    OccursOne(s, pos, CH_I);
    OccursOne(s, pos + 1 + |d|, CH_E);
    OccursSlice(s, pos + 1, d);
  }

  lemma TextCanonical(s: bytes, pos: nat)
    requires pos <= |s| && ParseText(s, pos).Done?
    ensures var r := ParseText(s, pos);
            var t := EncodeText(r.value);
            && (Occurs(s, pos, t) <==> CanonicalText(s, pos))
            && (Occurs(s, pos, t) ==> r.next == pos + |t|)
  {
    var r := ParseText(s, pos);
    var colon := ScanTo(s, pos, COLON);
    SizeTextUnique(s[pos..colon]);
    TextOccurs(s, pos, r.value);
    OccursSlice(s, pos, Digits(|r.value|));
    OccursOne(s, colon, COLON);
    OccursSlice(s, colon + 1, r.value);
    if Occurs(s, pos, EncodeText(r.value)) {
      RoundTripText(s, pos, r.value);
    }
  }

  /** For every accepted value, re-encoding reproduces exactly the bytes that were read if and only
      if those bytes were in canonical form. */
  lemma {:induction false} ReencodeIffCanonical(s: bytes, pos: nat)
    requires pos <= |s| && ParseValue(s, pos).Done?
    ensures var r := ParseValue(s, pos);
            Occurs(s, pos, Encode(r.value)) && r.next == pos + |Encode(r.value)| <==> Canonical(s, pos)
    decreases |s| - pos, 0
  {
    var r := ParseValue(s, pos);
    if s[pos] == CH_I {
      IntegerCanonical(s, pos);
    } else if s[pos] == CH_L {
      OccursSplit(s, pos, [CH_L], EncodeItems(r.value.items));
      OccursOne(s, pos, CH_L);
      ReencodeItems(s, pos + 1);
    } else if s[pos] == CH_D {
      ReencodeDictionary(s, pos);
    } else {
      TextCanonical(s, pos);
    }
  }

  lemma {:induction false} ReencodeDictionary(s: bytes, pos: nat)
    requires pos < |s| && ParsePairs(s, pos + 1).Done? && s[pos] == CH_D
    ensures var r := ParsePairs(s, pos + 1);
            var t := Encode(Dictionary(Build(r.value)));
            Occurs(s, pos, t) && r.next == pos + |t| <==> Ascending(r.value) && CanonicalPairs(s, pos + 1)
    decreases |s| - pos - 1, 2
  {
    var entries := Build(ParsePairs(s, pos + 1).value);
    OccursSplit(s, pos, [CH_D], EncodeEntries(entries));
    OccursOne(s, pos, CH_D);
    RebuiltSame(s, pos + 1);
    ReencodePairs(s, pos + 1);
  }

  /** The dictionary built from the pairs, encoded, stands where they stand only if they are in order. */
  lemma RebuiltSame(s: bytes, pos: nat)
    requires pos <= |s| && ParsePairs(s, pos).Done?
    ensures var pairs := ParsePairs(s, pos).value;
            && (Occurs(s, pos, EncodeEntries(Build(pairs))) ==> Build(pairs) == pairs && Ascending(pairs))
            && (Ascending(pairs) ==> Build(pairs) == pairs)
  {
    var pairs := ParsePairs(s, pos).value;
    BuildFirstWins(pairs, []);
    ParsedPairsValid(s, pos);
    if Occurs(s, pos, EncodeEntries(Build(pairs))) {
      RoundTripEntries(s, pos, Build(pairs));
    }
    if Ascending(pairs) {
      BuildOrdered(pairs);
    }
  }

  lemma {:induction false} ReencodeItems(s: bytes, pos: nat)
    requires pos <= |s| && ParseItems(s, pos).Done?
    ensures var r := ParseItems(s, pos);
            var t := EncodeItems(r.value);
            Occurs(s, pos, t) && r.next == pos + |t| <==> CanonicalItems(s, pos)
    decreases |s| - pos, 1
  {
    if s[pos] == CH_E {
      OccursOne(s, pos, CH_E);
    } else {
      var r, p := ParseItems(s, pos), ParseValue(s, pos);
      assert r.value[1..] == ParseItems(s, p.next).value;
      OccursSplit(s, pos, Encode(p.value), EncodeItems(r.value[1..]));
      if Occurs(s, pos, Encode(p.value)) {
        ParsedValid(s, pos);
        RoundTrip(s, pos, p.value);
      }
      ReencodeIffCanonical(s, pos);
      ReencodeItems(s, p.next);
    }
  }

  lemma {:induction false} ReencodePairs(s: bytes, pos: nat)
    requires pos <= |s| && ParsePairs(s, pos).Done?
    ensures var r := ParsePairs(s, pos);
            var t := EncodeEntries(r.value);
            Occurs(s, pos, t) && r.next == pos + |t| <==> CanonicalPairs(s, pos)
    decreases |s| - pos, 1
  {
    if s[pos] == CH_E {
      OccursOne(s, pos, CH_E);
    } else {
      var r, k := ParsePairs(s, pos), ParseText(s, pos);
      var p := ParseValue(s, k.next);
      TextCanonical(s, pos);
      ValueReencoded(s, k.next);
      assert r.value[1..] == ParsePairs(s, p.next).value;
      PiecesOccur(s, pos, EncodeText(k.value), k.next, Encode(p.value), p.next, EncodeEntries(r.value[1..]), r.next);
      ReencodeIffCanonical(s, k.next);
      ReencodePairs(s, p.next);
    }
  }

  lemma ValueReencoded(s: bytes, pos: nat)
    requires pos <= |s| && ParseValue(s, pos).Done?
    ensures var p := ParseValue(s, pos); Occurs(s, pos, Encode(p.value)) ==> p.next == pos + |Encode(p.value)|
  {
    var p := ParseValue(s, pos);
    if Occurs(s, pos, Encode(p.value)) {
      ParsedValid(s, pos);
      RoundTrip(s, pos, p.value);
    }
  }

  /** Three pieces in a row stand in the input exactly if each stands where the one before it ends. */
  lemma PiecesOccur(s: bytes, pos: nat, a: bytes, at: nat, b: bytes, mid: nat, c: bytes, end: nat)
    requires Occurs(s, pos, a) ==> at == pos + |a|
    requires Occurs(s, at, b) ==> mid == at + |b|
    ensures (Occurs(s, pos, a + (b + c)) && end == pos + |a + (b + c)|) <==>
              Occurs(s, pos, a) && (Occurs(s, at, b) && mid == at + |b|) && (Occurs(s, mid, c) && end == mid + |c|)
  {
    OccursSplit3(s, pos, a, b, c);
  }

  /** The whole-input form of the converse. */
  lemma EncodeParse(s: bytes)
    requires Parse(s).Ok?
    ensures Encode(Parse(s).value) == s <==> Canonical(s, 0)
  {
    ReencodeIffCanonical(s, 0);
    OccursSlice(s, 0, Encode(Parse(s).value));
    assert s[0..|s|] == s;
  }

  /** Re-encoding any accepted input gives a canonical form that parses to the same value and that
      further re-encoding leaves alone. */
  lemma ReencodeIdempotent(s: bytes)
    requires Parse(s).Ok?
    ensures var t := Encode(Parse(s).value);
            Parse(t) == Parse(s) && Canonical(t, 0) && Encode(Parse(t).value) == t
  {
    var v := Parse(s).value;
    ParsedValid(s, 0);
    ParseEncode(v);
    EncodeParse(Encode(v));
  }
}
