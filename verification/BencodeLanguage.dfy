/** The accepted language: which texts spell which values, told without the parser, and that the parser
    accepts exactly these. */
module BencodeLanguage {
  import opened Bytes
  import opened Decimal
  import opened Bencode
  import opened BencodeTheorems

  // ----- numbers

  function ZeroDigits(count: nat): (t: bytes)
    ensures |t| == count && forall b <- t :: b == ZERO
  {
    seq(count, _ => ZERO)
  }

  /** Any number of zeros, and the decimal digits of the number. */
  ghost predicate SpellsNumber(t: bytes, n: nat) {
    exists zeros: nat :: t == ZeroDigits(zeros) + Digits(n)
  }

  /** A number that fits 64 bits, with a minus sign if it is negative; zero may have one. */
  ghost predicate SpellsInteger(t: bytes, n: int) {
    && INT64_MIN <= n <= INT64_MAX
    && ((n >= 0 && SpellsNumber(t, n)) || (n <= 0 && t != [] && t[0] == MINUS && SpellsNumber(t[1..], -n)))
  }

  lemma {:induction false} LeadingZero(t: bytes)
    requires AllDigits(t)
    ensures AllDigits([ZERO] + t) && DecimalValue([ZERO] + t) == DecimalValue(t)
    decreases |t|
  {
    var z := [ZERO] + t;
    if t == [] {
      assert z[..0] == [];
    } else {
      LeadingZero(t[..|t| - 1]);
      assert z[..|z| - 1] == [ZERO] + t[..|t| - 1];
    }
  }

  lemma {:induction false} ZerosDenote(zeros: nat, n: nat)
    ensures AllDigits(ZeroDigits(zeros) + Digits(n)) && DecimalValue(ZeroDigits(zeros) + Digits(n)) == n
    decreases zeros
  {
    if zeros == 0 {
      assert ZeroDigits(0) + Digits(n) == Digits(n);
      DigitsDenote(n);
    } else {
      ZerosDenote(zeros - 1, n);
      LeadingZero(ZeroDigits(zeros - 1) + Digits(n));
      assert ZeroDigits(zeros) + Digits(n) == [ZERO] + (ZeroDigits(zeros - 1) + Digits(n));
    }
  }

  lemma {:induction false} DigitsSpell(t: bytes)
    requires t != [] && AllDigits(t)
    ensures SpellsNumber(t, DecimalValue(t))
    decreases |t|
  {
    if CanonicalDigits(t) {
      CanonicalDigitsUnique(t);
      assert t == ZeroDigits(0) + Digits(DecimalValue(t));
    } else {
      DigitsSpell(t[1..]);
      LeadingZero(t[1..]);
      assert t == [ZERO] + t[1..];
      var zeros: nat :| t[1..] == ZeroDigits(zeros) + Digits(DecimalValue(t[1..]));
      assert t == ZeroDigits(zeros + 1) + Digits(DecimalValue(t));
    }
  }

  lemma NumberIffDigits(t: bytes, n: nat)
    ensures SpellsNumber(t, n) <==> t != [] && AllDigits(t) && DecimalValue(t) == n
  {
    if SpellsNumber(t, n) {
      var zeros: nat :| t == ZeroDigits(zeros) + Digits(n);
      ZerosDenote(zeros, n);
    }
    if t != [] && AllDigits(t) {
      DigitsSpell(t);
    }
  }

  /** The tokens taken for a length, and for an integer, are exactly those that spell it. */
  lemma SizeIffSpelled(t: bytes, n: nat)
    ensures FromCharsSize(t) == Some(n) <==> SpellsNumber(t, n) && n < TWO_64
  {
    NumberIffDigits(t, n);
  }

  lemma IntegerIffSpelled(t: bytes, n: int)
    ensures FromCharsInt64(t) == Some(n) <==> SpellsInteger(t, n)
  {
    if t != [] && t[0] == MINUS {
      if n <= 0 { NumberIffDigits(t[1..], -n); }
      if n >= 0 { NumberIffDigits(t, n); }
    } else if n >= 0 {
      NumberIffDigits(t, n);
    }
  }

  // ----- values

  /** The length, a colon, and the text itself. */
  ghost predicate SpellsText(t: bytes, x: bytes) {
    exists colon: nat :: HeaderAt(t, colon, |x|) && x == t[colon + 1..]
  }

  ghost predicate HeaderAt(t: bytes, colon: nat, length: nat) {
    colon < |t| && t[colon] == COLON && SpellsNumber(t[..colon], length) && length < TWO_64
  }

  /** An integer between `i` and `e`. */
  ghost predicate SpellsToken(t: bytes, n: int) {
    |t| >= 2 && t[0] == CH_I && t[|t| - 1] == CH_E && SpellsInteger(t[1..|t| - 1], n)
  }

  /** `t` is the text of `v`, or of a dictionary the pairs of which make `v`. */
  ghost predicate Spells(t: bytes, v: Value)
    decreases |t|, 0
  {
    match v
    case Integer(n) => SpellsToken(t, n)
    case Text(x) => SpellsText(t, x)
    case List(items) => t != [] && t[0] == CH_L && SpellsItems(t[1..], items)
    case Dictionary(entries) =>
      t != [] && t[0] == CH_D && exists pairs :: SpellsPairs(t[1..], pairs) && entries == Bencode.Build(pairs)
  }

  /** One text after the other, and the closing `e`. */
  ghost predicate SpellsItems(t: bytes, items: seq<Value>)
    decreases |t|, 1
  {
    if items == [] then t == [CH_E]
    else exists k :: 0 < k < |t| && Spells(t[..k], items[0]) && SpellsItems(t[k..], items[1..])
  }

  /** A key, and a value behind it. */
  ghost predicate SpellsPair(t: bytes, pair: Entry)
    decreases |t|, 1
  {
    exists j :: 0 < j < |t| && SpellsText(t[..j], pair.key) && Spells(t[j..], pair.value)
  }

  /** One pair after the other, and the closing `e`. */
  ghost predicate SpellsPairs(t: bytes, pairs: seq<Entry>)
    decreases |t|, 1
  {
    if pairs == [] then t == [CH_E]
    else exists k :: 0 < k < |t| && SpellsPair(t[..k], pairs[0]) && SpellsPairs(t[k..], pairs[1..])
  }

  lemma Cut(s: bytes, pos: nat, end: nat, k: nat)
    requires pos <= end <= |s| && k <= end - pos
    ensures s[pos..end][..k] == s[pos..pos + k] && s[pos..end][k..] == s[pos + k..end]
  {
  }

  // ----- what is read is spelled

  lemma TokenCut(s: bytes, pos: nat, end: nat, n: int)
    requires pos < end < |s|
    ensures SpellsToken(s[pos..end + 1], n) <==> s[pos] == CH_I && s[end] == CH_E && SpellsInteger(s[pos + 1..end], n)
  {
    var t := s[pos..end + 1];
    Cut(s, pos, end + 1, 1);
    Cut(s, pos + 1, end + 1, end - pos - 1);
    assert t[1..end - pos] == t[1..][..end - pos - 1];
  }

  lemma IntegerSpells(s: bytes, pos: nat, r: Parsed<int>)
    requires pos < |s| && s[pos] == CH_I && r == ParseInteger(s, pos) && r.Done?
    ensures pos < r.next <= |s| && SpellsToken(s[pos..r.next], r.value)
  {
    var end := ScanTo(s, pos + 1, CH_E);
    TokenCut(s, pos, end, r.value);
    IntegerIffSpelled(s[pos + 1..end], r.value);
  }

  lemma TextSpells(s: bytes, pos: nat)
    requires pos <= |s| && ParseText(s, pos).Done?
    ensures var r := ParseText(s, pos); SpellsText(s[pos..r.next], r.value)
  {
    var r, colon := ParseText(s, pos), ScanTo(s, pos, COLON);
    var t := s[pos..r.next];
    assert t[..colon - pos] == s[pos..colon] && t[colon - pos + 1..] == r.value;
    SizeIffSpelled(s[pos..colon], |r.value|);
    assert HeaderAt(t, colon - pos, |r.value|);
  }

  lemma {:induction false} ReadSpells(s: bytes, pos: nat)
    requires pos <= |s| && ParseValue(s, pos).Done?
    ensures var r := ParseValue(s, pos); Spells(s[pos..r.next], r.value)
    decreases |s| - pos, 0
  {
    var next := ParseValue(s, pos).next;
    var t := s[pos..next];
    assert t[1..] == s[pos + 1..next];
    if s[pos] == CH_I {
      IntegerSpells(s, pos, ParseInteger(s, pos));
    } else if s[pos] == CH_L {
      ReadItemsSpell(s, pos + 1);
    } else if s[pos] == CH_D {
      ReadPairsSpell(s, pos + 1);
    } else {
      TextSpells(s, pos);
    }
  }

  lemma {:induction false} ReadItemsSpell(s: bytes, pos: nat)
    requires pos <= |s| && ParseItems(s, pos).Done?
    ensures var r := ParseItems(s, pos); SpellsItems(s[pos..r.next], r.value)
    decreases |s| - pos, 1
  {
    if s[pos] == CH_E {
      assert s[pos..pos + 1] == [CH_E];
    } else {
      var first := ParseValue(s, pos);
      ReadSpells(s, pos);
      ReadItemsSpell(s, first.next);
      ItemsJoin(s, pos, first.value, first.next, ParseItems(s, first.next).value, ParseItems(s, first.next).next);
    }
  }

  lemma ItemsJoin(s: bytes, pos: nat, v: Value, mid: nat, rest: seq<Value>, end: nat)
    requires pos < mid < end <= |s| && Spells(s[pos..mid], v) && SpellsItems(s[mid..end], rest)
    ensures SpellsItems(s[pos..end], [v] + rest)
  {
    Cut(s, pos, end, mid - pos);
    assert ([v] + rest)[0] == v && ([v] + rest)[1..] == rest;
  }

  lemma {:induction false} ReadPairsSpell(s: bytes, pos: nat)
    requires pos <= |s| && ParsePairs(s, pos).Done?
    ensures var r := ParsePairs(s, pos); SpellsPairs(s[pos..r.next], r.value)
    decreases |s| - pos, 1
  {
    if s[pos] == CH_E {
      assert s[pos..pos + 1] == [CH_E];
    } else {
      var key := ParseText(s, pos);
      var first := ParseValue(s, key.next);
      TextSpells(s, pos);
      ReadSpells(s, key.next);
      ReadPairsSpell(s, first.next);
      PairJoin(s, pos, Entry(key.value, first.value), key.next, first.next);
      var rest := ParsePairs(s, first.next);
      PairsJoin(s, pos, Entry(key.value, first.value), first.next, rest.value, rest.next);
    }
  }

  lemma PairJoin(s: bytes, pos: nat, pair: Entry, at: nat, mid: nat)
    requires pos < at < mid <= |s| && SpellsText(s[pos..at], pair.key) && Spells(s[at..mid], pair.value)
    ensures SpellsPair(s[pos..mid], pair)
  {
    Cut(s, pos, mid, at - pos);
  }

  lemma PairsJoin(s: bytes, pos: nat, pair: Entry, mid: nat, rest: seq<Entry>, end: nat)
    requires pos < mid < end <= |s| && SpellsPair(s[pos..mid], pair) && SpellsPairs(s[mid..end], rest)
    ensures SpellsPairs(s[pos..end], [pair] + rest)
  {
    Cut(s, pos, end, mid - pos);
    assert ([pair] + rest)[0] == pair && ([pair] + rest)[1..] == rest;
  }

  // ----- what is spelled is read

  /** A scan from the start of digits stops at the delimiter behind them. */
  lemma ScanPast(s: bytes, pos: nat, end: nat, c: byte)
    requires pos <= end < |s| && s[end] == c && !IsDigit(c) && c != MINUS
    requires forall i :: pos <= i < end ==> IsDigit(s[i]) || s[i] == MINUS
    ensures ScanTo(s, pos, c) == end
  {
    ScanToFinds(s, pos, end, c);
  }

  lemma IntegerCharacters(t: bytes, n: int)
    requires SpellsInteger(t, n)
    ensures forall i :: 0 <= i < |t| ==> IsDigit(t[i]) || t[i] == MINUS
  {
    if n >= 0 && SpellsNumber(t, n) {
      NumberIffDigits(t, n);
    } else {
      NumberIffDigits(t[1..], -n);
      forall i | 0 < i < |t| ensures IsDigit(t[i]) {
        assert t[i] == t[1..][i - 1];
      }
    }
  }

  lemma SpelledInteger(s: bytes, pos: nat, next: nat, n: int)
    requires pos <= next <= |s| && SpellsToken(s[pos..next], n)
    ensures pos < |s| && s[pos] == CH_I && ParseInteger(s, pos) == Done(n, next)
  {
    var end := next - 1;
    TokenCut(s, pos, end, n);
    TokenScanned(s, pos + 1, end, s[pos + 1..end], n);
    IntegerIffSpelled(s[pos + 1..end], n);
    TokenRead(s, pos, end, n);
  }

  lemma TokenRead(s: bytes, pos: nat, end: nat, n: int)
    requires pos < end < |s| && ScanTo(s, pos + 1, CH_E) == end && FromCharsInt64(s[pos + 1..end]) == Some(n)
    ensures ParseInteger(s, pos) == Done(n, end + 1)
  {
  }

  lemma TokenScanned(s: bytes, pos: nat, end: nat, token: bytes, n: int)
    requires pos <= end < |s| && s[end] == CH_E && token == s[pos..end] && SpellsInteger(token, n)
    ensures ScanTo(s, pos, CH_E) == end
  {
    IntegerCharacters(token, n);
    forall i | pos <= i < end ensures IsDigit(s[i]) || s[i] == MINUS {
      assert s[i] == token[i - pos];
    }
    ScanPast(s, pos, end, CH_E);
  }

  lemma SpelledText(s: bytes, pos: nat, next: nat, x: bytes)
    requires pos <= next <= |s| && SpellsText(s[pos..next], x)
    ensures ParseText(s, pos) == Done(x, next) && pos < |s| && IsDigit(s[pos])
  {
    var t := s[pos..next];
    var c: nat :| HeaderAt(t, c, |x|) && x == t[c + 1..];
    var colon := pos + c;
    Cut(s, pos, next, c);
    Cut(s, pos, next, c + 1);
    SizeIffSpelled(t[..c], |x|);
    forall i | pos <= i < colon ensures IsDigit(s[i]) {
      assert s[i] == t[..c][i - pos];
    }
    ScanPast(s, pos, colon, COLON);
  }

  lemma NotTheEnd(s: bytes, pos: nat)
    requires pos <= |s| && ParseValue(s, pos).Done?
    ensures pos < |s| && s[pos] != CH_E
  {
  }

  lemma {:induction false} SpelledRead(s: bytes, pos: nat, next: nat, v: Value)
    requires pos <= next <= |s| && Spells(s[pos..next], v)
    ensures ParseValue(s, pos) == Done(v, next)
    decreases next - pos, 0
  {
    var t := s[pos..next];
    match v
    case Integer(n) => SpelledInteger(s, pos, next, n);
    case Text(x) => SpelledText(s, pos, next, x);
    case List(items) =>
      assert s[pos] == t[0] && t[1..] == s[pos + 1..next];
      SpelledItemsRead(s, pos + 1, next, items);
    case Dictionary(entries) =>
      var pairs :| SpellsPairs(t[1..], pairs) && entries == Bencode.Build(pairs);
      assert s[pos] == t[0] && t[1..] == s[pos + 1..next];
      SpelledPairsRead(s, pos + 1, next, pairs);
  }

  lemma {:induction false} SpelledItemsRead(s: bytes, pos: nat, next: nat, items: seq<Value>)
    requires pos <= next <= |s| && SpellsItems(s[pos..next], items)
    ensures ParseItems(s, pos) == Done(items, next)
    decreases next - pos, 1
  {
    var t := s[pos..next];
    if items == [] {
      assert s[pos] == t[0] == CH_E;
    } else {
      var mid := ItemsCut(s, pos, next, items);
      SpelledRead(s, pos, mid, items[0]);
      NotTheEnd(s, pos);
      SpelledItemsRead(s, mid, next, items[1..]);
      ItemsStep(s, pos, items, mid, next);
    }
  }

  lemma ItemsCut(s: bytes, pos: nat, next: nat, items: seq<Value>) returns (mid: nat)
    requires pos <= next <= |s| && SpellsItems(s[pos..next], items) && items != []
    ensures pos < mid < next && Spells(s[pos..mid], items[0]) && SpellsItems(s[mid..next], items[1..])
  {
    var t := s[pos..next];
    var k :| 0 < k < |t| && Spells(t[..k], items[0]) && SpellsItems(t[k..], items[1..]);
    mid := pos + k;
    Cut(s, pos, next, k);
  }

  lemma {:induction false} SpelledPairsRead(s: bytes, pos: nat, next: nat, pairs: seq<Entry>)
    requires pos <= next <= |s| && SpellsPairs(s[pos..next], pairs)
    ensures ParsePairs(s, pos) == Done(pairs, next)
    decreases next - pos, 1
  {
    var t := s[pos..next];
    if pairs == [] {
      assert s[pos] == t[0] == CH_E;
    } else {
      var k :| 0 < k < |t| && SpellsPair(t[..k], pairs[0]) && SpellsPairs(t[k..], pairs[1..]);
      var mid := pos + k;
      Cut(s, pos, next, k);
      var at := SpelledPairRead(s, pos, mid, pairs[0]);
      SpelledPairsRead(s, mid, next, pairs[1..]);
      PairsStep(s, pos, pairs, at, mid, next);
    }
  }

  lemma {:induction false} SpelledPairRead(s: bytes, pos: nat, mid: nat, pair: Entry) returns (at: nat)
    requires pos < mid <= |s| && SpellsPair(s[pos..mid], pair)
    ensures pos < at <= |s| && s[pos] != CH_E
    ensures ParseText(s, pos) == Done(pair.key, at) && ParseValue(s, at) == Done(pair.value, mid)
    decreases mid - pos, 1
  {
    at := PairCut(s, pos, mid, pair);
    SpelledText(s, pos, at, pair.key);
    SpelledRead(s, at, mid, pair.value);
  }

  lemma PairCut(s: bytes, pos: nat, mid: nat, pair: Entry) returns (at: nat)
    requires pos < mid <= |s| && SpellsPair(s[pos..mid], pair)
    ensures pos < at < mid && SpellsText(s[pos..at], pair.key) && Spells(s[at..mid], pair.value)
  {
    var j := PairSplit(s[pos..mid], pair);
    at := pos + j;
    Cut(s, pos, mid, j);
  }

  lemma PairSplit(t: bytes, pair: Entry) returns (j: nat)
    requires SpellsPair(t, pair)
    ensures 0 < j < |t| && SpellsText(t[..j], pair.key) && Spells(t[j..], pair.value)
  {
    j :| 0 < j < |t| && SpellsText(t[..j], pair.key) && Spells(t[j..], pair.value);
  }

  // ----- the accepted language

  /** At every position of every input the parser reads exactly the texts that spell a value. */
  lemma ReadIffSpelled(s: bytes, pos: nat, v: Value, next: nat)
    requires pos <= |s|
    ensures ParseValue(s, pos) == Done(v, next) <==> pos <= next <= |s| && Spells(s[pos..next], v)
  {
    if ParseValue(s, pos) == Done(v, next) {
      ReadSpells(s, pos);
    }
    if pos <= next <= |s| && Spells(s[pos..next], v) {
      SpelledRead(s, pos, next, v);
    }
  }

  /** A whole input is accepted as `v` exactly if it spells `v`, and rejected exactly if it spells no
      value; so it spells at most one. The bytes behind a value are what is wrong exactly if a proper
      prefix of the input spells one. */
  lemma AcceptedIffSpelled(s: bytes)
    ensures forall v :: Parse(s) == Ok(v) <==> Spells(s, v)
    ensures Parse(s).Err? <==> forall v :: !Spells(s, v)
    ensures Parse(s) == Err(TrailingBytes) <==> exists k, v :: 0 <= k < |s| && Spells(s[..k], v)
  {
    assert s[0..|s|] == s;
    forall v ensures Parse(s) == Ok(v) <==> Spells(s, v) {
      ReadIffSpelled(s, 0, v, |s|);
    }
    forall k, v | 0 <= k < |s| && Spells(s[..k], v) ensures Parse(s) == Err(TrailingBytes) {
      assert s[0..k] == s[..k];
      ReadIffSpelled(s, 0, v, k);
    }
    if Parse(s) == Err(TrailingBytes) {
      TrailingSpelled(s);
    }
  }

  /** No value fails for what comes behind it. */
  lemma {:induction false} NoTrailing(s: bytes, pos: nat)
    requires pos <= |s|
    ensures ParseValue(s, pos) != Fail(TrailingBytes)
    decreases |s| - pos, 0
  {
    if pos < |s| && s[pos] == CH_L {
      NoTrailingItems(s, pos + 1);
    } else if pos < |s| && s[pos] == CH_D {
      NoTrailingPairs(s, pos + 1);
    }
  }

  lemma {:induction false} NoTrailingItems(s: bytes, pos: nat)
    requires pos <= |s|
    ensures ParseItems(s, pos) != Fail(TrailingBytes)
    decreases |s| - pos, 1
  {
    NoTrailing(s, pos);
    if ParseValue(s, pos).Done? {
      NoTrailingItems(s, ParseValue(s, pos).next);
    }
  }

  lemma {:induction false} NoTrailingPairs(s: bytes, pos: nat)
    requires pos <= |s|
    ensures ParsePairs(s, pos) != Fail(TrailingBytes)
    decreases |s| - pos, 1
  {
    if ParseText(s, pos).Done? {
      var at := ParseText(s, pos).next;
      NoTrailing(s, at);
      if ParseValue(s, at).Done? {
        NoTrailingPairs(s, ParseValue(s, at).next);
      }
    }
  }

  lemma TrailingSpelled(s: bytes)
    requires Parse(s) == Err(TrailingBytes)
    ensures exists k, v :: 0 <= k < |s| && Spells(s[..k], v)
  {
    NoTrailing(s, 0);
    var r := ParseValue(s, 0);
    ReadSpells(s, 0);
    assert s[0..r.next] == s[..r.next];
  }

  // ----- the reasons of rejection

  ghost predicate FirstAt(t: bytes, c: byte, i: nat) { i < |t| && t[i] == c && c !in t[..i] }

  /** What is wrong with an integer, `t` being what follows its `i`. */
  ghost predicate TokenFails(t: bytes, e: ParseError) {
    if CH_E !in t then e == UnterminatedInteger
    else e == InvalidInteger && exists end: nat :: FirstAt(t, CH_E, end) && NoInteger(t[..end])
  }

  /** What is wrong with a string. */
  ghost predicate TextFails(t: bytes, e: ParseError) {
    if COLON !in t then e == InvalidLengthHeader
    else exists colon: nat :: FirstAt(t, COLON, colon) && HeaderFails(t[..colon], |t| - colon - 1, e)
  }

  /** The header is no 64-bit number, or one that asks for more than there is. */
  ghost predicate HeaderFails(header: bytes, rest: int, e: ParseError) {
    if NoSize(header) then e == InvalidLength
    else e == StringExceedsInput && exists length: nat :: SpellsNumber(header, length) && rest < length
  }

  ghost predicate NoInteger(t: bytes) { forall n :: !SpellsInteger(t, n) }

  ghost predicate NoSize(t: bytes) { forall n: nat :: SpellsNumber(t, n) ==> n >= TWO_64 }

  /** What is wrong at the start of `t`, or in what follows it. */
  ghost predicate Fails(t: bytes, e: ParseError)
    decreases |t|, 0
  {
    if t == [] then e == UnexpectedEnd
    else if t[0] == CH_I then TokenFails(t[1..], e)
    else if t[0] == CH_L then ItemsFail(t[1..], e)
    else if t[0] == CH_D then PairsFail(t[1..], e)
    else if IsDigit(t[0]) then TextFails(t, e)
    else e == InvalidToken
  }

  ghost predicate ItemsFail(t: bytes, e: ParseError)
    decreases |t|, 2
  {
    if t == [] then e == UnterminatedList
    else t[0] != CH_E && (Fails(t, e) || LaterItemsFail(t, e))
  }

  ghost predicate LaterItemsFail(t: bytes, e: ParseError)
    decreases |t|, 1
  {
    exists k, v :: 0 < k <= |t| && Spells(t[..k], v) && ItemsFail(t[k..], e)
  }

  ghost predicate PairsFail(t: bytes, e: ParseError)
    decreases |t|, 3
  {
    if t == [] then e == UnterminatedDictionary
    else t[0] != CH_E && (TextFails(t, e) || ValuesFail(t, e))
  }

  ghost predicate ValuesFail(t: bytes, e: ParseError)
    decreases |t|, 1
  {
    exists j, key :: 0 < j <= |t| && SpellsText(t[..j], key) && ValueFails(t[j..], e)
  }

  /** The value behind a key, or what follows that. */
  ghost predicate ValueFails(t: bytes, e: ParseError)
    decreases |t|, 2
  {
    Fails(t, e) || LaterPairsFail(t, e)
  }

  ghost predicate LaterPairsFail(t: bytes, e: ParseError)
    decreases |t|, 1
  {
    exists k, v :: 0 < k <= |t| && Spells(t[..k], v) && PairsFail(t[k..], e)
  }

  lemma ScanIsFirst(s: bytes, pos: nat, c: byte)
    requires pos <= |s|
    ensures var i := ScanTo(s, pos, c);
            if i == |s| then c !in s[pos..] else c in s[pos..] && forall k: nat :: FirstAt(s[pos..], c, k) <==> k == i - pos
  {
    var i, t := ScanTo(s, pos, c), s[pos..];
    assert t[..i - pos] == s[pos..i];
    if i < |s| {
      assert t[i - pos] == c && FirstAt(t, c, i - pos);
      forall k: nat | FirstAt(t, c, k) ensures k == i - pos {
        OneFirst(t, c, k, i - pos);
      }
    }
  }

  lemma OneFirst(t: bytes, c: byte, i: nat, j: nat)
    requires FirstAt(t, c, i) && FirstAt(t, c, j)
    ensures i == j
  {
  }

  lemma NumberUnique(t: bytes, m: nat, n: nat)
    requires SpellsNumber(t, m) && SpellsNumber(t, n)
    ensures m == n
  {
    NumberIffDigits(t, m);
    NumberIffDigits(t, n);
  }

  lemma SizeFails(t: bytes)
    ensures FromCharsSize(t).None? <==> NoSize(t)
  {
    forall n: nat ensures FromCharsSize(t) == Some(n) <==> SpellsNumber(t, n) && n < TWO_64 {
      SizeIffSpelled(t, n);
    }
    if FromCharsSize(t).Some? {
      assert SpellsNumber(t, FromCharsSize(t).value);
    }
  }

  lemma NoIntegerIff(t: bytes)
    ensures FromCharsInt64(t).None? <==> NoInteger(t)
  {
    forall n ensures FromCharsInt64(t) == Some(n) <==> SpellsInteger(t, n) {
      IntegerIffSpelled(t, n);
    }
    if FromCharsInt64(t).Some? {
      assert SpellsInteger(t, FromCharsInt64(t).value);
    }
  }

  lemma IntegerFailsIff(s: bytes, pos: nat, e: ParseError)
    requires pos < |s|
    ensures ParseInteger(s, pos) == Fail(e) <==> TokenFails(s[pos + 1..], e)
  {
    var end := ScanTo(s, pos + 1, CH_E);
    ScanIsFirst(s, pos + 1, CH_E);
    if end < |s| {
      Suffix(s, pos + 1, end - pos - 1);
      TokenFailsIff(s[pos + 1..], end - pos - 1, s[pos + 1..end], e);
    }
  }

  lemma TokenFailsIff(t: bytes, end: nat, token: bytes, e: ParseError)
    requires FirstAt(t, CH_E, end) && token == t[..end]
    ensures TokenFails(t, e) <==> FromCharsInt64(token).None? && e == InvalidInteger
  {
    NoIntegerIff(token);
    forall k: nat | FirstAt(t, CH_E, k) ensures k == end {
      OneFirst(t, CH_E, k, end);
    }
  }

  lemma TextFailsIff(s: bytes, pos: nat, e: ParseError)
    requires pos <= |s|
    ensures ParseText(s, pos) == Fail(e) <==> TextFails(s[pos..], e)
  {
    var colon, t := ScanTo(s, pos, COLON), s[pos..];
    ScanIsFirst(s, pos, COLON);
    if colon < |s| {
      var header := s[pos..colon];
      assert t[..colon - pos] == header && FirstAt(t, COLON, colon - pos);
      HeaderFailsIff(header, |s| - colon - 1, e);
    }
  }

  lemma HeaderFailsIff(header: bytes, rest: int, e: ParseError)
    ensures HeaderFails(header, rest, e) <==>
              match FromCharsSize(header)
              case None => e == InvalidLength
              case Some(length) => e == StringExceedsInput && length > rest
  {
    SizeFails(header);
    if FromCharsSize(header).Some? {
      var length := FromCharsSize(header).value;
      SizeIffSpelled(header, length);
      forall n: nat | SpellsNumber(header, n) ensures n == length {
        NumberUnique(header, n, length);
      }
    }
  }

  lemma {:induction false} FailsIff(s: bytes, pos: nat, e: ParseError)
    requires pos <= |s|
    ensures ParseValue(s, pos) == Fail(e) <==> Fails(s[pos..], e)
    decreases |s| - pos, 0
  {
    var t := s[pos..];
    if pos < |s| {
      assert t[0] == s[pos] && t[1..] == s[pos + 1..];
      if s[pos] == CH_I {
        IntegerFailsIff(s, pos, e);
      } else if s[pos] == CH_L {
        ItemsFailIff(s, pos + 1, e);
      } else if s[pos] == CH_D {
        PairsFailIff(s, pos + 1, e);
      } else {
        TextFailsIff(s, pos, e);
      }
    }
  }

  lemma Suffix(s: bytes, pos: nat, k: nat)
    requires pos + k <= |s|
    ensures s[pos..][..k] == s[pos..pos + k] && s[pos..][k..] == s[pos + k..]
  {
  }

  /** What follows a value fails for the text as it fails for the parser behind the value. */
  lemma LaterItems(s: bytes, pos: nat, e: ParseError, r: Parsed<Value>)
    requires pos <= |s| && r == ParseValue(s, pos)
    requires r.Done? ==> (ParseItems(s, r.next) == Fail(e) <==> ItemsFail(s[r.next..], e))
    ensures LaterItemsFail(s[pos..], e) <==> r.Done? && ParseItems(s, r.next) == Fail(e)
  {
    if r.Done? && ItemsFail(s[r.next..], e) {
      PutItems(s, pos, e, r.value, r.next);
    }
    if LaterItemsFail(s[pos..], e) {
      var next := GetItems(s, pos, e);
    }
  }

  lemma ReadHere(s: bytes, pos: nat, v: Value, next: nat) returns (t: bytes, k: nat)
    requires pos <= |s| && ParseValue(s, pos) == Done(v, next)
    ensures next <= |s| && t == s[pos..] && 0 < k <= |t| && Spells(t[..k], v) && t[k..] == s[next..]
  {
    t, k := s[pos..], next - pos;
    ReadSpells(s, pos);
    Suffix(s, pos, k);
  }

  lemma SpelledHere(s: bytes, pos: nat, k: nat, v: Value)
    requires pos + k <= |s| && Spells(s[pos..][..k], v)
    ensures ParseValue(s, pos) == Done(v, pos + k)
  {
    Suffix(s, pos, k);
    SpelledRead(s, pos, pos + k, v);
  }

  lemma PutItems(s: bytes, pos: nat, e: ParseError, v: Value, next: nat)
    requires pos <= |s| && ParseValue(s, pos) == Done(v, next) && ItemsFail(s[next..], e)
    ensures LaterItemsFail(s[pos..], e)
  {
    var t, k := ReadHere(s, pos, v, next);
    PutItemsBehind(t, k, v, e);
  }

  lemma PutItemsBehind(t: bytes, k: nat, v: Value, e: ParseError)
    requires 0 < k <= |t| && Spells(t[..k], v) && ItemsFail(t[k..], e)
    ensures LaterItemsFail(t, e)
  {
  }

  lemma GetItems(s: bytes, pos: nat, e: ParseError) returns (next: nat)
    requires pos <= |s| && LaterItemsFail(s[pos..], e)
    ensures pos < next <= |s| && ParseValue(s, pos).Done? && next == ParseValue(s, pos).next && ItemsFail(s[next..], e)
  {
    var k, v := ItemsSplit(s[pos..], e);
    SpelledHere(s, pos, k, v);
    next := pos + k;
    assert s[pos..][k..] == s[next..];
  }

  lemma ItemsSplit(t: bytes, e: ParseError) returns (k: nat, v: Value)
    requires LaterItemsFail(t, e)
    ensures 0 < k <= |t| && Spells(t[..k], v) && ItemsFail(t[k..], e)
  {
    k, v :| 0 < k <= |t| && Spells(t[..k], v) && ItemsFail(t[k..], e);
  }

  lemma LaterPairs(s: bytes, pos: nat, e: ParseError, r: Parsed<Value>)
    requires pos <= |s| && r == ParseValue(s, pos)
    requires r.Done? ==> (ParsePairs(s, r.next) == Fail(e) <==> PairsFail(s[r.next..], e))
    ensures LaterPairsFail(s[pos..], e) <==> r.Done? && ParsePairs(s, r.next) == Fail(e)
  {
    if r.Done? && PairsFail(s[r.next..], e) {
      PutPairs(s, pos, e, r.value, r.next);
    }
    if LaterPairsFail(s[pos..], e) {
      var next := GetPairs(s, pos, e);
    }
  }

  lemma PutPairs(s: bytes, pos: nat, e: ParseError, v: Value, next: nat)
    requires pos <= |s| && ParseValue(s, pos) == Done(v, next) && PairsFail(s[next..], e)
    ensures LaterPairsFail(s[pos..], e)
  {
    var t, k := ReadHere(s, pos, v, next);
    PutPairsBehind(t, k, v, e);
  }

  lemma PutPairsBehind(t: bytes, k: nat, v: Value, e: ParseError)
    requires 0 < k <= |t| && Spells(t[..k], v) && PairsFail(t[k..], e)
    ensures LaterPairsFail(t, e)
  {
  }

  lemma GetPairs(s: bytes, pos: nat, e: ParseError) returns (next: nat)
    requires pos <= |s| && LaterPairsFail(s[pos..], e)
    ensures pos < next <= |s| && ParseValue(s, pos).Done? && next == ParseValue(s, pos).next && PairsFail(s[next..], e)
  {
    var k, v := PairsSplit(s[pos..], e);
    SpelledHere(s, pos, k, v);
    next := pos + k;
    assert s[pos..][k..] == s[next..];
  }

  lemma PairsSplit(t: bytes, e: ParseError) returns (k: nat, v: Value)
    requires LaterPairsFail(t, e)
    ensures 0 < k <= |t| && Spells(t[..k], v) && PairsFail(t[k..], e)
  {
    k, v :| 0 < k <= |t| && Spells(t[..k], v) && PairsFail(t[k..], e);
  }

  /** Likewise behind a key. */
  lemma Values(s: bytes, pos: nat, e: ParseError, r: Parsed<bytes>, fails: bool)
    requires pos <= |s| && r == ParseText(s, pos)
    requires r.Done? ==> (fails <==> ValueFails(s[r.next..], e))
    ensures ValuesFail(s[pos..], e) <==> r.Done? && fails
  {
    if r.Done? && ValueFails(s[r.next..], e) {
      PutValue(s, pos, e, r.value, r.next);
    }
    if ValuesFail(s[pos..], e) {
      var next := GetValue(s, pos, e);
    }
  }

  lemma PutValue(s: bytes, pos: nat, e: ParseError, key: bytes, next: nat)
    requires pos <= |s| && ParseText(s, pos) == Done(key, next) && ValueFails(s[next..], e)
    ensures ValuesFail(s[pos..], e)
  {
    TextSpells(s, pos);
    Suffix(s, pos, next - pos);
  }

  lemma GetValue(s: bytes, pos: nat, e: ParseError) returns (next: nat)
    requires pos <= |s| && ValuesFail(s[pos..], e)
    ensures pos < next <= |s| && ParseText(s, pos).Done? && next == ParseText(s, pos).next && ValueFails(s[next..], e)
  {
    var t := s[pos..];
    var j, key :| 0 < j <= |t| && SpellsText(t[..j], key) && ValueFails(t[j..], e);
    Suffix(s, pos, j);
    SpelledText(s, pos, pos + j, key);
    next := pos + j;
  }

  lemma {:induction false} ItemsFailIff(s: bytes, pos: nat, e: ParseError)
    requires pos <= |s|
    ensures ParseItems(s, pos) == Fail(e) <==> ItemsFail(s[pos..], e)
    decreases |s| - pos, 1
  {
    if pos < |s| && s[pos] != CH_E {
      var r := ParseValue(s, pos);
      FailsIff(s, pos, e);
      if r.Done? {
        ItemsFailIff(s, r.next, e);
      }
      LaterItems(s, pos, e, r);
      ItemsFailStep(s, pos, e);
    }
  }

  lemma ItemsFailStep(s: bytes, pos: nat, e: ParseError)
    requires pos < |s| && s[pos] != CH_E
    ensures ItemsFail(s[pos..], e) <==> Fails(s[pos..], e) || LaterItemsFail(s[pos..], e)
    ensures ParseItems(s, pos) == Fail(e) <==>
              var r := ParseValue(s, pos); r == Fail(e) || (r.Done? && ParseItems(s, r.next) == Fail(e))
  {
  }

  lemma {:induction false} PairsFailIff(s: bytes, pos: nat, e: ParseError)
    requires pos <= |s|
    ensures ParsePairs(s, pos) == Fail(e) <==> PairsFail(s[pos..], e)
    decreases |s| - pos, 1
  {
    if pos < |s| && s[pos] != CH_E {
      var r := ParseText(s, pos);
      TextFailsIff(s, pos, e);
      var fails := false;
      if r.Done? {
        fails := EntryFails(s, r.next, e);
      }
      Values(s, pos, e, r, fails);
      PairsFailStep(s, pos, e);
    }
  }

  lemma PairsFailStep(s: bytes, pos: nat, e: ParseError)
    requires pos < |s| && s[pos] != CH_E
    ensures PairsFail(s[pos..], e) <==> TextFails(s[pos..], e) || ValuesFail(s[pos..], e)
    ensures ParsePairs(s, pos) == Fail(e) <==>
              var r := ParseText(s, pos); r == Fail(e) || (r.Done? && EntryFailed(s, r.next, e))
  {
  }

  ghost predicate EntryFailed(s: bytes, at: nat, e: ParseError)
    requires at <= |s|
  {
    var r := ParseValue(s, at); r == Fail(e) || (r.Done? && ParsePairs(s, r.next) == Fail(e))
  }

  lemma {:induction false} EntryFails(s: bytes, at: nat, e: ParseError) returns (fails: bool)
    requires at <= |s|
    ensures fails <==> EntryFailed(s, at, e)
    ensures fails <==> ValueFails(s[at..], e)
    decreases |s| - at, 2
  {
    var r := ParseValue(s, at);
    FailsIff(s, at, e);
    if r.Done? {
      PairsFailIff(s, r.next, e);
    }
    LaterPairs(s, at, e, r);
    fails := EntryFailed(s, at, e);
  }

  /** Every rejected input is rejected for the reason that is the first thing wrong with it, or for bytes
      behind a value; every other reason is wrong. */
  lemma RejectedIffFails(s: bytes, e: ParseError)
    requires e != TrailingBytes
    ensures Parse(s) == Err(e) <==> Fails(s, e)
  {
    assert s[0..] == s;
    FailsIff(s, 0, e);
  }
}
