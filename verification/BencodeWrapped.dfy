/** The parser with the 64-bit addition of its bound check. A header that wraps moves the position back,
    so the number of calls is bounded by `fuel`; without one it is the parser of `Bencode`. */
module BencodeWrapped {
  import opened Bytes
  import opened Machine
  import opened Decimal
  import opened Bencode
  import opened BencodeTheorems

  /** What a call returns, or that more calls are needed. */
  datatype Outcome<+T> = Unfinished | Returned(parsed: Parsed<T>)

  /** The header at `pos` is accepted, and the end of its string is 2^64 or more. */
  predicate Wraps(s: bytes, pos: nat)
    requires pos <= |s|
  {
    var colon := ScanTo(s, pos, COLON);
    colon < |s| && FromCharsSize(s[pos..colon]).Some? && colon + 1 + FromCharsSize(s[pos..colon]).value >= TWO_64
  }

  /** `substr` takes what there is. */
  function WrappedText(s: bytes, pos: nat): (r: Parsed<bytes>)
    requires pos <= |s|
    ensures r.Done? ==> r.next <= |s|
  {
    var colon := ScanTo(s, pos, COLON);
    if colon == |s| then Fail(InvalidLengthHeader)
    else
      match FromCharsSize(s[pos..colon])
      case None => Fail(InvalidLength)
      case Some(length) =>
        var next := Add64(colon + 1, length);
        if next > |s| then Fail(StringExceedsInput)
        else Done(s[colon + 1..Min(colon + 1 + length, |s|)], next)
  }

  function WrappedValue(s: bytes, pos: nat, fuel: nat): (r: Outcome<Value>)
    requires pos <= |s|
    ensures r.Returned? && r.parsed.Done? ==> r.parsed.next <= |s|
    decreases fuel
  {
    if fuel == 0 then Unfinished
    else if pos == |s| then Returned(Fail(UnexpectedEnd))
    else if s[pos] == CH_I then
      match ParseInteger(s, pos)
      case Fail(e) => Returned(Fail(e))
      case Done(n, next) => Returned(Done(Integer(n), next))
    else if s[pos] == CH_L then
      match WrappedItems(s, pos + 1, fuel - 1)
      case Unfinished => Unfinished
      case Returned(Fail(e)) => Returned(Fail(e))
      case Returned(Done(items, next)) => Returned(Done(List(items), next))
    else if s[pos] == CH_D then
      match WrappedPairs(s, pos + 1, fuel - 1)
      case Unfinished => Unfinished
      case Returned(Fail(e)) => Returned(Fail(e))
      case Returned(Done(pairs, next)) => Returned(Done(Dictionary(Bencode.Build(pairs)), next))
    else if IsDigit(s[pos]) then
      match WrappedText(s, pos)
      case Fail(e) => Returned(Fail(e))
      case Done(t, next) => Returned(Done(Text(t), next))
    else Returned(Fail(InvalidToken))
  }

  function WrappedItems(s: bytes, pos: nat, fuel: nat): (r: Outcome<seq<Value>>)
    requires pos <= |s|
    ensures r.Returned? && r.parsed.Done? ==> r.parsed.next <= |s|
    decreases fuel
  {
    if fuel == 0 then Unfinished
    else if pos == |s| then Returned(Fail(UnterminatedList))
    else if s[pos] == CH_E then Returned(Done([], pos + 1))
    else
      match WrappedValue(s, pos, fuel - 1)
      case Unfinished => Unfinished
      case Returned(Fail(e)) => Returned(Fail(e))
      case Returned(Done(v, next)) =>
        match WrappedItems(s, next, fuel - 1)
        case Unfinished => Unfinished
        case Returned(Fail(e)) => Returned(Fail(e))
        case Returned(Done(rest, end)) => Returned(Done([v] + rest, end))
  }

  function WrappedPairs(s: bytes, pos: nat, fuel: nat): (r: Outcome<seq<Entry>>)
    requires pos <= |s|
    ensures r.Returned? && r.parsed.Done? ==> r.parsed.next <= |s|
    decreases fuel
  {
    if fuel == 0 then Unfinished
    else if pos == |s| then Returned(Fail(UnterminatedDictionary))
    else if s[pos] == CH_E then Returned(Done([], pos + 1))
    else
      match WrappedText(s, pos)
      case Fail(e) => Returned(Fail(e))
      case Done(key, at) =>
        match WrappedValue(s, at, fuel - 1)
        case Unfinished => Unfinished
        case Returned(Fail(e)) => Returned(Fail(e))
        case Returned(Done(v, next)) =>
          match WrappedPairs(s, next, fuel - 1)
          case Unfinished => Unfinished
          case Returned(Fail(e)) => Returned(Fail(e))
          case Returned(Done(rest, end)) => Returned(Done([Entry(key, v)] + rest, end))
  }

  /** The whole input, in at most `fuel` nested or repeated calls. */
  function WrappedParse(s: bytes, fuel: nat): Option<Result<Value, ParseError>> {
    match WrappedValue(s, 0, fuel)
    case Unfinished => None
    case Returned(Fail(e)) => Some(Err(e))
    case Returned(Done(v, next)) => Some(if next < |s| then Err(TrailingBytes) else Ok(v))
  }

  // ----- one string

  /** One string is read as over the natural numbers exactly when its header does not wrap; otherwise it
      is taken for the rest of the input, and the position moves back to before its first byte. */
  lemma TextAgreesIff(s: bytes, pos: nat)
    requires pos <= |s| < TWO_64
    ensures WrappedText(s, pos) == ParseText(s, pos) <==> !Wraps(s, pos)
    ensures Wraps(s, pos) ==>
              && ParseText(s, pos) == Fail(StringExceedsInput) && WrappedText(s, pos).Done?
              && WrappedText(s, pos).value == s[ScanTo(s, pos, COLON) + 1..]
              && WrappedText(s, pos).next <= ScanTo(s, pos, COLON)
  {
    var colon := ScanTo(s, pos, COLON);
    if colon < |s| && FromCharsSize(s[pos..colon]).Some? {
      var length := FromCharsSize(s[pos..colon]).value;
      BoundCheckIff(colon + 1, length, |s|);
      if !Wraps(s, pos) {
        Add64Exact(colon + 1, length);
      }
    }
  }

  // ----- the headers a parse reads

  /** A header read by the parse from `pos` on wraps. */
  predicate ValueWraps(s: bytes, pos: nat)
    requires pos <= |s|
    decreases |s| - pos, 0
  {
    pos < |s| &&
    if s[pos] == CH_L then ItemsWrap(s, pos + 1)
    else if s[pos] == CH_D then PairsWrap(s, pos + 1)
    else IsDigit(s[pos]) && Wraps(s, pos)
  }

  predicate ItemsWrap(s: bytes, pos: nat)
    requires pos <= |s|
    decreases |s| - pos, 1
  {
    pos < |s| && s[pos] != CH_E &&
    (ValueWraps(s, pos) || (ParseValue(s, pos).Done? && ItemsWrap(s, ParseValue(s, pos).next)))
  }

  predicate PairsWrap(s: bytes, pos: nat)
    requires pos <= |s|
    decreases |s| - pos, 1
  {
    pos < |s| && s[pos] != CH_E &&
    (Wraps(s, pos) ||
     (ParseText(s, pos).Done? &&
      var at := ParseText(s, pos).next;
      ValueWraps(s, at) || (ParseValue(s, at).Done? && PairsWrap(s, ParseValue(s, at).next))))
  }

  /** Where a header that is read wraps, the parse over the natural numbers ends at it. */
  lemma {:induction false} WrapExceeds(s: bytes, pos: nat)
    requires pos <= |s| < TWO_64 && ValueWraps(s, pos)
    ensures ParseValue(s, pos) == Fail(StringExceedsInput)
    decreases |s| - pos, 0
  {
    if s[pos] == CH_L {
      ItemsExceed(s, pos + 1);
    } else if s[pos] == CH_D {
      PairsExceed(s, pos + 1);
    } else {
      TextAgreesIff(s, pos);
    }
  }

  lemma {:induction false} ItemsExceed(s: bytes, pos: nat)
    requires pos <= |s| < TWO_64 && ItemsWrap(s, pos)
    ensures ParseItems(s, pos) == Fail(StringExceedsInput)
    decreases |s| - pos, 1
  {
    if ValueWraps(s, pos) {
      WrapExceeds(s, pos);
    } else {
      ItemsExceed(s, ParseValue(s, pos).next);
    }
  }

  lemma {:induction false} PairsExceed(s: bytes, pos: nat)
    requires pos <= |s| < TWO_64 && PairsWrap(s, pos)
    ensures ParsePairs(s, pos) == Fail(StringExceedsInput)
    decreases |s| - pos, 1
  {
    TextAgreesIff(s, pos);
    if !Wraps(s, pos) {
      var at := ParseText(s, pos).next;
      if ValueWraps(s, at) {
        WrapExceeds(s, at);
      } else {
        PairsExceed(s, ParseValue(s, at).next);
      }
    }
  }

  // ----- agreement

  /** Two outcomes of the same call. */
  ghost predicate SameValue(s: bytes, pos: nat, fuel: nat)
    requires pos <= |s|
  {
    WrappedValue(s, pos, fuel) == Returned(ParseValue(s, pos))
  }

  ghost predicate SameItems(s: bytes, pos: nat, fuel: nat)
    requires pos <= |s|
  {
    WrappedItems(s, pos, fuel) == Returned(ParseItems(s, pos))
  }

  ghost predicate SamePairs(s: bytes, pos: nat, fuel: nat)
    requires pos <= |s|
  {
    WrappedPairs(s, pos, fuel) == Returned(ParsePairs(s, pos))
  }

  lemma ValueStep(s: bytes, pos: nat, fuel: nat)
    requires pos <= |s| && fuel > 0
    requires pos < |s| && s[pos] == CH_L ==> SameItems(s, pos + 1, fuel - 1)
    requires pos < |s| && s[pos] == CH_D ==> SamePairs(s, pos + 1, fuel - 1)
    requires pos < |s| && IsDigit(s[pos]) ==> WrappedText(s, pos) == ParseText(s, pos)
    ensures SameValue(s, pos, fuel)
  {
  }

  lemma ItemsEnd(s: bytes, pos: nat, fuel: nat)
    requires pos <= |s| && fuel > 0 && (pos < |s| ==> s[pos] == CH_E)
    ensures SameItems(s, pos, fuel)
  {
  }

  lemma ItemsStep(s: bytes, pos: nat, fuel: nat, v: Parsed<Value>)
    requires pos < |s| && s[pos] != CH_E && fuel > 0 && v == ParseValue(s, pos) && SameValue(s, pos, fuel - 1)
    requires v.Done? ==> SameItems(s, v.next, fuel - 1)
    ensures SameItems(s, pos, fuel)
  {
  }

  lemma PairsEnd(s: bytes, pos: nat, fuel: nat)
    requires pos <= |s| && fuel > 0
    requires pos < |s| && s[pos] != CH_E ==> ParseText(s, pos).Fail? && WrappedText(s, pos) == ParseText(s, pos)
    ensures SamePairs(s, pos, fuel)
  {
  }

  lemma PairsStep(s: bytes, pos: nat, fuel: nat, at: nat, v: Parsed<Value>)
    requires pos < |s| && s[pos] != CH_E && fuel > 0
    requires ParseText(s, pos).Done? && WrappedText(s, pos) == ParseText(s, pos) && at == ParseText(s, pos).next
    requires v == ParseValue(s, at) && SameValue(s, at, fuel - 1)
    requires v.Done? ==> SamePairs(s, v.next, fuel - 1)
    ensures SamePairs(s, pos, fuel)
  {
  }

  lemma {:induction false} ValueAgrees(s: bytes, pos: nat, fuel: nat)
    requires pos <= |s| < TWO_64 && !ValueWraps(s, pos) && fuel >= 2 * (|s| - pos) + 1
    ensures SameValue(s, pos, fuel)
    decreases |s| - pos, 1
  {
    if pos < |s| {
      NestedAgrees(s, pos, fuel - 1);
    }
    ValueStep(s, pos, fuel);
  }

  /** What a value is read from. */
  lemma {:induction false} NestedAgrees(s: bytes, pos: nat, fuel: nat)
    requires pos < |s| < TWO_64 && !ValueWraps(s, pos) && fuel >= 2 * (|s| - pos)
    ensures s[pos] == CH_L ==> SameItems(s, pos + 1, fuel)
    ensures s[pos] == CH_D ==> SamePairs(s, pos + 1, fuel)
    ensures IsDigit(s[pos]) ==> WrappedText(s, pos) == ParseText(s, pos)
    decreases |s| - pos, 0
  {
    if s[pos] == CH_L {
      ItemsAgree(s, pos + 1, fuel);
    } else if s[pos] == CH_D {
      PairsAgree(s, pos + 1, fuel);
    } else {
      TextAgreesIff(s, pos);
    }
  }

  lemma {:induction false} ItemsAgree(s: bytes, pos: nat, fuel: nat)
    requires pos <= |s| < TWO_64 && !ItemsWrap(s, pos) && fuel >= 2 * (|s| - pos) + 2
    ensures SameItems(s, pos, fuel)
    decreases |s| - pos, 3
  {
    if pos == |s| || s[pos] == CH_E {
      ItemsEnd(s, pos, fuel);
    } else {
      RestItemsAgree(s, pos, fuel - 1, ParseValue(s, pos));
      ItemsStep(s, pos, fuel, ParseValue(s, pos));
    }
  }

  /** An item, and the items after it. */
  lemma {:induction false} RestItemsAgree(s: bytes, pos: nat, fuel: nat, v: Parsed<Value>)
    requires pos < |s| < TWO_64 && !ValueWraps(s, pos) && v == ParseValue(s, pos)
    requires v.Done? ==> !ItemsWrap(s, v.next)
    requires fuel >= 2 * (|s| - pos) + 1
    ensures SameValue(s, pos, fuel) && (v.Done? ==> SameItems(s, v.next, fuel))
    decreases |s| - pos, 2
  {
    ValueAgrees(s, pos, fuel);
    if v.Done? {
      ItemsAgree(s, v.next, fuel);
    }
  }

  lemma {:induction false} PairsAgree(s: bytes, pos: nat, fuel: nat)
    requires pos <= |s| < TWO_64 && !PairsWrap(s, pos) && fuel >= 2 * (|s| - pos) + 2
    ensures SamePairs(s, pos, fuel)
    decreases |s| - pos, 1
  {
    if pos == |s| || s[pos] == CH_E {
      PairsEnd(s, pos, fuel);
      return;
    }
    TextAgreesIff(s, pos);
    if ParseText(s, pos).Fail? {
      PairsEnd(s, pos, fuel);
    } else {
      var at := ParseText(s, pos).next;
      UnwrappedPair(s, pos, at);
      RestPairsAgree(s, pos, fuel - 1, at, ParseValue(s, at));
      PairsStep(s, pos, fuel, at, ParseValue(s, at));
    }
  }

  lemma UnwrappedPair(s: bytes, pos: nat, at: nat)
    requires pos < |s| && s[pos] != CH_E && !PairsWrap(s, pos) && ParseText(s, pos).Done? && at == ParseText(s, pos).next
    ensures !ValueWraps(s, at) && (ParseValue(s, at).Done? ==> !PairsWrap(s, ParseValue(s, at).next))
  {
  }

  /** The value of a pair, and the pairs after it. */
  lemma {:induction false} RestPairsAgree(s: bytes, pos: nat, fuel: nat, at: nat, v: Parsed<Value>)
    requires pos < at <= |s| < TWO_64 && !ValueWraps(s, at) && v == ParseValue(s, at)
    requires v.Done? ==> !PairsWrap(s, v.next)
    requires fuel >= 2 * (|s| - pos) + 1
    ensures SameValue(s, at, fuel) && (v.Done? ==> SamePairs(s, v.next, fuel))
    decreases |s| - pos, 0
  {
    ValueAgrees(s, at, fuel);
    if v.Done? {
      PairsAgree(s, v.next, fuel);
    }
  }

  /** On every input the program can hold, the parse as the code makes it ends with the result over the
      natural numbers, unless a header that is read wraps; then that result is the error that a string
      exceeds the input. So whatever is accepted over the natural numbers is accepted alike. */
  lemma ParseAgrees(s: bytes, fuel: nat)
    requires |s| < TWO_64 && fuel >= 2 * |s| + 1
    ensures !ValueWraps(s, 0) ==> WrappedParse(s, fuel) == Some(Parse(s))
    ensures ValueWraps(s, 0) ==> Parse(s) == Err(StringExceedsInput)
    ensures Parse(s) != Err(StringExceedsInput) ==> WrappedParse(s, fuel) == Some(Parse(s))
  {
    if ValueWraps(s, 0) {
      WrapExceeds(s, 0);
    } else {
      ValueAgrees(s, 0, fuel);
    }
  }

  // ----- a parse that never ends

  /** Where the end of a string is its own header, a list that reads it there never ends. */
  lemma {:induction false} ItemsNeverEnd(s: bytes, pos: nat, fuel: nat)
    requires pos < |s| && IsDigit(s[pos]) && WrappedText(s, pos).Done? && WrappedText(s, pos).next == pos
    ensures WrappedItems(s, pos, fuel) == Unfinished
    decreases fuel
  {
    if fuel > 1 {
      assert WrappedValue(s, pos, fuel - 1) == Returned(Done(Text(WrappedText(s, pos).value), pos));
      ItemsNeverEnd(s, pos, fuel - 1);
    }
  }

  function Power10(k: nat): nat {
    if k == 0 then 1 else 10 * Power10(k - 1)
  }

  lemma {:induction false} DigitsLength(n: nat, k: nat)
    requires k > 0 && (k > 1 ==> Power10(k - 1) <= n) && n < Power10(k)
    ensures |Digits(n)| == k
    decreases k
  {
    if k > 1 {
      assert Power10(k - 1) >= 10 by { PowerPositive(k - 2); }
      DigitsLength(n / 10, k - 1);
    }
  }

  lemma PowerPositive(k: nat)
    ensures Power10(k) >= 1
  {
  }

  const BACK := TWO_64 - 21

  lemma TwentyDigits()
    ensures |Digits(BACK)| == 20
  {
    assert Power10(10) == 10_000_000_000;
    assert Power10(19) == 10_000_000_000_000_000_000;
    DigitsLength(BACK, 20);
  }

  /** `l18446744073709551595:` */
  const ENDLESS: bytes := [CH_L] + (Digits(BACK) + [COLON])

  /** The 22 bytes `l18446744073709551595:` are no bencode, but the code reads the header at position 1,
      takes an empty string, goes back to position 1, and so on without end. */
  lemma EndlessList(fuel: nat)
    ensures |ENDLESS| == 22 && ValueWraps(ENDLESS, 0) && Parse(ENDLESS) == Err(StringExceedsInput)
    ensures WrappedText(ENDLESS, 1) == Done([], 1) && WrappedParse(ENDLESS, fuel) == None
  {
    TwentyDigits();
    EndlessHeader(ENDLESS);
    assert ItemsWrap(ENDLESS, 1);
    WrapExceeds(ENDLESS, 0);
    if fuel > 0 {
      ItemsNeverEnd(ENDLESS, 1, fuel - 1);
    }
  }

  lemma EndlessHeader(s: bytes)
    requires |Digits(BACK)| == 20 && s == [CH_L] + (Digits(BACK) + [COLON])
    ensures |s| == 22 && s[0] == CH_L && IsDigit(s[1]) && Wraps(s, 1) && WrappedText(s, 1) == Done([], 1)
  {
    var t := Digits(BACK);
    OccursSlice(s, 0, s);
    OccursSplit3(s, 0, [CH_L], t, [COLON]);
    ScanToDelimiter(s, 1, t, COLON);
    FromCharsSizeInverts(BACK);
    assert s[1] == t[0] && ScanTo(s, 1, COLON) == 21 && s[1..21] == t;
    assert FromCharsSize(s[1..21]) == Some(BACK) && Add64(22, BACK) == 1;
    assert s[22..22] == [];
  }

  // ----- accepted, although a string exceeds the input

  const ALMOST := TWO_64 - 2

  const TAIL: bytes := [97, 98, 99, 100, CH_E]  // "abcde"

  /** `l18446744073709551614:abcde` */
  const REREAD: bytes := [CH_L] + (Digits(ALMOST) + ([COLON] + TAIL))

  lemma AlmostDigits()
    ensures |Digits(ALMOST)| == 20 && Digits(ALMOST)[19] == ZERO + 4
  {
    assert Power10(10) == 10_000_000_000;
    assert Power10(19) == 10_000_000_000_000_000_000;
    DigitsLength(ALMOST, 20);
  }

  /** `l18446744073709551614:abcde` is no bencode, but the code accepts it as a list of two strings: the
      first is the rest of the input, and its end is the last digit of its header, read as a header again. */
  lemma ExceedingAccepted(fuel: nat)
    requires fuel >= 5
    ensures Parse(REREAD) == Err(StringExceedsInput)
    ensures WrappedParse(REREAD, fuel) == Some(Ok(List([Text(TAIL), Text(TAIL[..4])])))
  {
    AlmostDigits();
    var s := REREAD;
    RereadTwice(s);
    assert ItemsWrap(s, 1);
    WrapExceeds(s, 0);
    TwoStrings(s, 1, 20, 26, fuel - 1, TAIL, TAIL[..4]);
  }

  lemma RereadTwice(s: bytes)
    requires |Digits(ALMOST)| == 20 && Digits(ALMOST)[19] == ZERO + 4
    requires s == [CH_L] + (Digits(ALMOST) + ([COLON] + TAIL))
    ensures |s| == 27 && s[0] == CH_L && IsDigit(s[1]) && IsDigit(s[20]) && s[26] == CH_E && Wraps(s, 1)
    ensures WrappedText(s, 1) == Done(TAIL, 20) && WrappedText(s, 20) == Done(TAIL[..4], 26)
  {
    var t := Digits(ALMOST);
    assert s[21] == COLON && s[22..27] == TAIL && s[22..26] == TAIL[..4];
    assert s[1..21] == t && s[20..21] == [ZERO + 4];
    ColonAt(s, 1, t);
    ColonAt(s, 20, [ZERO + 4]);
    FromCharsSizeInverts(ALMOST);
    FromCharsSizeInverts(4);
    assert Digits(4) == [ZERO + 4];
    assert s[1] == t[0] && Add64(22, ALMOST) == 20 && Add64(22, 4) == 26;
  }

  lemma ColonAt(s: bytes, pos: nat, t: bytes)
    requires pos + |t| < |s| && s[pos..pos + |t|] == t && AllDigits(t) && s[pos + |t|] == COLON
    ensures ScanTo(s, pos, COLON) == pos + |t|
  {
    assert COLON !in t;
    OccursSlice(s, pos, t);
    OccursOne(s, pos + |t|, COLON);
    ScanToDelimiter(s, pos, t, COLON);
  }

  lemma TwoStrings(s: bytes, a: nat, b: nat, end: nat, fuel: nat, x: bytes, y: bytes)
    requires a < |s| && b < |s| && end < |s| && IsDigit(s[a]) && IsDigit(s[b]) && s[end] == CH_E && fuel >= 4
    requires WrappedText(s, a) == Done(x, b) && WrappedText(s, b) == Done(y, end)
    ensures WrappedItems(s, a, fuel) == Returned(Done([Text(x), Text(y)], end + 1))
  {
    assert [Text(y)] + [] == [Text(y)] && [Text(x)] + [Text(y)] == [Text(x), Text(y)];
    OneString(s, b, fuel - 1, y, end, [], end + 1);
    OneString(s, a, fuel, x, b, [Text(y)], end + 1);
  }

  lemma OneString(s: bytes, pos: nat, fuel: nat, x: bytes, next: nat, rest: seq<Value>, end: nat)
    requires pos < |s| && IsDigit(s[pos]) && fuel > 1 && WrappedText(s, pos) == Done(x, next)
    requires WrappedItems(s, next, fuel - 1) == Returned(Done(rest, end))
    ensures WrappedItems(s, pos, fuel) == Returned(Done([Text(x)] + rest, end))
  {
    assert WrappedValue(s, pos, fuel - 1) == Returned(Done(Text(x), next));
  }
}
