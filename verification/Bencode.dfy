/**
 The bencode format of BEP 3: values, the canonical encoder, and the parser as a function of the
 input and a position. `BencodeParser.dfy` refines the parser to the class that moves `pos_`.
 */
module Bencode {
  import opened Bytes
  import opened Decimal

  const CH_I: byte := 105     // 'i'
  const CH_L: byte := 108     // 'l'
  const CH_D: byte := 100     // 'd'
  const CH_E: byte := 101     // 'e'
  const COLON: byte := 58     // ':'

  datatype Value =
    | Integer(n: int)
    | Text(s: bytes)
    | List(items: seq<Value>)
    | Dictionary(entries: seq<Entry>)

  datatype Entry = Entry(key: bytes, value: Value)

  datatype ParseError =
    | UnexpectedEnd | InvalidToken | UnterminatedInteger | InvalidInteger | InvalidLengthHeader
    | InvalidLength | StringExceedsInput | UnterminatedList | UnterminatedDictionary | TrailingBytes

  /** A `std::map` keeps its keys strictly ascending. */
  ghost predicate Ascending(es: seq<Entry>) {
    forall i, j :: 0 <= i < j < |es| ==> Less(es[i].key, es[j].key)
  }

  /** What the C++ types guarantee: 64-bit integers, addressable strings, ordered dictionaries. */
  ghost predicate Valid(v: Value) {
    match v
    case Integer(n) => INT64_MIN <= n <= INT64_MAX
    case Text(s) => |s| < TWO_64
    case List(items) => forall x <- items :: Valid(x)
    case Dictionary(entries) => Ascending(entries) && forall e <- entries :: |e.key| < TWO_64 && Valid(e.value)
  }

  // ----- std::map<std::string, BencodeValue>

  /** `std::map::emplace`: an equal key already present is kept. */
  function Emplace(es: seq<Entry>, key: bytes, value: Value): seq<Entry> {
    if es == [] then [Entry(key, value)]
    else if key == es[0].key then es
    else if Less(key, es[0].key) then [Entry(key, value)] + es
    else [es[0]] + Emplace(es[1..], key, value)
  }

  /** `std::map::find` on an ordered dictionary, and the first pair with a key in any list of pairs. */
  function Find(es: seq<Entry>, key: bytes): Option<Value> {
    if es == [] then None
    else if es[0].key == key then Some(es[0].value)
    else Find(es[1..], key)
  }

  /** The dictionary the parser builds from the pairs in file order. */
  function Build(pairs: seq<Entry>): seq<Entry> {
    if pairs == [] then []
    else var last := pairs[|pairs| - 1]; Emplace(Build(pairs[..|pairs| - 1]), last.key, last.value)
  }

  // ----- encodeBencode

  function EncodeText(s: bytes): bytes {
    Digits(|s|) + ([COLON] + s)
  }

  function Encode(v: Value): (r: bytes)
    ensures r != [] && r[0] != CH_E
    decreases v
  {
    match v
    case Integer(n) => [CH_I] + (SignedDigits(n) + [CH_E])
    case Text(s) => EncodeText(s)
    case List(items) => [CH_L] + EncodeItems(items)
    case Dictionary(entries) => [CH_D] + EncodeEntries(entries)
  }

  /** The items of a list and the closing `e`. */
  function EncodeItems(items: seq<Value>): bytes
    decreases items
  {
    if items == [] then [CH_E] else Encode(items[0]) + EncodeItems(items[1..])
  }

  /** The pairs of a dictionary and the closing `e`. */
  function EncodeEntries(entries: seq<Entry>): bytes
    decreases entries
  {
    if entries == [] then [CH_E]
    else EncodeText(entries[0].key) + (Encode(entries[0].value) + EncodeEntries(entries[1..]))
  }

  // ----- the parser

  /** A parsed value with the position after it, or the reason parsing stopped. */
  datatype Parsed<+T> = Done(value: T, next: nat) | Fail(error: ParseError)

  /** Position of the first `c` at or after `pos`, or the end of the input. */
  function ScanTo(s: bytes, pos: nat, c: byte): (r: nat)
    requires pos <= |s|
    ensures pos <= r <= |s|
    ensures c !in s[pos..r]
    ensures r < |s| ==> s[r] == c
    decreases |s| - pos
  {
    if pos == |s| || s[pos] == c then pos else ScanTo(s, pos + 1, c)
  }

  function ParseInteger(s: bytes, pos: nat): Parsed<int>
    requires pos < |s|
  {
    var end := ScanTo(s, pos + 1, CH_E);
    if end == |s| then Fail(UnterminatedInteger)
    else
      match FromCharsInt64(s[pos + 1..end])
      case None => Fail(InvalidInteger)
      case Some(n) => Done(n, end + 1)
  }

  function ParseText(s: bytes, pos: nat): (r: Parsed<bytes>)
    requires pos <= |s|
    ensures r.Done? ==> pos < r.next <= |s|
  {
    var colon := ScanTo(s, pos, COLON);
    if colon == |s| then Fail(InvalidLengthHeader)
    else
      match FromCharsSize(s[pos..colon])
      case None => Fail(InvalidLength)
      case Some(length) =>
        if length > |s| - (colon + 1) then Fail(StringExceedsInput)
        else Done(s[colon + 1..colon + 1 + length], colon + 1 + length)
  }

  function ParseValue(s: bytes, pos: nat): (r: Parsed<Value>)
    requires pos <= |s|
    ensures r.Done? ==> pos < r.next <= |s|
    decreases |s| - pos, 0
  {
    if pos == |s| then Fail(UnexpectedEnd)
    else if s[pos] == CH_I then
      match ParseInteger(s, pos)
      case Fail(e) => Fail(e)
      case Done(n, next) => Done(Integer(n), next)
    else if s[pos] == CH_L then
      match ParseItems(s, pos + 1)
      case Fail(e) => Fail(e)
      case Done(items, next) => Done(List(items), next)
    else if s[pos] == CH_D then
      match ParsePairs(s, pos + 1)
      case Fail(e) => Fail(e)
      case Done(pairs, next) => Done(Dictionary(Build(pairs)), next)
    else if IsDigit(s[pos]) then
      match ParseText(s, pos)
      case Fail(e) => Fail(e)
      case Done(t, next) => Done(Text(t), next)
    else Fail(InvalidToken)
  }

  /** The items of a list, up to and including the closing `e`. */
  function ParseItems(s: bytes, pos: nat): (r: Parsed<seq<Value>>)
    requires pos <= |s|
    ensures r.Done? ==> pos < r.next <= |s|
    decreases |s| - pos, 1
  {
    if pos == |s| then Fail(UnterminatedList)
    else if s[pos] == CH_E then Done([], pos + 1)
    else
      match ParseValue(s, pos)
      case Fail(e) => Fail(e)
      case Done(v, next) =>
        match ParseItems(s, next)
        case Fail(e) => Fail(e)
        case Done(rest, end) => Done([v] + rest, end)
  }

  /** The key-value pairs of a dictionary in file order, up to and including the closing `e`. */
  function ParsePairs(s: bytes, pos: nat): (r: Parsed<seq<Entry>>)
    requires pos <= |s|
    ensures r.Done? ==> pos < r.next <= |s|
    decreases |s| - pos, 1
  {
    if pos == |s| then Fail(UnterminatedDictionary)
    else if s[pos] == CH_E then Done([], pos + 1)
    else
      match ParseText(s, pos)
      case Fail(e) => Fail(e)
      case Done(key, at) =>
        match ParseValue(s, at)
        case Fail(e) => Fail(e)
        case Done(v, next) =>
          match ParsePairs(s, next)
          case Fail(e) => Fail(e)
          case Done(rest, end) => Done([Entry(key, v)] + rest, end)
  }

  function Parse(s: bytes): Result<Value, ParseError> {
    match ParseValue(s, 0)
    case Fail(e) => Err(e)
    case Done(v, next) => if next < |s| then Err(TrailingBytes) else Ok(v)
  }

  // ----- the canonical form

  /** The length header at `pos` has no leading zero. */
  predicate CanonicalText(s: bytes, pos: nat)
    requires pos <= |s|
  {
    CanonicalDigits(s[pos..ScanTo(s, pos, COLON)])
  }

  /** The value spelled at `pos` follows the canonical form: no leading zeros and no `-0` in its
      integers and length headers, and strictly ascending keys in its dictionaries. */
  ghost predicate Canonical(s: bytes, pos: nat)
    requires pos <= |s| && ParseValue(s, pos).Done?
    decreases |s| - pos, 0
  {
    if s[pos] == CH_I then CanonicalSigned(s[pos + 1..ScanTo(s, pos + 1, CH_E)])
    else if s[pos] == CH_L then CanonicalItems(s, pos + 1)
    else if s[pos] == CH_D then Ascending(ParsePairs(s, pos + 1).value) && CanonicalPairs(s, pos + 1)
    else CanonicalText(s, pos)
  }

  ghost predicate CanonicalItems(s: bytes, pos: nat)
    requires pos <= |s| && ParseItems(s, pos).Done?
    decreases |s| - pos, 1
  {
    s[pos] == CH_E || (Canonical(s, pos) && CanonicalItems(s, ParseValue(s, pos).next))
  }

  /** Every key header and every value is canonical; the order of the keys is asked for separately. */
  ghost predicate CanonicalPairs(s: bytes, pos: nat)
    requires pos <= |s| && ParsePairs(s, pos).Done?
    decreases |s| - pos, 1
  {
    s[pos] == CH_E ||
    (var at := ParseText(s, pos).next;
     CanonicalText(s, pos) && Canonical(s, at) && CanonicalPairs(s, ParseValue(s, at).next))
  }
}
