/** Percent-encoding of paths towards a web seed, and the decoding of request targets. */
module UrlCodec {
  import opened Bytes

  const PERCENT: byte := 37  // '%'
  const PLUS: byte := 43     // '+'
  const SPACE: byte := 32    // ' '

  /** The bytes that stand for themselves: the unreserved characters of RFC 3986 section 2.3 and `/`. */
  predicate Unescaped(b: byte) {
    65 <= b <= 90 || 97 <= b <= 122 || 48 <= b <= 57 || b == SLASH || b == 45 || b == 95 || b == 46 || b == 126
  }

  function UpperHex(n: nat): byte
    requires n < 16
  {
    if n < 10 then 48 + n else 55 + n
  }

  function FromHex(b: byte): int {
    if 48 <= b <= 57 then b - 48
    else if 97 <= b <= 102 then 10 + (b - 97)
    else if 65 <= b <= 70 then 10 + (b - 65)
    else -1
  }

  function EncodeByte(b: byte): bytes {
    if Unescaped(b) then [b] else [PERCENT, UpperHex(b / 16), UpperHex(b % 16)]
  }

  function Encode(s: bytes): bytes {
    if s == [] then [] else EncodeByte(s[0]) + Encode(s[1..])
  }

  /** An escape stands at the start of `p`. */
  predicate EscapeAt(p: bytes) {
    |p| > 2 && p[0] == PERCENT && FromHex(p[1]) >= 0 && FromHex(p[2]) >= 0
  }

  function DecodeText(p: bytes): bytes {
    if p == [] then []
    else if EscapeAt(p) then [16 * FromHex(p[1]) + FromHex(p[2])] + DecodeText(p[3..])
    else [if p[0] == PLUS then SPACE else p[0]] + DecodeText(p[1..])
  }

  function Decode(p: bytes): bytes {
    if DecodeText(p) == [] then [SLASH] else DecodeText(p)
  }

  method PercentEncodePath(text: bytes) returns (out: bytes)
    ensures out == Encode(text)
  {
    out := [];
    for i := 0 to |text|
      invariant out + Encode(text[i..]) == Encode(text)
    {
      assert text[i..][1..] == text[i + 1..];
      EncodeStep(out, EncodeByte(text[i]), Encode(text[i + 1..]));
      if Unescaped(text[i]) {
        out := out + [text[i]];
      } else {
        out := out + [PERCENT, UpperHex(text[i] / 16), UpperHex(text[i] % 16)];
      }
    }
  }

  method UrlDecode(path: bytes) returns (out: bytes)
    ensures out == Decode(path)
  {
    out := [];
    var i := 0;
    while i < |path|
      invariant 0 <= i <= |path|
      invariant out + DecodeText(path[i..]) == DecodeText(path)
    {
      ghost var rest := path[i..];
      if path[i] == PERCENT && i + 2 < |path| {
        var hi := FromHex(path[i + 1]);
        var lo := FromHex(path[i + 2]);
        if hi >= 0 && lo >= 0 {
          assert EscapeAt(rest) && rest[3..] == path[i + 3..];
          DecodeStep(out, 16 * hi + lo, DecodeText(path[i + 3..]));
          out := out + [16 * hi + lo];
          i := i + 3;
          continue;
        }
      }
      assert !EscapeAt(rest) && rest[1..] == path[i + 1..];
      var plain := if path[i] == PLUS then SPACE else path[i];
      DecodeStep(out, plain, DecodeText(path[i + 1..]));
      out := out + [plain];
      i := i + 1;
    }
    if out == [] {
      out := [SLASH];
    }
  }

  lemma EncodeStep(out: bytes, code: bytes, rest: bytes)
    ensures out + (code + rest) == out + code + rest
  {
  }

  lemma DecodeStep(out: bytes, b: byte, rest: bytes)
    ensures out + ([b] + rest) == out + [b] + rest
  {
  }

  /** Decoding undoes encoding, for every byte string, with `%`, `+` and bytes above 127 in it. */
  lemma {:induction false} DecodeEncode(s: bytes)
    ensures DecodeText(Encode(s)) == s
    ensures s != [] ==> Decode(Encode(s)) == s
  {
    if s != [] {
      DecodeEncode(s[1..]);
      var b, rest := s[0], Encode(s[1..]);
      var p := Encode(s);
      if Unescaped(b) {
        assert p[1..] == rest;
      } else {
        HexDigits(b);
        assert EscapeAt(p) && p[3..] == rest;
      }
      assert s == [b] + s[1..];
    }
  }

  lemma HexDigits(b: byte)
    ensures FromHex(UpperHex(b / 16)) == b / 16 && FromHex(UpperHex(b % 16)) == b % 16
    ensures 16 * (b / 16) + b % 16 == b
  {
  }

  /** Different paths have different encodings. */
  lemma EncodeInjective(s: bytes, t: bytes)
    requires Encode(s) == Encode(t)
    ensures s == t
  {
    DecodeEncode(s);
    DecodeEncode(t);
  }

  // ----- which bytes stay, and which texts are decoded how

  /** The unreserved characters of RFC 3986 section 2.3. */
  predicate Unreserved(b: byte) {
    var c := b as char;
    'A' <= c <= 'Z' || 'a' <= c <= 'z' || '0' <= c <= '9' || c in "-._~"
  }

  /** `c` is the hexadecimal digit for `n`, upper-case or of either case. */
  predicate UpperDigit(c: byte, n: nat) {
    (n < 10 && c == '0' as int + n) || (10 <= n < 16 && c == 'A' as int + n - 10)
  }

  predicate AnyDigit(c: byte, n: nat) {
    UpperDigit(c, n) || (10 <= n < 16 && c == 'a' as int + n - 10)
  }

  /** Unreserved characters, slashes, and escapes in upper case. */
  predicate WellEscaped(p: bytes) {
    if p == [] then true
    else if p[0] == PERCENT then |p| > 2 && UpperPair(p[1], p[2]) && WellEscaped(p[3..])
    else (Unreserved(p[0]) || p[0] == SLASH) && WellEscaped(p[1..])
  }

  predicate UpperPair(hi: byte, lo: byte) {
    exists h, l :: 0 <= h < 16 && 0 <= l < 16 && UpperDigit(hi, h) && UpperDigit(lo, l)
  }

  lemma CharactersAgree(b: byte)
    ensures Unescaped(b) <==> Unreserved(b) || b == SLASH
  {
  }

  lemma DigitsAgree(c: byte, n: nat)
    requires n < 16
    ensures UpperDigit(UpperHex(n), n) && (AnyDigit(c, n) <==> FromHex(c) == n)
  {
  }

  /** Every encoding consists of unreserved characters, slashes and upper-case escapes; a text is its own
      encoding exactly if it has no other characters. */
  lemma {:induction false} EncodedIsWellEscaped(s: bytes)
    ensures WellEscaped(Encode(s)) && |Encode(s)| >= |s|
    ensures Encode(s) == s <==> forall b <- s :: Unreserved(b) || b == SLASH
    decreases |s|
  {
    if s != [] {
      EncodedIsWellEscaped(s[1..]);
      FirstEscaped(s[0], Encode(s[1..]));
      CharactersAgree(s[0]);
      assert s == [s[0]] + s[1..] && s[0] in s;
      assert forall b <- s :: b == s[0] || b in s[1..];
      assert forall b <- s[1..] :: b in s;
    }
  }

  lemma FirstEscaped(b: byte, rest: bytes)
    requires WellEscaped(rest)
    ensures WellEscaped(EncodeByte(b) + rest)
  {
    var p := EncodeByte(b) + rest;
    CharactersAgree(b);
    if Unescaped(b) {
      assert p[1..] == rest;
    } else {
      DigitsAgree(0, b / 16);
      DigitsAgree(0, b % 16);
      assert p[1] == UpperHex(b / 16) && p[2] == UpperHex(b % 16) && p[3..] == rest;
      assert UpperPair(p[1], p[2]);
    }
  }

  /** An escape in either case is decoded to its byte, `+` to a space, and every other byte to itself: also `%` where
      no two hexadecimal digits follow. */
  lemma DecodedPieces(hi: byte, lo: byte, h: nat, l: nat, b: byte, rest: bytes)
    requires h < 16 && l < 16 && AnyDigit(hi, h) && AnyDigit(lo, l)
    ensures DecodeText([PERCENT, hi, lo] + rest) == [16 * h + l] + DecodeText(rest)
    ensures DecodeText([PLUS] + rest) == [SPACE] + DecodeText(rest)
    ensures b != PERCENT && b != PLUS ==> DecodeText([b] + rest) == [b] + DecodeText(rest)
    ensures !TwoDigits(rest) ==> DecodeText([PERCENT] + rest) == [PERCENT] + DecodeText(rest)
    ensures Decode([]) == [SLASH] && Decode([b] + rest) == DecodeText([b] + rest)
  {
    DigitsAgree(hi, h);
    DigitsAgree(lo, l);
    assert ([PERCENT, hi, lo] + rest)[3..] == rest;
    assert ([PLUS] + rest)[1..] == rest && ([b] + rest)[1..] == rest && ([PERCENT] + rest)[1..] == rest;
    if EscapeAt([PERCENT] + rest) {
      DigitsAgree(rest[0], FromHex(rest[0]));
      DigitsAgree(rest[1], FromHex(rest[1]));
      assert TwoDigits(rest);
    }
  }

  ghost predicate TwoDigits(p: bytes) {
    |p| >= 2 && exists h: nat, l: nat :: h < 16 && l < 16 && AnyDigit(p[0], h) && AnyDigit(p[1], l)
  }
}
