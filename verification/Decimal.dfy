/** Decimal text: `std::to_string` on unsigned and signed integers, and `std::from_chars`. */
module Decimal {
  import opened Bytes

  const ZERO: byte := 48   // '0'
  const NINE: byte := 57   // '9'
  const MINUS: byte := 45  // '-'

  const INT64_MIN := -0x8000_0000_0000_0000
  const INT64_MAX := 0x7FFF_FFFF_FFFF_FFFF

  predicate IsDigit(b: byte) { ZERO <= b <= NINE }

  predicate AllDigits(t: bytes) { forall i :: 0 <= i < |t| ==> IsDigit(t[i]) }

  /** `std::to_string` of an unsigned integer. */
  function Digits(n: nat): (t: bytes)
    ensures t != [] && AllDigits(t)
  {
    if n < 10 then [ZERO + n] else Digits(n / 10) + [ZERO + n % 10]
  }

  /** `std::to_string` of a signed integer. */
  function SignedDigits(n: int): bytes {
    if n < 0 then [MINUS] + Digits(-n) else Digits(n)
  }

  /** The number a digit string denotes, read most significant digit first. */
  function DecimalValue(t: bytes): nat
    requires AllDigits(t)
  {
    if t == [] then 0 else 10 * DecimalValue(t[..|t| - 1]) + (t[|t| - 1] - ZERO)
  }

  /** `std::from_chars` into a `std::size_t`, with the caller's check that the whole token was used. */
  function FromCharsSize(t: bytes): Option<nat> {
    if t != [] && AllDigits(t) && DecimalValue(t) < TWO_64 then Some(DecimalValue(t)) else None
  }

  /** `std::from_chars` into a `std::int64_t`: an optional minus sign, at least one digit, in range. */
  function FromCharsInt64(t: bytes): Option<int> {
    if t == [] then None
    else
      var digits := if t[0] == MINUS then t[1..] else t;
      if digits == [] || !AllDigits(digits) then None
      else
        var magnitude: int := DecimalValue(digits);
        var n := if t[0] == MINUS then -magnitude else magnitude;
        if INT64_MIN <= n <= INT64_MAX then Some(n) else None
  }

  /** No leading zero, unless the text is the single digit 0. */
  predicate CanonicalDigits(t: bytes) {
    t != [] && AllDigits(t) && (|t| == 1 || t[0] != ZERO)
  }

  /** Canonical digits, or a minus sign before canonical digits other than 0. */
  predicate CanonicalSigned(t: bytes) {
    if t != [] && t[0] == MINUS then CanonicalDigits(t[1..]) && t[1] != ZERO
    else CanonicalDigits(t)
  }

  lemma {:induction false} DigitsCanonical(n: nat)
    ensures CanonicalDigits(Digits(n))
    ensures n > 0 ==> Digits(n)[0] != ZERO
  {
    if n >= 10 {
      DigitsCanonical(n / 10);
    }
  }

  lemma {:induction false} DigitsDenote(n: nat)
    ensures DecimalValue(Digits(n)) == n
  {
    if n >= 10 {
      DigitsDenote(n / 10);
      var t := Digits(n);
      assert t[..|t| - 1] == Digits(n / 10);
    }
  }

  /** A canonical digit string is the one `std::to_string` writes. */
  lemma {:induction false} CanonicalDigitsUnique(t: bytes)
    requires CanonicalDigits(t)
    ensures Digits(DecimalValue(t)) == t
    ensures t[0] != ZERO ==> DecimalValue(t) > 0
  {
    if |t| == 1 {
      assert t[..0] == [];
      assert DecimalValue(t[..0]) == 0;
      assert t == [ZERO + DecimalValue(t)];
    } else {
      var front := t[..|t| - 1];
      assert front[0] == t[0];
      CanonicalDigitsUnique(front);
      var n := DecimalValue(t);
      assert n == 10 * DecimalValue(front) + (t[|t| - 1] - ZERO);
      assert n / 10 == DecimalValue(front) && n % 10 == t[|t| - 1] - ZERO;
      assert t == front + [t[|t| - 1]];
    }
  }

  lemma FromCharsSizeInverts(n: nat)
    requires n < TWO_64
    ensures FromCharsSize(Digits(n)) == Some(n)
  {
    DigitsDenote(n);
  }

  lemma FromCharsInt64Inverts(n: int)
    requires INT64_MIN <= n <= INT64_MAX
    ensures FromCharsInt64(SignedDigits(n)) == Some(n)
  {
    if n < 0 {
      MinusInverts(n, Digits(-n));
    } else {
      PlusInverts(n, Digits(n));
    }
  }

  lemma MinusInverts(n: int, t: bytes)
    requires INT64_MIN <= n < 0 && t == Digits(-n)
    ensures FromCharsInt64([MINUS] + t) == Some(n)
  {
    DigitsDenote(-n);
    assert ([MINUS] + t)[1..] == t;
  }

  lemma PlusInverts(n: nat, t: bytes)
    requires t == Digits(n) && n <= INT64_MAX
    ensures FromCharsInt64(t) == Some(n)
  {
    DigitsDenote(n);
    assert IsDigit(t[0]);
  }

  /** An accepted length header is what `std::to_string` writes exactly when it is canonical. */
  lemma SizeTextUnique(t: bytes)
    requires FromCharsSize(t).Some?
    ensures Digits(FromCharsSize(t).value) == t <==> CanonicalDigits(t)
  {
    DigitsCanonical(DecimalValue(t));
    if CanonicalDigits(t) {
      CanonicalDigitsUnique(t);
    }
  }

  /** An accepted integer token is what `std::to_string` writes exactly when it is canonical. */
  lemma Int64TextUnique(t: bytes)
    requires FromCharsInt64(t).Some?
    ensures SignedDigits(FromCharsInt64(t).value) == t <==> CanonicalSigned(t)
  {
    var n := FromCharsInt64(t).value;
    if t[0] == MINUS {
      var digits := t[1..];
      assert t == [MINUS] + digits;
      if CanonicalSigned(t) {
        CanonicalDigitsUnique(digits);
      }
      if SignedDigits(n) == t {
        if n < 0 {
          DigitsCanonical(-n);
          assert SignedDigits(n)[1..] == Digits(-n);
        }
      }
    } else {
      DigitsCanonical(n);
      if CanonicalSigned(t) {
        CanonicalDigitsUnique(t);
      }
    }
  }
}
