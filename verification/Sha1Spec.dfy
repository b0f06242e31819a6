/**
 SHA-1 as FIPS 180-4 defines it: the functions and constants of section 4, the padding of section 5.1.1
 and the hash computation of section 6.1.2, as functions of the whole message.
 */
module Sha1Spec {
  import opened Bytes

  type word = bv32

  datatype State = State(a: word, b: word, c: word, d: word, e: word)

  const INITIAL := State(0x67452301, 0xEFCDAB89, 0x98BADCFE, 0x10325476, 0xC3D2E1F0)

  // ----- section 3.2

  function ROTL(n: nat, x: word): word
    requires 0 < n < 32
  {
    (x << n) | (x >> (32 - n))
  }

  // ----- section 4.1.1

  function Ch(x: word, y: word, z: word): word { (x & y) ^ (!x & z) }

  function Parity(x: word, y: word, z: word): word { x ^ y ^ z }

  function Maj(x: word, y: word, z: word): word { (x & y) ^ (x & z) ^ (y & z) }

  function F(t: nat, x: word, y: word, z: word): word
    requires t < 80
  {
    if t < 20 then Ch(x, y, z)
    else if t < 40 then Parity(x, y, z)
    else if t < 60 then Maj(x, y, z)
    else Parity(x, y, z)
  }

  // ----- section 4.2.1

  function K(t: nat): word
    requires t < 80
  {
    if t < 20 then 0x5A827999
    else if t < 40 then 0x6ED9EBA1
    else if t < 60 then 0x8F1BBCDC
    else 0xCA62C1D6
  }

  // ----- section 6.1.2

  /** Four bytes as a big-endian word. */
  function WordOf(b0: byte, b1: byte, b2: byte, b3: byte): word {
    ((b0 as word) << 24) | ((b1 as word) << 16) | ((b2 as word) << 8) | (b3 as word)
  }

  type block = b: bytes | |b| == 64 witness seq(64, _ => 0)

  /** The first `n` words of the message schedule. */
  function Schedule(m: block, n: nat): (w: seq<word>)
    requires n <= 80
    ensures |w| == n
  {
    if n == 0 then []
    else
      var w, t := Schedule(m, n - 1), n - 1;
      w + [NextWord(m, w, t)]
  }

  function NextWord(m: block, w: seq<word>, t: nat): word
    requires t < 80 && |w| == t
  {
    if t < 16 then WordOf(m[4 * t], m[4 * t + 1], m[4 * t + 2], m[4 * t + 3])
    else Extended(w[t - 3], w[t - 8], w[t - 14], w[t - 16])
  }

  function Extended(w3: word, w8: word, w14: word, w16: word): word { ROTL(1, w3 ^ w8 ^ w14 ^ w16) }

  function T(a: word, f: word, e: word, k: word, w: word): word { Add(Add(Add(Add(ROTL(5, a), f), e), k), w) }

  /** The working variables after the first `t` rounds. */
  function Rounds(s: State, w: seq<word>, t: nat): State
    requires t <= 80 && |w| == 80
  {
    if t == 0 then s
    else
      var r := Rounds(s, w, t - 1);
      State(T(r.a, F(t - 1, r.b, r.c, r.d), r.e, K(t - 1), w[t - 1]), r.a, ROTL(30, r.b), r.c, r.d)
  }

  /** Addition modulo 2^32. */
  function Add(x: word, y: word): word { x + y }

  function Sum(s: State, r: State): State {
    State(Add(s.a, r.a), Add(s.b, r.b), Add(s.c, r.c), Add(s.d, r.d), Add(s.e, r.e))
  }

  function Compress(s: State, m: block): State {
    Sum(s, Rounds(s, Schedule(m, 80), 80))
  }

  /** The hash state after the blocks of a message whose length is a multiple of 64. */
  function Digested(m: bytes): State
    requires |m| % 64 == 0
  {
    if m == [] then INITIAL else Compress(Digested(m[..|m| - 64]), m[|m| - 64..])
  }

  // ----- section 5.1.1

  /** `n` as `k` big-endian bytes, modulo 256^k. */
  function BigEndian(n: nat, k: nat): (r: bytes)
    ensures |r| == k
  {
    if k == 0 then [] else BigEndian(n / 256, k - 1) + [n % 256]
  }

  /** The number of zero bytes: the least that leaves room for exactly the 8 length bytes. */
  function ZeroCount(length: nat): (k: nat)
    ensures (length + k + 9) % 64 == 0
    ensures k < 64
  {
    (119 - length % 64) % 64
  }

  function Zeros(k: nat): bytes { seq(k, _ => 0) }

  /** The padded message. The standard defines it for messages of fewer than 2^64 bits; for longer
      ones the length field is taken modulo 2^64. */
  function Pad(m: bytes): (r: bytes)
    ensures |r| % 64 == 0
  {
    m + [0x80] + Zeros(ZeroCount(|m|)) + BigEndian(8 * |m| % TWO_64, 8)
  }

  function ByteOf(w: word): byte {
    LowByte(w);
    (w & 0xFF) as int
  }

  function WordBytes(w: word): (r: bytes)
    ensures |r| == 4
  {
    [ByteOf(w >> 24), ByteOf(w >> 16), ByteOf(w >> 8), ByteOf(w)]
  }

  function StateBytes(s: State): (r: bytes)
    ensures |r| == 20
  {
    WordBytes(s.a) + WordBytes(s.b) + WordBytes(s.c) + WordBytes(s.d) + WordBytes(s.e)
  }

  function Sha1(m: bytes): (r: bytes)
    ensures |r| == 20
  {
    StateBytes(Digested(Pad(m)))
  }

  lemma LowByte(w: word)
    ensures (w & 0xFF) as int < 256
  {
  }

  /** The bytes of a word, read back big-endian, are the word. */
  lemma WordRoundTrip(w: word)
    ensures var b := WordBytes(w); WordOf(b[0], b[1], b[2], b[3]) == w
  {
    IntRoundTrip((w >> 24) & 0xFF);
    IntRoundTrip((w >> 16) & 0xFF);
    IntRoundTrip((w >> 8) & 0xFF);
    IntRoundTrip(w & 0xFF);
    Reassembled(w);
  }

  lemma IntRoundTrip(w: word)
    ensures (w as int) as word == w
  {
  }

  lemma Reassembled(w: word)
    ensures (((w >> 24) & 0xFF) << 24) | (((w >> 16) & 0xFF) << 16) | (((w >> 8) & 0xFF) << 8) | (w & 0xFF) == w
  {
  }

  /** `n` shifted right by `k` bytes. */
  function ShiftRight(n: nat, k: nat): nat {
    if k == 0 then n else ShiftRight(n / 256, k - 1)
  }

  lemma {:induction false} BigEndianAt(n: nat, k: nat, j: nat)
    requires j < k
    ensures BigEndian(n, k)[j] == ShiftRight(n, k - 1 - j) % 256
  {
    if j < k - 1 {
      BigEndianAt(n / 256, k - 1, j);
    }
  }

  function BigEndianValue(b: bytes): nat {
    if b == [] then 0 else 256 * BigEndianValue(b[..|b| - 1]) + b[|b| - 1]
  }

  function Power256(k: nat): nat {
    if k == 0 then 1 else 256 * Power256(k - 1)
  }

  lemma {:induction false} BigEndianRoundTrip(n: nat, k: nat)
    requires n < Power256(k)
    ensures BigEndianValue(BigEndian(n, k)) == n
  {
    if k > 0 {
      BigEndianRoundTrip(n / 256, k - 1);
      assert BigEndian(n, k)[..k - 1] == BigEndian(n / 256, k - 1);
    }
  }

  lemma EightBytes()
    ensures Power256(8) == TWO_64
  {
    assert Power256(4) == 0x1_0000_0000;
  }

  /** A padded message begins with the message, and the length field at its end, read back, is the number
      of bits modulo 2^64. */
  lemma PadStatesLength(m: bytes)
    ensures m <= Pad(m) && |Pad(m)| >= 8
    ensures BigEndianValue(Pad(m)[|Pad(m)| - 8..]) == 8 * |m| % TWO_64
  {
    EightBytes();
    var bits := 8 * |m| % TWO_64;
    BigEndianRoundTrip(bits, 8);
    assert Pad(m)[|Pad(m)| - 8..] == BigEndian(bits, 8);
  }

  /** Two messages shorter than the 2^64 bits the standard allows have the same padding only if they are
      the same: what is hashed determines the message. */
  lemma PadInjective(m: bytes, n: bytes)
    requires 8 * |m| < TWO_64 && 8 * |n| < TWO_64 && Pad(m) == Pad(n)
    ensures m == n
  {
    PadStatesLength(m);
    PadStatesLength(n);
    SameLength(|m|, |n|);
    assert m == Pad(m)[..|m|] && n == Pad(n)[..|n|];
  }

  lemma SameLength(a: nat, b: nat)
    requires 8 * a < TWO_64 && 8 * b < TWO_64 && 8 * a % TWO_64 == 8 * b % TWO_64
    ensures a == b
  {
  }
}
