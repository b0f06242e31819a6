/** Bytes, byte strings and their order, and the two result types used throughout. */
module Bytes {

  type byte = b: int | 0 <= b < 256

  type bytes = seq<byte>

  datatype Option<+T> = None | Some(value: T)

  datatype Result<+T, +E> = Ok(value: T) | Err(error: E)

  const TWO_32 := 0x1_0000_0000
  const TWO_64 := 0x1_0000_0000_0000_0000

  const SLASH: byte := 47      // '/'
  const BACKSLASH: byte := 92  // '\'

  /** The order of `std::string`: lexicographic on unsigned bytes. */
  predicate Less(a: bytes, b: bytes) {
    if b == [] then false
    else if a == [] then true
    else a[0] < b[0] || (a[0] == b[0] && Less(a[1..], b[1..]))
  }

  lemma LessIrreflexive(a: bytes)
    ensures !Less(a, a)
  {
  }

  lemma LessTransitive(a: bytes, b: bytes, c: bytes)
    requires Less(a, b) && Less(b, c)
    ensures Less(a, c)
  {
  }

  lemma {:induction false} LessTotal(a: bytes, b: bytes)
    ensures Less(a, b) || a == b || Less(b, a)
  {
    if a != [] && b != [] && a[0] == b[0] {
      LessTotal(a[1..], b[1..]);
      if a[1..] == b[1..] {
        assert a == [a[0]] + a[1..] == b;
      }
    }
  }

  /** `t` stands in `s` at position `p`. */
  ghost predicate Occurs(s: bytes, p: nat, t: bytes) {
    p <= |s| && t <= s[p..]
  }

  lemma OccursSlice(s: bytes, p: nat, t: bytes)
    ensures Occurs(s, p, t) <==> p + |t| <= |s| && s[p..p + |t|] == t
  {
    if p + |t| <= |s| {
      assert s[p..p + |t|] == s[p..][..|t|];
    }
  }

  lemma OccursSplit(s: bytes, p: nat, a: bytes, b: bytes)
    ensures Occurs(s, p, a + b) <==> Occurs(s, p, a) && Occurs(s, p + |a|, b)
  {
    OccursSlice(s, p, a);
    OccursSlice(s, p + |a|, b);
    OccursSlice(s, p, a + b);
    if p + |a| + |b| <= |s| {
      assert s[p..p + |a + b|] == s[p..p + |a|] + s[p + |a|..p + |a| + |b|];
      if s[p..p + |a + b|] == a + b {
        assert a == (a + b)[..|a|] == s[p..p + |a|];
        assert b == (a + b)[|a|..] == s[p + |a|..p + |a| + |b|];
      }
    }
  }

  lemma OccursSplit3(s: bytes, p: nat, a: bytes, b: bytes, c: bytes)
    ensures Occurs(s, p, a + (b + c)) <==>
            Occurs(s, p, a) && Occurs(s, p + |a|, b) && Occurs(s, p + |a| + |b|, c)
  {
    OccursSplit(s, p, a, b + c);
    OccursSplit(s, p + |a|, b, c);
  }

  lemma OccursOne(s: bytes, p: nat, b: byte)
    ensures Occurs(s, p, [b]) <==> p < |s| && s[p] == b
  {
    assert [b][1..] == [];
  }
}
