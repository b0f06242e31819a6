/** The streaming hasher: a 64-byte buffer, a running state and a bit counter. */
module Sha1Stream {
  import opened Bytes
  import opened Sha1Spec

  /** The rotations the code writes out are the standard's, and rotations of a machine word. */
  lemma RotationsRotate(x: word)
    ensures (x << 1) | (x >> 31) == ROTL(1, x) == x.RotateLeft(1)
    ensures (x << 5) | (x >> 27) == ROTL(5, x) == x.RotateLeft(5)
    ensures (x << 30) | (x >> 2) == ROTL(30, x) == x.RotateLeft(30)
  {
  }

  /** The OR forms of choice and majority in the code are the XOR forms of the standard. */
  lemma ChoiceAndMajority(b: word, c: word, d: word)
    ensures (b & c) | (!b & d) == Ch(b, c, d)
    ensures (b & c) | (b & d) | (c & d) == Maj(b, c, d)
  {
  }

  /** The function and constant of turn `i`, in the forms the code uses. */
  method Select(i: nat, b: word, c: word, d: word) returns (f: word, k: word)
    requires i < 80
    ensures f == F(i, b, c, d) && k == K(i)
  {
    if i < 20 {
      ChoiceRounds(i, b, c, d);
      return (b & c) | (!b & d), 0x5A827999;
    }
    if i < 40 {
      ParityRounds(i, b, c, d);
      return b ^ c ^ d, 0x6ED9EBA1;
    }
    if i < 60 {
      MajorityRounds(i, b, c, d);
      return (b & c) | (b & d) | (c & d), 0x8F1BBCDC;
    }
    LastRounds(i, b, c, d);
    return b ^ c ^ d, 0xCA62C1D6;
  }

  lemma ChoiceRounds(t: nat, b: word, c: word, d: word)
    requires t < 20
    ensures F(t, b, c, d) == (b & c) | (!b & d) && K(t) == 0x5A827999
  {
    ChoiceAndMajority(b, c, d);
  }

  lemma ParityRounds(t: nat, b: word, c: word, d: word)
    requires 20 <= t < 40
    ensures F(t, b, c, d) == b ^ c ^ d && K(t) == 0x6ED9EBA1
  {
  }

  lemma MajorityRounds(t: nat, b: word, c: word, d: word)
    requires 40 <= t < 60
    ensures F(t, b, c, d) == (b & c) | (b & d) | (c & d) && K(t) == 0x8F1BBCDC
  {
    ChoiceAndMajority(b, c, d);
  }

  lemma LastRounds(t: nat, b: word, c: word, d: word)
    requires 60 <= t < 80
    ensures F(t, b, c, d) == b ^ c ^ d && K(t) == 0xCA62C1D6
  {
  }

  /** One turn of the loop is one round of the standard. */
  lemma RoundStep(s: State, w: seq<word>, t: nat, a: word, b: word, c: word, d: word, e: word)
    requires t < 80 && |w| == 80
    requires Rounds(s, w, t) == State(a, b, c, d, e)
    ensures Rounds(s, w, t + 1) == State(T(a, F(t, b, c, d), e, K(t), w[t]), a, ROTL(30, b), c, d)
  {
  }

  /** `leftRotate` */
  method LeftRotate(value: word, bits: nat) returns (r: word)
    requires 0 < bits < 32
    ensures r == ROTL(bits, value)
  {
    r := (value << bits) | (value >> (32 - bits));
  }

  /** The sum of a turn, as the code writes it. */
  method Turn(a: word, f: word, e: word, k: word, w: word) returns (temp: word)
    ensures temp == T(a, f, e, k, w)
  {
    temp := LeftRotate(a, 5);
    temp := Increased(temp, f);
    temp := Increased(temp, e);
    temp := Increased(temp, k);
    temp := Increased(temp, w);
  }

  /** `+=` on a machine word. */
  method Increased(x: word, y: word) returns (r: word)
    ensures r == Add(x, y)
  {
    r := x + y;
  }

  lemma NextWordIs(m: Sha1Spec.block, before: seq<word>, t: nat, x: word)
    requires 16 <= t < 80 && |before| == t && x == before[t - 3] ^ before[t - 8] ^ before[t - 14] ^ before[t - 16]
    ensures NextWord(m, before, t) == ROTL(1, x)
  {
  }

  /** Four bytes put together as the code does it. */
  method Assembled(b0: byte, b1: byte, b2: byte, b3: byte) returns (w: word)
    ensures w == WordOf(b0, b1, b2, b3)
  {
    w := ((b0 as word) << 24) | ((b1 as word) << 16) | ((b2 as word) << 8) | (b3 as word);
  }

  /** One more word of the schedule, as the loops compute it. */
  lemma ScheduleGrows(m: Sha1Spec.block, t: nat, before: seq<word>, after: seq<word>)
    requires t < 80 && before == Schedule(m, t) && |after| == t + 1 && after[..t] == before
    requires after[t] == NextWord(m, before, t)
    ensures after == Schedule(m, t + 1)
  {
    assert after == before + [after[t]];
  }

  lemma FirstWord(m: Sha1Spec.block, before: seq<word>, t: nat, w: word)
    requires t < 16 && |before| == t && w == WordOf(m[t * 4], m[t * 4 + 1], m[t * 4 + 2], m[t * 4 + 3])
    ensures w == NextWord(m, before, t)
  {
  }

  function StateOf(s: seq<word>): State
    requires |s| == 5
  {
    State(s[0], s[1], s[2], s[3], s[4])
  }

  class Sha1 {
    const state: array<word>
    const buffer: array<byte>
    var bitCount: nat    // kept modulo 2^64
    var bufferSize: nat
    ghost var absorbed: bytes  // the complete blocks that went into the state

    ghost predicate Shape() {
      state.Length == 5 && buffer.Length == 64
    }

    /** The state is the hash state after the absorbed blocks. */
    ghost predicate Hashed()
      reads this`absorbed, state
    {
      Shape() && |absorbed| % 64 == 0 && StateOf(state[..]) == Digested(absorbed)
    }

    ghost predicate Valid()
      reads this, state, buffer
    {
      Hashed() && bufferSize < 64 && bitCount == 8 * (|absorbed| + bufferSize) % TWO_64
    }

    /** Everything given to `Update` so far: the absorbed blocks and the buffered rest. */
    ghost function Message(): bytes
      requires Shape() && bufferSize <= 64
      reads this, buffer
    {
      absorbed + buffer[..bufferSize]
    }

    constructor ()
      ensures Valid() && Message() == [] && fresh(state) && fresh(buffer)
    {
      state := new word[5] [0x67452301, 0xEFCDAB89, 0x98BADCFE, 0x10325476, 0xC3D2E1F0];
      buffer := new byte[64](_ => 0);
      bitCount, bufferSize, absorbed := 0, 0, [];
    }

    /** The in-place compression loop computes the compression function of section 6.1.2. */
    method ProcessBlock(block: array<byte>)
      requires state.Length == 5 && block.Length == 64
      modifies state
      ensures StateOf(state[..]) == Compress(old(StateOf(state[..])), block[..])
    {
      var words := Expand(block);
      ghost var start := StateOf(state[..]);
      var a, b, c, d, e := state[0], state[1], state[2], state[3], state[4];
      for i := 0 to 80
        invariant State(a, b, c, d, e) == Rounds(start, words, i)
        invariant StateOf(state[..]) == start
      {
        var f, k := Select(i, b, c, d);
        RoundStep(start, words, i, a, b, c, d, e);
        var temp := Turn(a, f, e, k, words[i]);
        e := d;
        d := c;
        c := LeftRotate(b, 30);
        b := a;
        a := temp;
      }
      Accumulate(a, b, c, d, e);
    }

    method Accumulate(a: word, b: word, c: word, d: word, e: word)
      requires state.Length == 5
      modifies state
      ensures StateOf(state[..]) == Sum(old(StateOf(state[..])), State(a, b, c, d, e))
    {
      var sum := Increased(state[0], a);
      state[0] := sum;
      sum := Increased(state[1], b);
      state[1] := sum;
      sum := Increased(state[2], c);
      state[2] := sum;
      sum := Increased(state[3], d);
      state[3] := sum;
      sum := Increased(state[4], e);
      state[4] := sum;
    }

    /** The 80 words of the message schedule. */
    static method Expand(block: array<byte>) returns (expanded: seq<word>)
      requires block.Length == 64
      ensures expanded == Schedule(block[..], 80)
    {
      ghost var m: Sha1Spec.block := block[..];
      var words := new word[80];
      FirstWords(block, words);
      for i := 16 to 80
        invariant words[..i] == Schedule(m, i)
      {
        ghost var before := words[..i];
        var x := words[i - 3] ^ words[i - 8] ^ words[i - 14] ^ words[i - 16];
        NextWordIs(m, before, i, x);
        var next := LeftRotate(x, 1);
        words[i] := next;
        ScheduleGrows(m, i, before, words[..i + 1]);
      }
      expanded := words[..];
    }

    static method FirstWords(block: array<byte>, words: array<word>)
      requires block.Length == 64 && words.Length == 80
      modifies words
      ensures words[..16] == Schedule(block[..], 16)
    {
      ghost var m: Sha1Spec.block := block[..];
      for i := 0 to 16
        invariant words[..i] == Schedule(m, i)
      {
        ghost var before := words[..i];
        var w := Assembled(block[i * 4], block[i * 4 + 1], block[i * 4 + 2], block[i * 4 + 3]);
        FirstWord(m, before, i, w);
        words[i] := w;
        ScheduleGrows(m, i, before, words[..i + 1]);
      }
    }

    /** A full buffer goes into the state. */
    method Flush()
      requires Hashed() && bufferSize == 64
      modifies this`bufferSize, this`absorbed, state
      ensures Hashed() && bufferSize == 0
      ensures absorbed == old(absorbed) + buffer[..] && Message() == old(Message())
    {
      assert buffer[..64] == buffer[..];
      ProcessBlock(buffer);
      bufferSize := 0;
      DigestedAppend(absorbed, buffer[..]);
      absorbed := absorbed + buffer[..];
      assert absorbed + [] == absorbed;
    }

    method Append(b: byte)
      requires Shape() && bufferSize < 64
      modifies this`bufferSize, buffer
      ensures bufferSize == old(bufferSize) + 1 && Message() == old(Message()) + [b]
    {
      buffer[bufferSize] := b;
      bufferSize := bufferSize + 1;
      assert buffer[..bufferSize] == old(buffer[..bufferSize]) + [b];
    }

    /** `memcpy` of `count` bytes of `data` behind the buffered ones. */
    method Copy(data: bytes, from: nat, count: nat)
      requires Shape() && from + count <= |data| && bufferSize + count <= 64
      modifies this`bufferSize, buffer
      ensures bufferSize == old(bufferSize) + count && Message() == old(Message()) + data[from..from + count]
    {
      forall i | 0 <= i < count {
        buffer[bufferSize + i] := data[from + i];
      }
      bufferSize := bufferSize + count;
      assert buffer[..bufferSize] == old(buffer[..bufferSize]) + data[from..from + count];
    }

    /** A chunk goes into the buffer, and the buffer, when full, into the state. */
    method Take(data: bytes, from: nat, count: nat)
      requires Hashed() && from + count <= |data| && bufferSize + count <= 64
      modifies this`bufferSize, this`absorbed, state, buffer
      ensures Hashed() && bufferSize < 64 && Message() == old(Message()) + data[from..from + count]
    {
      Copy(data, from, count);
      if bufferSize == 64 {
        Flush();
      }
    }

    /** Any number of updates of any sizes only adds their bytes to the message. */
    method Update(data: bytes)
      requires Valid()
      modifies this, state, buffer
      ensures Valid() && Message() == old(Message()) + data
    {
      ghost var total := |Message()| + |data|;
      bitCount := (bitCount + 8 * |data|) % TWO_64;
      BitCountAdds(8 * |Message()|, 8 * |data|);
      var size, from := |data|, 0;
      assert Message() + data[..0] == Message();
      while size > 0
        invariant 0 <= from && 0 <= size && from + size == |data|
        invariant Hashed() && bufferSize < 64
        invariant Message() == old(Message()) + data[..from]
        invariant bitCount == 8 * total % TWO_64
      {
        var chunk := if size < 64 - bufferSize then size else 64 - bufferSize;
        Take(data, from, chunk);
        MoreData(old(Message()), data, from, chunk);
        from := from + chunk;
        size := size - chunk;
      }
      assert data[..from] == data;
    }

    /** The hash of everything given to `Update`, whatever the sizes of the pieces. */
    method Final() returns (out: bytes)
      requires Valid()
      modifies this, state, buffer
      ensures out == Sha1Spec.Sha1(old(Message()))
      ensures Hashed() && absorbed == Pad(old(Message())) && bufferSize == 0 && bitCount == old(bitCount)
    {
      ghost var m, bits := Message(), bitCount;
      PadToLength();
      AppendLength();
      ghost var padded := Message();
      PadIs(m, padded, bits);
      Flush();
      assert absorbed == padded;
      out := Output();
    }

    /** The one bit and the zeros, over a full block where the length does not fit behind them: in both
        cases exactly what the standard asks for. */
    method PadToLength()
      requires Valid()
      modifies this`bufferSize, this`absorbed, state, buffer
      ensures Hashed() && bufferSize == 56
      ensures Message() == old(Message()) + [0x80] + Zeros(ZeroCount(|old(Message())|))
    {
      ghost var m, rest := Message(), bufferSize;
      Append(0x80);
      ghost var marked := Message();
      ghost var zeros := MakeRoom();
      ghost var more := 56 - bufferSize;
      FillZeros(56);
      ZerosJoin(marked, zeros, more);
      ZerosFor(|m| - rest, rest, zeros, more);
    }

    /** Where more than 56 bytes are buffered, zeros complete the block. */
    method MakeRoom() returns (ghost zeros: nat)
      requires Hashed() && bufferSize <= 64
      modifies this`bufferSize, this`absorbed, state, buffer
      ensures Hashed() && bufferSize <= 56 && Message() == old(Message()) + Zeros(zeros)
      ensures if old(bufferSize) > 56 then zeros == 64 - old(bufferSize) && bufferSize == 0
              else zeros == 0 && bufferSize == old(bufferSize)
    {
      zeros := 0;
      ZerosJoin(Message(), 0, 0);
      if bufferSize > 56 {
        zeros := 64 - bufferSize;
        FillZeros(64);
        Flush();
      }
    }

    /** The padding loops: zero bytes up to position `limit` of the buffer. */
    method FillZeros(limit: nat)
      requires Shape() && bufferSize <= limit <= 64
      modifies this`bufferSize, buffer
      ensures bufferSize == limit && Message() == old(Message()) + Zeros(limit - old(bufferSize))
    {
      ghost var m := Message();
      ZerosJoin(m, 0, 0);
      while bufferSize < limit
        invariant old(bufferSize) <= bufferSize <= limit
        invariant Message() == m + Zeros(bufferSize - old(bufferSize))
      {
        ZerosJoin(m, bufferSize - old(bufferSize), 1);
        Append(0);
      }
    }

    /** The bit count, most significant byte first. */
    method AppendLength()
      requires Shape() && bufferSize == 56
      modifies this`bufferSize, buffer
      ensures bufferSize == 64 && Message() == old(Message()) + BigEndian(bitCount, 8)
    {
      ghost var m, length := Message(), BigEndian(bitCount, 8);
      var i := 7;
      assert m + length[..0] == m;
      while i >= 0
        invariant -1 <= i <= 7 && bufferSize == 63 - i
        invariant Message() == m + length[..7 - i]
      {
        BigEndianAt(bitCount, 8, 7 - i);
        OneMore(m, length, 7 - i);
        Append(ShiftRight(bitCount, i) % 256);
        i := i - 1;
      }
      assert length[..8] == length;
    }

    method Output() returns (out: bytes)
      requires state.Length == 5
      ensures out == StateBytes(StateOf(state[..]))
    {
      var digest := new byte[20];
      for j := 0 to 5
        invariant digest[..4 * j] == FirstBytes(state[..], j)
      {
        var w := state[j];
        WordBytesAre(w);
        digest[j * 4 + 0] := ByteOf(w >> 24);
        digest[j * 4 + 1] := ByteOf(w >> 16);
        digest[j * 4 + 2] := ByteOf(w >> 8);
        digest[j * 4 + 3] := ByteOf(w);
        FourBytes(digest[..], j, WordBytes(w));
      }
      out := digest[..];
      AllBytes(state[..]);
    }
  }

  /** The bytes of the first `n` words of a state. */
  ghost function FirstBytes(s: seq<word>, n: nat): bytes
    requires n <= |s|
  {
    if n == 0 then [] else FirstBytes(s, n - 1) + WordBytes(s[n - 1])
  }

  lemma WordBytesAre(w: word)
    ensures WordBytes(w) == [ByteOf(w >> 24), ByteOf(w >> 16), ByteOf(w >> 8), ByteOf(w)]
  {
  }

  lemma FourBytes(d: bytes, j: nat, b: bytes)
    requires 4 * j + 4 <= |d| && |b| == 4
    requires d[4 * j] == b[0] && d[4 * j + 1] == b[1] && d[4 * j + 2] == b[2] && d[4 * j + 3] == b[3]
    ensures d[..4 * j + 4] == d[..4 * j] + b
  {
  }

  lemma AllBytes(s: seq<word>)
    requires |s| == 5
    ensures FirstBytes(s, 5) == StateBytes(StateOf(s))
  {
    assert FirstBytes(s, 1) == WordBytes(s[0]);
    assert FirstBytes(s, 2) == WordBytes(s[0]) + WordBytes(s[1]);
    assert FirstBytes(s, 3) == WordBytes(s[0]) + WordBytes(s[1]) + WordBytes(s[2]);
  }

  lemma DigestedAppend(m: bytes, b: Sha1Spec.block)
    requires |m| % 64 == 0
    ensures |m + b| % 64 == 0 && Digested(m + b) == Compress(Digested(m), b)
  {
    assert (m + b)[..|m|] == m && (m + b)[|m|..] == b;
  }

  lemma MoreData(message: bytes, data: bytes, from: nat, chunk: nat)
    requires from + chunk <= |data|
    ensures message + data[..from] + data[from..from + chunk] == message + data[..from + chunk]
  {
    assert data[..from + chunk] == data[..from] + data[from..from + chunk];
  }

  lemma PadIs(m: bytes, padded: bytes, bits: nat)
    requires bits == 8 * |m| % TWO_64
    requires padded == m + [0x80] + Zeros(ZeroCount(|m|)) + BigEndian(bits, 8)
    ensures padded == Pad(m) && |padded| % 64 == 0 && Sha1Spec.Sha1(m) == StateBytes(Digested(padded))
  {
  }

  lemma ZerosJoin(m: bytes, a: nat, b: nat)
    ensures m + Zeros(a) + Zeros(b) == m + Zeros(a + b) && Zeros(1) == [0] && m + Zeros(0) == m
  {
    assert Zeros(a) + Zeros(b) == Zeros(a + b);
  }

  lemma OneMore(m: bytes, t: bytes, i: nat)
    requires i < |t|
    ensures m + t[..i + 1] == m + t[..i] + [t[i]]
  {
    assert t[..i + 1] == t[..i] + [t[i]];
  }

  lemma BitCountAdds(a: nat, b: nat)
    ensures (a % TWO_64 + b) % TWO_64 == (a + b) % TWO_64
  {
  }

  /** Words and bytes in lower-case hexadecimal, two digits a byte. */
  function HexDigit(n: nat): byte
    requires n < 16
  {
    if n < 10 then 48 + n else 87 + n
  }

  function Hex(b: bytes): (r: bytes)
    ensures |r| == 2 * |b|
  {
    if b == [] then [] else Hex(b[..|b| - 1]) + [HexDigit(b[|b| - 1] / 16), HexDigit(b[|b| - 1] % 16)]
  }

  method ToHex(digest: bytes) returns (out: bytes)
    ensures out == Hex(digest)
  {
    out := [];
    for i := 0 to |digest|
      invariant out == Hex(digest[..i])
    {
      out := out + [HexDigit(digest[i] / 16), HexDigit(digest[i] % 16)];
      assert digest[..i + 1][..i] == digest[..i];
    }
    assert digest[..|digest|] == digest;
  }

  /** Character `c` is the lower-case hexadecimal digit for `n`. */
  predicate LowerHex(c: byte, n: nat) {
    (48 <= c <= 57 && n == c - 48) || (97 <= c <= 102 && n == c - 87)
  }

  /** Two lower-case digits for each byte, in order. */
  lemma {:induction false} HexAt(b: bytes, i: nat)
    requires i < |b|
    ensures LowerHex(Hex(b)[2 * i], b[i] / 16) && LowerHex(Hex(b)[2 * i + 1], b[i] % 16)
  {
    if i < |b| - 1 {
      HexAt(b[..|b| - 1], i);
    }
  }

  /** Equal hexadecimal texts come from equal digests. */
  lemma {:induction false} HexInjective(a: bytes, b: bytes)
    requires Hex(a) == Hex(b)
    ensures a == b
  {
    if a != [] {
      var n := |a| - 1;
      assert |a| == |b|;
      assert Hex(a[..n]) == Hex(a)[..2 * n] == Hex(b)[..2 * n] == Hex(b[..n]);
      HexInjective(a[..n], b[..n]);
      assert Hex(a)[2 * n] == Hex(b)[2 * n] && Hex(a)[2 * n + 1] == Hex(b)[2 * n + 1];
      assert a == a[..n] + [a[n]];
    }
  }

  /** `Sha1::digest`: one update with the whole text. */
  method Digest(text: bytes) returns (out: bytes)
    ensures out == Sha1Spec.Sha1(text)
  {
    var sha1 := new Sha1();
    assert [] + text == text;
    sha1.Update(text);
    out := sha1.Final();
  }

  function Concatenated(pieces: seq<bytes>): bytes {
    if pieces == [] then [] else Concatenated(pieces[..|pieces| - 1]) + pieces[|pieces| - 1]
  }

  /** Streaming refines the one-shot standard: for every split of a message into any number of
      updates of any sizes, the result is the hash of the whole message. */
  method DigestPieces(pieces: seq<bytes>) returns (out: bytes)
    ensures out == Sha1Spec.Sha1(Concatenated(pieces))
  {
    var sha1 := new Sha1();
    for i := 0 to |pieces|
      invariant sha1.Valid() && sha1.Message() == Concatenated(pieces[..i])
      invariant fresh(sha1) && fresh(sha1.state) && fresh(sha1.buffer)
    {
      sha1.Update(pieces[i]);
      assert pieces[..i + 1][..i] == pieces[..i];
    }
    assert pieces[..|pieces|] == pieces;
    out := sha1.Final();
  }

  /** Both padding paths leave exactly the zeros the standard asks for. */
  lemma ZerosFor(absorbed: nat, rest: nat, zeros: nat, more: nat)
    requires absorbed % 64 == 0 && rest < 64
    requires if rest + 1 > 56 then rest + 1 + zeros == 64 && more == 56 else zeros == 0 && rest + 1 + more == 56
    ensures zeros + more == ZeroCount(absorbed + rest)
  {
    assert (absorbed + rest) % 64 == rest;
  }
}
