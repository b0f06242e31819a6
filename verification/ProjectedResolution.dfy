/** When every projected name resolves to its own entry: the index and the tree have to agree on where
    the components of a path end, and no two paths may share a key. */
module ProjectedResolution {
  import opened Bytes
  import opened Namespace
  import opened NamespaceTree
  import opened NamespaceWalk
  import opened Projected
  import opened SpelledPaths
  import opened ProjectedTheorems

  // ----- a projected path as the list of its names

  /** The components the projection names, from position `start` on. */
  function TokensFrom(path: bytes, start: nat): seq<bytes>
    decreases |path| - start
  {
    if start >= |path| then []
    else
      var slash := NextSlash(path, start);
      [path[start..slash]] + if slash == |path| then [] else TokensFrom(path, slash + 1)
  }

  function NamesOf(tokens: seq<bytes>, ascii: bool, name: Naming): (names: seq<wide>)
    ensures |names| == |tokens|
    ensures forall i :: 0 <= i < |names| ==> names[i] == name(tokens[i], ascii)
  {
    seq(|tokens|, i requires 0 <= i < |tokens| => name(tokens[i], ascii))
  }

  function JoinAll(names: seq<wide>): wide {
    if names == [] then [] else Joined(JoinAll(names[..|names| - 1]), names[|names| - 1])
  }

  ghost predicate AllNames(names: seq<wide>) {
    forall i :: 0 <= i < |names| ==> WindowsName(names[i])
  }

  lemma {:induction false} ProjectionJoins(done: seq<wide>, path: bytes, start: nat, ascii: bool, name: Naming,
                                           out: wide, tokens: seq<bytes>)
    requires out == ProjectFrom(JoinAll(done), path, start, ascii, name) && tokens == TokensFrom(path, start)
    ensures out == JoinAll(done + NamesOf(tokens, ascii, name))
    decreases |path| - start
  {
    if start < |path| {
      var slash, next, rest := TokenStep(done, path, start, ascii, name, out, tokens);
      if slash < |path| {
        ProjectionJoins(next, path, slash + 1, ascii, name, out, rest);
        NamesSplit(done, tokens[0], rest, ascii, name);
      } else {
        assert tokens == [tokens[0]] && NamesOf(tokens, ascii, name) == [name(tokens[0], ascii)];
      }
    } else {
      assert done + NamesOf(tokens, ascii, name) == done;
    }
  }

  lemma TokenStep(done: seq<wide>, path: bytes, start: nat, ascii: bool, name: Naming, out: wide, tokens: seq<bytes>)
    returns (slash: nat, next: seq<wide>, rest: seq<bytes>)
    requires start < |path| && tokens == TokensFrom(path, start)
    requires out == ProjectFrom(JoinAll(done), path, start, ascii, name)
    ensures start <= slash <= |path| && tokens == [path[start..slash]] + rest
    ensures next == done + [name(path[start..slash], ascii)]
    ensures slash == |path| ==> rest == [] && out == JoinAll(next)
    ensures slash < |path| ==>
              rest == TokensFrom(path, slash + 1) && out == ProjectFrom(JoinAll(next), path, slash + 1, ascii, name)
  {
    slash := NextSlash(path, start);
    next := done + [name(path[start..slash], ascii)];
    rest := if slash == |path| then [] else TokensFrom(path, slash + 1);
    JoinOneMore(done, name(path[start..slash], ascii));
    ProjectStep(JoinAll(done), path, start, ascii, name);
  }

  lemma JoinOneMore(names: seq<wide>, n: wide)
    ensures JoinAll(names + [n]) == Joined(JoinAll(names), n)
  {
    assert (names + [n])[..|names|] == names;
  }

  lemma NamesSplit(done: seq<wide>, token: bytes, rest: seq<bytes>, ascii: bool, name: Naming)
    ensures done + [name(token, ascii)] + NamesOf(rest, ascii, name) == done + NamesOf([token] + rest, ascii, name)
  {
    assert NamesOf([token] + rest, ascii, name) == [name(token, ascii)] + NamesOf(rest, ascii, name);
  }

  lemma RelativeJoins(path: bytes, ascii: bool, name: Naming)
    ensures Relative(path, ascii, name) == JoinAll(NamesOf(TokensFrom(path, 0), ascii, name))
  {
    var names := NamesOf(TokensFrom(path, 0), ascii, name);
    assert [] + names == names;
    ProjectionJoins([], path, 0, ascii, name, Relative(path, ascii, name), TokensFrom(path, 0));
  }

  lemma AllNamed(tokens: seq<bytes>, ascii: bool, name: Naming)
    requires WindowsNames(name)
    ensures AllNames(NamesOf(tokens, ascii, name))
  {
  }

  lemma NameHasNoSlash(n: wide)
    requires WindowsName(n)
    ensures n != [] && WSLASH !in n
  {
  }

  lemma JoinNotEmpty(names: seq<wide>)
    requires AllNames(names) && names != []
    ensures JoinAll(names) != []
  {
  }

  /** A list of names can be read off the path they are joined to. */
  lemma {:induction false} JoinInjective(a: seq<wide>, b: seq<wide>)
    requires AllNames(a) && AllNames(b) && JoinAll(a) == JoinAll(b)
    ensures a == b
    decreases |a|
  {
    if a != [] { JoinNotEmpty(a); }
    if b != [] { JoinNotEmpty(b); }
    if a != [] && b != [] {
      var x, c, y, d := a[..|a| - 1], a[|a| - 1], b[..|b| - 1], b[|b| - 1];
      NameHasNoSlash(c);
      NameHasNoSlash(d);
      if x != [] { JoinNotEmpty(x); }
      if y != [] { JoinNotEmpty(y); }
      LastJoined(JoinAll(x), c, JoinAll(y), d);
      JoinInjective(x, y);
      assert a == x + [c] && b == y + [d];
    }
  }

  /** Position of the last slash of a wide string, or -1. */
  function WideLastSlash(w: wide): (pos: int)
    ensures -1 <= pos < |w| && (pos >= 0 ==> w[pos] == WSLASH)
    ensures forall i :: pos < i < |w| ==> w[i] != WSLASH
  {
    if w == [] then -1
    else if w[|w| - 1] == WSLASH then |w| - 1
    else WideLastSlash(w[..|w| - 1])
  }

  lemma JoinedLastSlash(x: wide, c: wide)
    requires WSLASH !in c
    ensures WideLastSlash(Joined(x, c)) == if x == [] then -1 else |x|
  {
    var w, lead := Joined(x, c), if x == [] then 0 else |x| + 1;
    forall i | lead <= i < |w| ensures w[i] != WSLASH {
      assert w[i] == c[i - lead];
    }
    assert x != [] ==> w[|x|] == WSLASH;
  }

  lemma LastJoined(x: wide, c: wide, y: wide, d: wide)
    requires WSLASH !in c && WSLASH !in d && Joined(x, c) == Joined(y, d)
    ensures x == y && c == d
  {
    JoinedLastSlash(x, c);
    JoinedLastSlash(y, d);
    assert |x| == |y|;
    var w := Joined(x, c);
    if x != [] {
      assert x == w[..|x|] && y == w[..|y|] && c == w[|x| + 1..] && d == w[|y| + 1..];
    }
  }

  /** Two paths, each named one way, have the same key exactly if their components have the same names. */
  lemma SameKeySameNames(p: bytes, a: bool, q: bytes, b: bool, name: Naming)
    requires WindowsNames(name) && Key(p, a, name) == Key(q, b, name)
    ensures NamesOf(TokensFrom(p, 0), a, name) == NamesOf(TokensFrom(q, 0), b, name)
  {
    assert Relative(p, a, name) == Key(p, a, name)[1..] == Key(q, b, name)[1..] == Relative(q, b, name);
    RelativeJoins(p, a, name);
    RelativeJoins(q, b, name);
    AllNamed(TokensFrom(p, 0), a, name);
    AllNamed(TokensFrom(q, 0), b, name);
    JoinInjective(NamesOf(TokensFrom(p, 0), a, name), NamesOf(TokensFrom(q, 0), b, name));
  }

  // ----- names that tell components apart enough

  /** Fallback names show how long the component is; and the display name of an empty text or of one
      that ends in a backslash is no fallback name. */
  ghost predicate Telling(name: Naming) {
    && (forall s, t :: name(s, true) == name(t, true) ==> |s| == |t|)
    && (forall s, t :: s == [] || s[|s| - 1] == BACKSLASH ==> name(s, false) != name(t, true))
  }

  /** What decoding by code page does: the empty text stays empty, and a backslash at the end stays one. */
  ghost predicate Decoding(toWide: bytes -> wide) {
    && toWide([]) == []
    && forall s: bytes :: s != [] && s[|s| - 1] == BACKSLASH ==>
         toWide(s) != [] && toWide(s)[|toWide(s)| - 1] == WBACKSLASH
  }

  const FILE_TEXT: bytes := [102, 105, 108, 101]

  lemma FnvStep(token: bytes, b: byte)
    ensures Fnv(token + [b]) == FnvMix(Fnv(token), b)
  {
    assert (token + [b])[..|token|] == token;
  }

  lemma FileSteps()
    ensures FnvMix(2166136261, 102) == 3809224601 && FnvMix(3809224601, 105) == 1545789136
    ensures FnvMix(1545789136, 108) == 3336872436 && FnvMix(3336872436, 101) == 2867484483
  {
  }

  lemma FileHash()
    ensures Fnv(FILE_TEXT) != Fnv([])
  {
    FileSteps();
    FnvStep([], 102);
    FnvStep([102], 105);
    FnvStep([102, 105], 108);
    FnvStep([102, 105, 108], 101);
    assert [] + [102] == [102] && [102] + [105] == [102, 105] && [102, 105] + [108] == [102, 105, 108];
    assert [102, 105, 108] + [101] == FILE_TEXT;
  }

  lemma {:induction false} AsciiOnlyAt(token: bytes, i: nat)
    requires i < |token|
    ensures |AsciiOnly(token)| == |token| && AsciiOnly(token)[i] == if Ascii(token[i]) then token[i] else UNDERSCORE
    decreases |token|
  {
    var front := token[..|token| - 1];
    if i < |front| {
      AsciiOnlyAt(front, i);
    } else if front != [] {
      AsciiOnlyAt(front, 0);
    }
  }

  lemma AsciiOnlyIsFile(token: bytes)
    requires token != [] && AsciiOnly(token) == FILE_TEXT
    ensures token == FILE_TEXT
  {
    AsciiOnlyAt(token, 0);
    forall i | 0 <= i < |token| ensures token[i] == FILE_TEXT[i] {
      AsciiOnlyAt(token, i);
    }
  }

  lemma FallbackTellsLength(s: bytes, t: bytes)
    requires AsciiFallback(s) == AsciiFallback(t)
    ensures |s| == |t|
  {
    FallbackKeepsHash(s, t);
    FallbackKeepsHash(t, s);
    BasesEqual(FallbackBase(s), HashSuffix(Fnv(s)), FallbackBase(t), HashSuffix(Fnv(t)));
    FileHash();
    if s != [] { AsciiOnlyAt(s, 0); }
    if t != [] { AsciiOnlyAt(t, 0); }
    if s == [] && t != [] { AsciiOnlyIsFile(t); }
    if t == [] && s != [] { AsciiOnlyIsFile(s); }
  }

  lemma BasesEqual(x: wide, a: wide, y: wide, b: wide)
    requires x + a == y + b && |a| == |b|
    ensures x == y
  {
    assert x == (x + a)[..|x|] && y == (y + b)[..|y|];
  }

  lemma FallbackEndsInHex(token: bytes)
    ensures AsciiFallback(token)[|AsciiFallback(token)| - 1] != UNDERSCORE
  {
    FallbackKeepsHash(token, token);
    var suffix := HashSuffix(Fnv(token));
    assert AsciiFallback(token)[|AsciiFallback(token)| - 1] == suffix[8];
    NibbleSmall(Fnv(token));
  }

  lemma DisplayEndsOpen(w: wide)
    requires w == [] || w[|w| - 1] == WBACKSLASH
    ensures Sanitize(w)[|Sanitize(w)| - 1] == UNDERSCORE
  {
  }

  lemma NamesByTelling(toWide: bytes -> wide)
    requires Decoding(toWide)
    ensures Telling(NamesBy(toWide))
  {
    var name := NamesBy(toWide);
    forall s, t | name(s, true) == name(t, true) ensures |s| == |t| {
      NamesAre(toWide, s);
      NamesAre(toWide, t);
      FallbackTellsLength(s, t);
    }
    forall s, t | s == [] || s[|s| - 1] == BACKSLASH ensures name(s, false) != name(t, true) {
      NamesAre(toWide, s);
      NamesAre(toWide, t);
      DisplayIsNoFallback(toWide(s), t);
    }
  }

  lemma NamesAre(toWide: bytes -> wide, token: bytes)
    ensures NamesBy(toWide)(token, false) == Sanitize(toWide(token))
    ensures NamesBy(toWide)(token, true) == AsciiFallback(token)
  {
  }

  lemma DisplayIsNoFallback(w: wide, token: bytes)
    requires w == [] || w[|w| - 1] == WBACKSLASH
    ensures Sanitize(w) != AsciiFallback(token)
  {
    DisplayEndsOpen(w);
    FallbackEndsInHex(token);
  }

  // ----- a path that has the key of a virtual path spells it

  /** Two paths of which the second ends where the first does, or in one slash more. */
  ghost predicate EndTogether(v: bytes, q: bytes) {
    && v != [] && v[|v| - 1] != SLASH
    && (|q| == |v| || (|q| == |v| + 1 && q[|v|] == SLASH))
  }

  lemma TokensStep(path: bytes, start: nat, tokens: seq<bytes>) returns (slash: nat, rest: seq<bytes>)
    requires start < |path| && tokens == TokensFrom(path, start)
    ensures start <= slash <= |path| && slash == NextSlash(path, start)
    ensures |tokens| == 1 + |rest| && tokens[0] == path[start..slash] && tokens[1..] == rest
    ensures if slash + 1 < |path| then rest != [] && rest == TokensFrom(path, slash + 1) else rest == []
  {
    slash := NextSlash(path, start);
    rest := if slash == |path| then [] else TokensFrom(path, slash + 1);
    assert tokens == [path[start..slash]] + rest;
    if slash + 1 < |path| {
      SomeToken(path, slash + 1, rest);
    }
  }

  lemma SomeToken(path: bytes, start: nat, tokens: seq<bytes>)
    requires start < |path| && tokens == TokensFrom(path, start)
    ensures tokens != []
  {
  }

  // How many components there are.

  /** The slashes from position `start` on, the last character left out. */
  function Slashes(path: bytes, start: nat): nat
    decreases |path| - start
  {
    if start + 1 >= |path| then 0 else (if path[start] == SLASH then 1 else 0) + Slashes(path, start + 1)
  }

  lemma {:induction false} SlashesSkip(path: bytes, start: nat, end: nat)
    requires start <= end <= |path| && forall i :: start <= i < end ==> path[i] != SLASH
    ensures Slashes(path, start) == Slashes(path, end)
    decreases end - start
  {
    if start < end {
      SlashesSkip(path, start + 1, end);
    }
  }

  lemma {:induction false} TokenCount(path: bytes, start: nat, tokens: seq<bytes>)
    requires start < |path| && tokens == TokensFrom(path, start)
    ensures |tokens| == 1 + Slashes(path, start)
    decreases |path| - start
  {
    var slash, rest := TokensStep(path, start, tokens);
    SlashesSkip(path, start, slash);
    SlashesStep(path, slash);
    if rest != [] {
      TokenCount(path, slash + 1, rest);
    }
  }

  lemma SlashesStep(path: bytes, slash: nat)
    requires slash <= |path| && (slash < |path| ==> path[slash] == SLASH)
    ensures Slashes(path, slash) == if slash + 1 < |path| then 1 + Slashes(path, slash + 1) else 0
  {
  }

  // How long they are.

  function SumLengths(tokens: seq<bytes>): nat {
    if tokens == [] then 0 else |tokens[0]| + SumLengths(tokens[1..])
  }

  lemma {:induction false} SameSums(a: seq<bytes>, b: seq<bytes>)
    requires |a| == |b| && forall i :: 0 <= i < |a| ==> |a[i]| == |b[i]|
    ensures SumLengths(a) == SumLengths(b)
    decreases |a|
  {
    if a != [] {
      SameSums(a[1..], b[1..]);
    }
  }

  /** Where the last component ends: at the end, or before one slash there. */
  function LastEnd(path: bytes): nat
    requires path != []
  {
    if path[|path| - 1] == SLASH then |path| - 1 else |path|
  }

  lemma {:induction false} TokenSum(path: bytes, start: nat, tokens: seq<bytes>)
    requires start < |path| && tokens == TokensFrom(path, start)
    ensures SumLengths(tokens) + |tokens| == LastEnd(path) - start + 1
    decreases |path| - start
  {
    var slash, rest := TokensStep(path, start, tokens);
    assert SumLengths(tokens) == slash - start + SumLengths(rest);
    if rest != [] {
      TokenSum(path, slash + 1, rest);
    } else {
      AtLastEnd(path, start, slash);
    }
  }

  lemma AtLastEnd(path: bytes, start: nat, slash: nat)
    requires start < |path| && slash == NextSlash(path, start) && slash + 1 >= |path|
    ensures slash == LastEnd(path)
  {
  }

  /** From position `start` on, `q` has a slash wherever `v` has one. */
  ghost predicate Covers(q: bytes, v: bytes, start: nat)
    requires |v| <= |q|
  {
    forall p :: start <= p < |v| && v[p] == SLASH ==> q[p] == SLASH
  }

  /** Within the length of `v`, `q` has no slash where `v` has none. */
  ghost predicate Within(q: bytes, v: bytes)
    requires |v| <= |q|
  {
    forall p :: 0 <= p < |v| && q[p] == SLASH ==> v[p] == SLASH
  }

  /** Where one path has slashes only where the other has, it has no more of them, and as many only if it
      has them all. */
  lemma {:induction false} CountsAlign(v: bytes, q: bytes, start: nat)
    requires start < |v| && EndTogether(v, q) && Within(q, v)
    ensures Slashes(q, start) <= Slashes(v, start)
    ensures Slashes(q, start) == Slashes(v, start) ==> Covers(q, v, start)
    decreases |v| - start
  {
    if start + 1 < |v| {
      CountsAlign(v, q, start + 1);
    }
  }

  /** The last component ends where the path does, or one slash before. */
  lemma {:induction false} LastToken(q: bytes, start: nat, tokens: seq<bytes>) returns (from: nat, end: nat)
    requires start < |q| && tokens == TokensFrom(q, start)
    ensures tokens != [] && start <= from <= end <= |q| && (end == |q| || (end + 1 == |q| && q[end] == SLASH))
    ensures tokens[|tokens| - 1] == q[from..end] && forall i :: from <= i < end ==> q[i] != SLASH
    decreases |q| - start
  {
    var slash, rest := TokensStep(q, start, tokens);
    if rest != [] {
      from, end := LastToken(q, slash + 1, rest);
    } else {
      from, end := start, slash;
    }
  }

  /** Character by character the registered path is the virtual path but for separators; so with the same
      ends and the slashes in the same places it begins with it. */
  lemma AlignedSpells(path: bytes, q: bytes, v: bytes)
    requires Clean(Normalize(path)) && BoundaryPath(Bare(path), q) && v == Normalize(path)[1..]
    requires EndTogether(v, q) && Covers(q, v, 0)
    ensures Spelled(path)
  {
    var bare := Bare(path);
    BareShape(path);
    forall i | 0 <= i < |v| ensures bare[i] == v[i] {
      assert q[i] == bare[i] && AsSlash(bare[i]) == v[i];
    }
    assert bare[..|v|] == v;
  }

  lemma RegisteredWithin(path: bytes, q: bytes, v: bytes)
    requires Clean(Normalize(path)) && BoundaryPath(Bare(path), q) && v == Normalize(path)[1..] && |v| <= |q|
    ensures v != [] && v[|v| - 1] != SLASH && Within(q, v)
    ensures forall i :: |v| <= i < |q| ==> q[i] == SLASH || q[i] == BACKSLASH
  {
    var n, bare := Normalize(path), Bare(path);
    BareShape(path);
    assert v[|v| - 1] == n[|n| - 1];
    forall p | 0 <= p < |v| && q[p] == SLASH ensures v[p] == SLASH {
      assert AsSlash(bare[p]) == n[p + 1];
    }
    forall i | |v| <= i < |q| ensures q[i] == SLASH || q[i] == BACKSLASH {
      assert AsSlash(bare[i]) == SLASH;
    }
  }

  /** Two lists of components with the same names, the second the fallback names. */
  ghost predicate SameNames(a: seq<bytes>, ascii: bool, b: seq<bytes>, name: Naming) {
    |a| == |b| && forall i :: 0 <= i < |a| ==> name(a[i], ascii) == name(b[i], true)
  }

  lemma NamesEqual(a: seq<bytes>, ascii: bool, b: seq<bytes>, name: Naming)
    requires NamesOf(a, ascii, name) == NamesOf(b, true, name)
    ensures SameNames(a, ascii, b, name)
  {
    var names := NamesOf(a, ascii, name);
    assert forall i :: 0 <= i < |a| ==> names[i] == NamesOf(b, true, name)[i];
  }

  lemma NamesTellLengths(a: seq<bytes>, b: seq<bytes>, name: Naming)
    requires Telling(name) && SameNames(a, true, b, name)
    ensures SumLengths(a) == SumLengths(b)
  {
    forall i | 0 <= i < |a| ensures |a[i]| == |b[i]| {
      NamesTellLength(a[i], b[i], name);
    }
    SameSums(a, b);
  }

  lemma NamesTellLength(s: bytes, t: bytes, name: Naming)
    requires Telling(name) && name(s, true) == name(t, true)
    ensures |s| == |t|
  {
  }

  lemma LastNameOpen(s: bytes, t: bytes, name: Naming)
    requires Telling(name) && name(s, false) == name(t, true)
    ensures s != [] && s[|s| - 1] != BACKSLASH
  {
  }

  /** A registered path with the fallback names of the file's virtual path ends with it: by the lengths of
      the components, if these names are fallback names, ... */
  lemma FallbackEndsTogether(q: bytes, v: bytes, a: seq<bytes>, b: seq<bytes>)
    requires v != [] && v[|v| - 1] != SLASH && |v| <= |q|
    requires a == TokensFrom(q, 0) && b == TokensFrom(v, 0) && |a| == |b| && SumLengths(a) == SumLengths(b)
    ensures EndTogether(v, q)
  {
    TokenSum(q, 0, a);
    TokenSum(v, 0, b);
  }

  /** ... and because the last component ends open otherwise, if these are display names. */
  lemma DisplayEndsTogether(q: bytes, v: bytes, a: seq<bytes>)
    requires v != [] && v[|v| - 1] != SLASH && |v| <= |q| && Within(q, v)
    requires forall i :: |v| <= i < |q| ==> q[i] == SLASH || q[i] == BACKSLASH
    requires a == TokensFrom(q, 0) && a != [] && a[|a| - 1] != [] && a[|a| - 1][|a[|a| - 1]| - 1] != BACKSLASH
    ensures EndTogether(v, q)
  {
    var end := LastCharacterAt(q, a);
    EndsThere(q, v, end);
  }

  lemma LastCharacterAt(q: bytes, a: seq<bytes>) returns (end: nat)
    requires q != [] && a == TokensFrom(q, 0) && a != [] && a[|a| - 1] != []
    ensures 0 < end <= |q| && (end == |q| || (end + 1 == |q| && q[end] == SLASH))
    ensures q[end - 1] == a[|a| - 1][|a[|a| - 1]| - 1] && q[end - 1] != SLASH
  {
    var from;
    from, end := LastToken(q, 0, a);
    SliceEnd(q, from, end, a[|a| - 1]);
  }

  lemma SliceEnd(q: bytes, from: nat, end: nat, last: bytes)
    requires from <= end <= |q| && last == q[from..end] && last != []
    ensures from < end && last[|last| - 1] == q[end - 1]
  {
  }

  lemma EndsThere(q: bytes, v: bytes, end: nat)
    requires v != [] && v[|v| - 1] != SLASH && |v| <= |q| && Within(q, v)
    requires forall i :: |v| <= i < |q| ==> q[i] == SLASH || q[i] == BACKSLASH
    requires 0 < end <= |q| && (end == |q| || (end + 1 == |q| && q[end] == SLASH))
    requires q[end - 1] != SLASH && q[end - 1] != BACKSLASH
    ensures EndTogether(v, q)
  {
    assert end - 1 < |v|;
    if end < |v| {
      assert end == |v| - 1 && q[end] == SLASH && v[end] == SLASH;
    }
  }

  lemma KeySpells(path: bytes, q: bytes, ascii: bool, name: Naming)
    requires WindowsNames(name) && Telling(name) && Clean(Normalize(path)) && BoundaryPath(Bare(path), q)
    requires |Normalize(path)| - 1 <= |q| && Key(q, ascii, name) == Key(Normalize(path)[1..], true, name)
    ensures Spelled(path)
  {
    var v := Normalize(path)[1..];
    RegisteredWithin(path, q, v);
    SameKeySameNames(q, ascii, v, true, name);
    KeyAligns(q, v, TokensFrom(q, 0), TokensFrom(v, 0), ascii, name);
    AlignedSpells(path, q, v);
  }

  /** A path with such names has its slashes where the virtual path has them, and ends with it. */
  lemma KeyAligns(q: bytes, v: bytes, a: seq<bytes>, b: seq<bytes>, ascii: bool, name: Naming)
    requires Telling(name) && v != [] && v[|v| - 1] != SLASH && |v| <= |q| && Within(q, v)
    requires forall i :: |v| <= i < |q| ==> q[i] == SLASH || q[i] == BACKSLASH
    requires a == TokensFrom(q, 0) && b == TokensFrom(v, 0) && NamesOf(a, ascii, name) == NamesOf(b, true, name)
    ensures EndTogether(v, q) && Covers(q, v, 0)
  {
    NamesEqual(a, ascii, b, name);
    TokenCount(q, 0, a);
    TokenCount(v, 0, b);
    if ascii {
      NamesTellLengths(a, b, name);
      FallbackEndsTogether(q, v, a, b);
    } else {
      LastNameOpen(a[|a| - 1], b[|b| - 1], name);
      DisplayEndsTogether(q, v, a);
    }
    CountsAlign(v, q, 0);
  }

  /** The file that registers a path which leads to a file of the tree is that file. */
  lemma {:induction false} RegisteredByItself(files: seq<FileRecord>, j: nat, q: bytes)
    requires Tree(Build(files)) && j < |files| && q != [] && q in PathsOf(files, |files|)
    requires Normalize(ROOT + q) == Normalize(files[j].relativePath)
    ensures BoundaryPath(Bare(files[j].relativePath), q) && |Normalize(files[j].relativePath)| - 1 <= |q|
  {
    PathsOfMember(files, |files|, q);
    var i :| 0 <= i < |files| && Registers(files[i].relativePath, q);
    TreeFile(files, i);
    TreeFile(files, j);
    var path, n := files[i].relativePath, Normalize(files[j].relativePath);
    BareShape(path);
    RegistersBoundaries(path, q);
    RegisteredAbove(path, q);
    RegisteredVirtual(path, q);
    NotUnderItself(n);
    SameFile(FileEntries(files), i, j);
  }

  lemma SameFile(es: seq<FileEntry>, i: nat, j: nat)
    requires Separate(es) && i < |es| && j < |es| && AtOrUnder(es[i].virtualPath, es[j].virtualPath)
    ensures i == j
  {
  }

  /** Where the fallback name of a file leads to it, its relative path spells its virtual path. */
  lemma {:induction false} ResolvedSpelled(files: seq<FileRecord>, name: Naming, j: nat)
    requires WindowsNames(name) && Telling(name) && Tree(Build(files)) && j < |files|
    requires ResolvesAll(IndexFirst(files, |files|, name), Build(files), name)
    ensures Spelled(files[j].relativePath)
  {
    var m, ix, path := IndexFirst(files, |files|, name), Build(files), files[j].relativePath;
    var n := Normalize(path);
    TreeFile(files, j);
    FileAtOrAbove(files, j, n);
    EntryAtOrAbove(files, n);
    var key := Key(n[1..], true, name);
    AskedKey(n[1..], true, name);
    assert Ask(m, ix, n, true, name) == Some(ix.entries[n]);
    var q := FirstRegistered(files, name, key);
    RegisteredLooksUp(files, q);
    EntryPath(ix, n);
    assert Placed(ix, Normalize(ROOT + q));
    RegisteredByItself(files, j, q);
    KeySpells(path, q, key == Key(q, true, name), name);
  }

  // ----- where paths are spelled and no key is shared, every name resolves

  lemma {:induction false} SameNextSlash(v: bytes, q: bytes, start: nat)
    requires v <= q && start <= |v| && (|q| == |v| || q[|v|] == SLASH)
    ensures NextSlash(q, start) == NextSlash(v, start)
    decreases |v| - start
  {
    if start < |v| && v[start] != SLASH {
      SameNextSlash(v, q, start + 1);
    }
  }

  /** `q` is `v`, or goes on behind a slash. */
  ghost predicate GoesOn(v: bytes, q: bytes) {
    v != [] && v <= q && v[|v| - 1] != SLASH && (|q| == |v| || q[|v|] == SLASH)
  }

  lemma {:induction false} ProjectExtends(out: wide, v: bytes, q: bytes, start: nat, ascii: bool, name: Naming,
                                          whole: wide, front: wide)
    requires GoesOn(v, q) && start < |v|
    requires whole == ProjectFrom(out, q, start, ascii, name) && front == ProjectFrom(out, v, start, ascii, name)
    ensures whole == ProjectFrom(front, q, |v| + 1, ascii, name)
    decreases |v| - start
  {
    var slash, next := ExtendStep(out, v, q, start, ascii, name, whole, front);
    if slash < |v| {
      ProjectExtends(next, v, q, slash + 1, ascii, name, whole, front);
    }
  }

  lemma ExtendStep(out: wide, v: bytes, q: bytes, start: nat, ascii: bool, name: Naming, whole: wide, front: wide)
    returns (slash: nat, next: wide)
    requires GoesOn(v, q) && start < |v|
    requires whole == ProjectFrom(out, q, start, ascii, name) && front == ProjectFrom(out, v, start, ascii, name)
    ensures start <= slash <= |v| && (slash < |v| ==> slash + 1 < |v|)
    ensures slash < |v| ==>
              whole == ProjectFrom(next, q, slash + 1, ascii, name) && front == ProjectFrom(next, v, slash + 1, ascii, name)
    ensures slash == |v| ==> whole == ProjectFrom(front, q, |v| + 1, ascii, name)
  {
    slash := NextSlash(v, start);
    next := Joined(out, name(v[start..slash], ascii));
    ExtendToken(v, q, start, slash);
    ProjectStep(out, v, start, ascii, name);
    ProjectStep(out, q, start, ascii, name);
  }

  lemma ExtendToken(v: bytes, q: bytes, start: nat, slash: nat)
    requires GoesOn(v, q) && start < |v| && slash == NextSlash(v, start)
    ensures slash == NextSlash(q, start) && v[start..slash] == q[start..slash]
    ensures (slash < |v| ==> slash + 1 < |v|) && (slash == |q| ==> slash == |v|)
  {
    SameNextSlash(v, q, start);
  }

  lemma {:induction false} ProjectGrows(out: wide, path: bytes, start: nat, ascii: bool, name: Naming, whole: wide)
    requires WindowsNames(name) && out != [] && whole == ProjectFrom(out, path, start, ascii, name)
    ensures whole == out || out + WROOT <= whole
    decreases |path| - start
  {
    if start < |path| {
      var slash := NextSlash(path, start);
      var next := Joined(out, name(path[start..slash], ascii));
      ProjectStep(out, path, start, ascii, name);
      if slash < |path| {
        ProjectGrows(next, path, slash + 1, ascii, name, whole);
        PrefixOfPrefix(out + WROOT, next, whole);
      }
    }
  }

  lemma PrefixOfPrefix(a: wide, b: wide, c: wide)
    requires a <= b && (b == c || b + WROOT <= c)
    ensures a <= c
  {
    if b != c {
      assert b == c[..|b|];
    }
  }

  /** What is behind the virtual path in a registered path adds components to its key, or nothing. */
  lemma TailKey(v: bytes, q: bytes, ascii: bool, name: Naming)
    requires WindowsNames(name) && GoesOn(v, q)
    ensures Key(q, ascii, name) == Key(v, ascii, name) || Key(v, ascii, name) + WROOT <= Key(q, ascii, name)
  {
    var front, whole := Relative(v, ascii, name), Relative(q, ascii, name);
    ProjectionAskable([], v, 0, ascii, name);
    ProjectExtends([], v, q, 0, ascii, name, whole, front);
    ProjectGrows(front, q, |v| + 1, ascii, name, whole);
    KeyPrefix(front, whole);
  }

  lemma KeyPrefix(x: wide, y: wide)
    ensures x + WROOT <= y ==> WROOT + x + WROOT <= WROOT + y
  {
    if x + WROOT <= y {
      assert WROOT + y == WROOT + (x + WROOT) + y[|x| + 1..];
    }
  }

  /** Where a key goes on behind a slash, a directory above has the key before it. */
  lemma {:induction false} DirectoryWithKey(k: bytes, ascii: bool, name: Naming, x: wide) returns (l: bytes)
    requires Clean(k) && WindowsNames(name) && |x| > 1 && x + WROOT <= Key(k[1..], ascii, name)
    ensures l != [] && l != ROOT && Under(k, l) && Key(l[1..], ascii, name) == x
    decreases |k|
  {
    var d, leaf := ParentOf(k), k[LastSlash(k) + 1..];
    var above := if d == ROOT then [] else Key(d[1..], ascii, name);
    KeyOfChild(k, ascii, name);
    CleanParent(k);
    NameHasNoSlash(name(leaf, ascii));
    SlashInFront(above, name(leaf, ascii), x);
    if x == above {
      l := d;
    } else {
      l := DirectoryWithKey(d, ascii, name, x);
      UnderTransitive(k, d, l);
    }
  }

  lemma SlashInFront(above: wide, n: wide, x: wide)
    requires WSLASH !in n && x + WROOT <= above + WROOT + n
    ensures x == above || x + WROOT <= above
  {
    var w := above + WROOT + n;
    assert w[|x|] == (x + WROOT)[|x|] == WSLASH;
    forall i | |above| < i < |w| ensures w[i] != WSLASH {
      assert w[i] == n[i - |above| - 1] && w[i] in n;
    }
    assert x == w[..|x|];
  }

  /** A key of the tree is not that of a file with more behind it. */
  lemma NoKeyBelowFile(ix: Index, name: Naming, k: bytes, a: bool, v: bytes, b: bool)
    requires WindowsNames(name) && Tree(ix) && NoSharedKey(ix, name) && k in ix.entries && v in ix.entries
    requires k != ROOT && k != [] && v != ROOT && |v| > 1 && !ix.entries[v].isDirectory
    requires Key(v[1..], b, name) != WROOT
    ensures !(Key(v[1..], b, name) + WROOT <= Key(k[1..], a, name))
  {
    var x := Key(v[1..], b, name);
    if x + WROOT <= Key(k[1..], a, name) {
      EntryPath(ix, k);
      var l := DirectoryWithKey(k, a, name, x);
      UnderInTree(ix, k, l);
      assert SameKey(l, v, a, b, name);
    }
  }

  /** The entry a registered path leads to. */
  lemma {:induction false} SpelledResolves(files: seq<FileRecord>, name: Naming, k: bytes, a: bool)
    requires WindowsNames(name) && Tree(Build(files)) && AllSpelled(files) && NoSharedKey(Build(files), name)
    requires k in Build(files).entries && k != ROOT && k != []
    ensures var m, key := IndexFirst(files, |files|, name), Key(k[1..], a, name);
            key in m && Normalize(m[key]) == k
  {
    var ix, key := Build(files), Key(k[1..], a, name);
    EntryPath(ix, k);
    assert Holder(ix, k, key, name);
    HolderIsHeld(files, name, key, k);
    var q := FirstRegistered(files, name, key);
    var b := key == Key(q, true, name);
    PathsOfMember(files, |files|, q);
    var j :| 0 <= j < |files| && Registers(files[j].relativePath, q);
    TreeFile(files, j);
    BareShape(files[j].relativePath);
    RegistersBoundaries(files[j].relativePath, q);
    RegisteredVirtual(files[j].relativePath, q);
    FileAtOrAbove(files, j, Normalize(files[j].relativePath));
    EntryAtOrAbove(files, Normalize(files[j].relativePath));
    RegisteredLooksUp(files, q);
    FileInTree(files, j);
    RegisteredIs(ix, name, files[j].relativePath, q, k, a, b);
  }

  lemma FileInTree(files: seq<FileRecord>, j: nat)
    requires Tree(Build(files)) && j < |files|
    ensures var n := Normalize(files[j].relativePath);
            n in Build(files).entries && !Build(files).entries[n].isDirectory
  {
    TreeFile(files, j);
    NamespaceContents(files);
    assert HoldsFile(Build(files), FileEntries(files)[j]);
  }

  lemma RegisteredIs(ix: Index, name: Naming, path: bytes, q: bytes, k: bytes, a: bool, b: bool)
    requires WindowsNames(name) && Tree(ix) && NoSharedKey(ix, name) && Clean(Normalize(path)) && Spelled(path)
    requires q != [] && BoundaryPath(Bare(path), q) && Normalize(ROOT + q) in ix.entries
    requires Normalize(path) in ix.entries && !ix.entries[Normalize(path)].isDirectory
    requires k in ix.entries && k != ROOT && k != [] && Key(k[1..], a, name) == Key(q, b, name)
    ensures Normalize(ROOT + q) == k
  {
    var n := Normalize(path);
    RegisteredVirtual(path, q);
    if |q| < |n| - 1 {
      assert n[1..][..|q|] == q;
      assert n[..|q| + 1][1..] == q;
      assert SameKey(k, n[..|q| + 1], a, b, name);
    } else {
      assert n[1..][|n| - 2] == n[|n| - 1];
      TailKey(n[1..], q, b, name);
      AskedKey(n[1..], b, name);
      NoKeyBelowFile(ix, name, k, a, n, b);
      assert SameKey(k, n, a, b, name);
    }
  }

  lemma UnsharedResolves(files: seq<FileRecord>, name: Naming)
    requires WindowsNames(name) && Tree(Build(files)) && AllSpelled(files) && NoSharedKey(Build(files), name)
    ensures ResolvesAll(IndexFirst(files, |files|, name), Build(files), name)
  {
    var m, ix := IndexFirst(files, |files|, name), Build(files);
    forall k, a | k in ix.entries && k != ROOT && k != [] ensures Ask(m, ix, k, a, name) == Some(ix.entries[k]) {
      SpelledResolves(files, name, k, a);
      EntryPath(ix, k);
      AskedKey(k[1..], a, name);
    }
  }

  /** For every list of files whose index is a tree: every display name and every fallback name leads to
      the entry it is the name of if and only if no two paths of the tree share a projected key and every
      file's relative path spells its virtual path. */
  lemma {:induction false} ResolvesIffSpelledUnshared(files: seq<FileRecord>, name: Naming)
    requires WindowsNames(name) && Telling(name) && Tree(Build(files))
    ensures var m, ix := IndexFirst(files, |files|, name), Build(files);
            ResolvesAll(m, ix, name) <==> NoSharedKey(ix, name) && AllSpelled(files)
  {
    var m, ix := IndexFirst(files, |files|, name), Build(files);
    if ResolvesAll(m, ix, name) {
      ResolvedUnshared(m, ix, name);
      forall j | 0 <= j < |files| ensures Spelled(files[j].relativePath) {
        ResolvedSpelled(files, name, j);
      }
    }
    if NoSharedKey(ix, name) && AllSpelled(files) {
      UnsharedResolves(files, name);
    }
  }
}
