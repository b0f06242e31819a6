/** Which paths a file registers in the projected index, and what these are in the namespace: the index
    splits a relative path at slashes only, while the namespace takes backslashes for slashes first. */
module SpelledPaths {
  import opened Bytes
  import opened Namespace
  import opened NamespaceTree
  import opened NamespaceWalk
  import opened Projected

  // ----- the paths a file registers

  predicate Registers(path: bytes, q: bytes) {
    q in PathsFrom(path, [], 0)
  }

  /** Where a component ends when the path is split at slashes; behind a last slash there is none. */
  predicate Boundary(path: bytes, i: nat) {
    0 < i <= |path| && if i < |path| then path[i] == SLASH else path[i - 1] != SLASH
  }

  predicate BoundaryPath(path: bytes, q: bytes) {
    |q| <= |path| && Boundary(path, |q|) && q == path[..|q|]
  }

  /** `paths` is what is registered from position `start` on, and what was built before, from position
      `lead` on, ends there. */
  ghost predicate Registering(path: bytes, lead: nat, current: bytes, start: nat, paths: seq<bytes>) {
    && lead <= start < |path| && path[lead] != SLASH && paths == PathsFrom(path, current, start)
    && if start == lead then current == [] else path[start - 1] == SLASH && current == path[lead..start - 1]
  }

  /** `q` ends at a boundary at position `start` or later. */
  ghost predicate EndsFrom(path: bytes, lead: nat, start: nat, q: bytes) {
    var end := lead + |q|;
    start <= end <= |path| && Boundary(path, end) && q == path[lead..end]
  }

  /** The next path registered is the one that ends at the next boundary. */
  lemma NextPath(path: bytes, lead: nat, current: bytes, start: nat, slash: nat)
    requires Registering(path, lead, current, start, PathsFrom(path, current, start)) && slash == NextSlash(path, start)
    ensures JoinedPath(current, path[start..slash]) == path[lead..slash]
    ensures forall n :: start <= n <= slash ==> (Boundary(path, n) <==> n == slash)
  {
    if start > lead {
      assert start - 1 > lead;
      assert path[lead..start - 1] + ROOT == path[lead..start];
    }
    assert path[lead..start] + path[start..slash] == path[lead..slash];
  }

  lemma {:induction false} PathsAreBoundaries(path: bytes, lead: nat, current: bytes, start: nat, paths: seq<bytes>,
                                              q: bytes)
    requires Registering(path, lead, current, start, paths)
    ensures q in paths <==> EndsFrom(path, lead, start, q)
    decreases |path| - start
  {
    var slash, rest := NextBoundary(path, lead, current, start, paths, q);
    if rest != [] {
      PathsAreBoundaries(path, lead, path[lead..slash], slash + 1, rest, q);
    }
  }

  lemma NextBoundary(path: bytes, lead: nat, current: bytes, start: nat, paths: seq<bytes>, q: bytes)
    returns (slash: nat, rest: seq<bytes>)
    requires Registering(path, lead, current, start, paths)
    ensures start <= slash <= |path| && (rest != [] ==> Registering(path, lead, path[lead..slash], slash + 1, rest))
    ensures q in paths <==> q == path[lead..slash] || q in rest
    ensures EndsFrom(path, lead, start, q) <==>
              q == path[lead..slash] || (rest != [] && EndsFrom(path, lead, slash + 1, q))
  {
    slash := NextSlash(path, start);
    NextPath(path, lead, current, start, slash);
    var next := path[lead..slash];
    rest := if slash == |path| then [] else PathsFrom(path, next, slash + 1);
    PathsFromStep(path, current, start, next, rest);
    NextOrLater(path, lead, start, slash, rest != [], q);
    assert paths == [next] + rest;
  }

  lemma NextOrLater(path: bytes, lead: nat, start: nat, slash: nat, more: bool, q: bytes)
    requires lead <= start <= slash <= |path| && (more <==> slash + 1 < |path|) && (slash < |path| ==> path[slash] == SLASH)
    requires forall n :: start <= n <= slash ==> (Boundary(path, n) <==> n == slash)
    ensures EndsFrom(path, lead, start, q) <==>
              q == path[lead..slash] || (more && EndsFrom(path, lead, slash + 1, q))
  {
  }

  /** The path without one slash at its start. */
  function Bare(path: bytes): bytes {
    if path != [] && path[0] == SLASH then path[1..] else path
  }

  /** A path with no slash there registers what ends at its boundaries. A slash at its start only
      registers the empty path besides. */
  lemma RegistersBoundaries(path: bytes, q: bytes)
    requires Bare(path) != [] && Bare(path)[0] != SLASH
    ensures Registers(path, q) <==> (q == [] && path[0] == SLASH) || BoundaryPath(Bare(path), q)
  {
    var lead := if path[0] == SLASH then 1 else 0;
    var paths := PathsFrom(path, [], lead);
    PathsAreBoundaries(path, lead, [], lead, paths, q);
    BareBoundary(path, lead, q);
    if lead == 1 {
      LeadingSlash(path, paths);
    }
  }

  lemma LeadingSlash(path: bytes, paths: seq<bytes>)
    requires |path| > 1 && path[0] == SLASH && paths == PathsFrom(path, [], 1)
    ensures PathsFrom(path, [], 0) == [[]] + paths
  {
    assert NextSlash(path, 0) == 0 && path[0..0] == [];
    PathsFromStep(path, [], 0, [], paths);
  }

  lemma BareBoundary(path: bytes, lead: nat, q: bytes)
    requires Bare(path) != [] && Bare(path)[0] != SLASH && lead == if path[0] == SLASH then 1 else 0
    ensures EndsFrom(path, lead, lead, q) <==> BoundaryPath(Bare(path), q)
  {
    assert Bare(path) == path[lead..];
    var end := lead + |q|;
    if end <= |path| {
      assert path[lead..end] == Bare(path)[..|q|];
    }
  }

  // ----- what they are in the namespace

  /** How a relative path and its virtual path hang together: but for separators, character by character. */
  lemma BareShape(path: bytes)
    requires Clean(Normalize(path))
    ensures var n, bare := Normalize(path), Bare(path);
            && |n| - 1 <= |bare| && bare != [] && bare[0] != SLASH
            && (forall i :: 0 <= i < |n| - 1 ==> AsSlash(bare[i]) == n[i + 1])
            && (forall i :: |n| - 1 <= i < |bare| ==> AsSlash(bare[i]) == SLASH)
  {
    var n, bare := Normalize(path), Bare(path);
    assert path != [];
    ShortNormal(path);
    BareKeeps(path);
    assert AsSlash(bare[0]) == n[1];
  }

  lemma BareKeeps(path: bytes)
    requires path != []
    ensures var n, bare := Normalize(path), Bare(path);
            forall i :: 0 <= i < |bare| ==> AsSlash(bare[i]) == if i < |n| - 1 then n[i + 1] else SLASH
  {
    var n, bare, lead := Normalize(path), Bare(path), if path[0] != SLASH then 1 else 0;
    NormalizeKeeps(path);
    forall i | 0 <= i < |bare| ensures AsSlash(bare[i]) == if i < |n| - 1 then n[i + 1] else SLASH {
      assert bare[i] == path[i + 1 - lead];
    }
  }

  lemma ShortNormal(path: bytes)
    requires path != []
    ensures |Normalize(path)| <= |Bare(path)| + 1
  {
    NormalizeKeeps(path);
  }

  /** What is behind a virtual path in its relative path is separators. */
  lemma {:induction false} StripTail(v: bytes, tail: bytes)
    requires |v| > 1 && v[|v| - 1] != SLASH && forall b <- tail :: b == SLASH
    ensures StripSlashes(v + tail) == v
    decreases |tail|
  {
    if tail == [] {
      assert v + tail == v;
    } else {
      var front := tail[..|tail| - 1];
      assert tail[|tail| - 1] in tail && forall b <- front :: b in tail;
      assert (v + tail)[..|v + tail| - 1] == v + front;
      StripTail(v, front);
    }
  }

  lemma SlashedIs(path: bytes, result: bytes)
    requires |result| == |path| && forall i :: 0 <= i < |path| ==> result[i] == AsSlash(path[i])
    ensures Slashed(path) == result
  {
    forall i | 0 <= i < |path| ensures Slashed(path)[i] == result[i] {
      SlashedAt(path, i);
    }
  }

  /** Each registered path is, in the namespace, the file's virtual path or a directory above it. */
  lemma RegisteredVirtual(path: bytes, q: bytes)
    requires Clean(Normalize(path)) && BoundaryPath(Bare(path), q)
    ensures var n := Normalize(path);
            if |q| < |n| - 1 then n[|q| + 1] == SLASH && Normalize(ROOT + q) == n[..|q| + 1]
            else Normalize(ROOT + q) == n
  {
    var n, bare, p := Normalize(path), Bare(path), ROOT + q;
    BareShape(path);
    assert p != ROOT && p[0] == SLASH && [] + Slashed(p) == Slashed(p);
    if |q| < |n| - 1 {
      var v := n[..|q| + 1];
      assert n[|q| + 1] == AsSlash(bare[|q|]) == SLASH;
      assert n[|q|] != SLASH;
      ShownAs(p, n, bare, q, v);
      assert v + [] == v;
      StripTail(v, []);
    } else {
      var tail := seq(|q| - (|n| - 1), _ => SLASH);
      assert forall b <- tail :: b == SLASH;
      ShownAs(p, n, bare, q, n + tail);
      StripTail(n, tail);
    }
  }

  lemma ShownAs(p: bytes, n: bytes, bare: bytes, q: bytes, shown: bytes)
    requires p == ROOT + q && |q| <= |bare| && q == bare[..|q|] && |shown| == |p| && 0 < |n| && n[0] == SLASH
    requires forall i :: 0 <= i < |shown| ==> shown[i] == if i < |n| then n[i] else SLASH
    requires forall i :: 0 <= i < |bare| ==> AsSlash(bare[i]) == if i < |n| - 1 then n[i + 1] else SLASH
    ensures Slashed(p) == shown
  {
    forall i | 0 <= i < |p| ensures shown[i] == AsSlash(p[i]) {
      assert i > 0 ==> p[i] == bare[i - 1];
    }
    SlashedIs(p, shown);
  }

  /** So it is an ancestor of the file's path, or that path. */
  lemma RegisteredAbove(path: bytes, q: bytes)
    requires Clean(Normalize(path)) && BoundaryPath(Bare(path), q)
    ensures AtOrUnder(Normalize(path), Normalize(ROOT + q)) && Normalize(ROOT + q) != ROOT
  {
    var n := Normalize(path);
    RegisteredVirtual(path, q);
    if |q| < |n| - 1 {
      PrefixIsAncestor(n, |q| + 1);
      assert |n[..|q| + 1]| > 1;
    }
  }

  // ----- relative paths that spell their virtual paths

  /** Behind one optional slash the relative path begins as the virtual path does, with slashes for
      separators, and there is a slash or the end behind that. */
  predicate Spelled(path: bytes) {
    var n, bare := Normalize(path), Bare(path);
    n != [] && n[1..] <= bare && (|bare| == |n| - 1 || bare[|n| - 1] == SLASH)
  }

  /** There is nothing more behind it than one slash. */
  predicate Tidy(path: bytes) {
    var n, bare := Normalize(path), Bare(path);
    n != [] && (bare == n[1..] || bare == n[1..] + ROOT)
  }

  lemma TidyIsSpelled(path: bytes)
    ensures Tidy(path) ==> Spelled(path)
  {
  }

  /** A file whose path is spelled registers its virtual path and every directory above it. */
  lemma SpelledRegisters(path: bytes, q: bytes)
    requires Clean(Normalize(path)) && Spelled(path) && q != [] && AtOrUnder(Normalize(path), ROOT + q)
    ensures BoundaryPath(Bare(path), q)
  {
    var n, bare, k := Normalize(path), Bare(path), ROOT + q;
    BareShape(path);
    assert k[1..] == q;
    if k != n {
      assert |k| > 1;
      AncestorIsPrefix(n, k);
      assert n[1..][..|q|] == q;
      assert bare[|q|] == n[1..][|q|] == n[|k|];
    } else {
      assert q == n[1..] && bare[|n| - 2] == n[1..][|n| - 2] == n[|n| - 1];
    }
  }

  /** A file whose path is tidy registers nothing else but, at most, the empty path. */
  lemma FileRegistersAncestors(path: bytes, q: bytes)
    requires Clean(Normalize(path)) && Tidy(path) && q != []
    ensures Registers(path, q) <==> AtOrUnder(Normalize(path), ROOT + q)
  {
    var n, bare := Normalize(path), Bare(path);
    BareShape(path);
    RegistersBoundaries(path, q);
    if BoundaryPath(bare, q) {
      RegisteredAbove(path, q);
      TidyBoundary(path, q);
    }
    if AtOrUnder(n, ROOT + q) {
      TidyIsSpelled(path);
      SpelledRegisters(path, q);
    }
  }

  lemma TidyBoundary(path: bytes, q: bytes)
    requires Clean(Normalize(path)) && Tidy(path) && BoundaryPath(Bare(path), q)
    ensures Normalize(ROOT + q) == ROOT + q
  {
    var n, bare := Normalize(path), Bare(path);
    RegisteredVirtual(path, q);
    FrontOf(n, bare, q);
  }

  lemma FrontOf(n: bytes, bare: bytes, q: bytes)
    requires |n| > 1 && n[0] == SLASH && (bare == n[1..] || bare == n[1..] + ROOT) && BoundaryPath(bare, q)
    ensures |q| < |n| && n[..|q| + 1] == ROOT + q && n[..|n|] == n
  {
    assert |q| <= |n| - 1;
    assert q == n[1..][..|q|];
  }
}
