/** Listings of the projected file system: what a directory lists when asked for by its projected name,
    and which listed names lead back to the entries they were listed for. */
module ProjectedListing {
  import opened Bytes
  import opened Namespace
  import opened NamespaceTree
  import opened NamespaceWalk
  import opened Projected
  import opened SpelledPaths
  import opened ProjectedTheorems
  import opened ProjectedResolution
  import opened DirectoryEnumeration

  // ----- a listed name asked for again

  /** A wide string up to its first zero, as the system takes it. */
  function CString(w: wide): (r: wide)
    ensures |r| <= |w| && (|r| == |w| ==> r == w && 0 !in w)
  {
    if w == [] || w[0] == 0 then [] else [w[0]] + CString(w[1..])
  }

  lemma {:induction false} CStringWhole(w: wide)
    requires 0 !in w
    ensures CString(w) == w
  {
    if w != [] {
      assert w[0] in w && forall c <- w[1..] :: c in w;
      CStringWhole(w[1..]);
    }
  }

  lemma {:induction false} ForwardLength(w: wide)
    ensures |Forward(w)| == |w|
    ensures WSLASH !in Forward(w) <==> WSLASH !in w && WBACKSLASH !in w
    ensures WBACKSLASH !in w ==> Forward(w) == w
  {
    if w != [] {
      var front, last := w[..|w| - 1], w[|w| - 1];
      ForwardLength(front);
      assert w == front + [last];
    }
  }

  lemma {:induction false} ForwardJoin(a: wide, b: wide)
    ensures Forward(a + b) == Forward(a) + Forward(b)
    decreases |b|
  {
    if b == [] {
      assert a + b == a;
    } else {
      var front, last := b[..|b| - 1], b[|b| - 1];
      ForwardJoin(a, front);
      assert (a + b)[..|a + b| - 1] == a + front;
    }
  }

  lemma {:induction false} StripShortens(w: wide)
    ensures |StripWide(w)| <= |w| && (|StripWide(w)| == |w| ==> StripWide(w) == w)
  {
    if |w| > 1 && w[|w| - 1] == WSLASH {
      StripShortens(w[..|w| - 1]);
    }
  }

  lemma SanitizedLength(w: wide)
    ensures w != [] ==> |Sanitize(w)| == |w|
    ensures |Sanitize(w)| >= |w| && Sanitize(w) != [] && WSLASH !in Sanitize(w)
  {
    assert forall c <- Sanitize(w) :: !Forbidden(c);
  }

  /** Behind a slash, a listed name survives normalization as its sanitized form exactly when it is a
      name Windows accepts. */
  lemma ListedTail(base: wide, w: wide)
    requires base != [] && base[|base| - 1] == WSLASH
    ensures StripWide(base + Forward(CString(w))) == base + Sanitize(w) <==> WindowsName(w)
  {
    var c := CString(w);
    var full := base + Forward(c);
    SanitizedLength(w);
    StripShortens(full);
    ForwardLength(c);
    SanitizeFixesWindowsNames(w);
    if WindowsName(w) {
      assert 0 !in w && WBACKSLASH !in w && w[|w| - 1] in w;
      CStringWhole(w);
      assert full[|full| - 1] == w[|w| - 1];
    }
    if StripWide(full) == base + Sanitize(w) {
      assert c == w;
      assert Forward(w) == full[|base|..] == Sanitize(w);
    }
  }

  /** The path under which the system asks for the entry that directory `d` lists as `w`. */
  function AskedListed(d: bytes, w: wide, name: Naming): wide
    requires d != []
  {
    (if d == ROOT then [] else Backslashed(Relative(d[1..], false, name)) + [WBACKSLASH]) + CString(w)
  }

  lemma AskedListedNormal(d: bytes, w: wide, name: Naming)
    requires d == ROOT || (Clean(d) && d[1..] != [] && WindowsNames(name))
    ensures var base := (if d == ROOT then [] else Key(d[1..], false, name)) + WROOT;
            NormalizeProjected(AskedListed(d, w, name)) == StripWide(base + Forward(CString(w)))
  {
    var c := CString(w);
    if d != ROOT {
      var relative := Relative(d[1..], false, name);
      ProjectionAskable([], d[1..], 0, false, name);
      ForwardBackslashed(relative);
      var lead := Backslashed(relative) + [WBACKSLASH];
      ForwardJoin(lead, c);
      LastCharacter(Backslashed(relative), WBACKSLASH);
      assert Forward(lead) == relative + WROOT;
      assert WROOT + (relative + WROOT + Forward(c)) == WROOT + relative + WROOT + Forward(c);
    } else {
      assert [] + c == c && [] + WROOT == WROOT;
      assert c == [] ==> StripWide(WROOT + Forward(c)) == WROOT;
    }
  }

  /** The enumeration lists a child under its decoded name, without sanitizing it. Asked for under the
      name it is listed by, in the directory's own projected path, it asks for its own key if and only
      if that name is one Windows accepts. */
  lemma ListedNameAsksOwnKey(k: bytes, toWide: bytes -> wide)
    requires Clean(k)
    ensures var d, leaf, name := ParentOf(k), Leaf(k), NamesBy(toWide);
            && d != []
            && (NormalizeProjected(AskedListed(d, toWide(leaf), name)) == Key(k[1..], false, name) <==>
                WindowsName(toWide(leaf)))
  {
    var d, leaf, name := ParentOf(k), Leaf(k), NamesBy(toWide);
    NamesByWindows(toWide);
    CleanParent(k);
    KeyOfChild(k, false, name);
    AskedListedNormal(d, toWide(leaf), name);
    var base := (if d == ROOT then [] else Key(d[1..], false, name)) + WROOT;
    ListedTail(base, toWide(leaf));
    assert name(leaf, false) == Sanitize(toWide(leaf));
  }

  // ----- a directory asked for by its projected name

  /** The name a directory of the tree is asked for by. */
  function NameOf(k: bytes, ascii: bool, name: Naming): wide
    requires k != []
  {
    if k == ROOT then [] else Backslashed(Relative(k[1..], ascii, name))
  }

  /** Where paths are spelled and no two share a key, asking for any path of the tree by either of its
      names lists exactly what the session lists for the path. */
  lemma ListsOwnChildren(files: seq<FileRecord>, name: Naming, k: bytes, ascii: bool)
    requires WindowsNames(name) && Tree(Build(files)) && AllSpelled(files)
    requires NoSharedKey(Build(files), name) && k in Build(files).entries
    ensures k != []
    ensures var m, ix := IndexFirst(files, |files|, name), Build(files);
            ListProjected(m, ix, NameOf(k, ascii, name)) == ListDirectory(ix, k)
  {
    var ix := Build(files);
    EntryPath(ix, k);
    NormalizeClean(k);
    if k == ROOT {
      RootHeld(files, name);
    } else {
      AskedKey(k[1..], ascii, name);
      SpelledResolves(files, name, k, ascii);
    }
  }

  /** `all` is the matching children of `k`, each exactly once. */
  ghost predicate ExactlyChildren(all: seq<FileEntry>, ix: Index, k: bytes, keep: FileEntry -> bool) {
    && DistinctPaths(all)
    && forall e :: e in all <==> ChildOf(ix, e, k) && keep(e)
  }

  ghost predicate ChildOf(ix: Index, e: FileEntry, k: bytes) {
    && e.virtualPath in ix.entries && ix.entries[e.virtualPath] == e
    && e.virtualPath != ROOT && ParentOf(e.virtualPath) == k
  }

  lemma {:induction false} MatchingExactly(s: seq<FileEntry>, keep: FileEntry -> bool)
    ensures forall e :: e in Matching(s, keep) <==> e in s && keep(e)
    ensures DistinctPaths(s) ==> DistinctPaths(Matching(s, keep))
  {
    if s != [] {
      var front, last := s[..|s| - 1], s[|s| - 1];
      MatchingExactly(front, keep);
      assert s == front + [last];
      if DistinctPaths(s) && keep(last) {
        var kept := Matching(front, keep);
        forall i | 0 <= i < |kept| ensures kept[i].virtualPath != last.virtualPath {
          assert kept[i] in kept && kept[i] in front;
          var j :| 0 <= j < |front| && front[j] == kept[i];
          assert s[j] == kept[i] && s[|s| - 1] == last;
        }
      }
    }
  }

  lemma SameElementsDistinct(a: seq<FileEntry>, b: seq<FileEntry>)
    requires multiset(a) == multiset(b) && DistinctPaths(b)
    ensures DistinctPaths(a) && forall e :: e in a <==> e in b
  {
    forall e ensures e in a <==> e in b {
      assert e in multiset(a) <==> e in multiset(b);
    }
    forall i, j | 0 <= i < j < |a| ensures a[i].virtualPath != a[j].virtualPath {
      if a[i].virtualPath == a[j].virtualPath {
        SamePathSameEntry(a[i], a[j], b);
        TwiceInMultiset(a, i, j);
        OnceInMultiset(b, a[i]);
      }
    }
  }

  lemma SamePathSameEntry(x: FileEntry, y: FileEntry, b: seq<FileEntry>)
    requires DistinctPaths(b) && x in b && y in b && x.virtualPath == y.virtualPath
    ensures x == y
  {
    var i :| 0 <= i < |b| && b[i] == x;
    var j :| 0 <= j < |b| && b[j] == y;
    assert i == j;
  }

  lemma TwiceInMultiset(a: seq<FileEntry>, i: nat, j: nat)
    requires i < j < |a| && a[i] == a[j]
    ensures multiset(a)[a[i]] >= 2
  {
    assert a == a[..j] + a[j..];
    assert a[..j][i] in multiset(a[..j]) && a[j..][0] in multiset(a[j..]);
  }

  lemma {:induction false} OnceInMultiset(b: seq<FileEntry>, e: FileEntry)
    requires DistinctPaths(b)
    ensures multiset(b)[e] <= 1
  {
    if b != [] {
      var front, last := b[..|b| - 1], b[|b| - 1];
      OnceInMultiset(front, e);
      assert b == front + [last];
      forall j | 0 <= j < |front| ensures front[j] != last {
        assert b[j].virtualPath != b[|b| - 1].virtualPath;
      }
      assert e == last ==> e !in front && e !in multiset(front);
    }
  }

  /** End to end: where no two paths share a key, an enumeration of a directory asked for by either of
      its projected names, once the buffers have taken enough, has delivered exactly the children of that
      directory that match, each once and in order. */
  lemma EnumeratesChildren(files: seq<FileRecord>, name: Naming, k: bytes, ascii: bool, m: Enumerations, first: Call,
                           calls: seq<Call>, keep: FileEntry -> bool, rank: FileEntry -> real)
    requires WindowsNames(name) && Tree(Build(files)) && AllSpelled(files)
    requires NoSharedKey(Build(files), name) && k in Build(files).entries && k != []
    requires first.Get? && (first.restart || first.id !in m || m[first.id] == FRESH) && Undisturbed(calls, first.id)
    requires var listing := ListProjected(IndexFirst(files, |files|, name), Build(files), NameOf(k, ascii, name));
             && IsReload(first.reload, listing, keep, rank) && Matching(listing, keep) != []
             && first.accepted + AcceptedFor(calls, first.id) >= |Matching(listing, keep)|
    ensures var all := AllDelivered(m, first, calls, first.id);
            ExactlyChildren(all, Build(files), k, keep) && SortedBy(all, rank)
  {
    var ix := Build(files);
    var listing := ListProjected(IndexFirst(files, |files|, name), ix, NameOf(k, ascii, name));
    ListsOwnChildren(files, name, k, ascii);
    EnumerationDeliversOnce(m, first, calls, listing, keep, rank);
    ListingExactly(ix, k);
    MatchingExactly(listing, keep);
    SameElementsDistinct(AllDelivered(m, first, calls, first.id), Matching(listing, keep));
  }

  lemma ListingExactly(ix: Index, k: bytes)
    requires Tree(ix) && k in ix.entries
    ensures var list := ListDirectory(ix, k); DistinctPaths(list) && forall e :: e in list <==> ChildOf(ix, e, k)
  {
    EntryPath(ix, k);
    NormalizeClean(k);
    if k in ix.children {
      assert ChildrenOf(ix, k);
    }
    forall e | ChildOf(ix, e, k) ensures e in ListDirectory(ix, k) {
      assert Placed(ix, e.virtualPath);
    }
  }
}
