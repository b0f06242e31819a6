/** The index that `buildIndex` fills is one tree exactly when the file paths allow it. */
module NamespaceTree {
  import opened Bytes
  import opened Namespace

  // ----- paths and their ancestors

  lemma ParentOfPrefix(p: bytes, i: nat)
    requires Clean(p) && 0 < i < |p| && p[i] == SLASH
    ensures Clean(p[..i])
  {
    assert forall b <- p[..i] :: b in p;
  }

  lemma CleanParent(p: bytes)
    requires Clean(p)
    ensures var d := ParentOf(p);
            d == ROOT || (Clean(d) && |d| < |p| && p[|d|] == SLASH && d == p[..|d|])
    ensures forall i :: |ParentOf(p)| < i < |p| ==> p[i] != SLASH
  {
    var pos := LastSlash(p);
    if pos > 0 {
      ParentOfPrefix(p, pos);
    }
  }

  /** Every directory the scan meets on the way to a path is an ancestor of the path. */
  lemma {:induction false} PrefixIsAncestor(p: bytes, i: nat)
    requires Clean(p) && 0 < i < |p| && p[i] == SLASH
    ensures Under(p, p[..i])
    decreases |p|
  {
    CleanParent(p);
    var d := ParentOf(p);
    assert |d| >= i;
    if |d| > i {
      assert p[..i] == d[..i];
      PrefixIsAncestor(d, i);
    } else {
      assert d == p[..i];
    }
  }

  /** Every ancestor of a path is the root or a directory the scan meets. */
  lemma {:induction false} AncestorIsPrefix(p: bytes, a: bytes)
    requires Clean(p) && Under(p, a) && a != ROOT
    ensures 0 < |a| < |p| && p[|a|] == SLASH && a == p[..|a|] && Clean(a)
    decreases |p|
  {
    CleanParent(p);
    var d := ParentOf(p);
    if d != a {
      AncestorIsPrefix(d, a);
    }
  }

  lemma {:induction false} UnderTransitive(p: bytes, q: bytes, r: bytes)
    requires Under(p, q) && Under(q, r)
    ensures Under(p, r)
    decreases |p|
  {
    if ParentOf(p) != q {
      UnderTransitive(ParentOf(p), q, r);
    }
  }

  // ----- the scan of a clean path adds its directories

  function AddDirectories(ix: Index, p: bytes, pos: nat): Index
    decreases |p| - pos
  {
    if pos >= |p| then ix
    else AddDirectories(if p[pos] == SLASH then AddDirectory(ix, p[..pos]) else ix, p, pos + 1)
  }

  lemma {:induction false} ScanClean(ix: Index, p: bytes, pos: nat, current: bytes, segment: bytes)
    requires Clean(p) && 0 < pos <= |p|
    requires |current| >= 1 && Extend(current, segment) == p[..pos]
    requires segment == [] <==> p[pos - 1] == SLASH
    ensures Scan(ix, p, pos, current, segment) == AddDirectories(ix, p, pos)
    decreases |p| - pos
  {
    if pos < |p| {
      assert p[..pos + 1] == p[..pos] + [p[pos]];
      if p[pos] == SLASH {
        assert p[pos - 1] != SLASH;
        var next := p[..pos];
        assert Extend(next, []) == p[..pos + 1];
        ScanClean(AddDirectory(ix, next), p, pos + 1, next, []);
      } else {
        assert Extend(current, segment + [p[pos]]) == Extend(current, segment) + [p[pos]];
        ScanClean(ix, p, pos + 1, current, segment + [p[pos]]);
      }
    }
  }

  /** Inserting the file entry first, as the code does, or last gives the same maps. */
  lemma {:induction false} FileEntryCommutes(ix: Index, p: bytes, pos: nat, e: FileEntry)
    requires pos <= |p|
    ensures AddDirectories(ix.(entries := ix.entries[p := e]), p, pos) ==
            var r := AddDirectories(ix, p, pos); r.(entries := r.entries[p := e])
    decreases |p| - pos
  {
    if pos < |p| {
      var c := p[..pos];
      var next := if p[pos] == SLASH then AddDirectory(ix, c) else ix;
      assert |c| != |p|;
      assert ix.entries[p := e][c := DirectoryAt(c)] == ix.entries[c := DirectoryAt(c)][p := e];
      FileEntryCommutes(next, p, pos + 1, e);
    }
  }

  lemma AddFileClean(ix: Index, e: FileEntry)
    requires Clean(e.virtualPath)
    ensures AddFile(ix, e) ==
            var p := e.virtualPath;
            var r := AddDirectories(ix, p, 1);
            r.(entries := r.entries[p := e], children := Push(r.children, ParentOf(p), e))
  {
    var p := e.virtualPath;
    assert Extend(ROOT, []) == p[..1];
    ScanClean(ix.(entries := ix.entries[p := e]), p, 1, ROOT, []);
    FileEntryCommutes(ix, p, 1, e);
  }

  // ----- the tree is kept

  ghost predicate State(ix: Index) {
    Tree(ix) && forall k :: k in ix.seen <==> IsDirectory(ix, k)
  }

  /** Adding an entry for a new path below a directory keeps the tree. */
  lemma AddEntryKeepsTree(ix: Index, e: FileEntry)
    requires Tree(ix) && Clean(e.virtualPath) && e.virtualPath !in ix.entries
    requires IsDirectory(ix, ParentOf(e.virtualPath))
    ensures var p := e.virtualPath;
            Tree(ix.(entries := ix.entries[p := e], children := Push(ix.children, ParentOf(p), e)))
  {
    var p := e.virtualPath;
    var d := ParentOf(p);
    var r := ix.(entries := ix.entries[p := e], children := Push(ix.children, d, e));
    forall k | k in r.entries ensures Placed(r, k) {
      assert k != p ==> Placed(ix, k);
      PushLists(ix, e, k);
    }
    forall k | k in r.children ensures ChildrenOf(r, k) {
      assert k in ix.children ==> ChildrenOf(ix, k);
      PushKeepsChildren(ix, e, k);
    }
  }

  lemma PushLists(ix: Index, e: FileEntry, k: bytes)
    requires k in ix.entries ==> Placed(ix, k)
    requires k in ix.entries || k == e.virtualPath
    requires e.virtualPath != ROOT && Clean(e.virtualPath) && e.virtualPath !in ix.entries
    requires IsDirectory(ix, ParentOf(e.virtualPath))
    ensures var p := e.virtualPath;
            var r := ix.(entries := ix.entries[p := e], children := Push(ix.children, ParentOf(p), e));
            Placed(r, k)
  {
    var s := Push(ix.children, ParentOf(e.virtualPath), e)[ParentOf(e.virtualPath)];
    assert s[|s| - 1] == e;
  }

  lemma PushKeepsChildren(ix: Index, e: FileEntry, k: bytes)
    requires e.virtualPath != ROOT && e.virtualPath !in ix.entries
    requires k in ix.children ==> ChildrenOf(ix, k)
    requires k in ix.children || k == ParentOf(e.virtualPath)
    ensures var p := e.virtualPath;
            var r := ix.(entries := ix.entries[p := e], children := Push(ix.children, ParentOf(p), e));
            ChildrenOf(r, k)
  {
  }

  lemma TreeIgnoresSeen(ix: Index, seen: set<bytes>)
    requires Tree(ix)
    ensures Tree(ix.(seen := seen))
  {
    var r := ix.(seen := seen);
    forall k | k in r.entries ensures Placed(r, k) {
      assert Placed(ix, k);
    }
    forall d | d in r.children ensures ChildrenOf(r, d) {
      assert ChildrenOf(ix, d);
    }
  }

  lemma AddDirectoryKeepsState(ix: Index, c: bytes)
    requires State(ix) && Clean(c)
    requires c in ix.entries ==> ix.entries[c].isDirectory
    requires IsDirectory(ix, ParentOf(c))
    ensures State(AddDirectory(ix, c)) && IsDirectory(AddDirectory(ix, c), c)
  {
    if c !in ix.seen {
      assert !IsDirectory(ix, c);
      AddEntryKeepsTree(ix, DirectoryAt(c));
      TreeIgnoresSeen(ix.(entries := ix.entries[c := DirectoryAt(c)],
                          children := Push(ix.children, ParentOf(c), DirectoryAt(c))), ix.seen + {c});
    } else {
      assert IsDirectory(ix, c);
    }
  }

  /** `r` has the entries of `ix`, and besides them only directories above `p`. */
  ghost predicate OnlyAdds(r: Index, ix: Index, p: bytes) {
    && (forall k :: k in ix.entries ==> k in r.entries && r.entries[k] == ix.entries[k])
    && (forall k :: k in r.entries && k !in ix.entries ==> r.entries[k] == DirectoryAt(k) && Under(p, k))
  }

  /** The directories of `p` the scan has passed are there, and those ahead are not files. */
  ghost predicate ScanState(ix: Index, p: bytes, pos: nat) {
    && State(ix)
    && (forall i :: 0 < i < pos && i < |p| && p[i] == SLASH ==> IsDirectory(ix, p[..i]))
    && (forall i :: pos <= i < |p| && p[i] == SLASH && p[..i] in ix.entries ==> ix.entries[p[..i]].isDirectory)
  }

  lemma {:induction false} AddDirectoriesKeepsState(ix: Index, p: bytes, pos: nat)
    requires Clean(p) && 0 < pos <= |p| && ScanState(ix, p, pos)
    ensures var r := AddDirectories(ix, p, pos); ScanState(r, p, |p|) && OnlyAdds(r, ix, p)
    decreases |p| - pos
  {
    if pos < |p| {
      if p[pos] == SLASH {
        ScanStep(ix, p, pos);
        AddDirectoriesKeepsState(AddDirectory(ix, p[..pos]), p, pos + 1);
      } else {
        AddDirectoriesKeepsState(ix, p, pos + 1);
      }
    }
  }

  lemma ScanStep(ix: Index, p: bytes, pos: nat)
    requires Clean(p) && 0 < pos < |p| && p[pos] == SLASH && ScanState(ix, p, pos)
    ensures var next := AddDirectory(ix, p[..pos]); ScanState(next, p, pos + 1) && OnlyAdds(next, ix, p)
  {
    var c := p[..pos];
    ParentOfPrefix(p, pos);
    CleanParent(c);
    ParentIsDirectory(ix, p, pos);
    AddDirectoryKeepsState(ix, c);
    PrefixIsAncestor(p, pos);
    forall i | pos < i < |p| ensures p[..i] != c {
      assert |p[..i]| != |c|;
    }
  }

  lemma ParentIsDirectory(ix: Index, p: bytes, pos: nat)
    requires Tree(ix) && Clean(p) && 0 < pos < |p| && p[pos] == SLASH
    requires forall i :: 0 < i < pos && p[i] == SLASH ==> IsDirectory(ix, p[..i])
    ensures IsDirectory(ix, ParentOf(p[..pos]))
  {
    var c := p[..pos];
    ParentOfPrefix(p, pos);
    CleanParent(c);
    var d := ParentOf(c);
    if d != ROOT {
      assert d == p[..|d|] && p[|d|] == SLASH;
    }
  }

  /** One file, whose path is new and whose directories are not files. */
  lemma AddFileKeepsState(ix: Index, e: FileEntry)
    requires State(ix) && Clean(e.virtualPath) && !e.isDirectory
    requires e.virtualPath !in ix.entries
    requires forall k :: k in ix.entries && !ix.entries[k].isDirectory ==> !Under(e.virtualPath, k) || k == ROOT
    ensures State(AddFile(ix, e))
    ensures var r := AddDirectories(ix, e.virtualPath, 1);
            AddFile(ix, e).entries == r.entries[e.virtualPath := e] && OnlyAdds(r, ix, e.virtualPath) &&
            e.virtualPath !in r.entries
  {
    var p := e.virtualPath;
    forall i | 1 <= i < |p| && p[i] == SLASH && p[..i] in ix.entries ensures ix.entries[p[..i]].isDirectory {
      PrefixIsAncestor(p, i);
    }
    AddDirectoriesKeepsState(ix, p, 1);
    AddFileClean(ix, e);
    var r := AddDirectories(ix, p, 1);
    NotUnderItself(p);
    CleanParent(p);
    AddEntryKeepsTree(r, e);
  }

  lemma {:induction false} UnderIsShorter(p: bytes, a: bytes)
    requires Under(p, a)
    ensures |a| < |p|
    decreases |p|
  {
    if ParentOf(p) != a {
      UnderIsShorter(ParentOf(p), a);
    }
  }

  lemma NotUnderItself(p: bytes)
    ensures !Under(p, p)
  {
    if Under(p, p) {
      UnderIsShorter(p, p);
    }
  }

  // ----- what is in the tree

  /** One of the first `n` files has path `k`. */
  ghost predicate IsFilePath(es: seq<FileEntry>, n: nat, k: bytes)
    requires n <= |es|
  {
    exists j :: 0 <= j < n && es[j].virtualPath == k
  }

  /** One of the first `n` files lies below `k`. */
  ghost predicate AboveFile(es: seq<FileEntry>, n: nat, k: bytes)
    requires n <= |es|
  {
    exists j :: 0 <= j < n && Under(es[j].virtualPath, k)
  }

  /** Each of the first `n` files has its record, and everything else is the root or a directory above
      one of them. */
  ghost predicate Holds(ix: Index, es: seq<FileEntry>, n: nat)
    requires n <= |es|
  {
    && (forall j :: 0 <= j < n ==> HoldsFile(ix, es[j]))
    && (forall k :: k in ix.entries && k != ROOT && !IsFilePath(es, n, k) ==>
          AboveFile(es, n, k) && ix.entries[k] == DirectoryAt(k))
  }

  ghost predicate HoldsFile(ix: Index, e: FileEntry) {
    e.virtualPath in ix.entries && ix.entries[e.virtualPath] == e
  }

  lemma {:induction false} BuildFirstIsTree(es: seq<FileEntry>, n: nat, r: Index)
    requires n <= |es| && CleanPaths(es) && Separate(es) && r == BuildFirst(es, n)
    ensures State(r) && Holds(r, es, n)
  {
    if n == 0 {
      EmptyIsTree(es);
    } else {
      var ix := BuildFirst(es, n - 1);
      BuildFirstIsTree(es, n - 1, ix);
      AddFileStep(ix, es, n - 1, r);
    }
  }

  lemma EmptyIsTree(es: seq<FileEntry>)
    ensures State(EMPTY) && Holds(EMPTY, es, 0)
  {
  }

  lemma AddFileStep(ix: Index, es: seq<FileEntry>, n: nat, r: Index)
    requires n < |es| && CleanPaths(es) && Separate(es)
    requires State(ix) && Holds(ix, es, n) && r == AddFile(ix, es[n])
    ensures State(r) && Holds(r, es, n + 1)
  {
    NewPath(ix, es, n);
    AddFileKeepsState(ix, es[n]);
    HoldsMore(ix, es, n);
  }

  lemma NewPath(ix: Index, es: seq<FileEntry>, n: nat)
    requires n < |es| && CleanPaths(es) && Separate(es) && Holds(ix, es, n)
    ensures var p := es[n].virtualPath;
            p !in ix.entries &&
            (forall k :: k in ix.entries && !ix.entries[k].isDirectory ==> !Under(p, k) || k == ROOT)
  {
    var p := es[n].virtualPath;
    assert !AboveFile(es, n, p);
    forall k | k in ix.entries && !ix.entries[k].isDirectory && k != ROOT ensures !Under(p, k) {
      assert IsFilePath(es, n, k);
    }
  }

  lemma HoldsMore(ix: Index, es: seq<FileEntry>, n: nat)
    requires n < |es| && Holds(ix, es, n)
    requires var e := es[n];
             var r := AddDirectories(ix, e.virtualPath, 1);
             AddFile(ix, e).entries == r.entries[e.virtualPath := e] && OnlyAdds(r, ix, e.virtualPath) &&
             e.virtualPath !in r.entries
    ensures Holds(AddFile(ix, es[n]), es, n + 1)
  {
    var e := es[n];
    var r, b := AddDirectories(ix, e.virtualPath, 1), AddFile(ix, e);
    forall j | 0 <= j < n + 1 ensures HoldsFile(b, es[j]) {
      if j < n { assert HoldsFile(ix, es[j]); }
    }
    forall k | k in b.entries && k != ROOT && !IsFilePath(es, n + 1, k)
      ensures AboveFile(es, n + 1, k) && b.entries[k] == DirectoryAt(k)
    {
      assert k != es[n].virtualPath;
      if k in ix.entries {
        assert !IsFilePath(es, n, k);
        var j :| 0 <= j < n && Under(es[j].virtualPath, k);
      } else {
        assert Under(es[n].virtualPath, k);
      }
    }
  }

  // ----- the converse: listings only grow, and every added directory and file stays listed

  ghost predicate Grown(ix: Index, r: Index) {
    && (forall d :: d in ix.children ==> d in r.children && ix.children[d] <= r.children[d])
    && ix.seen <= r.seen
  }

  ghost predicate SeenListed(ix: Index) {
    forall c :: c in ix.seen && c != ROOT ==> Listed(ix, ParentOf(c), DirectoryAt(c))
  }

  lemma PushLast(ix: Index, d: bytes, e: FileEntry)
    ensures var r := ix.(children := Push(ix.children, d, e));
            Grown(ix, r) && Listed(r, d, e)
  {
    var s := Push(ix.children, d, e)[d];
    assert s[|s| - 1] == e;
  }

  lemma ListedGrows(ix: Index, r: Index, d: bytes, e: FileEntry)
    requires Grown(ix, r) && Listed(ix, d, e)
    ensures Listed(r, d, e)
  {
    var i :| 0 <= i < |ix.children[d]| && ix.children[d][i] == e;
    assert r.children[d][i] == e;
  }

  lemma AddDirectoryGrows(ix: Index, c: bytes)
    requires SeenListed(ix)
    ensures var r := AddDirectory(ix, c); Grown(ix, r) && SeenListed(r) && c in r.seen
  {
    if c !in ix.seen {
      var r := AddDirectory(ix, c);
      PushLast(ix, ParentOf(c), DirectoryAt(c));
      forall k | k in r.seen && k != ROOT ensures Listed(r, ParentOf(k), DirectoryAt(k)) {
        if k != c { ListedGrows(ix, r, ParentOf(k), DirectoryAt(k)); }
      }
    }
  }

  lemma {:induction false} AddDirectoriesGrows(ix: Index, p: bytes, pos: nat)
    requires SeenListed(ix)
    ensures var r := AddDirectories(ix, p, pos);
            && Grown(ix, r) && SeenListed(r)
            && (forall i :: pos <= i < |p| && p[i] == SLASH ==> p[..i] in r.seen)
    decreases |p| - pos
  {
    if pos < |p| {
      var next := if p[pos] == SLASH then AddDirectory(ix, p[..pos]) else ix;
      if p[pos] == SLASH {
        AddDirectoryGrows(ix, p[..pos]);
      }
      AddDirectoriesGrows(next, p, pos + 1);
      GrownTransitive(ix, next, AddDirectories(next, p, pos + 1));
    }
  }

  /** All directories above `p` have been seen. */
  ghost predicate SeenAbove(ix: Index, p: bytes) {
    forall a :: Under(p, a) && a != ROOT ==> a in ix.seen
  }

  lemma AddFileGrows(ix: Index, e: FileEntry)
    requires SeenListed(ix) && Clean(e.virtualPath)
    ensures var r := AddFile(ix, e);
            && Grown(ix, r) && SeenListed(r) && SeenAbove(r, e.virtualPath)
            && Listed(r, ParentOf(e.virtualPath), e)
  {
    var p := e.virtualPath;
    AddDirectoriesGrows(ix, p, 1);
    AddFileClean(ix, e);
    var d := AddDirectories(ix, p, 1);
    var r := AddFile(ix, e);
    PushLast(d, ParentOf(p), e);
    forall k | k in r.seen && k != ROOT ensures Listed(r, ParentOf(k), DirectoryAt(k)) {
      ListedGrows(d, d.(children := Push(d.children, ParentOf(p), e)), ParentOf(k), DirectoryAt(k));
    }
    forall a | Under(p, a) && a != ROOT ensures a in r.seen {
      AncestorIsPrefix(p, a);
    }
  }

  lemma {:induction false} BuildSeenListed(es: seq<FileEntry>, n: nat)
    requires n <= |es| && CleanPaths(es)
    ensures SeenListed(BuildFirst(es, n))
  {
    if n > 0 {
      BuildSeenListed(es, n - 1);
      AddFileGrows(BuildFirst(es, n - 1), es[n - 1]);
    }
  }

  lemma {:induction false} BuildGrows(es: seq<FileEntry>, m: nat, n: nat)
    requires m <= n <= |es| && CleanPaths(es)
    ensures Grown(BuildFirst(es, m), BuildFirst(es, n))
    decreases n - m
  {
    if m < n {
      BuildGrows(es, m + 1, n);
      BuildSeenListed(es, m);
      AddFileGrows(BuildFirst(es, m), es[m]);
      GrownTransitive(BuildFirst(es, m), BuildFirst(es, m + 1), BuildFirst(es, n));
    }
  }

  lemma GrownTransitive(a: Index, b: Index, c: Index)
    requires Grown(a, b) && Grown(b, c)
    ensures Grown(a, c)
  {
  }

  lemma StaysListed(ix: Index, e: FileEntry, r: Index, final: Index)
    requires SeenListed(ix) && Clean(e.virtualPath) && r == AddFile(ix, e) && Grown(r, final)
    ensures Listed(final, ParentOf(e.virtualPath), e) && SeenAbove(final, e.virtualPath)
  {
    AddFileGrows(ix, e);
    ListedGrows(r, final, ParentOf(e.virtualPath), e);
  }

  /** In every later index a file is listed and everything above it has been seen. */
  lemma FileStaysListed(es: seq<FileEntry>, j: nat, n: nat)
    requires j < n <= |es| && CleanPaths(es)
    ensures Listed(BuildFirst(es, n), ParentOf(es[j].virtualPath), es[j])
    ensures SeenAbove(BuildFirst(es, n), es[j].virtualPath)
  {
    BuildSeenListed(es, j);
    BuildGrows(es, j + 1, n);
    StaysListed(BuildFirst(es, j), es[j], BuildFirst(es, j + 1), BuildFirst(es, n));
  }

  lemma ListedTwice(ix: Index, d: bytes, x: nat, y: nat)
    requires d in ix.children && x < y < |ix.children[d]|
    requires ix.children[d][x].virtualPath == ix.children[d][y].virtualPath
    ensures !Tree(ix)
  {
    assert Tree(ix) ==> ChildrenOf(ix, d);
  }

  /** Two files with one path are both listed, so that listing names the path twice. */
  lemma SamePathNoTree(es: seq<FileEntry>, i: nat, j: nat)
    requires CleanPaths(es) && i < j < |es| && es[i].virtualPath == es[j].virtualPath
    ensures !Tree(BuildFirst(es, |es|))
  {
    var ix, r, final := AroundFile(es, i, j);
    SecondListing(ix, es[i], es[j], r, final);
  }

  /** The index before and right after file `j`, and the finished one. */
  lemma AroundFile(es: seq<FileEntry>, i: nat, j: nat) returns (ix: Index, r: Index, final: Index)
    requires CleanPaths(es) && i < j < |es|
    ensures SeenListed(ix) && Listed(ix, ParentOf(es[i].virtualPath), es[i])
    ensures r == AddFile(ix, es[j]) && Grown(r, final) && final == BuildFirst(es, |es|)
  {
    ix, r, final := BuildFirst(es, j), BuildFirst(es, j + 1), BuildFirst(es, |es|);
    FileStaysListed(es, i, j);
    BuildSeenListed(es, j);
    BuildGrows(es, j + 1, |es|);
  }

  lemma SecondListing(ix: Index, first: FileEntry, e: FileEntry, r: Index, final: Index)
    requires SeenListed(ix) && Clean(e.virtualPath) && first.virtualPath == e.virtualPath
    requires Listed(ix, ParentOf(e.virtualPath), first) && r == AddFile(ix, e) && Grown(r, final)
    ensures !Tree(final)
  {
    var p := e.virtualPath;
    var d := ParentOf(p);
    AddDirectoriesGrows(ix, p, 1);
    AddFileClean(ix, e);
    var s := AddDirectories(ix, p, 1);
    ListedGrows(ix, s, d, first);
    var x :| 0 <= x < |s.children[d]| && s.children[d][x] == first;
    var y := |s.children[d]|;
    assert r.children[d][x] == first && r.children[d][y] == e;
    ListedTwice(final, d, x, y);
  }

  /** A file that is also a directory of another file is listed as both. */
  lemma FileAsDirectoryNoTree(es: seq<FileEntry>, i: nat, j: nat)
    requires CleanPaths(es) && i < |es| && j < |es| && Under(es[j].virtualPath, es[i].virtualPath)
    ensures !Tree(BuildFirst(es, |es|))
  {
    FileStaysListed(es, i, |es|);
    FileStaysListed(es, j, |es|);
    BuildSeenListed(es, |es|);
    ListedAsBoth(BuildFirst(es, |es|), es[i]);
  }

  lemma ListedAsBoth(ix: Index, e: FileEntry)
    requires SeenListed(ix) && Clean(e.virtualPath) && !e.isDirectory
    requires Listed(ix, ParentOf(e.virtualPath), e) && e.virtualPath in ix.seen
    ensures !Tree(ix)
  {
    var d, a := ParentOf(e.virtualPath), e.virtualPath;
    assert Listed(ix, d, DirectoryAt(a));
    var x :| 0 <= x < |ix.children[d]| && ix.children[d][x] == e;
    var y :| 0 <= y < |ix.children[d]| && ix.children[d][y] == DirectoryAt(a);
    ListedTwice(ix, d, if x < y then x else y, if x < y then y else x);
  }

  // ----- paths that are not clean

  /** `r` has at least the keys of `ix`, and a file in the place of the root stays one. */
  ghost predicate KeysGrown(ix: Index, r: Index) {
    && ROOT in r.seen && ix.entries.Keys <= r.entries.Keys
    && (ROOT in ix.entries && !ix.entries[ROOT].isDirectory ==> !r.entries[ROOT].isDirectory)
  }

  lemma {:induction false} ScanKeepsKeys(ix: Index, path: bytes, pos: nat, current: bytes, segment: bytes)
    requires ROOT in ix.seen
    ensures KeysGrown(ix, Scan(ix, path, pos, current, segment))
    decreases |path| - pos
  {
    if pos < |path| {
      if path[pos] != SLASH {
        ScanKeepsKeys(ix, path, pos + 1, current, segment + [path[pos]]);
      } else if segment == [] {
        ScanKeepsKeys(ix, path, pos + 1, current, []);
      } else {
        var next := Extend(current, segment);
        ScanKeepsKeys(AddDirectory(ix, next), path, pos + 1, next, []);
      }
    }
  }

  lemma AddFileKeepsKeys(ix: Index, e: FileEntry, r: Index)
    requires ROOT in ix.seen && !e.isDirectory && r == AddFile(ix, e)
    ensures KeysGrown(ix, r) && e.virtualPath in r.entries
    ensures e.virtualPath == ROOT ==> !r.entries[ROOT].isDirectory
  {
    ScanKeepsKeys(ix.(entries := ix.entries[e.virtualPath := e]), e.virtualPath, 1, ROOT, []);
  }

  /** Whatever the paths are, every file's path stays a key, and if it is the root's, what is stored for
      the root is no directory. */
  lemma {:induction false} FilePathStays(es: seq<FileEntry>, j: nat, n: nat, r: Index)
    requires j < |es| && n <= |es| && (forall e <- es :: !e.isDirectory) && r == BuildFirst(es, n)
    ensures ROOT in r.seen
    ensures j < n ==> es[j].virtualPath in r.entries
    ensures j < n && es[j].virtualPath == ROOT ==> !r.entries[ROOT].isDirectory
  {
    if n > 0 {
      var ix := BuildFirst(es, n - 1);
      FilePathStays(es, j, n - 1, ix);
      AddFileKeepsKeys(ix, es[n - 1], r);
    }
  }

  lemma UncleanNoTree(es: seq<FileEntry>, j: nat, r: Index)
    requires j < |es| && (forall e <- es :: !e.isDirectory) && r == BuildFirst(es, |es|)
    requires !Clean(es[j].virtualPath)
    ensures !Tree(r)
  {
    FilePathStays(es, j, |es|, r);
    TreeKeysAreClean(r, es[j].virtualPath);
  }

  lemma TreeKeysAreClean(ix: Index, k: bytes)
    requires k in ix.entries
    ensures Tree(ix) ==> Clean(k) || (k == ROOT && ix.entries[k].isDirectory)
  {
    if Tree(ix) {
      assert Placed(ix, k);
    }
  }

  /** For every list of files, the index is one tree if and only if all paths are clean, no two files
      have the same path and no file lies below another. */
  lemma TreeIffSeparate(files: seq<FileRecord>)
    ensures Tree(Build(files)) <==> CleanPaths(FileEntries(files)) && Separate(FileEntries(files))
  {
    var es := FileEntries(files);
    if !CleanPaths(es) {
      var j :| 0 <= j < |es| && !Clean(es[j].virtualPath);
      UncleanNoTree(es, j, Build(files));
    } else if Separate(es) {
      BuildFirstIsTree(es, |es|, Build(files));
    } else {
      var i, j :| 0 <= i < |es| && 0 <= j < |es| && i != j &&
                  (es[i].virtualPath == es[j].virtualPath || Under(es[j].virtualPath, es[i].virtualPath));
      if es[i].virtualPath == es[j].virtualPath {
        SamePathNoTree(es, if i < j then i else j, if i < j then j else i);
      } else {
        FileAsDirectoryNoTree(es, i, j);
      }
    }
  }

  lemma {:induction false} UnderInTree(ix: Index, p: bytes, a: bytes)
    requires Tree(ix) && p in ix.entries && Under(p, a)
    ensures IsDirectory(ix, a)
    decreases |p|
  {
    assert Placed(ix, p);
    if ParentOf(p) != a {
      UnderInTree(ix, ParentOf(p), a);
    }
  }

  /** The entries are exactly the root, the files with their records, and the directories above files;
      the listing of a path holds each entry whose parent it is once and nothing else. */
  lemma NamespaceContents(files: seq<FileRecord>)
    requires CleanPaths(FileEntries(files)) && Separate(FileEntries(files))
    ensures var ix, es, n := Build(files), FileEntries(files), |files|;
            && Tree(ix)
            && (forall k :: k in ix.entries <==> k == ROOT || IsFilePath(es, n, k) || AboveFile(es, n, k))
            && (forall j :: 0 <= j < n ==> HoldsFile(ix, es[j]))
            && (forall k :: AboveFile(es, n, k) ==> k in ix.entries && ix.entries[k] == DirectoryAt(k))
  {
    var ix, es, n := Build(files), FileEntries(files), |files|;
    BuildFirstIsTree(es, n, ix);
    forall k | AboveFile(es, n, k) ensures k in ix.entries && ix.entries[k] == DirectoryAt(k) {
      DirectoryAbove(ix, es, n, k);
    }
    forall k | IsFilePath(es, n, k) ensures k in ix.entries {
      var j :| 0 <= j < n && es[j].virtualPath == k;
      assert HoldsFile(ix, es[j]);
    }
  }

  lemma DirectoryAbove(ix: Index, es: seq<FileEntry>, n: nat, k: bytes)
    requires n <= |es| && CleanPaths(es) && Separate(es) && Tree(ix) && Holds(ix, es, n) && AboveFile(es, n, k)
    ensures k in ix.entries && ix.entries[k] == DirectoryAt(k)
  {
    var j :| 0 <= j < n && Under(es[j].virtualPath, k);
    assert HoldsFile(ix, es[j]);
    UnderInTree(ix, es[j].virtualPath, k);
    forall i | 0 <= i < n && i != j ensures es[i].virtualPath != k {
      assert !Under(es[j].virtualPath, es[i].virtualPath);
    }
    NotUnderItself(k);
    assert !IsFilePath(es, n, k);
  }
}
