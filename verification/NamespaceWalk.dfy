/** Walking the listings from the root visits every file and directory once and accounts for every byte. */
module NamespaceWalk {
  import opened Bytes
  import opened Namespace
  import opened NamespaceTree

  // ----- clean paths are already normalized

  lemma {:induction false} SlashedClean(p: bytes)
    requires BACKSLASH !in p
    ensures Slashed(p) == p
  {
    if p != [] {
      var front := p[..|p| - 1];
      assert forall b <- front :: b in p;
      SlashedClean(front);
      assert p[|p| - 1] in p;
      assert p == front + [p[|p| - 1]];
    }
  }

  lemma NormalizeClean(p: bytes)
    requires p == ROOT || Clean(p)
    ensures Normalize(p) == p
  {
    if p != ROOT {
      SlashedClean(p);
    }
  }

  /** A clean relative path gets the slash it lacks. */
  lemma NormalizeRelative(path: bytes)
    requires Clean(ROOT + path)
    ensures path != [] && path[0] != SLASH && Normalize(path) == ROOT + path
  {
    var p := ROOT + path;
    assert p[1] == path[0];
    assert forall b <- path :: b in p;
    SlashedClean(path);
    assert path != ROOT;
  }

  lemma NormalizeTrailing(path: bytes)
    requires Clean(ROOT + path)
    ensures Normalize(path + ROOT) == ROOT + path
  {
    var p := ROOT + path;
    assert forall b <- path :: b in p;
    NormalizeRelative(path);
    SlashedClean(path);
    SlashedAppend(path);
    assert (path + ROOT)[0] == path[0];
    StripOne(p);
    assert ROOT + (path + ROOT) == p + ROOT;
  }

  lemma StripOne(p: bytes)
    requires |p| > 1 && p[|p| - 1] != SLASH
    ensures StripSlashes(p + ROOT) == p
  {
    assert (p + ROOT)[..|p|] == p;
  }

  lemma SlashedAppend(path: bytes)
    ensures Slashed(path + ROOT) == Slashed(path) + ROOT
  {
    assert (path + ROOT)[..|path|] == path;
  }

  lemma {:induction false} StripSlashesEnds(path: bytes)
    ensures var r := StripSlashes(path);
            && |r| <= |path| && r == path[..|r|] && (path != [] ==> r != [])
            && (|r| <= 1 || r[|r| - 1] != SLASH)
            && (forall i :: |r| <= i < |path| ==> path[i] == SLASH)
    decreases |path|
  {
    if |path| > 1 && path[|path| - 1] == SLASH {
      StripSlashesEnds(path[..|path| - 1]);
    }
  }

  /** For every path, normalizing gives an absolute path without backslash that is the root or does
      not end in a slash, and normalizing it again changes nothing. */
  lemma NormalizeIdempotent(path: bytes)
    ensures var n := Normalize(path);
            && n != [] && n[0] == SLASH && BACKSLASH !in n && (n == ROOT || n[|n| - 1] != SLASH)
            && Normalize(n) == n
  {
    var n := Normalize(path);
    if path != [] && path != ROOT {
      var slashed := (if path[0] != SLASH then ROOT else []) + Slashed(path);
      if path[0] == SLASH { SlashedFirst(path); }
      assert slashed[0] == SLASH && BACKSLASH !in slashed;
      StripSlashesEnds(slashed);
      assert forall b <- n :: b in slashed;
      SlashedClean(n);
    }
  }

  function AsSlash(b: byte): byte { if b == BACKSLASH then SLASH else b }

  lemma {:induction false} SlashedAt(path: bytes, i: nat)
    requires i < |path|
    ensures Slashed(path)[i] == AsSlash(path[i])
  {
    if i < |path| - 1 {
      SlashedAt(path[..|path| - 1], i);
    }
  }

  /** Normalizing changes nothing but this: a missing first slash is added, backslashes become slashes,
      and slashes at the end are cut. */
  lemma NormalizeKeeps(path: bytes)
    requires path != []
    ensures var n, lead := Normalize(path), if path[0] != SLASH then 1 else 0;
            && 0 < |n| <= lead + |path| && n[0] == SLASH
            && forall i :: 0 <= i < |path| ==> if lead + i < |n| then n[lead + i] == AsSlash(path[i])
                                               else AsSlash(path[i]) == SLASH
  {
    NormalizeIdempotent(path);
    if path != ROOT {
      var lead: bytes := if path[0] != SLASH then ROOT else [];
      var full := lead + Slashed(path);
      StripSlashesEnds(full);
      forall i | 0 <= i < |path| ensures full[|lead| + i] == AsSlash(path[i]) {
        SlashedAt(path, i);
      }
    }
  }

  lemma {:induction false} SlashedFirst(path: bytes)
    requires path != [] && path[0] == SLASH
    ensures Slashed(path)[0] == SLASH
  {
    if |path| > 1 {
      SlashedFirst(path[..|path| - 1]);
    }
  }

  // ----- the walk

  ghost predicate Bounded(ix: Index, bound: nat) {
    forall k :: k in ix.entries ==> |k| <= bound
  }

  /** Entries of the tree below the path `d`. */
  ghost predicate ChildrenAt(ix: Index, list: seq<FileEntry>, d: bytes) {
    forall e <- list :: Child(ix, e, d)
  }

  ghost predicate Child(ix: Index, e: FileEntry, d: bytes) {
    && e.virtualPath in ix.entries && ix.entries[e.virtualPath] == e
    && Clean(e.virtualPath) && ParentOf(e.virtualPath) == d
  }

  lemma ListingIsChildren(ix: Index, d: bytes)
    requires Tree(ix) && (d == ROOT || Clean(d))
    ensures ChildrenAt(ix, ListDirectory(ix, d), d) && DistinctPaths(ListDirectory(ix, d))
  {
    NormalizeClean(d);
    if d in ix.children {
      assert ChildrenOf(ix, d);
      forall e | e in ix.children[d] ensures Child(ix, e, d) {
        assert Placed(ix, e.virtualPath);
      }
    }
  }

  /** List a directory, and walk into every directory that is listed. */
  ghost function Walk(ix: Index, d: bytes, bound: nat): seq<FileEntry>
    requires Tree(ix) && Bounded(ix, bound) && (d == ROOT || Clean(d)) && |d| <= bound
    decreases bound - |d|, 1, 0
  {
    ListingIsChildren(ix, d);
    WalkAll(ix, ListDirectory(ix, d), d, bound)
  }

  ghost function WalkAll(ix: Index, list: seq<FileEntry>, d: bytes, bound: nat): seq<FileEntry>
    requires Tree(ix) && Bounded(ix, bound) && |d| <= bound && ChildrenAt(ix, list, d)
    decreases bound - |d|, 0, |list|
  {
    if list == [] then []
    else
      var e := list[0];
      assert Child(ix, e, d);
      [e] + (if e.isDirectory then Walk(ix, e.virtualPath, bound) else []) + WalkAll(ix, list[1..], d, bound)
  }

  // ----- subtrees

  ghost predicate AtOrUnder(k: bytes, c: bytes) {
    k == c || Under(k, c)
  }

  lemma {:induction false} Comparable(k: bytes, c: bytes, d: bytes)
    requires AtOrUnder(k, c) && AtOrUnder(k, d)
    ensures AtOrUnder(c, d) || AtOrUnder(d, c)
    decreases |k|
  {
    if k != c && k != d {
      Comparable(ParentOf(k), c, d);
    }
  }

  /** Different children of one directory have disjoint subtrees. */
  lemma SiblingsDisjoint(k: bytes, c: bytes, d: bytes)
    requires AtOrUnder(k, c) && AtOrUnder(k, d)
    requires |c| > 1 && |d| > 1 && ParentOf(c) == ParentOf(d)
    ensures c == d
  {
    Comparable(k, c, d);
    if Under(c, d) { AboveIsShort(c, d); }
    if Under(d, c) { AboveIsShort(d, c); }
  }

  lemma AboveIsShort(c: bytes, d: bytes)
    requires Under(c, d)
    ensures |d| <= |ParentOf(c)|
  {
    if ParentOf(c) != d {
      UnderIsShorter(ParentOf(c), d);
    }
  }

  /** Whatever lies under `d` is or lies under a child of `d`. */
  lemma {:induction false} ChildAbove(ix: Index, k: bytes, d: bytes) returns (c: bytes)
    requires Tree(ix) && k in ix.entries && Under(k, d)
    ensures c in ix.entries && c != ROOT && ParentOf(c) == d && AtOrUnder(k, c)
    decreases |k|
  {
    assert Placed(ix, k);
    if ParentOf(k) == d {
      c := k;
    } else {
      c := ChildAbove(ix, ParentOf(k), d);
    }
  }

  ghost predicate InSubtrees(k: bytes, list: seq<FileEntry>) {
    exists e :: e in list && AtOrUnder(k, e.virtualPath)
  }

  /** Exactly the entries of the tree that satisfy `inside` are in `w`, each once. */
  ghost predicate Visits(ix: Index, w: seq<FileEntry>, inside: bytes -> bool) {
    && (forall e <- w :: e.virtualPath in ix.entries && ix.entries[e.virtualPath] == e && inside(e.virtualPath))
    && (forall k :: k in ix.entries && inside(k) ==> ix.entries[k] in w)
    && DistinctPaths(w)
  }

  lemma {:induction false} WalkVisits(ix: Index, d: bytes, bound: nat)
    requires Tree(ix) && Bounded(ix, bound) && (d == ROOT || Clean(d)) && |d| <= bound
    ensures Visits(ix, Walk(ix, d, bound), k => Under(k, d))
    decreases bound - |d|, 1, 0
  {
    var list := ListDirectory(ix, d);
    ListingIsChildren(ix, d);
    WalkAllVisits(ix, list, d, bound);
    forall k | k in ix.entries ensures InSubtrees(k, list) <==> Under(k, d) {
      SubtreesAreUnder(ix, k, d);
    }
  }

  lemma SubtreesAreUnder(ix: Index, k: bytes, d: bytes)
    requires Tree(ix) && k in ix.entries && (d == ROOT || Clean(d))
    ensures InSubtrees(k, ListDirectory(ix, d)) <==> Under(k, d)
  {
    var list := ListDirectory(ix, d);
    ListingIsChildren(ix, d);
    NormalizeClean(d);
    if InSubtrees(k, list) {
      var e :| e in list && AtOrUnder(k, e.virtualPath);
      assert Child(ix, e, d);
      if k != e.virtualPath { UnderTransitive(k, e.virtualPath, d); }
    }
    if Under(k, d) {
      var c := ChildAbove(ix, k, d);
      assert Placed(ix, c);
      assert ix.entries[c] in list;
    }
  }

  lemma {:induction false} WalkAllVisits(ix: Index, list: seq<FileEntry>, d: bytes, bound: nat)
    requires Tree(ix) && Bounded(ix, bound) && |d| <= bound && ChildrenAt(ix, list, d) && DistinctPaths(list)
    ensures Visits(ix, WalkAll(ix, list, d, bound), k => InSubtrees(k, list))
    decreases bound - |d|, 0, |list|
  {
    if list != [] {
      var e, rest := list[0], list[1..];
      assert Child(ix, e, d);
      var sub := if e.isDirectory then Walk(ix, e.virtualPath, bound) else [];
      if e.isDirectory {
        WalkVisits(ix, e.virtualPath, bound);
      } else {
        NothingUnderFile(ix, e.virtualPath);
      }
      WalkAllVisits(ix, rest, d, bound);
      JoinVisits(ix, list, d, sub, WalkAll(ix, rest, d, bound));
    }
  }

  lemma NothingUnderFile(ix: Index, p: bytes)
    requires Tree(ix) && p in ix.entries && !ix.entries[p].isDirectory
    ensures Visits(ix, [], k => Under(k, p))
  {
    forall k | k in ix.entries ensures !Under(k, p) {
      if Under(k, p) { UnderInTree(ix, k, p); }
    }
  }

  lemma JoinVisits(ix: Index, list: seq<FileEntry>, d: bytes, sub: seq<FileEntry>, others: seq<FileEntry>)
    requires Tree(ix) && list != [] && ChildrenAt(ix, list, d) && DistinctPaths(list)
    requires Visits(ix, sub, k => Under(k, list[0].virtualPath))
    requires Visits(ix, others, k => InSubtrees(k, list[1..]))
    ensures Visits(ix, [list[0]] + sub + others, k => InSubtrees(k, list))
  {
    var e, rest := list[0], list[1..];
    var w := [e] + sub + others;
    assert Child(ix, e, d);
    forall k | InSubtrees(k, rest) ensures InSubtrees(k, list) && !AtOrUnder(k, e.virtualPath) {
      var x :| x in rest && AtOrUnder(k, x.virtualPath);
      assert x in list && Child(ix, x, d);
      if AtOrUnder(k, e.virtualPath) { SiblingsDisjoint(k, e.virtualPath, x.virtualPath); }
    }
    forall k | InSubtrees(k, list) ensures AtOrUnder(k, e.virtualPath) || InSubtrees(k, rest) {
      var x :| x in list && AtOrUnder(k, x.virtualPath);
      assert x == e || x in rest;
    }
    NotUnderItself(e.virtualPath);
    DistinctJoin(e, sub, others);
  }

  lemma DistinctJoin(e: FileEntry, sub: seq<FileEntry>, others: seq<FileEntry>)
    requires DistinctPaths(sub) && DistinctPaths(others)
    requires forall x <- sub :: x.virtualPath != e.virtualPath
    requires forall x <- others :: x.virtualPath != e.virtualPath
    requires forall x, y :: x in sub && y in others ==> x.virtualPath != y.virtualPath
    ensures DistinctPaths([e] + sub + others)
  {
    var w := [e] + sub + others;
    forall i, j | 0 <= i < j < |w| ensures w[i].virtualPath != w[j].virtualPath {
      if 1 <= i && j < 1 + |sub| {
        assert w[i] == sub[i - 1] && w[j] == sub[j - 1];
      } else if 1 + |sub| <= i {
        assert w[i] == others[i - 1 - |sub|] && w[j] == others[j - 1 - |sub|];
      } else if i == 0 {
        assert w[j] in sub || w[j] in others;
      } else {
        assert w[i] in sub && w[j] in others;
      }
    }
  }

  // ----- conservation of sizes

  function SizeOf(es: seq<FileEntry>): nat {
    if es == [] then 0 else es[0].size + SizeOf(es[1..])
  }

  ghost function MapSize(m: map<bytes, FileEntry>): nat {
    if m == map[] then 0 else var k :| k in m; m[k].size + MapSize(m - {k})
  }

  lemma {:induction false} MapSizeRemove(m: map<bytes, FileEntry>, k: bytes)
    requires k in m
    ensures MapSize(m) == m[k].size + MapSize(m - {k})
    decreases |m|
  {
    var j :| j in m && MapSize(m) == m[j].size + MapSize(m - {j});
    if j != k {
      MapSizeRemove(m - {j}, k);
      MapSizeRemove(m - {k}, j);
      assert m - {j} - {k} == m - {k} - {j};
    }
  }

  lemma MapSizeAdd(m: map<bytes, FileEntry>, k: bytes, e: FileEntry)
    requires k !in m
    ensures MapSize(m[k := e]) == MapSize(m) + e.size
  {
    MapSizeRemove(m[k := e], k);
    assert m[k := e] - {k} == m;
  }

  /** A list without repetition of all entries of a map has the size of the map. */
  lemma {:induction false} ListSize(w: seq<FileEntry>, m: map<bytes, FileEntry>)
    requires DistinctPaths(w)
    requires forall e <- w :: e.virtualPath in m && m[e.virtualPath] == e
    requires forall k :: k in m ==> m[k] in w && m[k].virtualPath == k
    ensures SizeOf(w) == MapSize(m)
  {
    if w == [] {
      assert m == map[];
    } else {
      var e := w[0];
      MapSizeRemove(m, e.virtualPath);
      var rest := m - {e.virtualPath};
      forall k | k in rest ensures rest[k] in w[1..] {
        assert m[k] in w && m[k] != e;
      }
      forall x | x in w[1..] ensures x.virtualPath in rest {
        var i :| 0 <= i < |w[1..]| && w[1..][i] == x;
        assert w[i + 1] == x;
      }
      ListSize(w[1..], rest);
    }
  }

  lemma {:induction false} DirectoriesAreEmpty(m: map<bytes, FileEntry>, r: map<bytes, FileEntry>)
    requires forall k :: k in m ==> k in r && r[k] == m[k]
    requires forall k :: k in r && k !in m ==> r[k].size == 0
    ensures MapSize(r) == MapSize(m)
    decreases |r|
  {
    if r.Keys == m.Keys {
      assert r == m;
    } else {
      var k :| k in r && k !in m;
      MapSizeRemove(r, k);
      DirectoriesAreEmpty(m, r - {k});
    }
  }

  lemma {:induction false} SizeOfAppend(es: seq<FileEntry>, e: FileEntry)
    ensures SizeOf(es + [e]) == SizeOf(es) + e.size
  {
    if es != [] {
      assert (es + [e])[1..] == es[1..] + [e];
      SizeOfAppend(es[1..], e);
    }
  }

  lemma {:induction false} BuildSize(es: seq<FileEntry>, n: nat)
    requires n <= |es| && CleanPaths(es) && Separate(es)
    ensures MapSize(BuildFirst(es, n).entries) == SizeOf(es[..n])
  {
    if n == 0 {
      EmptySize();
    } else {
      BuildSize(es, n - 1);
      BuildFirstIsTree(es, n - 1, BuildFirst(es, n - 1));
      AddFileSize(BuildFirst(es, n - 1), es, n - 1, BuildFirst(es, n));
      SizeOfAppend(es[..n - 1], es[n - 1]);
      assert es[..n] == es[..n - 1] + [es[n - 1]];
    }
  }

  lemma EmptySize()
    ensures MapSize(EMPTY.entries) == 0
  {
    MapSizeAdd(map[], ROOT, DirectoryAt(ROOT));
    assert EMPTY.entries == map[][ROOT := DirectoryAt(ROOT)];
  }

  lemma AddFileSize(ix: Index, es: seq<FileEntry>, n: nat, r: Index)
    requires n < |es| && CleanPaths(es) && Separate(es) && State(ix) && Holds(ix, es, n)
    requires r == AddFile(ix, es[n])
    ensures MapSize(r.entries) == MapSize(ix.entries) + es[n].size
  {
    NewPath(ix, es, n);
    AddFileKeepsState(ix, es[n]);
    var d := AddDirectories(ix, es[n].virtualPath, 1);
    DirectoriesAreEmpty(ix.entries, d.entries);
    MapSizeAdd(d.entries, es[n].virtualPath, es[n]);
  }

  ghost function LongestPath(keys: set<bytes>): (bound: nat)
    ensures forall k <- keys :: |k| <= bound
  {
    if keys == {} then 0
    else
      var k :| k in keys;
      var rest := LongestPath(keys - {k});
      assert forall j <- keys :: j == k || j in keys - {k};
      if |k| > rest then |k| else rest
  }

  ghost function WalkFromRoot(ix: Index): seq<FileEntry>
    requires Tree(ix)
  {
    assert ROOT in ix.entries.Keys;
    Walk(ix, ROOT, LongestPath(ix.entries.Keys))
  }

  /** The root has every other entry under it. */
  lemma {:induction false} AllUnderRoot(ix: Index, k: bytes)
    requires Tree(ix) && k in ix.entries && k != ROOT
    ensures Under(k, ROOT)
    decreases |k|
  {
    assert Placed(ix, k);
    if ParentOf(k) != ROOT {
      AllUnderRoot(ix, ParentOf(k));
    }
  }

  /** `w` holds every file once with its size, offset and index, every directory above a file once, and
      nothing else. */
  ghost predicate VisitsAll(w: seq<FileEntry>, es: seq<FileEntry>) {
    && DistinctPaths(w)
    && (forall j :: 0 <= j < |es| ==> es[j] in w)
    && (forall k :: AboveFile(es, |es|, k) && k != ROOT ==> DirectoryAt(k) in w)
    && (forall e <- w :: if e.isDirectory then e == DirectoryAt(e.virtualPath) && AboveFile(es, |es|, e.virtualPath)
                         else e in es)
  }

  /** Walking the listings from the root visits every file of the torrent exactly once, with its size,
      offset and index, every directory above a file exactly once, nothing else, and the sizes of all
      visited entries add up to the sizes of the files. */
  lemma WalkConserves(files: seq<FileRecord>)
    requires CleanPaths(FileEntries(files)) && Separate(FileEntries(files))
    ensures Tree(Build(files))
    ensures VisitsAll(WalkFromRoot(Build(files)), FileEntries(files))
    ensures SizeOf(WalkFromRoot(Build(files))) == SizeOf(FileEntries(files))
  {
    var ix, es := Build(files), FileEntries(files);
    BuildFirstIsTree(es, |es|, ix);
    NamespaceContents(files);
    WalkedTree(ix, es);
    BuiltSize(es);
  }

  lemma BuiltSize(es: seq<FileEntry>)
    requires CleanPaths(es) && Separate(es)
    ensures MapSize(BuildFirst(es, |es|).entries) == SizeOf(es)
  {
    BuildSize(es, |es|);
    assert es[..|es|] == es;
  }

  lemma WalkedTree(ix: Index, es: seq<FileEntry>)
    requires CleanPaths(es) && Separate(es) && Tree(ix) && Holds(ix, es, |es|)
    requires forall k :: AboveFile(es, |es|, k) ==> k in ix.entries && ix.entries[k] == DirectoryAt(k)
    ensures VisitsAll(WalkFromRoot(ix), es) && SizeOf(WalkFromRoot(ix)) == MapSize(ix.entries)
  {
    WalkVisits(ix, ROOT, LongestPath(ix.entries.Keys));
    WalkContents(ix, es, WalkFromRoot(ix));
    WalkSize(ix, WalkFromRoot(ix));
  }

  lemma WalkContents(ix: Index, es: seq<FileEntry>, w: seq<FileEntry>)
    requires CleanPaths(es) && Separate(es) && Tree(ix) && Holds(ix, es, |es|)
    requires forall k :: AboveFile(es, |es|, k) ==> k in ix.entries && ix.entries[k] == DirectoryAt(k)
    requires Visits(ix, w, k => Under(k, ROOT))
    ensures VisitsAll(w, es)
  {
    forall k | k in ix.entries && k != ROOT ensures ix.entries[k] in w {
      AllUnderRoot(ix, k);
    }
    forall j | 0 <= j < |es| ensures es[j] in w {
      assert HoldsFile(ix, es[j]);
    }
    forall e | e in w
      ensures if e.isDirectory then e == DirectoryAt(e.virtualPath) && AboveFile(es, |es|, e.virtualPath) else e in es
    {
      VisitedEntry(ix, es, |es|, e);
    }
  }

  lemma VisitedEntry(ix: Index, es: seq<FileEntry>, n: nat, e: FileEntry)
    requires n == |es| && CleanPaths(es) && Separate(es) && Tree(ix) && Holds(ix, es, n)
    requires e.virtualPath in ix.entries && ix.entries[e.virtualPath] == e && Under(e.virtualPath, ROOT)
    ensures if e.isDirectory then e == DirectoryAt(e.virtualPath) && AboveFile(es, n, e.virtualPath) else e in es
  {
    NotUnderItself(ROOT);
    if IsFilePath(es, n, e.virtualPath) {
      var j :| 0 <= j < n && es[j].virtualPath == e.virtualPath;
      assert HoldsFile(ix, es[j]);
    }
  }

  lemma WalkSize(ix: Index, w: seq<FileEntry>)
    requires Tree(ix) && Visits(ix, w, k => Under(k, ROOT))
    ensures SizeOf(w) == MapSize(ix.entries)
  {
    var m := ix.entries - {ROOT};
    NotUnderItself(ROOT);
    forall k | k in m ensures m[k] in w && m[k].virtualPath == k {
      AllUnderRoot(ix, k);
      assert Placed(ix, k);
    }
    ListSize(w, m);
    MapSizeRemove(ix.entries, ROOT);
  }
}
