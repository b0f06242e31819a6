/** The projected index agrees with the namespace tree, except exactly where two paths share a key. */
module ProjectedTheorems {
  import opened Bytes
  import opened Namespace
  import opened NamespaceTree
  import opened NamespaceWalk
  import opened Projected
  import opened SpelledPaths

  // ----- a projected name asked with backslashes is its own key

  /** A relative name that normalization leaves alone. */
  ghost predicate Askable(name: wide) {
    name != [] && name[|name| - 1] != WSLASH && WBACKSLASH !in name
  }

  lemma {:induction false} ProjectionAskable(out: wide, path: bytes, start: nat, ascii: bool, name: Naming)
    requires WindowsNames(name)
    requires out == [] || Askable(out)
    requires start < |path| || out != []
    ensures Askable(ProjectFrom(out, path, start, ascii, name))
    decreases |path| - start
  {
    if start < |path| {
      var slash := NextSlash(path, start);
      var part := name(path[start..slash], ascii);
      assert WindowsName(part) && forall c <- part :: !Forbidden(c);
      var next := Joined(out, part);
      assert next[|next| - 1] == part[|part| - 1] && part[|part| - 1] in part;
      if slash < |path| {
        ProjectionAskable(next, path, slash + 1, ascii, name);
      }
    }
  }

  lemma LastCharacter(front: wide, last: wchar)
    ensures Backslashed(front + [last]) == Backslashed(front) + [if last == WSLASH then WBACKSLASH else last]
    ensures Forward(front + [last]) == Forward(front) + [if last == WBACKSLASH then WSLASH else last]
  {
    assert (front + [last])[..|front|] == front;
  }

  lemma {:induction false} ForwardBackslashed(name: wide)
    requires WBACKSLASH !in name
    ensures Forward(Backslashed(name)) == name
  {
    if name != [] {
      var front, last := name[..|name| - 1], name[|name| - 1];
      assert name == front + [last] && last in name;
      assert forall c <- front :: c in name;
      ForwardBackslashed(front);
      LastCharacter(front, last);
      LastCharacter(Backslashed(front), if last == WSLASH then WBACKSLASH else last);
    }
  }

  /** Asking for the relative name of a path, written with backslashes, asks for the key it is registered under. */
  lemma AskedKey(path: bytes, ascii: bool, name: Naming)
    requires WindowsNames(name)
    requires path != []
    ensures NormalizeProjected(Backslashed(Relative(path, ascii, name))) == Key(path, ascii, name)
    ensures Key(path, ascii, name) != WROOT
  {
    var relative := Relative(path, ascii, name);
    ProjectionAskable([], path, 0, ascii, name);
    ForwardBackslashed(relative);
    assert Key(path, ascii, name)[|relative|] == relative[|relative| - 1];
  }

  // ----- a projected path is the parent's, and the name of the last component

  lemma {:induction false} NextSlashBefore(a: bytes, b: bytes, start: nat)
    requires start <= |a|
    ensures NextSlash(a + ROOT + b, start) == NextSlash(a, start)
    decreases |a| - start
  {
    if start < |a| && a[start] != SLASH {
      NextSlashBefore(a, b, start + 1);
    }
  }

  lemma LastComponent(path: bytes, start: nat, out: wide, ascii: bool, name: Naming)
    requires start < |path| && forall i :: start <= i < |path| ==> path[i] != SLASH
    ensures ProjectFrom(out, path, start, ascii, name) == Joined(out, name(path[start..], ascii))
  {
    assert NextSlash(path, start) == |path| && path[start..|path|] == path[start..];
  }

  lemma ProjectStep(out: wide, path: bytes, start: nat, ascii: bool, name: Naming)
    requires start < |path|
    ensures var slash := NextSlash(path, start);
            var next := Joined(out, name(path[start..slash], ascii));
            ProjectFrom(out, path, start, ascii, name) ==
            if slash == |path| then next else ProjectFrom(next, path, slash + 1, ascii, name)
  {
  }

  /** `b` is the last component of the path, behind `a`. */
  ghost predicate EndsIn(path: bytes, a: bytes, b: bytes) {
    a != [] && a[|a| - 1] != SLASH && b != [] && SLASH !in b && path == a + ROOT + b
  }

  lemma {:induction false} ProjectJoined(out: wide, path: bytes, a: bytes, b: bytes, start: nat, ascii: bool, name: Naming,
                                         whole: wide, front: wide)
    requires EndsIn(path, a, b) && start < |a|
    requires whole == ProjectFrom(out, path, start, ascii, name) && front == ProjectFrom(out, a, start, ascii, name)
    ensures whole == Joined(front, name(b, ascii))
    decreases |a| - start
  {
    var slash, next := ProjectBoth(out, path, a, b, start, ascii, name, whole, front);
    if slash < |a| {
      ProjectJoined(next, path, a, b, slash + 1, ascii, name, whole, front);
    }
  }

  lemma ProjectBoth(out: wide, path: bytes, a: bytes, b: bytes, start: nat, ascii: bool, name: Naming,
                    whole: wide, front: wide) returns (slash: nat, next: wide)
    requires EndsIn(path, a, b) && start < |a|
    requires whole == ProjectFrom(out, path, start, ascii, name) && front == ProjectFrom(out, a, start, ascii, name)
    ensures start <= slash <= |a| && (slash < |a| ==> slash + 1 < |a|)
    ensures slash == |a| ==> whole == Joined(front, name(b, ascii))
    ensures slash < |a| ==>
              whole == ProjectFrom(next, path, slash + 1, ascii, name) &&
              front == ProjectFrom(next, a, slash + 1, ascii, name)
  {
    var token;
    slash, token := SameToken(path, a, b, start);
    next := Joined(out, name(token, ascii));
    ProjectStep(out, a, start, ascii, name);
    ProjectPast(out, path, start, slash, next, ascii, name);
    if slash == |a| {
      LastComponent(path, slash + 1, next, ascii, name);
    }
  }

  /** The next component is the same with and without a last one behind. */
  lemma SameToken(path: bytes, a: bytes, b: bytes, start: nat) returns (slash: nat, token: bytes)
    requires EndsIn(path, a, b) && start < |a|
    ensures start <= slash <= |a| < |path| && slash == NextSlash(a, start) && slash == NextSlash(path, start)
    ensures token == a[start..slash] && token == path[start..slash] && (slash < |a| ==> slash + 1 < |a|)
    ensures slash == |a| ==> slash + 1 < |path| && path[slash + 1..] == b && SLASH !in b
    ensures slash == |a| ==> forall i :: slash < i < |path| ==> path[i] != SLASH
  {
    slash := NextSlash(a, start);
    token := a[start..slash];
    NextSlashBefore(a, b, start);
    SameSlice(path, a, b, start, slash);
  }

  lemma ProjectPast(out: wide, path: bytes, start: nat, slash: nat, next: wide, ascii: bool, name: Naming)
    requires start < |path| && slash == NextSlash(path, start) < |path|
    requires next == Joined(out, name(path[start..slash], ascii))
    ensures ProjectFrom(out, path, start, ascii, name) == ProjectFrom(next, path, slash + 1, ascii, name)
  {
    ProjectStep(out, path, start, ascii, name);
  }

  lemma SameSlice(path: bytes, a: bytes, b: bytes, start: nat, end: nat)
    requires EndsIn(path, a, b) && start <= end <= |a|
    ensures path[start..end] == a[start..end] && path[|a|] == SLASH && path[|a| + 1..] == b
    ensures forall i :: |a| < i < |path| ==> path[i] != SLASH
  {
    forall i | |a| < i < |path| ensures path[i] != SLASH {
      assert path[i] == b[i - |a| - 1] && path[i] in b;
    }
  }

  lemma KeyJoined(a: bytes, b: bytes, ascii: bool, name: Naming)
    requires WindowsNames(name) && a != [] && a[|a| - 1] != SLASH && b != [] && SLASH !in b
    ensures Key(a + ROOT + b, ascii, name) == Key(a, ascii, name) + WROOT + name(b, ascii)
  {
    ProjectJoined([], a + ROOT + b, a, b, 0, ascii, name, Relative(a + ROOT + b, ascii, name), Relative(a, ascii, name));
    ProjectionAskable([], a, 0, ascii, name);
  }

  lemma CleanEnds(p: bytes)
    requires Clean(p)
    ensures var pos := LastSlash(p); 0 <= pos < |p| - 1 && (pos > 0 ==> p[pos - 1] != SLASH)
  {
  }

  lemma NoSlashBehind(p: bytes, pos: int)
    requires -1 <= pos < |p| && forall i :: pos < i < |p| ==> p[i] != SLASH
    ensures SLASH !in p[pos + 1..]
  {
  }

  lemma CutAt(p: bytes, pos: nat)
    requires 0 < pos < |p|
    ensures p[1..] == p[1..pos] + [p[pos]] + p[pos + 1..]
  {
  }

  /** The key of a path is the key of its directory, a slash, and the name of its last component. */
  lemma KeyOfChild(p: bytes, ascii: bool, name: Naming)
    requires Clean(p) && WindowsNames(name)
    ensures var d, leaf := ParentOf(p), p[LastSlash(p) + 1..];
            && d != [] && Key(p[1..], ascii, name) ==
                          (if d == ROOT then [] else Key(d[1..], ascii, name)) + WROOT + name(leaf, ascii)
  {
    var pos, leaf := LastSlash(p), p[LastSlash(p) + 1..];
    CleanEnds(p);
    NoSlashBehind(p, pos);
    if pos == 0 {
      LastComponent(leaf, 0, [], ascii, name);
      assert leaf[0..] == leaf;
    } else {
      CutAt(p, pos);
      assert p[..pos][1..] == p[1..pos];
      assert p[1..pos][pos - 2] == p[pos - 1];
      KeyJoined(p[1..pos], leaf, ascii, name);
    }
  }

  // ----- the first path registered under a key keeps it

  predicate HasKey(path: bytes, key: wide, name: Naming) {
    key == Key(path, false, name) || key == Key(path, true, name)
  }

  /** `i` is the first of `paths` with the key. */
  ghost predicate FirstHolder(paths: seq<bytes>, i: nat, key: wide, name: Naming) {
    && i < |paths| && HasKey(paths[i], key, name)
    && forall j :: 0 <= j < i ==> !HasKey(paths[j], key, name)
  }

  lemma {:induction false} FirstKeeps(m: Projection, paths: seq<bytes>, key: wide, name: Naming)
    ensures var r := RegisterAll(m, paths, name);
            && (key in m ==> key in r && r[key] == m[key])
            && (key in r && key !in m ==> exists i: nat :: FirstHolder(paths, i, key, name) && r[key] == ROOT + paths[i])
            && (forall p <- paths :: HasKey(p, key, name) ==> key in r)
    decreases |paths|
  {
    if paths != [] {
      var first, rest := Register(m, paths[0], name), paths[1..];
      var r := RegisterAll(m, paths, name);
      FirstKeeps(first, rest, key, name);
      assert key in first <==> key in m || HasKey(paths[0], key, name);
      forall p | p in paths && HasKey(p, key, name) ensures key in r {
        assert p == paths[0] || p in rest;
      }
      if key in r && key !in m {
        if HasKey(paths[0], key, name) {
          assert FirstHolder(paths, 0, key, name);
        } else {
          var i: nat :| FirstHolder(rest, i, key, name) && r[key] == ROOT + rest[i];
          assert FirstHolder(paths, i + 1, key, name);
        }
      }
    }
  }

  /** The root key holds the root, and a key that some path has holds the first path that has it; other
      keys are not there. */
  ghost predicate HoldsFirst(m: Projection, paths: seq<bytes>, key: wide, name: Naming) {
    && WROOT in m && m[WROOT] == ROOT
    && (key != WROOT && key in m ==>
          exists i: nat :: FirstHolder(paths, i, key, name) && m[key] == ROOT + paths[i])
    && (forall i: nat :: FirstHolder(paths, i, key, name) ==> key in m)
  }

  lemma RegisteredFirst(paths: seq<bytes>, key: wide, name: Naming)
    ensures HoldsFirst(RegisterAll(map[WROOT := ROOT], paths, name), paths, key, name)
  {
    FirstKeeps(map[WROOT := ROOT], paths, WROOT, name);
    FirstKeeps(map[WROOT := ROOT], paths, key, name);
    forall i: nat | FirstHolder(paths, i, key, name)
      ensures key in RegisterAll(map[WROOT := ROOT], paths, name)
    {
      assert paths[i] in paths;
    }
  }

  /** The whole index, for every list of files: every key but the root's holds the first path with that
      key in the order the files list their directories and themselves. */
  lemma IndexKeepsFirst(files: seq<FileRecord>, name: Naming, key: wide)
    ensures HoldsFirst(IndexFirst(files, |files|, name), PathsOf(files, |files|), key, name)
  {
    RegisteredFirst(PathsOf(files, |files|), key, name);
  }

  // ----- the registered paths in the tree

  ghost predicate AllSpelled(files: seq<FileRecord>) {
    forall i :: 0 <= i < |files| ==> Spelled(files[i].relativePath)
  }

  ghost predicate AllTidy(files: seq<FileRecord>) {
    forall i :: 0 <= i < |files| ==> Tidy(files[i].relativePath)
  }

  lemma TidyAreSpelled(files: seq<FileRecord>)
    requires AllTidy(files)
    ensures AllSpelled(files)
  {
    forall i | 0 <= i < |files| ensures Spelled(files[i].relativePath) {
      TidyIsSpelled(files[i].relativePath);
    }
  }

  lemma {:induction false} PathsOfMember(files: seq<FileRecord>, n: nat, q: bytes)
    requires n <= |files|
    ensures q in PathsOf(files, n) <==> exists j :: 0 <= j < n && Registers(files[j].relativePath, q)
  {
    if n > 0 {
      PathsOfMember(files, n - 1, q);
      var last := PathsFrom(files[n - 1].relativePath, [], 0);
      assert PathsOf(files, n) == PathsOf(files, n - 1) + last;
      assert q in last <==> Registers(files[n - 1].relativePath, q);
    }
  }

  /** Where the index is a tree, the virtual path of every file is clean. */
  lemma TreeFile(files: seq<FileRecord>, j: nat)
    requires Tree(Build(files)) && j < |files|
    ensures Clean(Normalize(files[j].relativePath))
    ensures CleanPaths(FileEntries(files)) && Separate(FileEntries(files))
    ensures FileEntries(files)[j].virtualPath == Normalize(files[j].relativePath)
  {
    TreeIffSeparate(files);
    assert Clean(FileEntries(files)[j].virtualPath);
  }

  /** One of the files is `k` or lies below it. */
  ghost predicate AtOrAbove(files: seq<FileRecord>, k: bytes) {
    exists j :: 0 <= j < |files| && AtOrUnder(Normalize(files[j].relativePath), k)
  }

  lemma EntryAtOrAbove(files: seq<FileRecord>, k: bytes)
    requires Tree(Build(files)) && k != ROOT
    ensures k in Build(files).entries <==> AtOrAbove(files, k)
  {
    var es, n := FileEntries(files), |files|;
    TreeIffSeparate(files);
    NamespaceContents(files);
    assert IsFilePath(es, n, k) || AboveFile(es, n, k) <==> k in Build(files).entries;
    if IsFilePath(es, n, k) {
      var j :| 0 <= j < n && es[j].virtualPath == k;
      FileAtOrAbove(files, j, k);
    } else if AboveFile(es, n, k) {
      var j :| 0 <= j < n && Under(es[j].virtualPath, k);
      FileAtOrAbove(files, j, k);
    }
    if AtOrAbove(files, k) {
      var j :| 0 <= j < n && AtOrUnder(Normalize(files[j].relativePath), k);
      assert es[j].virtualPath == k || Under(es[j].virtualPath, k);
    }
  }

  lemma FileAtOrAbove(files: seq<FileRecord>, j: nat, k: bytes)
    requires j < |files| && AtOrUnder(Normalize(files[j].relativePath), k)
    ensures AtOrAbove(files, k)
  {
  }

  /** Every registered path leads to an entry: in the namespace it is a file or a directory above one. */
  lemma {:induction false} RegisteredLooksUp(files: seq<FileRecord>, q: bytes)
    requires Tree(Build(files)) && q in PathsOf(files, |files|)
    ensures Normalize(ROOT + q) in Build(files).entries && (q != [] ==> Normalize(ROOT + q) != ROOT)
  {
    PathsOfMember(files, |files|, q);
    var j :| 0 <= j < |files| && Registers(files[j].relativePath, q);
    var path := files[j].relativePath;
    if q == [] {
      assert ROOT + q == ROOT;
    } else {
      TreeFile(files, j);
      BareShape(path);
      RegistersBoundaries(path, q);
      RegisteredAbove(path, q);
      FileAtOrAbove(files, j, Normalize(ROOT + q));
      EntryAtOrAbove(files, Normalize(ROOT + q));
    }
  }

  /** Where relative paths spell their virtual paths, every entry is registered. */
  lemma {:induction false} SpelledEntry(files: seq<FileRecord>, q: bytes)
    requires Tree(Build(files)) && AllSpelled(files) && q != [] && ROOT + q in Build(files).entries
    ensures q in PathsOf(files, |files|)
  {
    var k := ROOT + q;
    assert |k| > 1;
    EntryAtOrAbove(files, k);
    var j :| 0 <= j < |files| && AtOrUnder(Normalize(files[j].relativePath), k);
    TreeFile(files, j);
    BareShape(files[j].relativePath);
    SpelledRegisters(files[j].relativePath, q);
    RegistersBoundaries(files[j].relativePath, q);
    PathsOfMember(files, |files|, q);
  }

  /** Where there is nothing more to them, the registered paths are the entries other than the root. */
  lemma {:induction false} RegisteredAreEntries(files: seq<FileRecord>, q: bytes)
    requires Tree(Build(files)) && AllTidy(files) && q != []
    ensures q in PathsOf(files, |files|) <==> ROOT + q in Build(files).entries
  {
    PathsOfMember(files, |files|, q);
    assert |ROOT + q| > 1;
    EntryAtOrAbove(files, ROOT + q);
    forall j | 0 <= j < |files|
      ensures Registers(files[j].relativePath, q) <==> AtOrUnder(Normalize(files[j].relativePath), ROOT + q)
    {
      TreeFile(files, j);
      FileRegistersAncestors(files[j].relativePath, q);
    }
  }

  // ----- agreement with the tree

  /** The entry that asking for the name of `k` with backslashes gives. */
  function Ask(m: Projection, ix: Index, k: bytes, ascii: bool, name: Naming): Option<FileEntry>
    requires k != []
  {
    LookupProjected(m, ix, Backslashed(Relative(k[1..], ascii, name)))
  }

  ghost predicate SameKey(k: bytes, l: bytes, a: bool, b: bool, name: Naming)
    requires k != [] && l != []
  {
    Key(k[1..], a, name) == Key(l[1..], b, name)
  }

  /** Some path of the tree other than the root has the key, and the index holds such a path. */
  ghost predicate Holder(ix: Index, k: bytes, key: wide, name: Naming) {
    k != ROOT && k != [] && k in ix.entries && HasKey(k[1..], key, name)
  }

  lemma EntryPath(ix: Index, k: bytes)
    requires Tree(ix) && k in ix.entries
    ensures k == ROOT || (Clean(k) && k[1..] != [] && k == ROOT + k[1..])
    ensures Lookup(ix, k) == Some(ix.entries[k]) && ix.entries[k].virtualPath == k
  {
    assert Placed(ix, k);
    NormalizeClean(k);
  }

  lemma EmptyKey(ascii: bool, name: Naming)
    ensures Key([], ascii, name) == WROOT
  {
  }

  /** The first path registered under a key. */
  lemma FirstRegistered(files: seq<FileRecord>, name: Naming, key: wide) returns (q: bytes)
    requires key in IndexFirst(files, |files|, name) && key != WROOT
    ensures q in PathsOf(files, |files|) && q != [] && HasKey(q, key, name)
    ensures IndexFirst(files, |files|, name)[key] == ROOT + q
  {
    var m, paths := IndexFirst(files, |files|, name), PathsOf(files, |files|);
    IndexKeepsFirst(files, name, key);
    var i: nat :| FirstHolder(paths, i, key, name) && m[key] == ROOT + paths[i];
    q := paths[i];
    assert q in paths;
    EmptyKey(false, name);
    EmptyKey(true, name);
  }

  /** For every tree, whatever the relative paths are, every value of the index looks up to an entry. */
  lemma ValuesLookUp(files: seq<FileRecord>, name: Naming, key: wide)
    requires Tree(Build(files)) && key in IndexFirst(files, |files|, name)
    ensures Lookup(Build(files), IndexFirst(files, |files|, name)[key]).Some?
  {
    RootHeld(files, name);
    if key != WROOT {
      var q := FirstRegistered(files, name, key);
      RegisteredLooksUp(files, q);
    }
  }

  lemma HeldIsHolder(files: seq<FileRecord>, name: Naming, key: wide)
    requires Tree(Build(files)) && AllTidy(files)
    requires key in IndexFirst(files, |files|, name) && key != WROOT
    ensures Holder(Build(files), IndexFirst(files, |files|, name)[key], key, name)
  {
    var q := FirstRegistered(files, name, key);
    RegisteredAreEntries(files, q);
    assert (ROOT + q)[1..] == q && |ROOT + q| > 1;
  }

  /** Where relative paths spell their virtual paths, both keys of every path of the tree are there. */
  lemma HolderIsHeld(files: seq<FileRecord>, name: Naming, key: wide, k: bytes)
    requires WindowsNames(name) && Tree(Build(files)) && AllSpelled(files)
    requires Holder(Build(files), k, key, name)
    ensures key in IndexFirst(files, |files|, name) && key != WROOT
  {
    EntryPath(Build(files), k);
    AskedKey(k[1..], false, name);
    AskedKey(k[1..], true, name);
    SpelledEntry(files, k[1..]);
    FirstKeeps(map[WROOT := ROOT], PathsOf(files, |files|), key, name);
  }

  /** Where there is nothing more to the relative paths, every value of the index looks up to an entry,
      that of a path with the key, and every path of the tree has both its keys in the index. */
  lemma ProjectionAgrees(files: seq<FileRecord>, name: Naming, key: wide)
    requires WindowsNames(name) && Tree(Build(files)) && AllTidy(files)
    ensures var m, ix := IndexFirst(files, |files|, name), Build(files);
            && (key in m ==> m[key] in ix.entries && Lookup(ix, m[key]) == Some(ix.entries[m[key]]))
            && (key in m && key != WROOT ==> Holder(ix, m[key], key, name))
            && (forall k :: Holder(ix, k, key, name) ==> key in m && key != WROOT)
            && WROOT in m && m[WROOT] == ROOT
  {
    var m, ix := IndexFirst(files, |files|, name), Build(files);
    TidyAreSpelled(files);
    RootHeld(files, name);
    if key in m {
      if key != WROOT {
        HeldIsHolder(files, name, key);
      }
      EntryPath(ix, m[key]);
    }
    forall k | Holder(ix, k, key, name) ensures key in m && key != WROOT {
      HolderIsHeld(files, name, key, k);
    }
  }

  lemma RootHeld(files: seq<FileRecord>, name: Naming)
    ensures var m := IndexFirst(files, |files|, name); WROOT in m && m[WROOT] == ROOT
  {
    FirstKeeps(map[WROOT := ROOT], PathsOf(files, |files|), WROOT, name);
  }

  /** Asking with backslashes for the display name or the fallback name of any path of the tree finds an
      entry of the tree that has the same key; asking for nothing finds the root. */
  lemma AskFinds(files: seq<FileRecord>, name: Naming, k: bytes, ascii: bool)
    requires WindowsNames(name) && Tree(Build(files)) && AllTidy(files)
    requires k in Build(files).entries && k != ROOT
    ensures var m, ix := IndexFirst(files, |files|, name), Build(files);
            && |k| > 1 && k[0] == SLASH
            && Ask(m, ix, k, ascii, name).Some?
            && (var e := Ask(m, ix, k, ascii, name).value;
                && e.virtualPath in ix.entries && e == ix.entries[e.virtualPath]
                && Holder(ix, e.virtualPath, Key(k[1..], ascii, name), name))
            && LookupProjected(m, ix, []) == Some(DirectoryAt(ROOT))
  {
    var m, ix := IndexFirst(files, |files|, name), Build(files);
    EntryPath(ix, k);
    EntryPath(ix, ROOT);
    var key := Key(k[1..], ascii, name);
    AskedKey(k[1..], ascii, name);
    ProjectionAgrees(files, name, key);
    assert Holder(ix, k, key, name);
    EntryPath(ix, m[key]);
  }

  /** Every name resolves to its own entry. */
  ghost predicate ResolvesAll(m: Projection, ix: Index, name: Naming) {
    forall k, a :: k in ix.entries && k != ROOT && k != [] ==> Ask(m, ix, k, a, name) == Some(ix.entries[k])
  }

  /** No two paths of the tree share a key. */
  ghost predicate NoSharedKey(ix: Index, name: Naming) {
    forall k, l, a, b :: k in ix.entries && l in ix.entries && k != ROOT && l != ROOT && k != [] && l != [] && k != l ==>
      !SameKey(k, l, a, b, name)
  }

  /** Where every name resolves to its own entry, no two paths share a key. */
  lemma ResolvedUnshared(m: Projection, ix: Index, name: Naming)
    requires WindowsNames(name) && Tree(ix) && ResolvesAll(m, ix, name)
    ensures NoSharedKey(ix, name)
  {
    forall k, l, a, b | k in ix.entries && l in ix.entries && k != ROOT && l != ROOT && k != [] && l != [] &&
                        SameKey(k, l, a, b, name)
      ensures k == l
    {
      SharedClash(m, ix, name, k, l, a, b);
    }
  }

  lemma SharedClash(m: Projection, ix: Index, name: Naming, k: bytes, l: bytes, a: bool, b: bool)
    requires WindowsNames(name)
    requires Tree(ix) && k in ix.entries && l in ix.entries && k != ROOT && l != ROOT && k != [] && l != []
    requires SameKey(k, l, a, b, name)
    requires Ask(m, ix, k, a, name) == Some(ix.entries[k]) && Ask(m, ix, l, b, name) == Some(ix.entries[l])
    ensures k == l
  {
    EntryPath(ix, k);
    EntryPath(ix, l);
    AskedKey(k[1..], a, name);
    AskedKey(l[1..], b, name);
  }

  /** Two file names that differ only in a forbidden character have the same display key. */
  lemma DisplayNamesCanClash(toWide: bytes -> wide)
    requires toWide([97, 63]) == [97, 63] && toWide([97, 42]) == [97, 42]
    ensures SameKey([SLASH, 97, 63], [SLASH, 97, 42], false, false, NamesBy(toWide))
  {
    var name := NamesBy(toWide);
    var a, b: bytes := [97, 63], [97, 42];
    assert [SLASH, 97, 63][1..] == a && [SLASH, 97, 42][1..] == b;
    ClashingName(63);
    ClashingName(42);
    assert name(a, false) == Sanitize(toWide(a)) && name(b, false) == Sanitize(toWide(b));
    SingleName(a, name);
    SingleName(b, name);
  }

  lemma ClashingName(c: wchar)
    requires Forbidden(c)
    ensures Sanitize([97, c]) == [97, UNDERSCORE]
  {
    assert [97, c][..1] == [97] && [97][..0] == [];
    assert Replaced([97]) == [97];
    assert Replaced([97, c]) == Replaced([97]) + [UNDERSCORE];
  }

  lemma SingleName(path: bytes, name: Naming)
    requires path != [] && forall i :: 0 <= i < |path| ==> path[i] != SLASH
    ensures Relative(path, false, name) == name(path, false)
  {
    assert NextSlash(path, 0) == |path| && path[0..|path|] == path;
  }
}
