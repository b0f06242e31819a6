/** Paths as lists of components: how a torrent spells them, and what the tree of paths is in terms of
    the lists. */
module TorrentPaths {
  import opened Bytes
  import opened Machine
  import opened Bencode
  import opened Namespace
  import opened NamespaceTree
  import opened NamespaceWalk
  import opened Metadata
  import opened MetadataTheorems

  /** A component without separators. */
  predicate Plain(c: bytes) {
    c != [] && SLASH !in c && BACKSLASH !in c
  }

  predicate AllPlain(cs: seq<bytes>) {
    forall i :: 0 <= i < |cs| ==> Plain(cs[i])
  }

  /** The absolute path of a list of components. */
  function PathOf(cs: seq<bytes>): bytes { Behind([], cs) }

  lemma {:induction false} BehindPrefixed(head: bytes, out: bytes, cs: seq<bytes>)
    ensures Behind(head + out, cs) == head + Behind(out, cs)
    decreases |cs|
  {
    if cs != [] {
      BehindPrefixed(head, out, cs[..|cs| - 1]);
    }
  }

  // ----- paths of plain components

  lemma CleanExtend(p: bytes, c: bytes)
    requires (p == [] || Clean(p)) && Plain(c)
    ensures Clean(p + ([SLASH] + c))
  {
    var q := p + ([SLASH] + c);
    assert c[|c| - 1] in c && c[0] in c;
    assert q[|q| - 1] == c[|c| - 1];
    forall k | |p| < k < |q| ensures q[k] != SLASH {
      assert q[k] == c[k - |p| - 1] && q[k] in c;
    }
  }

  lemma {:induction false} PathClean(cs: seq<bytes>)
    requires cs != [] && AllPlain(cs)
    ensures Clean(PathOf(cs))
    decreases |cs|
  {
    var front := cs[..|cs| - 1];
    if front != [] {
      PathClean(front);
    }
    CleanExtend(PathOf(front), cs[|cs| - 1]);
  }

  lemma {:induction false} LastSlashBehind(p: bytes, c: bytes)
    requires SLASH !in c
    ensures LastSlash(p + ([SLASH] + c)) == |p|
    decreases |c|
  {
    var q := p + ([SLASH] + c);
    if c == [] {
      assert q[|q| - 1] == SLASH;
    } else {
      var front := c[..|c| - 1];
      assert c[|c| - 1] in c && q[|q| - 1] == c[|c| - 1];
      assert forall b <- front :: b in c;
      LastSlashBehind(p, front);
      assert q[..|q| - 1] == p + ([SLASH] + front);
    }
  }

  lemma ParentOfPath(cs: seq<bytes>)
    requires cs != [] && AllPlain(cs)
    ensures ParentOf(PathOf(cs)) == if |cs| == 1 then ROOT else PathOf(cs[..|cs| - 1])
  {
    var front := cs[..|cs| - 1];
    LastSlashBehind(PathOf(front), cs[|cs| - 1]);
    if |cs| > 1 {
      PathClean(front);
    }
    assert PathOf(cs)[..|PathOf(front)|] == PathOf(front);
  }

  /** Different lists of plain components have different paths. */
  lemma {:induction false} PathInjective(a: seq<bytes>, b: seq<bytes>)
    requires AllPlain(a) && AllPlain(b) && PathOf(a) == PathOf(b)
    ensures a == b
    decreases |a|
  {
    if a != [] && b != [] {
      var x, y := PathOf(a[..|a| - 1]), PathOf(b[..|b| - 1]);
      LastSlashBehind(x, a[|a| - 1]);
      LastSlashBehind(y, b[|b| - 1]);
      SplitSame(x, a[|a| - 1], y, b[|b| - 1]);
      PathInjective(a[..|a| - 1], b[..|b| - 1]);
      assert a == a[..|a| - 1] + [a[|a| - 1]];
      assert b == b[..|b| - 1] + [b[|b| - 1]];
    }
  }

  lemma SplitSame(x: bytes, c: bytes, y: bytes, d: bytes)
    requires |x| == |y| && x + ([SLASH] + c) == y + ([SLASH] + d)
    ensures x == y && c == d
  {
    var p := x + ([SLASH] + c);
    assert x == p[..|x|] && y == p[..|y|];
    assert c == p[|x| + 1..] && d == p[|y| + 1..];
  }

  /** One path lies below another exactly when the other's components are a proper prefix of its own. */
  lemma {:induction false} UnderIffPrefix(a: seq<bytes>, b: seq<bytes>)
    requires a != [] && b != [] && AllPlain(a) && AllPlain(b)
    ensures Under(PathOf(a), PathOf(b)) <==> b < a
    decreases |a|
  {
    var front := a[..|a| - 1];
    PathClean(b);
    ParentOfPath(a);
    PrefixOfFront(a, b);
    UnderStep(PathOf(a), PathOf(b));
    if |a| == 1 {
      UnderStep(ROOT, PathOf(b));
    } else {
      PathClean(a);
      UnderIffPrefix(front, b);
      assert PathOf(front) == PathOf(b) <==> front == b by {
        if PathOf(front) == PathOf(b) { PathInjective(front, b); }
      }
    }
  }

  lemma UnderStep(p: bytes, a: bytes)
    ensures Under(p, a) <==> |p| > 1 && (ParentOf(p) == a || Under(ParentOf(p), a))
  {
  }

  lemma PrefixOfFront(a: seq<bytes>, b: seq<bytes>)
    requires a != []
    ensures b < a <==> b == a[..|a| - 1] || b < a[..|a| - 1]
  {
    if b < a {
      assert b == a[..|a| - 1][..|b|];
    }
  }

  // ----- the components a torrent spells

  /** The path list of an entry of the file list. */
  function PathTexts(item: Value): seq<bytes> {
    match item
    case Dictionary(entries) => (match Find(entries, PATH) case Some(List(parts)) => Texts(parts) case _ => [])
    case _ => []
  }

  /** For each file the torrent's name and the components of the file's path list. */
  function Components(info: seq<Entry>, name: bytes): seq<seq<bytes>> {
    match Find(info, FILES)
    case Some(List(items)) => seq(|items|, i requires 0 <= i < |items| => [name] + PathTexts(items[i]))
    case _ => [[name]]
  }

  function LoadedComponents(raw: bytes): seq<seq<bytes>>
    requires Load(raw).Ok?
  {
    var info := RequireKey(Bencode.Parse(raw).value.entries, INFO).value.entries;
    Components(info, RequireText(info, NAME).value)
  }

  lemma PlainKeepsAll(cs: seq<bytes>)
    requires AllPlain(cs)
    ensures WithoutLeadingEmpty(cs) == cs
  {
  }

  lemma NamedPath(name: bytes, cs: seq<bytes>)
    requires AllPlain(cs)
    ensures PathOf([name] + cs) == ROOT + (if cs == [] then name else name + [SLASH] + Intercalated(cs))
  {
    BehindFirst([], name, cs);
    assert [] + ([SLASH] + name) == [SLASH] + name;
    BehindPrefixed([SLASH], name, cs);
    if cs != [] {
      assert cs == [cs[0]] + cs[1..];
      BehindFirst(name, cs[0], cs[1..]);
      assert name + ([SLASH] + cs[0]) == (name + [SLASH]) + cs[0];
      BehindPrefixed(name + [SLASH], cs[0], cs[1..]);
    }
  }

  /** The relative path of a file is the torrent's name, a slash, and the joined path list. */
  lemma ItemSpelled(name: bytes, item: Value, offset: nat)
    requires OneFile(name, item, offset).Ok?
    ensures OneFile(name, item, offset).value.relativePath ==
            name + [SLASH] + Intercalated(WithoutLeadingEmpty(PathTexts(item)))
  {
    JoinIntercalates(RequireKey(item.entries, PATH).value.items);
  }

  lemma SpelledNormal(name: bytes, cs: seq<bytes>)
    requires AllPlain([name] + cs)
    ensures Normalize(name + [SLASH] + Intercalated(cs)) == PathOf([name] + cs)
  {
    assert cs == ([name] + cs)[1..] && AllPlain(cs);
    NamedPath(name, cs);
    PathClean([name] + cs);
    if cs == [] {
      assert name + [SLASH] + [] == name + ROOT;
      NormalizeTrailing(name);
    } else {
      NormalizeRelative(name + [SLASH] + Intercalated(cs));
    }
  }

  lemma ItemPath(name: bytes, item: Value, offset: nat)
    requires OneFile(name, item, offset).Ok? && AllPlain([name] + PathTexts(item))
    ensures Normalize(OneFile(name, item, offset).value.relativePath) == PathOf([name] + PathTexts(item))
  {
    var cs := PathTexts(item);
    ItemSpelled(name, item, offset);
    assert cs == ([name] + cs)[1..] && AllPlain(cs);
    PlainKeepsAll(cs);
    SpelledNormal(name, cs);
  }

  lemma {:induction false} FileOfItem(name: bytes, items: seq<Value>, offset: nat, i: nat) returns (at: nat)
    requires FilesFrom(name, items, offset).Ok? && i < |items|
    ensures |FilesFrom(name, items, offset).value| == |items|
    ensures OneFile(name, items[i], at) == Ok(FilesFrom(name, items, offset).value[i])
    decreases |items|
  {
    var next := Add64(offset, OneFile(name, items[0], offset).value.size);
    FilesFromLength(name, items[1..], next);
    if i == 0 {
      at := offset;
    } else {
      at := FileOfItem(name, items[1..], next, i - 1);
    }
  }

  lemma {:induction false} FilesFromLength(name: bytes, items: seq<Value>, offset: nat)
    requires FilesFrom(name, items, offset).Ok?
    ensures |FilesFrom(name, items, offset).value| == |items|
    decreases |items|
  {
    if items != [] {
      FilesFromLength(name, items[1..], Add64(offset, OneFile(name, items[0], offset).value.size));
    }
  }

  /** Where the components are plain, the virtual path of a file is the path of its components. */
  lemma FilesSpelled(info: seq<Entry>, name: bytes, files: seq<FileRecord>)
    requires FilesOf(info, name) == Ok(files)
    ensures |files| == |Components(info, name)|
    ensures forall i :: 0 <= i < |files| && AllPlain(Components(info, name)[i]) ==>
              FileEntries(files)[i].virtualPath == PathOf(Components(info, name)[i])
  {
    var comps := Components(info, name);
    match Find(info, FILES)
    case Some(list) =>
      FilesFromLength(name, list.items, 0);
      forall i | 0 <= i < |files| && AllPlain(comps[i]) ensures Normalize(files[i].relativePath) == PathOf(comps[i]) {
        var at := FileOfItem(name, list.items, 0, i);
        ItemPath(name, list.items[i], at);
      }
    case None =>
      if AllPlain(comps[0]) {
        NamedPath(name, []);
        assert [name] + [] == [name] == comps[0];
        PathClean([name]);
        NormalizeRelative(name);
      }
  }

  // ----- the tree in terms of the components

  ghost predicate PlainPaths(comps: seq<seq<bytes>>) {
    forall i :: 0 <= i < |comps| ==> comps[i] != [] && AllPlain(comps[i])
  }

  /** No file has the components of another at the start of its own, or the same. */
  ghost predicate NoPrefix(comps: seq<seq<bytes>>) {
    forall i, j :: 0 <= i < |comps| && 0 <= j < |comps| && i != j ==> !(comps[i] <= comps[j])
  }

  lemma SameOrProper(a: seq<bytes>, b: seq<bytes>)
    ensures a <= b <==> a == b || a < b
  {
    if a <= b && |a| == |b| {
      assert b[..|a|] == b;
    }
  }

  lemma SpelledApart(es: seq<FileEntry>, comps: seq<seq<bytes>>)
    requires |es| == |comps| && PlainPaths(comps)
    requires forall i :: 0 <= i < |es| ==> es[i].virtualPath == PathOf(comps[i]) && !es[i].isDirectory
    ensures CleanPaths(es) && (Separate(es) <==> NoPrefix(comps))
  {
    forall i | 0 <= i < |es| ensures Clean(es[i].virtualPath) {
      PathClean(comps[i]);
    }
    forall i, j | 0 <= i < |es| && 0 <= j < |es| && i != j
      ensures comps[i] <= comps[j] <==>
              es[i].virtualPath == es[j].virtualPath || Under(es[j].virtualPath, es[i].virtualPath)
    {
      UnderIffPrefix(comps[j], comps[i]);
      SameOrProper(comps[i], comps[j]);
      if es[i].virtualPath == es[j].virtualPath {
        PathInjective(comps[i], comps[j]);
      }
    }
  }

  /** For every torrent file whose components are plain, the index of the loaded files is a tree if and
      only if no file's components start another's. */
  lemma LoadedTreeIff(raw: bytes)
    requires Load(raw).Ok? && PlainPaths(LoadedComponents(raw))
    ensures var files := Load(raw).value.files;
            && CleanPaths(FileEntries(files))
            && (Separate(FileEntries(files)) <==> NoPrefix(LoadedComponents(raw)))
            && (Tree(Namespace.Build(files)) <==> NoPrefix(LoadedComponents(raw)))
  {
    var info, name, files := LoadedFrom(raw);
    FilesSpelled(info, name, files);
    SpelledApart(FileEntries(files), LoadedComponents(raw));
    TreeIffSeparate(files);
  }
}
