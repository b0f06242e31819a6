/** The projected file system from the bytes of a torrent file on. */
module TorrentProjection {
  import opened Bytes
  import opened Bencode
  import opened Namespace
  import opened NamespaceTree
  import opened NamespaceWalk
  import opened Metadata
  import opened MetadataTheorems
  import opened TorrentPaths
  import opened TorrentWalk
  import opened Projected
  import opened SpelledPaths
  import opened ProjectedTheorems
  import opened ProjectedResolution
  import opened ProjectedListing
  import opened DirectoryEnumeration

  lemma TidyPath(name: bytes, cs: seq<bytes>, path: bytes)
    requires AllPlain([name] + cs) && Normalize(path) == PathOf([name] + cs)
    requires path == (if cs == [] then name else name + [SLASH] + Intercalated(cs)) || (cs == [] && path == name + ROOT)
    ensures Tidy(path)
  {
    assert cs == ([name] + cs)[1..] && AllPlain(cs) && Plain(([name] + cs)[0]);
    NamedPath(name, cs);
    assert name[0] in name;
    var bare := if cs == [] then name else name + [SLASH] + Intercalated(cs);
    assert (ROOT + bare)[1..] == bare;
  }

  /** The relative paths the loader makes of plain components are tidy. */
  lemma LoadedTidy(raw: bytes)
    requires Load(raw).Ok? && PlainPaths(LoadedComponents(raw))
    ensures AllTidy(Load(raw).value.files)
  {
    var info, name, files := LoadedFrom(raw);
    var comps := Components(info, name);
    FilesSpelled(info, name, files);
    match Find(info, FILES)
    case Some(list) =>
      FilesFromLength(name, list.items, 0);
      forall i | 0 <= i < |files| ensures Tidy(files[i].relativePath) {
        var at := FileOfItem(name, list.items, 0, i);
        ItemTidy(name, list.items[i], at);
      }
    case None =>
      assert [name] + [] == comps[0];
      TidyPath(name, [], name);
  }

  lemma ItemTidy(name: bytes, item: Value, at: nat)
    requires OneFile(name, item, at).Ok? && AllPlain([name] + PathTexts(item))
    ensures Tidy(OneFile(name, item, at).value.relativePath)
  {
    var cs := PathTexts(item);
    ItemPath(name, item, at);
    ItemSpelled(name, item, at);
    assert cs == ([name] + cs)[1..] && AllPlain(cs);
    PlainKeepsAll(cs);
    assert cs == [] ==> name + [SLASH] + [] == name + ROOT;
    TidyPath(name, cs, OneFile(name, item, at).value.relativePath);
  }

  lemma LoadedTree(raw: bytes)
    requires WellFormed(raw)
    ensures var files := Load(raw).value.files;
            Tree(Namespace.Build(files)) && AllTidy(files) && AllSpelled(files)
  {
    LoadedTreeIff(raw);
    LoadedTidy(raw);
    TidyAreSpelled(Load(raw).value.files);
  }

  /** For a torrent file with plain components of which none starts another: every value of the index
      is a path of the tree with the key, and every path of the tree has both its keys. */
  lemma LoadedProjectionAgrees(raw: bytes, name: Naming, key: wide)
    requires WellFormed(raw) && WindowsNames(name)
    ensures var files := Load(raw).value.files;
            var m, ix := IndexFirst(files, |files|, name), Namespace.Build(files);
            && (key in m && key != WROOT ==> Holder(ix, m[key], key, name))
            && (forall k :: Holder(ix, k, key, name) ==> key in m && key != WROOT)
            && WROOT in m && m[WROOT] == ROOT
  {
    LoadedTree(raw);
    ProjectionAgrees(Load(raw).value.files, name, key);
  }

  /** ... every name resolves to its own entry if and only if no two paths share a key, */
  lemma {:induction false} LoadedResolvesIff(raw: bytes, name: Naming)
    requires WellFormed(raw) && WindowsNames(name)
    ensures var files := Load(raw).value.files;
            var m, ix := IndexFirst(files, |files|, name), Namespace.Build(files);
            ResolvesAll(m, ix, name) <==> NoSharedKey(ix, name)
  {
    LoadedTree(raw);
    var files := Load(raw).value.files;
    if ResolvesAll(IndexFirst(files, |files|, name), Namespace.Build(files), name) {
      ResolvedUnshared(IndexFirst(files, |files|, name), Namespace.Build(files), name);
    } else if NoSharedKey(Namespace.Build(files), name) {
      UnsharedResolves(files, name);
    }
  }

  /** ... and where none do, an enumeration of a directory with enough buffer delivers exactly its
      matching children, each once and in order. */
  lemma LoadedEnumeratesChildren(raw: bytes, name: Naming, k: bytes, ascii: bool, m: Enumerations, first: Call,
                                 calls: seq<Call>, keep: FileEntry -> bool, rank: FileEntry -> real)
    requires WellFormed(raw) && WindowsNames(name)
    requires var ix := Namespace.Build(Load(raw).value.files);
             NoSharedKey(ix, name) && k in ix.entries && k != []
    requires first.Get? && (first.restart || first.id !in m || m[first.id] == FRESH) && Undisturbed(calls, first.id)
    requires var files := Load(raw).value.files;
             var listing := ListProjected(IndexFirst(files, |files|, name), Namespace.Build(files), NameOf(k, ascii, name));
             && IsReload(first.reload, listing, keep, rank) && Matching(listing, keep) != []
             && first.accepted + AcceptedFor(calls, first.id) >= |Matching(listing, keep)|
    ensures var all := AllDelivered(m, first, calls, first.id);
            ExactlyChildren(all, Namespace.Build(Load(raw).value.files), k, keep) && SortedBy(all, rank)
  {
    LoadedTree(raw);
    EnumeratesChildren(Load(raw).value.files, name, k, ascii, m, first, calls, keep, rank);
  }
}
