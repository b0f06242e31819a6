/** From the torrent file to the drive: walking the tree of a loaded torrent accounts for its bytes. */
module TorrentWalk {
  import opened Bytes
  import opened Namespace
  import opened NamespaceTree
  import opened NamespaceWalk
  import opened Metadata
  import opened MetadataTheorems
  import opened TorrentPaths

  /** A torrent file that loads, in which all names are plain and no file's components start another's,
      and whose sizes together stay below 2^64. */
  ghost predicate WellFormed(raw: bytes) {
    && Load(raw).Ok?
    && PlainPaths(LoadedComponents(raw)) && NoPrefix(LoadedComponents(raw))
    && SizesTotal(Load(raw).value.files) < TWO_64
  }

  lemma {:induction false} SizeOfEntries(es: seq<FileEntry>, files: seq<FileRecord>)
    requires |es| == |files| && forall i :: 0 <= i < |es| ==> es[i].size == files[i].size
    ensures SizeOf(es) == SizesTotal(files)
    decreases |files|
  {
    if files != [] {
      var n := |files| - 1;
      SizeOfEntries(es[..n], files[..n]);
      SizeOfAppend(es[..n], es[n]);
      assert es == es[..n] + [es[n]];
    }
  }

  /** The sizes seen on a walk from the root of the drive add up to the total size of the torrent. */
  lemma WalkAddsUp(raw: bytes)
    requires WellFormed(raw)
    ensures var m := Load(raw).value;
            Tree(Build(m.files)) && SizeOf(WalkFromRoot(Build(m.files))) == m.totalSize
  {
    var files := Load(raw).value.files;
    LoadTiles(raw);
    LoadedTreeIff(raw);
    WalkConserves(files);
    SizeOfEntries(FileEntries(files), files);
  }

  predicate HoldsByte(e: FileEntry, g: nat) {
    e.offset <= g < e.offset + e.size
  }

  lemma OneEntry(files: seq<FileRecord>, w: seq<FileEntry>, g: nat) returns (e: FileEntry)
    requires Tiles(files) && VisitsAll(w, FileEntries(files)) && g < SizesTotal(files)
    ensures e in w && !e.isDirectory && HoldsByte(e, g) && forall x <- w :: HoldsByte(x, g) ==> x == e
  {
    var es := FileEntries(files);
    var i := FileAtOffset(files, g);
    e := es[i];
    forall x | x in w && HoldsByte(x, g) ensures x == e {
      assert x in es;
      var j :| 0 <= j < |es| && es[j] == x;
      assert files[j].offset <= g < files[j].offset + files[j].size;
    }
  }

  /** Every byte of the torrent belongs to exactly one entry seen on the walk. */
  lemma ByteHasOneEntry(raw: bytes, g: nat) returns (e: FileEntry)
    requires WellFormed(raw) && g < Load(raw).value.totalSize
    ensures var ix := Build(Load(raw).value.files);
            Tree(ix) && e in WalkFromRoot(ix) && !e.isDirectory && HoldsByte(e, g) &&
            forall x <- WalkFromRoot(ix) :: HoldsByte(x, g) ==> x == e
  {
    var files := Load(raw).value.files;
    LoadTiles(raw);
    LoadedTreeIff(raw);
    WalkConserves(files);
    e := OneEntry(files, WalkFromRoot(Build(files)), g);
  }
}
