/** Torrents with given file lists: what `loadFromFile` makes of their encodings. */
module ExampleTorrents {
  import opened Bytes
  import opened Machine
  import opened Decimal
  import opened Bencode
  import opened Namespace
  import opened Metadata
  import opened MetadataTheorems
  import opened TorrentPaths
  import opened TorrentRoundTrip

  const SHORT: bytes := [116]  // "t"

  lemma NoAnnounce(info: Value)
    ensures AnnounceOf([Entry(INFO, info)]) == [] && RequireKey([Entry(INFO, info)], INFO) == Ok(info)
  {
    RootLookups(None, info);
    assert EntriesOf(None, info) == [Entry(INFO, info)];
  }

  /** A torrent that loads, with one file of the torrent's name, or with two files below `t`. */
  ghost predicate OneFileIn(raw: bytes, name: bytes) {
    Load(raw).Ok? && LoadedComponents(raw) == [[name]]
  }

  ghost predicate TwoFilesIn(raw: bytes, p: seq<bytes>, q: seq<bytes>) {
    Load(raw).Ok? && LoadedComponents(raw) == [[SHORT] + p, [SHORT] + q]
  }

  /** A torrent with one file and no file list. */
  lemma SingleFileTorrent(name: bytes, length: int) returns (raw: bytes, m: TorrentMetadata)
    requires INT64_MIN <= length <= INT64_MAX && |name| < TWO_64
    ensures Load(raw) == Ok(m) && m.files == [FileRecord(name, ToUint64(length), 0)]
    ensures OneFileIn(raw, name)
  {
    var t := Torrent(None, name, 1, [], Single(length));
    raw, m := EncodedLoads(t);
    FilesLoad(t);
    FirstOffset(m.files);
  }

  lemma FirstOffset(files: seq<FileRecord>)
    requires |files| > 0
    ensures OffsetOf(0, files, 0) == 0
  {
    assert files[..0] == [];
  }

  /** The relative path of a file of a torrent named `t`. */
  function PathIn(cs: seq<bytes>): bytes { FilePath(SHORT, cs) }

  function TwoRecords(p: seq<bytes>, a: nat, q: seq<bytes>, b: nat): seq<FileRecord> {
    [FileRecord(PathIn(p), a, 0), FileRecord(PathIn(q), b, a)]
  }

  /** A torrent named `t` with two files of the given paths and lengths. */
  lemma TwoFileTorrent(p: seq<bytes>, x: int, q: seq<bytes>, y: int) returns (raw: bytes, m: TorrentMetadata)
    requires Sized(p) && Sized(q) && INT64_MIN <= x <= INT64_MAX && INT64_MIN <= y <= INT64_MAX
    ensures Load(raw) == Ok(m) && m.totalSize == Low64(SizesTotal(m.files))
    ensures m.files == TwoRecords(p, ToUint64(x), q, ToUint64(y)) && SizesTotal(m.files) == ToUint64(x) + ToUint64(y)
    ensures TwoFilesIn(raw, p, q)
  {
    var specs := [FileSpec(p, x), FileSpec(q, y)];
    var t := Torrent(None, SHORT, 1, [], Multi(specs));
    TwoStorable(t, specs);
    raw, m := EncodedLoads(t);
    TwoSpelled(t, specs);
    TwoLoaded(t, specs, m.files);
  }

  lemma TwoStorable(t: Torrent, specs: seq<FileSpec>)
    requires t == Torrent(None, SHORT, 1, [], Multi(specs))
    requires |specs| == 2 && Sized(specs[0].path) && Sized(specs[1].path) && Fits(specs[0].length) && Fits(specs[1].length)
    ensures Storable(t)
  {
  }

  lemma TwoSpelled(t: Torrent, specs: seq<FileSpec>)
    requires |specs| == 2 && t.name == SHORT && t.layout == Multi(specs)
    ensures Components(InfoOf(t), t.name) == [[SHORT] + specs[0].path, [SHORT] + specs[1].path]
  {
    FilesLoad(t);
  }

  lemma TwoLoaded(t: Torrent, specs: seq<FileSpec>, files: seq<FileRecord>)
    requires |specs| == 2 && t.name == SHORT && t.layout == Multi(specs) && FilesMatch(t, files)
    ensures files == TwoRecords(specs[0].path, ToUint64(specs[0].length), specs[1].path, ToUint64(specs[1].length))
    ensures SizesTotal(files) == ToUint64(specs[0].length) + ToUint64(specs[1].length)
  {
    TwoMatched(files, PathIn(specs[0].path), ToUint64(specs[0].length), PathIn(specs[1].path), ToUint64(specs[1].length));
  }

  lemma TwoMatched(files: seq<FileRecord>, p: bytes, a: nat, q: bytes, b: nat)
    requires |files| == 2 && files[0].relativePath == p && files[0].size == a < TWO_64
    requires files[1].relativePath == q && files[1].size == b
    requires files[0].offset == OffsetOf(0, files, 0) && files[1].offset == OffsetOf(0, files, 1)
    ensures files == [FileRecord(p, a, 0), FileRecord(q, b, a)] && SizesTotal(files) == a + b
  {
    FirstOffset(files);
    assert files[..1] == [files[0]] && [files[0]][..0] == [];
    assert SizesTotal([files[0]]) == a;
    SmallIsLow(a);
  }

  lemma SmallTorrent(p: seq<bytes>, a: nat, q: seq<bytes>, b: nat) returns (raw: bytes, m: TorrentMetadata)
    requires Sized(p) && Sized(q) && a + b <= INT64_MAX
    ensures Load(raw) == Ok(m) && TwoFilesIn(raw, p, q)
    ensures m.files == TwoRecords(p, a, q, b) && SizesTotal(m.files) == a + b
    ensures m.totalSize == Low64(SizesTotal(m.files))
  {
    AsUnsigned(a);
    AsUnsigned(b);
    raw, m := TwoFileTorrent(p, a, q, b);
  }

  lemma AsUnsigned(n: nat)
    requires n <= INT64_MAX
    ensures ToUint64(n) == n
  {
    SmallIsLow(n);
  }

  /** The path of a file with one component. */
  lemma OneComponent(c: bytes)
    requires c != []
    ensures WithoutLeadingEmpty([c]) == [c] && PathIn([c]) == SHORT + [SLASH] + c
  {
    assert [c][1..] == [];
  }
}
