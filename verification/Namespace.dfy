/**
 The virtual namespace: path normalization, and the two maps `buildIndex` fills, as functions of the
 file list. `Session.dfy` refines them to the object that updates its maps.
 */
module Namespace {
  import opened Bytes

  const ROOT: bytes := [SLASH]

  datatype FileRecord = FileRecord(relativePath: bytes, size: nat, offset: nat)

  datatype FileEntry = FileEntry(virtualPath: bytes, size: nat, offset: nat, index: int, isDirectory: bool)

  // ----- paths

  /** `find_last_of('/')`, or -1. */
  function LastSlash(path: bytes): (pos: int)
    ensures -1 <= pos < |path|
    ensures pos >= 0 ==> path[pos] == SLASH
    ensures forall i :: pos < i < |path| ==> path[i] != SLASH
  {
    if path == [] then -1
    else if path[|path| - 1] == SLASH then |path| - 1
    else LastSlash(path[..|path| - 1])
  }

  function ParentOf(path: bytes): (parent: bytes)
    ensures |path| > 1 ==> |parent| < |path|
  {
    var pos := LastSlash(path);
    if pos <= 0 then ROOT else path[..pos]
  }

  function Slashed(path: bytes): (r: bytes)
    ensures |r| == |path| && BACKSLASH !in r
  {
    if path == [] then []
    else Slashed(path[..|path| - 1]) + [if path[|path| - 1] == BACKSLASH then SLASH else path[|path| - 1]]
  }

  function StripSlashes(path: bytes): bytes {
    if |path| > 1 && path[|path| - 1] == SLASH then StripSlashes(path[..|path| - 1]) else path
  }

  function Normalize(path: bytes): bytes {
    if path == [] || path == ROOT then ROOT
    else StripSlashes((if path[0] != SLASH then ROOT else []) + Slashed(path))
  }

  // ----- buildIndex

  datatype Index = Index(entries: map<bytes, FileEntry>, children: map<bytes, seq<FileEntry>>, seen: set<bytes>)

  function DirectoryAt(path: bytes): FileEntry { FileEntry(path, 0, 0, -1, true) }

  /** `static_cast<std::int32_t>` of a position in the file list. */
  function ToInt32(i: nat): int {
    var low := i % TWO_32;
    if low < 0x8000_0000 then low else low - TWO_32
  }

  function FileAt(i: nat, record: FileRecord): FileEntry {
    FileEntry(Normalize(record.relativePath), record.size, record.offset, ToInt32(i), false)
  }

  const EMPTY: Index := Index(map[ROOT := DirectoryAt(ROOT)], map[ROOT := []], {ROOT})

  /** `operator[]` followed by `push_back`. */
  function Push(children: map<bytes, seq<FileEntry>>, d: bytes, e: FileEntry): map<bytes, seq<FileEntry>> {
    children[d := (if d in children then children[d] else []) + [e]]
  }

  function AddDirectory(ix: Index, path: bytes): Index {
    if path in ix.seen then ix
    else Index(ix.entries[path := DirectoryAt(path)],
               Push(ix.children, ParentOf(path), DirectoryAt(path)),
               ix.seen + {path})
  }

  function Extend(current: bytes, segment: bytes): bytes {
    (if |current| > 1 then current + [SLASH] else current) + segment
  }

  /** The character scan of one path, from position `pos` on. */
  function Scan(ix: Index, path: bytes, pos: nat, current: bytes, segment: bytes): Index
    decreases |path| - pos
  {
    if pos >= |path| then ix
    else if path[pos] != SLASH then Scan(ix, path, pos + 1, current, segment + [path[pos]])
    else if segment == [] then Scan(ix, path, pos + 1, current, [])
    else
      var next := Extend(current, segment);
      Scan(AddDirectory(ix, next), path, pos + 1, next, [])
  }

  function AddFile(ix: Index, e: FileEntry): Index {
    var scanned := Scan(ix.(entries := ix.entries[e.virtualPath := e]), e.virtualPath, 1, ROOT, []);
    scanned.(children := Push(scanned.children, ParentOf(e.virtualPath), e))
  }

  function FileEntries(files: seq<FileRecord>): (es: seq<FileEntry>)
    ensures |es| == |files|
    ensures forall i :: 0 <= i < |es| ==> es[i] == FileAt(i, files[i])
  {
    seq(|files|, i requires 0 <= i < |files| => FileAt(i, files[i]))
  }

  /** The index after the first `n` files. */
  function BuildFirst(es: seq<FileEntry>, n: nat): Index
    requires n <= |es|
  {
    if n == 0 then EMPTY else AddFile(BuildFirst(es, n - 1), es[n - 1])
  }

  function Build(files: seq<FileRecord>): Index {
    BuildFirst(FileEntries(files), |files|)
  }

  function Lookup(ix: Index, path: bytes): Option<FileEntry> {
    var n := Normalize(path);
    if n in ix.entries then Some(ix.entries[n]) else None
  }

  function ListDirectory(ix: Index, path: bytes): seq<FileEntry> {
    var n := Normalize(path);
    if n in ix.children then ix.children[n] else []
  }

  // ----- what a tree is

  /** An absolute path of non-empty components. */
  ghost predicate Clean(p: bytes) {
    && |p| > 1 && p[0] == SLASH && p[|p| - 1] != SLASH && BACKSLASH !in p
    && forall i, j :: 0 <= i < j < |p| && p[i] == SLASH && p[j] == SLASH ==> i + 1 < j
  }

  /** `a` is a proper ancestor of `p`. */
  ghost predicate Under(p: bytes, a: bytes)
    decreases |p|
  {
    |p| > 1 && (ParentOf(p) == a || Under(ParentOf(p), a))
  }

  /** `entries` and `children` are one tree: every path but the root has a directory as its parent;
      the children of a path are exactly the entries whose parent it is, each listed once, and every
      listed child is the record that looking it up gives. */
  ghost predicate Tree(ix: Index) {
    && ROOT in ix.entries && ix.entries[ROOT] == DirectoryAt(ROOT)
    && (forall k {:trigger Placed(ix, k)} :: k in ix.entries ==> Placed(ix, k))
    && (forall d {:trigger ChildrenOf(ix, d)} :: d in ix.children ==> ChildrenOf(ix, d))
  }

  ghost predicate Placed(ix: Index, k: bytes)
    requires k in ix.entries
  {
    && ix.entries[k].virtualPath == k
    && (k == ROOT ||
        (Clean(k) && IsDirectory(ix, ParentOf(k)) && Listed(ix, ParentOf(k), ix.entries[k])))
  }

  ghost predicate IsDirectory(ix: Index, d: bytes) {
    d in ix.entries && ix.entries[d].isDirectory
  }

  ghost predicate Listed(ix: Index, d: bytes, e: FileEntry) {
    d in ix.children && e in ix.children[d]
  }

  ghost predicate ChildrenOf(ix: Index, d: bytes)
    requires d in ix.children
  {
    && (forall e <- ix.children[d] ::
          e.virtualPath != ROOT && ParentOf(e.virtualPath) == d &&
          e.virtualPath in ix.entries && ix.entries[e.virtualPath] == e)
    && DistinctPaths(ix.children[d])
  }

  ghost predicate DistinctPaths(s: seq<FileEntry>) {
    forall i, j :: 0 <= i < j < |s| ==> s[i].virtualPath != s[j].virtualPath
  }

  /** Files with paths of non-empty components. */
  ghost predicate CleanPaths(es: seq<FileEntry>) {
    forall i :: 0 <= i < |es| ==> Clean(es[i].virtualPath) && !es[i].isDirectory
  }

  /** No two files share a path, and no file is a directory of another. */
  ghost predicate Separate(es: seq<FileEntry>) {
    forall i, j :: 0 <= i < |es| && 0 <= j < |es| && i != j ==>
      es[i].virtualPath != es[j].virtualPath && !Under(es[j].virtualPath, es[i].virtualPath)
  }
}
