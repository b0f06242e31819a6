/** The session object: it builds the index, answers lookups, and passes reads on to cache and engine. */
module Session {
  import opened Bytes
  import opened Machine
  import opened Namespace
  import opened NamespaceTree
  import opened NamespaceWalk
  import opened Metadata
  import Cache
  import Engine
  import WebSeed

  const INITIAL_STREAM_WINDOW := 1024 * 1024
  const SEQUENTIAL_READ_AHEAD_WINDOW := 2 * 1024 * 1024

  /** How much of a file a read asks the engine for. */
  function ClampStreamWindow(entry: FileEntry, offset: nat, requested: nat): (window: nat)
    requires requested < TWO_32
    ensures window < TWO_32
    ensures window == 0 <==> offset >= entry.size
    ensures offset < entry.size ==> offset + window <= entry.size
    ensures offset < entry.size && window < requested ==> offset + window == entry.size
    ensures var least := if requested == 0 then INITIAL_STREAM_WINDOW else SEQUENTIAL_READ_AHEAD_WINDOW;
            && (offset < entry.size && window < least ==> offset + window == entry.size)
            && (window <= least || window <= requested)
  {
    if offset >= entry.size then 0
    else
      var remaining := entry.size - offset;
      var desired := if requested == 0 then INITIAL_STREAM_WINDOW
                     else if requested < SEQUENTIAL_READ_AHEAD_WINDOW then SEQUENTIAL_READ_AHEAD_WINDOW
                     else requested;
      if remaining < desired then remaining else desired
  }

  /** A directory, or the entry of one of the files. */
  ghost predicate Recorded(e: FileEntry, files: seq<FileRecord>) {
    e.isDirectory || exists i: nat {:trigger files[i]} :: i < |files| && e == FileAt(i, files[i])
  }

  /** A directory, or the entry of the file its index names. */
  ghost predicate Known(e: FileEntry, files: seq<FileRecord>) {
    e.isDirectory || (0 <= e.index < |files| && e == FileAt(e.index, files[e.index]))
  }

  ghost predicate AllRecorded(ix: Index, files: seq<FileRecord>) {
    && (forall k :: k in ix.entries ==> Recorded(ix.entries[k], files))
    && (forall d :: d in ix.children ==> forall e <- ix.children[d] :: Recorded(e, files))
  }

  lemma {:induction false} ScanRecorded(ix: Index, path: bytes, pos: nat, current: bytes, segment: bytes,
                                        files: seq<FileRecord>)
    requires AllRecorded(ix, files)
    ensures AllRecorded(Scan(ix, path, pos, current, segment), files)
    decreases |path| - pos
  {
    if pos < |path| {
      if path[pos] != SLASH {
        ScanRecorded(ix, path, pos + 1, current, segment + [path[pos]], files);
      } else if segment == [] {
        ScanRecorded(ix, path, pos + 1, current, [], files);
      } else {
        var next := Extend(current, segment);
        ScanRecorded(AddDirectory(ix, next), path, pos + 1, next, [], files);
      }
    }
  }

  lemma AddFileRecorded(ix: Index, e: FileEntry, files: seq<FileRecord>, r: Index)
    requires Recorded(e, files) && AllRecorded(ix, files) && r == AddFile(ix, e)
    ensures AllRecorded(r, files)
  {
    ScanRecorded(ix.(entries := ix.entries[e.virtualPath := e]), e.virtualPath, 1, ROOT, [], files);
  }

  lemma {:induction false} BuildRecorded(es: seq<FileEntry>, n: nat, files: seq<FileRecord>)
    requires n <= |es| && forall e <- es :: Recorded(e, files)
    ensures AllRecorded(BuildFirst(es, n), files)
  {
    if n > 0 {
      BuildRecorded(es, n - 1, files);
      AddFileRecorded(BuildFirst(es, n - 1), es[n - 1], files, BuildFirst(es, n));
    }
  }

  /** Whatever the index holds or lists, for any list of files, is a directory or the entry of a file; of
      at most 2^31 files it is the one its 32-bit index names. */
  lemma IndexKnown(files: seq<FileRecord>)
    ensures AllRecorded(Build(files), files)
    ensures forall e :: Recorded(e, files) && |files| <= 0x8000_0000 ==> Known(e, files)
  {
    forall e | e in FileEntries(files) ensures Recorded(e, files) {
      var i :| 0 <= i < |files| && e == FileEntries(files)[i];
      assert e == FileAt(i, files[i]);
    }
    BuildRecorded(FileEntries(files), |files|, files);
    forall e | Recorded(e, files) && |files| <= 0x8000_0000 ensures Known(e, files) {
      RecordedIsKnown(e, files);
    }
  }

  lemma RecordedIsKnown(e: FileEntry, files: seq<FileRecord>)
    requires Recorded(e, files) && |files| <= 0x8000_0000
    ensures Known(e, files)
  {
    if !e.isDirectory {
      var i: nat :| i < |files| && e == FileAt(i, files[i]);
      SmallIndex(i);
      assert e.index == i;
    }
  }

  lemma SmallIndex(i: nat)
    requires i < 0x8000_0000
    ensures ToInt32(i) == i
  {
  }

  // ----- what a path finds

  /** Every entry is kept under its own path, and listed under its parent's. */
  ghost predicate AllNamed(ix: Index) {
    && (forall k :: k in ix.entries ==> ix.entries[k].virtualPath == k)
    && (forall d :: d in ix.children ==> forall e <- ix.children[d] :: ParentOf(e.virtualPath) == d)
  }

  lemma {:induction false} ScanNamed(ix: Index, path: bytes, pos: nat, current: bytes, segment: bytes)
    requires AllNamed(ix)
    ensures AllNamed(Scan(ix, path, pos, current, segment))
    decreases |path| - pos
  {
    if pos < |path| {
      if path[pos] != SLASH {
        ScanNamed(ix, path, pos + 1, current, segment + [path[pos]]);
      } else if segment == [] {
        ScanNamed(ix, path, pos + 1, current, []);
      } else {
        ScanNamed(AddDirectory(ix, Extend(current, segment)), path, pos + 1, Extend(current, segment), []);
      }
    }
  }

  lemma AddFileNamed(ix: Index, e: FileEntry, r: Index)
    requires AllNamed(ix) && r == AddFile(ix, e)
    ensures AllNamed(r)
  {
    ScanNamed(ix.(entries := ix.entries[e.virtualPath := e]), e.virtualPath, 1, ROOT, []);
  }

  lemma {:induction false} BuildNamed(es: seq<FileEntry>, n: nat)
    requires n <= |es|
    ensures AllNamed(BuildFirst(es, n))
  {
    if n > 0 {
      BuildNamed(es, n - 1);
      AddFileNamed(BuildFirst(es, n - 1), es[n - 1], BuildFirst(es, n));
    }
  }

  /** For every list of files and every spelling of a path: what is found has the normal form as its path, what
      is listed lies right below it, and the normal form itself finds and lists the same. */
  lemma FoundIsNamed(files: seq<FileRecord>, path: bytes)
    ensures var ix, n := Build(files), Normalize(path);
            && (Lookup(ix, path).Some? ==> Lookup(ix, path).value.virtualPath == n)
            && (forall e <- ListDirectory(ix, path) :: ParentOf(e.virtualPath) == n)
            && Lookup(ix, n) == Lookup(ix, path) && ListDirectory(ix, n) == ListDirectory(ix, path)
  {
    BuildNamed(FileEntries(files), |files|);
    NormalizeIdempotent(path);
  }

  lemma KnownInFile(e: FileEntry, offset: nat, length: nat, files: seq<FileRecord>)
    requires Known(e, files) && !e.isDirectory && 0 < length < TWO_32 && offset + length <= e.size
    ensures Engine.InFile(Engine.StreamRequest(e.index, offset, length), files)
  {
  }

  /** `normalizePath`, editing a string. */
  method NormalizePath(path: bytes) returns (out: bytes)
    ensures out == Normalize(path)
  {
    if path == [] || path == [SLASH] {
      return [SLASH];
    }
    out := [];
    if path[0] != SLASH {
      out := [SLASH];
    }
    ghost var lead := out;
    for i := 0 to |path|
      invariant out == lead + Slashed(path[..i])
    {
      assert path[..i + 1][..i] == path[..i];
      out := out + [if path[i] == BACKSLASH then SLASH else path[i]];
    }
    assert path[..|path|] == path;
    while |out| > 1 && out[|out| - 1] == SLASH
      invariant StripSlashes(out) == Normalize(path)
      decreases |out|
    {
      out := out[..|out| - 1];
    }
  }

  // ----- what a read does to the session

  /** What a read meets: whether the payload file is present when a download is considered, whether an engine
      without a connection gets one, and whether the peer takes the interested message. */
  datatype Meets = Meets(present: bool, connects: bool, interested: bool)

  /** The parts of a session that reads change. */
  datatype Reading = Reading(cached: Cache.Entries, tick: nat, queue: Engine.Queue, inFlight: set<bytes>)

  /** `webSeedInFlight_` after a download of the entry was considered. */
  function Considered(inFlight: set<bytes>, entry: FileEntry, enabled: bool, present: bool): set<bytes> {
    if entry.isDirectory || !enabled || present then inFlight else inFlight + {entry.virtualPath}
  }

  function RequestFor(entry: FileEntry, offset: nat, length: nat): Engine.StreamRequest {
    Engine.StreamRequest(entry.index, offset, length)
  }

  /** The request a read turns into. */
  function WindowRequest(entry: FileEntry, offset: nat, length: nat): Engine.StreamRequest
    requires length < TWO_32
  {
    RequestFor(entry, offset, ClampStreamWindow(entry, offset, length))
  }

  /** A read of a file range is recorded in the cache and may evict, a download of the file is considered,
      a request is queued and a pump follows; any other read changes nothing. */
  ghost function AfterRead(r: Reading, entry: FileEntry, offset: nat, length: nat, maxBytes: nat, enabled: bool,
                           meets: Meets): Reading
  {
    if entry.isDirectory || length == 0 || offset >= entry.size then r
    else
      Reading(Cache.Evict(r.cached[entry.virtualPath := Cache.Entry(entry.size, r.tick + 1)], maxBytes), r.tick + 1,
              Engine.Step(Engine.Step(r.queue, Engine.Request(RequestFor(entry, offset, length))),
                          Engine.Pump(meets.connects)),
              Considered(r.inFlight, entry, enabled, meets.present))
  }

  /** Considering a download is what one reader of the download protocol does without interruption: the
      path is in the set afterwards, and a worker starts exactly if it was not there before. */
  lemma ConsideredIsCheckAndClaim(s: WebSeed.State, entry: FileEntry, paths: set<bytes>)
    requires entry.virtualPath in paths && !entry.isDirectory
    ensures var p := entry.virtualPath;
            var r := WebSeed.Next(WebSeed.Next(s, WebSeed.Check(p), paths), WebSeed.Claim(p), paths);
            && (p !in s.names ==> r.inFlight == Considered(s.inFlight, entry, true, false) && r.pending == s.pending)
            && (p !in s.names ==>
                  r.workers == s.workers + if p in s.inFlight then [] else [WebSeed.Worker(p, WebSeed.Claimed)])
            && (p in s.names ==> WebSeed.Next(s, WebSeed.Check(p), paths) == s)
  {
    var p := entry.virtualPath;
    assert s.pending + multiset{p} - multiset{p} == s.pending;
  }

  /** What an attempt to read finds: no payload file (which may have appeared when a download is
      considered right after), one that cannot be opened, or up to `count` bytes. */
  datatype Payload = Missing(appears: bool) | Unreadable | Found(count: nat)

  /** What happens to a session: its engine is started or stopped, an entry is streamed, a read of a file is
      attempted, or the download of a path ends. */
  datatype Use =
    | Started | Stopped
    | Streamed(entry: FileEntry, offset: nat, length: nat, meets: Meets)
    | Attempted(entry: FileEntry, offset: nat, payload: Payload)
    | Ended(path: bytes)

  /** The window asked for, cut at the end of the file, is what is read. */
  ghost function AfterUse(r: Reading, use: Use, maxBytes: nat, enabled: bool): Reading
    requires use.Streamed? ==> use.length < TWO_32
  {
    match use
    case Started => r.(queue := Engine.Step(r.queue, Engine.Start))
    case Stopped => r.(queue := Engine.Step(r.queue, Engine.Stop))
    case Streamed(entry, offset, length, meets) =>
      AfterRead(r, entry, offset, ClampStreamWindow(entry, offset, length), maxBytes, enabled, meets)
    case Attempted(entry, offset, payload) =>
      if entry.isDirectory || offset >= entry.size || !payload.Missing? then r
      else r.(inFlight := Considered(r.inFlight, entry, enabled, payload.appears))
    case Ended(path) => r.(inFlight := r.inFlight - {path})
  }

  /** Streaming lengths are 32-bit numbers. */
  ghost predicate Lengths32(uses: seq<Use>) {
    forall u <- uses :: u.Streamed? ==> u.length < TWO_32
  }

  /** One use after the other. */
  ghost function AfterUses(r: Reading, uses: seq<Use>, maxBytes: nat, enabled: bool): Reading
    requires Lengths32(uses)
  {
    if uses == [] then r
    else AfterUse(AfterUses(r, uses[..|uses| - 1], maxBytes, enabled), uses[|uses| - 1], maxBytes, enabled)
  }

  class TorrentSession {
    const files: seq<FileRecord>
    const cache: Cache.CacheManager
    const engine: Engine.TorrentEngine
    var entries: map<bytes, FileEntry>
    var children: map<bytes, seq<FileEntry>>
    const webSeedEnabled: bool
    var inFlight: set<bytes>

    ghost predicate Indexed()
      reads this
    {
      entries == Build(files).entries && children == Build(files).children
    }

    /** Cache and engine are sound and work on the session's files. */
    ghost predicate Serving()
      reads this, cache, engine
    {
      engine.files == files && cache.Valid() && engine.Valid()
    }

    ghost predicate Valid()
      reads this, cache, engine
    {
      Indexed() && Serving()
    }

    ghost function View(): Reading
      reads this, cache, engine
    {
      Reading(cache.entries, cache.tick, engine.View(), inFlight)
    }

    constructor (metadata: TorrentMetadata, maxBytes: nat, webSeedEnabled: bool)
      ensures Valid() && files == metadata.files && fresh(cache) && fresh(engine)
      ensures cache.maxBytes == maxBytes && this.webSeedEnabled == webSeedEnabled
      ensures engine.pieceLength == metadata.pieceLength
      ensures View() == Reading(map[], 0, Engine.Step(Engine.IDLE, Engine.Start), {})
    {
      files := metadata.files;
      this.webSeedEnabled := webSeedEnabled;
      cache := new Cache.CacheManager(maxBytes);
      engine := new Engine.TorrentEngine(metadata);
      entries, children, inFlight := map[], map[], {};
      new;
      engine.Start();
      BuildIndex();
    }

    /** The two maps after `buildIndex` are those of the specification, for every file list. */
    method BuildIndex()
      modifies this`entries, this`children
      ensures Indexed()
    {
      entries := map[ROOT := FileEntry(ROOT, 0, 0, -1, true)];
      children := map[ROOT := []];
      var seenDirectories := {ROOT};
      ghost var es := FileEntries(files);

      for i := 0 to |files|
        invariant Index(entries, children, seenDirectories) == BuildFirst(es, i)
      {
        var record := files[i];
        var path := NormalizePath(record.relativePath);
        var fileEntry := FileEntry(path, record.size, record.offset, ToInt32(i), false);
        entries := entries[path := fileEntry];
        ghost var before := Index(entries, children, seenDirectories);

        var current := ROOT;
        var segment: bytes := [];
        var idx := 1;
        while idx < |path|
          invariant 1 <= idx
          invariant Scan(Index(entries, children, seenDirectories), path, idx, current, segment) ==
                    Scan(before, path, 1, ROOT, [])
        {
          if path[idx] == SLASH {
            if segment != [] {
              if |current| > 1 {
                current := current + [SLASH];
              }
              current := current + segment;
              if current !in seenDirectories {
                seenDirectories := seenDirectories + {current};
                var dirEntry := FileEntry(current, 0, 0, -1, true);
                entries := entries[current := dirEntry];
                children := Push(children, ParentOf(current), dirEntry);
              }
              segment := [];
            }
          } else {
            segment := segment + [path[idx]];
          }
          idx := idx + 1;
        }

        children := Push(children, ParentOf(path), fileEntry);
        assert fileEntry == es[i];
      }
    }

    method LookupPath(path: bytes) returns (found: Option<FileEntry>)
      requires Valid()
      ensures found == Lookup(Build(files), path) && (found.Some? ==> found.value.virtualPath == Normalize(path))
      ensures found.Some? ==> Recorded(found.value, files) && (|files| <= 0x8000_0000 ==> Known(found.value, files))
    {
      IndexKnown(files);
      FoundIsNamed(files, path);
      var normalized := NormalizePath(path);
      if normalized in entries {
        return Some(entries[normalized]);
      }
      found := None;
    }

    method ListPath(path: bytes) returns (listing: seq<FileEntry>)
      requires Valid()
      ensures listing == ListDirectory(Build(files), path)
      ensures forall e <- listing :: ParentOf(e.virtualPath) == Normalize(path)
      ensures forall e <- listing :: Recorded(e, files) && (|files| <= 0x8000_0000 ==> Known(e, files))
    {
      IndexKnown(files);
      FoundIsNamed(files, path);
      var normalized := NormalizePath(path);
      if normalized in children {
        return children[normalized];
      }
      listing := [];
    }

    /** Where a pump would take a request, the piece length has low 32 bits to divide by. */
    predicate CanPump(connects: bool)
      reads engine
    {
      engine.running && (engine.connected || connects) ==> Low32(engine.pieceLength) > 0
    }

    method BeginStreaming(entry: FileEntry, offset: nat, length: nat, meets: Meets)
      requires Valid() && Known(entry, files) && length < TWO_32 && CanPump(meets.connects)
      modifies this`inFlight, cache, engine
      ensures Valid()
      ensures View() == AfterUse(old(View()), Streamed(entry, offset, length, meets), cache.maxBytes, webSeedEnabled)
      ensures !entry.isDirectory && offset < entry.size ==> Engine.InFile(WindowRequest(entry, offset, length), files)
    {
      if !entry.isDirectory && offset < entry.size {
        KnownInFile(entry, offset, ClampStreamWindow(entry, offset, length), files);
      }
      QueueRead(entry, offset, ClampStreamWindow(entry, offset, length), meets);
    }

    method QueueRead(entry: FileEntry, offset: nat, length: nat, meets: Meets)
      requires Serving() && Known(entry, files) && length < TWO_32 && CanPump(meets.connects)
      modifies this`inFlight, cache, engine
      ensures cache.Valid() && (offset + length <= entry.size ==> Serving())
      ensures View() == AfterRead(old(View()), entry, offset, length, cache.maxBytes, webSeedEnabled, meets)
    {
      if entry.isDirectory || length == 0 || offset >= entry.size {
        return;
      }
      ghost var was := View();
      RecordRead(entry);
      var started := EnsureWebSeedDownload(entry, meets.present);
      assert engine.Valid() && engine.View() == was.queue;
      if offset + length <= entry.size {
        KnownInFile(entry, offset, length, files);
      }
      RequestAndPump(entry, offset, length, meets);
      assert View() == AfterRead(was, entry, offset, length, cache.maxBytes, webSeedEnabled, meets);
    }

    /** The cache's part of a read. */
    method RecordRead(entry: FileEntry)
      requires cache.Valid()
      modifies cache
      ensures cache.Valid() && cache.tick == old(cache.tick) + 1
      ensures cache.entries == Cache.Evict(
                old(cache.entries)[entry.virtualPath := Cache.Entry(entry.size, old(cache.tick) + 1)], cache.maxBytes)
    {
      cache.Touch(entry.virtualPath, entry.size);
      cache.EvictIfNeeded();
    }

    /** The engine's part of a read. */
    method RequestAndPump(entry: FileEntry, offset: nat, length: nat, meets: Meets)
      requires engine.Valid() && engine.files == files && CanPump(meets.connects)
      requires 0 <= entry.index < |files|
      modifies engine
      ensures Engine.InFile(RequestFor(entry, offset, length), files) ==> engine.Valid()
      ensures engine.View() == Engine.Step(
                Engine.Step(old(engine.View()), Engine.Request(RequestFor(entry, offset, length))),
                Engine.Pump(meets.connects))
    {
      ghost var was, r := engine.View(), RequestFor(entry, offset, length);
      assert forall x <- was.requests :: Engine.InFile(x, files);
      engine.RequestFileData(entry.index, offset, length);
      assert engine.View() == if was.running then was.(requests := was.requests + [r]) else was;
      assert engine.requests != [] ==> engine.requests[0] in was.requests || engine.requests[0] == r;
      var sent := engine.PumpOnce(meets.connects, meets.interested);
    }

    /** A download is claimed and started exactly when the entry is a file without payload, downloads are
        enabled, and none is in flight for the path. */
    method EnsureWebSeedDownload(entry: FileEntry, present: bool) returns (started: bool)
      modifies this`inFlight
      ensures inFlight == Considered(old(inFlight), entry, webSeedEnabled, present)
      ensures started <==> inFlight != old(inFlight)
    {
      if entry.isDirectory || !webSeedEnabled {
        return false;
      }
      if present {
        return false;
      }
      if entry.virtualPath in inFlight {
        return false;
      }
      inFlight := inFlight + {entry.virtualPath};
      started := true;
    }

    /** The last step of a download thread. */
    method DownloadEnded(path: bytes)
      modifies this`inFlight
      ensures inFlight == old(inFlight) - {path}
      ensures View() == AfterUse(old(View()), Ended(path), cache.maxBytes, webSeedEnabled)
    {
      inFlight := inFlight - {path};
    }

    predicate IsHydrating(entry: FileEntry)
      reads this
    {
      entry.virtualPath in inFlight
    }

    /** Bytes of the file from `offset` on, never more than asked for or than there are; a missing payload
        makes a download considered, and nothing else changes. */
    method TryReadFileRange(entry: FileEntry, file: bytes, offset: nat, wanted: nat, payload: Payload)
      returns (ready: bool, data: bytes)
      requires entry.isDirectory || |file| == entry.size
      modifies this`inFlight
      ensures |data| <= wanted && (data != [] ==> offset + |data| <= |file| && data == file[offset..offset + |data|])
      ensures if entry.isDirectory || offset >= entry.size then ready && data == [] && inFlight == old(inFlight)
              else
                && (ready <==> payload.Found?) && (!ready ==> data == [])
                && (ready ==> |data| == Min(payload.count, Min(wanted, entry.size - offset)))
                && inFlight == if payload.Missing? then Considered(old(inFlight), entry, webSeedEnabled, payload.appears)
                               else old(inFlight)
      ensures View() == AfterUse(old(View()), Attempted(entry, offset, payload), cache.maxBytes, webSeedEnabled)
    {
      if entry.isDirectory || offset >= entry.size {
        return true, [];
      }
      var available := Min(wanted, entry.size - offset);
      match payload
      case Missing(appears) =>
        var started := EnsureWebSeedDownload(entry, appears);
        ready, data := false, [];
      case Unreadable =>
        ready, data := false, [];
      case Found(count) =>
        ready, data := true, file[offset..offset + Min(count, available)];
    }
  }
}
