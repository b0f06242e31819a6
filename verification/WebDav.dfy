/** Serving a file over WebDAV: the byte range of a request and the loop that sends it in chunks. */
module WebDav {
  import opened Bytes
  import opened Machine
  import opened Namespace
  import opened Session

  const CHUNK := 64 * 1024
  const ATTEMPTS := 1200
  const READ_AHEAD := 2 * 1024 * 1024

  datatype Range = Range(first: nat, last: nat)

  /** Position `i` is asked for: from `first` on, up to `last` if there is one, within the file. */
  predicate Requested(i: nat, first: nat, last: Option<nat>, size: nat) {
    first <= i < size && (last.Some? ==> i <= last.value)
  }

  predicate Covered(i: nat, r: Range) { r.first <= i <= r.last }

  /** `parseRangeHeader` after the two numbers are read; `last` is absent in an open range. The result is
      a non-empty range inside the file that covers exactly the requested positions; there is none
      when the range starts behind the file or ends before it starts. */
  function ParseRange(first: nat, last: Option<nat>, size: nat): (r: Option<Range>)
    ensures r.Some? ==> r.value.first <= r.value.last < size
    ensures r.Some? <==> first < size && (last.Some? ==> first <= last.value)
    ensures r.Some? ==> forall i :: Covered(i, r.value) <==> Requested(i, first, last, size)
  {
    var end := match last
               case Some(n) => n
               case None => if size == 0 then 0 else size - 1;
    if first >= size || end < first then None
    else Some(Range(first, Min(end, size - 1)))
  }

  /** `sendAll`: the socket takes a prefix of the data, all of it if the result is true. `sends` gives
      what each send call returns. */
  method SendAll(data: bytes, sends: nat -> int, clock: nat) returns (ok: bool, sent: nat, clock': nat)
    ensures sent <= |data| && (ok <==> sent == |data|)
    ensures AlwaysSends(sends) ==> ok
    ensures clock <= clock'
  {
    sent := 0;
    clock' := clock;
    while sent < |data|
      invariant sent <= |data| && clock <= clock'
    {
      var written := sends(clock');
      clock' := clock' + 1;
      if written <= 0 {
        return false, sent, clock';
      }
      sent := sent + Min(written, |data| - sent);
    }
    ok := true;
  }

  /** The bytes a response for `[start, end]` owes; an empty file owes none. */
  function Owed(file: bytes, start: nat, end: nat): bytes
    requires start <= end < |file| || (file == [] && start == end == 0)
  {
    if file == [] then [] else file[start..end + 1]
  }

  /** The length the response announces. */
  function ContentLength(size: nat, start: nat, end: nat): nat
    requires start <= end
  {
    if size == 0 then 0 else end - start + 1
  }

  /** What one attempt of a GET meets: the payload, whether the download of the file has ended since, and
      what a read ahead meets. */
  datatype Attempt = Attempt(payload: Payload, ended: bool, meets: Meets)

  predicate SomeBytes(attempt: Attempt) { attempt.payload.Found? && attempt.payload.count > 0 }

  ghost predicate AlwaysReads(attempts: nat -> Attempt) {
    forall t :: SomeBytes(attempts(t))
  }

  ghost predicate AlwaysSends(sends: nat -> int) {
    forall t :: sends(t) > 0
  }

  /** The session knows the entry as the file with these bytes, and can pump. */
  ghost predicate Serves(session: TorrentSession, entry: FileEntry, file: bytes)
    reads session, session.cache, session.engine
  {
    && session.Valid() && Known(entry, session.files) && !entry.isDirectory && entry.size == |file| < TWO_64
    && Low32(session.engine.pieceLength) > 0
  }

  // ----- waiting for a chunk

  /** Bytes of the file at the position, not more than wanted. */
  predicate IsChunk(data: bytes, file: bytes, position: nat, wanted: nat) {
    |data| <= wanted && position + |data| <= |file| && data == file[position..position + |data|]
  }

  /** A GET that waits for a chunk: the session it began with, what it asks for, and what its attempts meet. */
  datatype Wait = Wait(before: Reading, maxBytes: nat, enabled: bool, entry: FileEntry, position: nat, wanted: nat,
                       attempts: nat -> Attempt, clock: nat)

  /** An attempt that brings no bytes: the read, and the end of a download that has ended. */
  ghost function AfterTry(r: Reading, entry: FileEntry, position: nat, a: Attempt, maxBytes: nat, enabled: bool): Reading {
    var read := AfterUse(r, Attempted(entry, position, a.payload), maxBytes, enabled);
    if a.ended then AfterUse(read, Ended(entry.virtualPath), maxBytes, enabled) else read
  }

  /** The session after `n` attempts without bytes, each followed by a read ahead, ... */
  ghost function Waited(w: Wait, n: nat): Reading
    requires w.wanted < TWO_32
    decreases n, 0
  {
    if n == 0 then w.before
    else
      var meets := w.attempts(w.clock + n - 1).meets;
      AfterUse(Tried(w, n - 1), Streamed(w.entry, w.position, w.wanted, meets), w.maxBytes, w.enabled)
  }

  /** ... and after the read of attempt `n` brought none either. */
  ghost function Tried(w: Wait, n: nat): Reading
    requires w.wanted < TWO_32
    decreases n, 1
  {
    AfterTry(Waited(w, n), w.entry, w.position, w.attempts(w.clock + n), w.maxBytes, w.enabled)
  }

  /** Attempt `n` reads nothing of an existing payload, and no download of the file is running by then. */
  ghost predicate GivesUp(w: Wait, n: nat)
    requires w.wanted < TWO_32
  {
    var a := w.attempts(w.clock + n);
    a.payload.Found? && !SomeBytes(a) && w.entry.virtualPath !in Tried(w, n).inFlight
  }

  /** Attempt `n` is the first to find bytes, and none before it gives up. */
  ghost predicate Arrives(w: Wait, n: nat)
    requires w.wanted < TWO_32
  {
    SomeBytes(w.attempts(w.clock + n)) && Waits(w, n)
  }

  ghost predicate ArrivesInTime(w: Wait)
    requires w.wanted < TWO_32
  {
    exists n: nat :: n < 1200 && Arrives(w, n)
  }

  /** Up to 1200 attempts to read the next chunk; each that fails reads ahead. Bytes come exactly if one of
      the attempts is the first to find some and none before it gives up. */
  method ReadChunk(session: TorrentSession, entry: FileEntry, file: bytes, position: nat, wanted: nat,
                   attempts: nat -> Attempt, clock: nat)
    returns (data: bytes, clock': nat)
    requires Serves(session, entry, file) && position <= |file| && wanted < TWO_32
    modifies session`inFlight, session.cache, session.engine
    ensures Serves(session, entry, file)
    ensures IsChunk(data, file, position, wanted)
    ensures position < |file| && wanted > 0 ==>
              (data != [] <==> ArrivesInTime(Wait(old(session.View()), session.cache.maxBytes, session.webSeedEnabled,
                                                  entry, position, wanted, attempts, clock)))
    ensures AlwaysReads(attempts) && position < |file| && wanted > 0 ==> data != []
  {
    ghost var w := Wait(session.View(), session.cache.maxBytes, session.webSeedEnabled,
                        entry, position, wanted, attempts, clock);
    AlwaysArrives(w);
    data, clock' := Waiting(session, entry, file, position, wanted, attempts, clock, w, position < |file| && wanted > 0);
  }

  lemma AlwaysArrives(w: Wait)
    requires w.wanted < TWO_32
    ensures AlwaysReads(w.attempts) ==> ArrivesInTime(w)
  {
    if AlwaysReads(w.attempts) {
      assert Arrives(w, 0);
    }
  }

  /** The session has waited for `n` attempts; for bytes that are there and asked for, in vain. */
  ghost predicate StillWaits(session: TorrentSession, w: Wait, n: nat, asks: bool)
    requires w.wanted < TWO_32
    reads session, session.cache, session.engine
  {
    && w.maxBytes == session.cache.maxBytes && w.enabled == session.webSeedEnabled
    && session.View() == Waited(w, n) && (asks ==> Waits(w, n))
  }

  /** Whether bytes came is whether they arrive in time. */
  ghost predicate Told(w: Wait, asks: bool, came: bool)
    requires w.wanted < TWO_32
  {
    asks ==> (came <==> ArrivesInTime(w))
  }

  /** The session serves the file and has waited for it in vain so far. */
  ghost predicate Waitable(session: TorrentSession, w: Wait, file: bytes, n: nat, asks: bool)
    reads session, session.cache, session.engine
  {
    && w.wanted < TWO_32 && w.position <= |file| && Serves(session, w.entry, file) && StillWaits(session, w, n, asks)
    && (asks ==> w.position < |file| && w.wanted > 0)
  }

  /** The loop of attempts. */
  method Waiting(session: TorrentSession, entry: FileEntry, file: bytes, position: nat, wanted: nat,
                 attempts: nat -> Attempt, clock: nat, ghost w: Wait, ghost asks: bool)
    returns (data: bytes, clock': nat)
    requires w.entry == entry && w.position == position && w.wanted == wanted && w.attempts == attempts && w.clock == clock
    requires Waitable(session, w, file, 0, asks)
    modifies session`inFlight, session.cache, session.engine
    ensures Serves(session, entry, file)
    ensures IsChunk(data, file, position, wanted) && Told(w, asks, data != [])
  {
    var over;
    data, clock' := [], clock;
    for attempt := 0 to ATTEMPTS
      invariant clock' == clock + attempt && data == [] && IsChunk(data, file, position, wanted)
      invariant Waitable(session, w, file, attempt, asks)
    {
      data, over := WaitOnce(session, entry, file, position, wanted, attempts, clock', w, attempt, asks);
      clock' := clock' + 1;
      if over {
        return;
      }
    }
    OutOfTime(session, w, ATTEMPTS, asks);
  }

  /** What one attempt means for the wait. */
  lemma Outcome(w: Wait, n: nat, came: bool, gaveUp: bool)
    requires w.wanted < TWO_32 && n < 1200 && Waits(w, n)
    requires (came <==> SomeBytes(w.attempts(w.clock + n))) && (!came ==> (gaveUp <==> GivesUp(w, n)))
    ensures came ==> ArrivesInTime(w)
    ensures !came && gaveUp ==> !ArrivesInTime(w)
    ensures !came && !gaveUp ==> Waits(w, n + 1)
  {
    if came {
      assert Arrives(w, n);
    } else if gaveUp {
      forall k: nat ensures !Arrives(w, k) {
        if k < n { WaitsAt(w, n, k); }
        if n < k && Waits(w, k) { WaitsAt(w, k, n); }
      }
    }
  }

  lemma OutOfTime(session: TorrentSession, w: Wait, n: nat, asks: bool)
    requires w.wanted < TWO_32 && n == 1200 && StillWaits(session, w, n, asks)
    ensures Told(w, asks, false)
  {
    forall k: nat | asks && k < n ensures !Arrives(w, k) {
      WaitsAt(w, n, k);
    }
  }

  /** One attempt with what follows it: bytes, or the end of the wait, or a read ahead. */
  method WaitOnce(session: TorrentSession, entry: FileEntry, file: bytes, position: nat, wanted: nat,
                  attempts: nat -> Attempt, clock: nat, ghost w: Wait, ghost n: nat, ghost asks: bool)
    returns (data: bytes, over: bool)
    requires w.entry == entry && w.position == position && w.wanted == wanted
    requires w.attempts == attempts && w.clock + n == clock
    requires Waitable(session, w, file, n, asks) && n < 1200
    modifies session`inFlight, session.cache, session.engine
    ensures Serves(session, entry, file)
    ensures IsChunk(data, file, position, wanted)
    ensures if over then Told(w, asks, data != []) else data == [] && Waitable(session, w, file, n + 1, asks)
  {
    var ready;
    var attempt := attempts(clock);
    over := true;
    ready, data := Try(session, entry, file, position, wanted, attempt);
    if data != [] {
      if asks { Outcome(w, n, true, false); }
      return;
    }
    over := ready && !session.IsHydrating(entry);
    GivesUpIs(w, n, session.inFlight);
    if asks { Outcome(w, n, false, over); }
    if over {
      return;
    }
    session.BeginStreaming(entry, position, wanted, attempt.meets);
  }

  /** One attempt: the read, and, if it brings nothing, the end of a download that has ended. */
  method Try(session: TorrentSession, entry: FileEntry, file: bytes, position: nat, wanted: nat, attempt: Attempt)
    returns (ready: bool, data: bytes)
    requires Serves(session, entry, file) && position <= |file|
    modifies session`inFlight
    ensures Serves(session, entry, file)
    ensures IsChunk(data, file, position, wanted)
    ensures data != [] ==> ready && attempt.payload.Found?
    ensures position < |file| ==>
              (ready <==> attempt.payload.Found?) &&
              |data| == if ready then Min(attempt.payload.count, Min(wanted, |file| - position)) else 0
    ensures position < |file| && wanted > 0 ==> (data != [] <==> SomeBytes(attempt))
    ensures data == [] ==>
              session.View() == AfterTry(old(session.View()), entry, position, attempt,
                                         session.cache.maxBytes, session.webSeedEnabled)
  {
    ready, data := session.TryReadFileRange(entry, file, position, wanted, attempt.payload);
    if data == [] && attempt.ended {
      session.DownloadEnded(entry.virtualPath);
    }
  }

  /** No attempt before attempt `n` finds bytes, and none gives up. */
  ghost predicate Waits(w: Wait, n: nat)
    requires w.wanted < TWO_32
  {
    n == 0 || (Waits(w, n - 1) && !SomeBytes(w.attempts(w.clock + n - 1)) && !GivesUp(w, n - 1))
  }

  lemma {:induction false} WaitsAt(w: Wait, n: nat, i: nat)
    requires w.wanted < TWO_32 && Waits(w, n) && i < n
    ensures !SomeBytes(w.attempts(w.clock + i)) && !GivesUp(w, i)
  {
    if i < n - 1 {
      WaitsAt(w, n - 1, i);
    }
  }

  lemma GivesUpIs(w: Wait, n: nat, inFlight: set<bytes>)
    requires w.wanted < TWO_32 && Tried(w, n).inFlight == inFlight
    ensures var a := w.attempts(w.clock + n);
            GivesUp(w, n) <==> a.payload.Found? && !SomeBytes(a) && w.entry.virtualPath !in inFlight
  {
  }

  /** The loop of a GET: for any pattern of short or missing reads and of partial sends, what goes out is
      a prefix of the owed bytes, and when the loop ends by its condition it is all of them, as many as
      announced; when every read yields something and every send is taken, it ends that way. All the
      while the session stays sound: its queue holds only requests inside their files. */
  method SendRange(session: TorrentSession, entry: FileEntry, file: bytes, start: nat, end: nat,
                   attempts: nat -> Attempt, sends: nat -> int)
    returns (sent: bytes, complete: bool)
    requires Serves(session, entry, file)
    requires start <= end < |file| || (file == [] && start == end == 0)
    modifies session`inFlight, session.cache, session.engine
    ensures Serves(session, entry, file)
    ensures sent <= Owed(file, start, end)
    ensures complete ==> sent == Owed(file, start, end) && |sent| == ContentLength(|file|, start, end)
    ensures file != [] && AlwaysReads(attempts) && AlwaysSends(sends) ==> complete
  {
    sent, complete := [], false;
    var position, readClock, sendClock := start, 0, 0;
    while position <= end
      invariant Serves(session, entry, file)
      invariant start <= position && (position <= |file| && position <= end + 1)
      invariant file == [] ==> sent == []
      invariant file != [] ==> sent == file[start..position]
      decreases end + 1 - position
    {
      var wanted := Min(CHUNK, end - position + 1);
      var data;
      data, readClock := ReadChunk(session, entry, file, position, wanted, attempts, readClock);
      if data == [] {
        return;
      }
      var ok, count;
      ok, count, sendClock := SendAll(data, sends, sendClock);
      SendStep(file, start, position, data, count);
      sent := sent + data[..count];
      if !ok {
        return;
      }
      Add64Exact(position, |data|);
      position := Add64(position, |data|);
    }
    complete := true;
  }

  lemma SendStep(file: bytes, start: nat, position: nat, data: bytes, count: nat)
    requires start <= position && position + |data| <= |file| && count <= |data|
    requires data == file[position..position + |data|]
    ensures file[start..position] + data[..count] == file[start..position + count]
  {
  }

  /** A whole GET or HEAD of a file: the range header, if there is one, picks the range; without one or
      with one that cannot be satisfied the whole file is served. The range is read ahead, at most two
      mebibytes of it, before anything is sent; `headersGone` says whether the headers went out. */
  method Serve(session: TorrentSession, entry: FileEntry, file: bytes, header: Option<(nat, Option<nat>)>,
               head: bool, headersGone: bool, meets: Meets, attempts: nat -> Attempt, sends: nat -> int)
    returns (partial: bool, announced: nat, sent: bytes, complete: bool)
    requires Serves(session, entry, file)
    modifies session`inFlight, session.cache, session.engine
    ensures Serves(session, entry, file)
    ensures partial <==> header.Some? && ParseRange(header.value.0, header.value.1, |file|).Some?
    ensures partial ==> var r := ParseRange(header.value.0, header.value.1, |file|).value;
                        announced == r.last - r.first + 1 && sent <= file[r.first..r.last + 1]
    ensures !partial ==> announced == |file| && sent <= file
    ensures complete ==> |sent| == announced
    ensures head || !headersGone ==> sent == [] && !complete
    ensures head || !headersGone ==>
              var first := if partial then ParseRange(header.value.0, header.value.1, |file|).value.first else 0;
              session.View() == AfterUse(old(session.View()), Streamed(entry, first, Min(announced, 0x20_0000), meets),
                                         session.cache.maxBytes, session.webSeedEnabled)
    ensures !head && headersGone && file != [] && AlwaysReads(attempts) && AlwaysSends(sends) ==> complete
  {
    var start, end := 0, if file == [] then 0 else |file| - 1;
    partial := false;
    if header.Some? {
      var range := ParseRange(header.value.0, header.value.1, |file|);
      if range.Some? {
        start, end := range.value.first, range.value.last;
        partial := true;
      }
    }
    announced := ContentLength(|file|, start, end);
    session.BeginStreaming(entry, start, Min(announced, READ_AHEAD), meets);
    assert !partial ==> Owed(file, start, end) == file;
    if !headersGone || head {
      return partial, announced, [], false;
    }
    sent, complete := SendRange(session, entry, file, start, end, attempts, sends);
  }
}
