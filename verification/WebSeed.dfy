/**
 On-demand downloads as a protocol of readers and workers that share the payload directory and the set
 `webSeedInFlight_`. A step is what one thread does between two points where another can interfere;
 a run is any interleaving of steps.
 */
module WebSeed {
  import opened Bytes

  const PART: bytes := [46, 112, 97, 114, 116]  // ".part"

  function TempOf(path: bytes): bytes { path + PART }

  datatype Phase =
    | Claimed                                      // in the set, nothing received yet
    | Receiving(handle: nat, body: bytes)          // writing to the opened temporary file
    | Renaming(handle: nat, body: bytes)           // body complete, before the first rename
    | Replacing(handle: nat, body: bytes)          // first rename failed, before removing the old file
    | RenamingAgain(handle: nat, body: bytes)      // before the second rename
    | Cleaning                                     // download failed, before removing the temporary file
    | Leaving                                      // downloadFile returned, before leaving the set
    | Gone

  datatype Worker = Worker(path: bytes, phase: Phase)

  /** `names` is the directory and `data` the contents of all files ever created in it. `pending` holds
      the readers that found a file missing and have not reached the lock. `outputs` records, for each
      path, the bodies workers have finished. */
  datatype State = State(
    names: map<bytes, nat>, data: seq<bytes>, inFlight: set<bytes>, pending: multiset<bytes>,
    workers: seq<Worker>, outputs: set<(bytes, bytes)>)

  datatype Event =
    | Check(path: bytes)                 // ensureWebSeedDownload: does the destination exist?
    | Claim(path: bytes)                 // ... insert into the set under the lock, start a worker
    | GiveUp(w: nat)                     // no connection, or the temporary file cannot be opened
    | Open(w: nat)                       // open the temporary file, truncating it
    | Write(w: nat, chunk: bytes)
    | Close(w: nat, ok: bool)            // end of the receive loop
    | RemoveTemp(w: nat)
    | Rename(w: nat, ok: bool)
    | RemoveOld(w: nat)
    | RenameAgain(w: nat, ok: bool)
    | Leave(w: nat)                      // erase from the set under the lock

  predicate Active(worker: Worker) { !worker.phase.Gone? }

  predicate HoldsFile(worker: Worker) {
    worker.phase.Receiving? || Complete(worker)
  }

  predicate Complete(worker: Worker) {
    worker.phase.Renaming? || worker.phase.Replacing? || worker.phase.RenamingAgain?
  }

  function Enter(s: State, w: nat, phase: Phase): State
    requires w < |s.workers|
  {
    s.(workers := s.workers[w := s.workers[w].(phase := phase)])
  }

  function Remove(names: map<bytes, nat>, name: bytes): map<bytes, nat> { names - {name} }

  /** `rename`, which needs its source to exist and replaces its target. */
  function Move(names: map<bytes, nat>, from: bytes, to: bytes): map<bytes, nat>
    requires from in names
  {
    Remove(names, from)[to := names[from]]
  }

  /** One step; a step that is not possible in a state changes nothing. */
  function Next(s: State, e: Event, paths: set<bytes>): State {
    match e
    case Check(p) =>
      if p in paths && p !in s.names then s.(pending := s.pending + multiset{p}) else s
    case Claim(p) =>
      if p !in s.pending then s
      else if p in s.inFlight then s.(pending := s.pending - multiset{p})
      else s.(pending := s.pending - multiset{p}, inFlight := s.inFlight + {p},
              workers := s.workers + [Worker(p, Claimed)])
    case GiveUp(w) =>
      if w < |s.workers| && s.workers[w].phase.Claimed? then Enter(s, w, Leaving) else s
    case Open(w) =>
      if w < |s.workers| && s.workers[w].phase.Claimed? then
        var temp := TempOf(s.workers[w].path);
        if temp in s.names && s.names[temp] < |s.data| then
          Enter(s, w, Receiving(s.names[temp], [])).(data := s.data[s.names[temp] := []])
        else
          Enter(s, w, Receiving(|s.data|, [])).(data := s.data + [[]], names := s.names[temp := |s.data|])
      else s
    case Write(w, chunk) =>
      if w < |s.workers| && s.workers[w].phase.Receiving? && s.workers[w].phase.handle < |s.data| then
        var h, body := s.workers[w].phase.handle, s.workers[w].phase.body;
        Enter(s, w, Receiving(h, body + chunk)).(data := s.data[h := s.data[h] + chunk])
      else s
    case Close(w, ok) =>
      if w < |s.workers| && s.workers[w].phase.Receiving? then
        var h, body := s.workers[w].phase.handle, s.workers[w].phase.body;
        if ok then Enter(s, w, Renaming(h, body)).(outputs := s.outputs + {(s.workers[w].path, body)})
        else Enter(s, w, Cleaning)
      else s
    case RemoveTemp(w) =>
      if w < |s.workers| && s.workers[w].phase.Cleaning? then
        Enter(s, w, Leaving).(names := Remove(s.names, TempOf(s.workers[w].path)))
      else s
    case Rename(w, ok) =>
      if w < |s.workers| && s.workers[w].phase.Renaming? then
        var p := s.workers[w].path;
        if ok && TempOf(p) in s.names then Enter(s, w, Leaving).(names := Move(s.names, TempOf(p), p))
        else Enter(s, w, Replacing(s.workers[w].phase.handle, s.workers[w].phase.body))
      else s
    case RemoveOld(w) =>
      if w < |s.workers| && s.workers[w].phase.Replacing? then
        Enter(s, w, RenamingAgain(s.workers[w].phase.handle, s.workers[w].phase.body))
          .(names := Remove(s.names, s.workers[w].path))
      else s
    case RenameAgain(w, ok) =>
      if w < |s.workers| && s.workers[w].phase.RenamingAgain? then
        var p := s.workers[w].path;
        if ok && TempOf(p) in s.names then Enter(s, w, Leaving).(names := Move(s.names, TempOf(p), p))
        else Enter(s, w, Leaving)
      else s
    case Leave(w) =>
      if w < |s.workers| && s.workers[w].phase.Leaving? then
        Enter(s, w, Gone).(inFlight := s.inFlight - {s.workers[w].path})
      else s
  }

  function Run(s: State, events: seq<Event>, paths: set<bytes>): State {
    if events == [] then s
    else Next(Run(s, events[..|events| - 1], paths), events[|events| - 1], paths)
  }

  /** A directory at the start of the program: distinct names are distinct files, and what destinations
      hold already counts as finished. */
  ghost predicate Start(s: State, paths: set<bytes>) {
    && s.inFlight == {} && s.pending == multiset{} && s.workers == [] && Separated(s)
    && (forall p :: p in paths && p in s.names ==> (p, s.data[s.names[p]]) in s.outputs)
  }

  ghost predicate Separated(s: State) {
    && (forall n :: n in s.names ==> s.names[n] < |s.data|)
    && (forall m, n :: m in s.names && n in s.names && s.names[m] == s.names[n] ==> m == n)
  }

  // ----- at most one download per path

  /** The set is exactly the paths with a claimed or running download, and no path has two. */
  ghost predicate Deduplicated(s: State, paths: set<bytes>) {
    && (forall p :: p in s.pending ==> p in paths)
    && (forall i :: 0 <= i < |s.workers| ==> s.workers[i].path in paths)
    && (forall i :: 0 <= i < |s.workers| && Active(s.workers[i]) ==> s.workers[i].path in s.inFlight)
    && (forall p :: p in s.inFlight ==> HasWorker(s, p))
    && (forall i, j :: 0 <= i < j < |s.workers| && Active(s.workers[i]) && Active(s.workers[j]) ==>
          s.workers[i].path != s.workers[j].path)
  }

  ghost predicate HasWorker(s: State, p: bytes) {
    exists i :: 0 <= i < |s.workers| && Active(s.workers[i]) && s.workers[i].path == p
  }

  lemma EnterKeepsDeduplicated(s: State, w: nat, phase: Phase, paths: set<bytes>)
    requires Deduplicated(s, paths) && w < |s.workers| && Active(s.workers[w]) && !phase.Gone?
    ensures Deduplicated(Enter(s, w, phase), paths)
  {
    var r := Enter(s, w, phase);
    forall p | p in r.inFlight ensures HasWorker(r, p) {
      assert HasWorker(s, p);
      var i :| 0 <= i < |s.workers| && Active(s.workers[i]) && s.workers[i].path == p;
      assert Active(r.workers[i]) && r.workers[i].path == p;
    }
  }

  lemma ClaimKeepsDeduplicated(s: State, p: bytes, paths: set<bytes>)
    requires Deduplicated(s, paths)
    ensures Deduplicated(Next(s, Claim(p), paths), paths)
  {
    var r := Next(s, Claim(p), paths);
    forall q | q in r.inFlight ensures HasWorker(r, q) {
      if q in s.inFlight {
        assert HasWorker(s, q);
        var i :| 0 <= i < |s.workers| && Active(s.workers[i]) && s.workers[i].path == q;
        assert r.workers[i] == s.workers[i];
      } else {
        assert r.workers[|r.workers| - 1].path == q;
      }
    }
  }

  lemma LeaveKeepsDeduplicated(s: State, w: nat, paths: set<bytes>)
    requires Deduplicated(s, paths)
    ensures Deduplicated(Next(s, Leave(w), paths), paths)
  {
    var r := Next(s, Leave(w), paths);
    forall q | q in r.inFlight ensures HasWorker(r, q) {
      assert HasWorker(s, q);
      var i :| 0 <= i < |s.workers| && Active(s.workers[i]) && s.workers[i].path == q;
      assert r.workers[i] == s.workers[i];
    }
  }

  lemma NextKeepsDeduplicated(s: State, e: Event, paths: set<bytes>)
    requires Deduplicated(s, paths)
    ensures Deduplicated(Next(s, e, paths), paths)
  {
    match e
    case Check(p) => SameWorkers(s, Next(s, e, paths), paths);
    case Claim(p) => ClaimKeepsDeduplicated(s, p, paths);
    case Leave(w) => LeaveKeepsDeduplicated(s, w, paths);
    case _ =>
      var r := Next(s, e, paths);
      if r != s {
        EnterKeepsDeduplicated(s, e.w, r.workers[e.w].phase, paths);
        SameWorkers(Enter(s, e.w, r.workers[e.w].phase), r, paths);
      }
  }

  lemma SameWorkers(s: State, r: State, paths: set<bytes>)
    requires Deduplicated(s, paths)
    requires r.workers == s.workers && r.inFlight == s.inFlight && forall p :: p in r.pending ==> p in paths
    ensures Deduplicated(r, paths)
  {
    forall q | q in r.inFlight ensures HasWorker(r, q) {
      assert HasWorker(s, q);
    }
  }

  // ----- what the directory holds

  /** No path of the torrent is another one with ".part" behind it. */
  ghost predicate NoPartClash(paths: set<bytes>) {
    forall p, q :: p in paths && q in paths ==> TempOf(p) != q
  }

  /** Every destination that exists holds a finished body for its path. */
  ghost predicate DestinationsFinished(s: State, paths: set<bytes>) {
    forall p :: p in paths && p in s.names ==> s.names[p] < |s.data| && (p, s.data[s.names[p]]) in s.outputs
  }

  /** A worker that holds a file is the only one with that file, which is its temporary file and holds
      exactly what the worker has received. */
  ghost predicate OwnsTemp(s: State, worker: Worker) {
    HoldsFile(worker) ==>
      && TempOf(worker.path) in s.names && s.names[TempOf(worker.path)] == worker.phase.handle
      && worker.phase.handle < |s.data| && s.data[worker.phase.handle] == worker.phase.body
      && (Complete(worker) ==> (worker.path, worker.phase.body) in s.outputs)
  }

  ghost predicate SafeFiles(s: State, paths: set<bytes>) {
    && Separated(s) && DestinationsFinished(s, paths)
    && (forall i {:trigger s.workers[i]} :: 0 <= i < |s.workers| ==> OwnsTemp(s, s.workers[i]))
  }

  lemma TempInjective(p: bytes, q: bytes)
    requires TempOf(p) == TempOf(q)
    ensures p == q
  {
    assert p == TempOf(p)[..|TempOf(p)| - 5] == TempOf(q)[..|TempOf(q)| - 5] == q;
  }

  /** A step of worker `w` that leaves the other workers' temporary files alone. */
  lemma OthersKeepTemp(s: State, w: nat, r: State, paths: set<bytes>)
    requires Deduplicated(s, paths) && SafeFiles(s, paths)
    requires w < |s.workers| && Active(s.workers[w]) && |r.workers| == |s.workers|
    requires forall i :: 0 <= i < |s.workers| && i != w ==> r.workers[i] == s.workers[i]
    requires s.outputs <= r.outputs && |s.data| <= |r.data|
    requires forall n :: n in s.names && n != TempOf(s.workers[w].path) && n != s.workers[w].path ==>
               n in r.names && r.names[n] == s.names[n] && r.data[s.names[n]] == s.data[s.names[n]]
    requires NoPartClash(paths)
    ensures forall i :: 0 <= i < |s.workers| && i != w ==> OwnsTemp(r, r.workers[i])
  {
    forall i | 0 <= i < |s.workers| && i != w ensures OwnsTemp(r, r.workers[i]) {
      var other := s.workers[i];
      assert OwnsTemp(s, other);
      if HoldsFile(other) {
        assert Active(other);
        assert other.path != s.workers[w].path;
        if TempOf(other.path) == TempOf(s.workers[w].path) {
          TempInjective(other.path, s.workers[w].path);
        }
      }
    }
  }

  lemma OpenKeepsFiles(s: State, w: nat, paths: set<bytes>)
    requires Deduplicated(s, paths) && SafeFiles(s, paths) && NoPartClash(paths)
    ensures SafeFiles(Next(s, Open(w), paths), paths)
  {
    var r := Next(s, Open(w), paths);
    if r != s {
      OthersKeepTemp(s, w, r, paths);
      assert OwnsTemp(r, r.workers[w]);
    }
  }

  lemma WriteKeepsFiles(s: State, w: nat, chunk: bytes, paths: set<bytes>)
    requires Deduplicated(s, paths) && SafeFiles(s, paths) && NoPartClash(paths)
    ensures SafeFiles(Next(s, Write(w, chunk), paths), paths)
  {
    var r := Next(s, Write(w, chunk), paths);
    if r != s {
      assert OwnsTemp(s, s.workers[w]);
      OthersKeepTemp(s, w, r, paths);
      assert OwnsTemp(r, r.workers[w]);
    }
  }

  /** Renaming, from the first or the second attempt. */
  lemma MoveKeepsFiles(s: State, w: nat, r: State, paths: set<bytes>)
    requires Deduplicated(s, paths) && SafeFiles(s, paths) && NoPartClash(paths)
    requires w < |s.workers| && Complete(s.workers[w])
    requires var p := s.workers[w].path;
             TempOf(p) in s.names && r == Enter(s, w, Leaving).(names := Move(s.names, TempOf(p), p))
    ensures SafeFiles(r, paths)
  {
    assert OwnsTemp(s, s.workers[w]);
    OthersKeepTemp(s, w, r, paths);
    assert OwnsTemp(r, r.workers[w]);
  }

  lemma RemoveKeepsFiles(s: State, w: nat, phase: Phase, name: bytes, paths: set<bytes>)
    requires Deduplicated(s, paths) && SafeFiles(s, paths) && NoPartClash(paths)
    requires w < |s.workers| && Active(s.workers[w])
    requires name == TempOf(s.workers[w].path) || name == s.workers[w].path
    requires var r := Enter(s, w, phase).(names := Remove(s.names, name)); OwnsTemp(r, r.workers[w])
    ensures SafeFiles(Enter(s, w, phase).(names := Remove(s.names, name)), paths)
  {
    var r := Enter(s, w, phase).(names := Remove(s.names, name));
    OthersKeepTemp(s, w, r, paths);
  }

  /** Steps that touch no file. */
  lemma PhaseKeepsFiles(s: State, w: nat, phase: Phase, outputs: set<(bytes, bytes)>, paths: set<bytes>)
    requires SafeFiles(s, paths) && w < |s.workers| && s.outputs <= outputs
    requires var r := Enter(s, w, phase).(outputs := outputs); OwnsTemp(r, r.workers[w])
    ensures SafeFiles(Enter(s, w, phase).(outputs := outputs), paths)
  {
    var r := Enter(s, w, phase).(outputs := outputs);
    forall i | 0 <= i < |r.workers| ensures OwnsTemp(r, r.workers[i]) {
      if i != w { assert OwnsTemp(s, s.workers[i]); }
    }
  }

  lemma ClaimKeepsFiles(s: State, e: Event, paths: set<bytes>)
    requires SafeFiles(s, paths) && (e.Check? || e.Claim?)
    ensures SafeFiles(Next(s, e, paths), paths)
  {
    var r := Next(s, e, paths);
    forall i | 0 <= i < |r.workers| ensures OwnsTemp(r, r.workers[i]) {
      if i < |s.workers| { assert OwnsTemp(s, s.workers[i]); }
    }
  }

  lemma LeaveKeepsFiles(s: State, w: nat, paths: set<bytes>)
    requires SafeFiles(s, paths)
    ensures SafeFiles(Next(s, Leave(w), paths), paths)
  {
    var r := Next(s, Leave(w), paths);
    forall i | 0 <= i < |r.workers| ensures OwnsTemp(r, r.workers[i]) {
      assert OwnsTemp(s, s.workers[i]);
    }
  }

  lemma RenameKeepsFiles(s: State, e: Event, paths: set<bytes>)
    requires Deduplicated(s, paths) && SafeFiles(s, paths) && NoPartClash(paths)
    requires e.Rename? || e.RenameAgain?
    ensures SafeFiles(Next(s, e, paths), paths)
  {
    var r := Next(s, e, paths);
    if r != s {
      assert OwnsTemp(s, s.workers[e.w]);
      if e.ok {
        MoveKeepsFiles(s, e.w, r, paths);
      } else {
        assert OwnsTemp(r, r.workers[e.w]);
        PhaseKeepsFiles(s, e.w, r.workers[e.w].phase, s.outputs, paths);
      }
    }
  }

  lemma NextKeepsFiles(s: State, e: Event, paths: set<bytes>)
    requires Deduplicated(s, paths) && SafeFiles(s, paths) && NoPartClash(paths)
    ensures SafeFiles(Next(s, e, paths), paths)
  {
    var r := Next(s, e, paths);
    match e
    case Check(_) => ClaimKeepsFiles(s, e, paths);
    case Claim(_) => ClaimKeepsFiles(s, e, paths);
    case Open(w) => OpenKeepsFiles(s, w, paths);
    case Write(w, chunk) => WriteKeepsFiles(s, w, chunk, paths);
    case Rename(_, _) => RenameKeepsFiles(s, e, paths);
    case RenameAgain(_, _) => RenameKeepsFiles(s, e, paths);
    case Leave(w) => LeaveKeepsFiles(s, w, paths);
    case GiveUp(w) =>
      if r != s { PhaseKeepsFiles(s, w, Leaving, s.outputs, paths); }
    case Close(w, ok) =>
      if r != s {
        assert OwnsTemp(s, s.workers[w]);
        PhaseKeepsFiles(s, w, r.workers[w].phase, r.outputs, paths);
      }
    case RemoveTemp(w) =>
      if r != s { RemoveKeepsFiles(s, w, Leaving, TempOf(s.workers[w].path), paths); }
    case RemoveOld(w) =>
      if r != s { RemoveOldKeepsFiles(s, w, paths); }
  }

  lemma RemoveOldKeepsFiles(s: State, w: nat, paths: set<bytes>)
    requires Deduplicated(s, paths) && SafeFiles(s, paths) && NoPartClash(paths)
    requires w < |s.workers| && s.workers[w].phase.Replacing?
    ensures SafeFiles(Next(s, RemoveOld(w), paths), paths)
  {
    var worker := s.workers[w];
    assert OwnsTemp(s, worker);
    assert |TempOf(worker.path)| != |worker.path|;
    RemoveKeepsFiles(s, w, RenamingAgain(worker.phase.handle, worker.phase.body), worker.path, paths);
  }

  // ----- whole runs

  /** In every interleaving of readers and workers the set `webSeedInFlight_` holds exactly the paths
      with a claimed or running download, and no path ever has two. */
  lemma {:induction false} OneDownloadPerPath(s: State, events: seq<Event>, paths: set<bytes>)
    requires Start(s, paths)
    ensures Deduplicated(Run(s, events, paths), paths)
  {
    if events != [] {
      OneDownloadPerPath(s, events[..|events| - 1], paths);
      NextKeepsDeduplicated(Run(s, events[..|events| - 1], paths), events[|events| - 1], paths);
    }
  }

  lemma {:induction false} FilesStaySafe(s: State, events: seq<Event>, paths: set<bytes>)
    requires Start(s, paths) && NoPartClash(paths)
    ensures SafeFiles(Run(s, events, paths), paths)
  {
    if events != [] {
      var front := events[..|events| - 1];
      FilesStaySafe(s, front, paths);
      OneDownloadPerPath(s, front, paths);
      NextKeepsFiles(Run(s, front, paths), events[|events| - 1], paths);
    }
  }

  // ----- single writer, whatever the paths

  /** The open file of a worker has no name but the worker's temporary one. */
  ghost predicate OnlyTempName(s: State, worker: Worker) {
    HoldsFile(worker) ==>
      && worker.phase.handle < |s.data|
      && forall n :: n in s.names && s.names[n] == worker.phase.handle ==> n == TempOf(worker.path)
  }

  /** Names are of different files, and so are the open files of the workers. */
  ghost predicate SeparateHandles(s: State) {
    && Separated(s)
    && (forall i {:trigger s.workers[i]} :: 0 <= i < |s.workers| ==> OnlyTempName(s, s.workers[i]))
    && (forall i, j :: 0 <= i < j < |s.workers| ==> DifferentFiles(s.workers[i], s.workers[j]))
  }

  ghost predicate DifferentFiles(v: Worker, w: Worker) {
    HoldsFile(v) && HoldsFile(w) ==> v.phase.handle != w.phase.handle
  }

  /** A worker opens its temporary file: no other worker has it, because it has that name. */
  lemma OpenKeepsHandles(s: State, w: nat, paths: set<bytes>)
    requires Deduplicated(s, paths) && SeparateHandles(s)
    ensures SeparateHandles(Next(s, Open(w), paths))
  {
    var r := Next(s, Open(w), paths);
    if r != s {
      var h := r.workers[w].phase.handle;
      forall i | 0 <= i < |s.workers| && i != w
        ensures OnlyTempName(r, r.workers[i]) && (HoldsFile(r.workers[i]) ==> r.workers[i].phase.handle != h)
      {
        assert OnlyTempName(s, s.workers[i]);
        if HoldsFile(s.workers[i]) {
          OtherTemp(s, i, w, paths);
        }
      }
      assert OnlyTempName(r, r.workers[w]);
    }
  }

  lemma OtherTemp(s: State, i: nat, w: nat, paths: set<bytes>)
    requires Deduplicated(s, paths) && i < |s.workers| && w < |s.workers| && i != w && Active(s.workers[w])
    requires OnlyTempName(s, s.workers[i]) && HoldsFile(s.workers[i])
    ensures var temp := TempOf(s.workers[w].path);
            TempOf(s.workers[i].path) != temp && (temp in s.names ==> s.names[temp] != s.workers[i].phase.handle)
  {
    assert Active(s.workers[i]) && s.workers[i].path != s.workers[w].path;
    if TempOf(s.workers[i].path) == TempOf(s.workers[w].path) {
      TempInjective(s.workers[i].path, s.workers[w].path);
    }
  }

  /** A step of worker `w` that gives no file a new name. */
  lemma FewerNamesKeepHandles(s: State, w: nat, r: State)
    requires SeparateHandles(s) && w < |s.workers| && |r.workers| == |s.workers| && |s.data| <= |r.data|
    requires forall i :: 0 <= i < |s.workers| && i != w ==> r.workers[i] == s.workers[i]
    requires HoldsFile(r.workers[w]) ==>
               HoldsFile(s.workers[w]) && r.workers[w].path == s.workers[w].path &&
               r.workers[w].phase.handle == s.workers[w].phase.handle
    requires forall n :: n in r.names ==> n in s.names && s.names[n] == r.names[n]
    ensures SeparateHandles(r)
  {
    forall i | 0 <= i < |r.workers| ensures OnlyTempName(r, r.workers[i]) {
      assert OnlyTempName(s, s.workers[i]);
    }
    forall i, j | 0 <= i < j < |r.workers| ensures DifferentFiles(r.workers[i], r.workers[j]) {
      assert DifferentFiles(s.workers[i], s.workers[j]);
    }
  }

  /** Renaming gives the renamed file a new name, and no other worker has that file. */
  lemma MoveKeepsHandles(s: State, w: nat, paths: set<bytes>)
    requires Deduplicated(s, paths) && SeparateHandles(s) && w < |s.workers| && Active(s.workers[w])
    requires TempOf(s.workers[w].path) in s.names
    ensures var p := s.workers[w].path;
            SeparateHandles(Enter(s, w, Leaving).(names := Move(s.names, TempOf(p), p)))
  {
    var p := s.workers[w].path;
    var r := Enter(s, w, Leaving).(names := Move(s.names, TempOf(p), p));
    forall i | 0 <= i < |r.workers| ensures OnlyTempName(r, r.workers[i]) {
      assert OnlyTempName(s, s.workers[i]);
      if i != w && HoldsFile(s.workers[i]) {
        OtherTemp(s, i, w, paths);
      }
    }
    forall i, j | 0 <= i < j < |r.workers| ensures DifferentFiles(r.workers[i], r.workers[j]) {
      assert DifferentFiles(s.workers[i], s.workers[j]);
    }
  }

  lemma NextKeepsHandles(s: State, e: Event, paths: set<bytes>)
    requires Deduplicated(s, paths) && SeparateHandles(s)
    ensures SeparateHandles(Next(s, e, paths))
  {
    var r := Next(s, e, paths);
    match e
    case Check(_) =>
    case Claim(_) => ClaimKeepsHandles(s, e, paths);
    case Open(w) => OpenKeepsHandles(s, w, paths);
    case Rename(_, _) => RenameKeepsHandles(s, e, paths);
    case RenameAgain(_, _) => RenameKeepsHandles(s, e, paths);
    case RemoveTemp(_) => RemoveKeepsHandles(s, e, paths);
    case RemoveOld(_) => RemoveKeepsHandles(s, e, paths);
    case GiveUp(_) => PhaseKeepsHandles(s, e, paths);
    case Write(_, _) => PhaseKeepsHandles(s, e, paths);
    case Close(_, _) => PhaseKeepsHandles(s, e, paths);
    case Leave(_) => PhaseKeepsHandles(s, e, paths);
  }

  lemma PhaseKeepsHandles(s: State, e: Event, paths: set<bytes>)
    requires SeparateHandles(s) && (e.GiveUp? || e.Write? || e.Close? || e.Leave?)
    ensures SeparateHandles(Next(s, e, paths))
  {
    var r := Next(s, e, paths);
    if r != s {
      FewerNamesKeepHandles(s, e.w, r);
    }
  }

  lemma RemoveKeepsHandles(s: State, e: Event, paths: set<bytes>)
    requires SeparateHandles(s) && (e.RemoveTemp? || e.RemoveOld?)
    ensures SeparateHandles(Next(s, e, paths))
  {
    var r := Next(s, e, paths);
    if r != s {
      FewerNamesKeepHandles(s, e.w, r);
    }
  }

  lemma RenameKeepsHandles(s: State, e: Event, paths: set<bytes>)
    requires Deduplicated(s, paths) && SeparateHandles(s) && (e.Rename? || e.RenameAgain?)
    ensures SeparateHandles(Next(s, e, paths))
  {
    var r := Next(s, e, paths);
    if r.names != s.names {
      MoveKeepsHandles(s, e.w, paths);
    } else if r != s {
      FewerNamesKeepHandles(s, e.w, r);
    }
  }

  lemma ClaimKeepsHandles(s: State, e: Event, paths: set<bytes>)
    requires SeparateHandles(s) && e.Claim?
    ensures SeparateHandles(Next(s, e, paths))
  {
    var r := Next(s, e, paths);
    forall i | 0 <= i < |r.workers| ensures OnlyTempName(r, r.workers[i]) {
      if i < |s.workers| { assert OnlyTempName(s, s.workers[i]); }
    }
    forall i, j | 0 <= i < j < |r.workers| ensures DifferentFiles(r.workers[i], r.workers[j]) {
      if j < |s.workers| { assert DifferentFiles(s.workers[i], s.workers[j]); }
    }
  }

  lemma {:induction false} HandlesStaySeparate(s: State, events: seq<Event>, paths: set<bytes>)
    requires Start(s, paths)
    ensures SeparateHandles(Run(s, events, paths))
  {
    if events != [] {
      var front := events[..|events| - 1];
      HandlesStaySeparate(s, front, paths);
      OneDownloadPerPath(s, front, paths);
      NextKeepsHandles(Run(s, front, paths), events[|events| - 1], paths);
    }
  }

  /** No two workers ever write to the same file, whatever the paths are called. */
  lemma SingleWriter(s: State, events: seq<Event>, paths: set<bytes>, i: nat, j: nat)
    requires Start(s, paths)
    requires var r := Run(s, events, paths);
             i < j < |r.workers| && HoldsFile(r.workers[i]) && HoldsFile(r.workers[j])
    ensures var r := Run(s, events, paths); r.workers[i].phase.handle != r.workers[j].phase.handle
  {
    var r := Run(s, events, paths);
    HandlesStaySeparate(s, events, paths);
    assert DifferentFiles(r.workers[i], r.workers[j]);
  }

  ghost predicate AlwaysFinished(paths: set<bytes>) {
    forall s: State, events: seq<Event> :: Start(s, paths) ==> DestinationsFinished(Run(s, events, paths), paths)
  }

  const NOTHING: State := State(map[], [], {}, multiset{}, [], {})

  /** With a clash, three steps expose a destination that no worker has finished: the temporary file of
      one path is the destination of the other. */
  lemma ClashExposesTemp(paths: set<bytes>, p: bytes)
    requires p in paths && TempOf(p) in paths
    ensures Start(NOTHING, paths)
    ensures !DestinationsFinished(Run(NOTHING, [Check(p), Claim(p), Open(0)], paths), paths)
  {
    var events := [Check(p), Claim(p), Open(0)];
    assert events[..2] == [Check(p), Claim(p)] && events[..2][..1] == [Check(p)] && events[..2][..1][..0] == [];
    var s1 := Next(NOTHING, Check(p), paths);
    assert Run(NOTHING, [Check(p)], paths) == s1 by { assert [Check(p)][..0] == []; }
    var s2 := Next(s1, Claim(p), paths);
    assert Run(NOTHING, [Check(p), Claim(p)], paths) == s2;
    assert s2.workers == [Worker(p, Claimed)];
    var s3 := Next(s2, Open(0), paths);
    assert Run(NOTHING, events, paths) == s3;
    assert TempOf(p) in s3.names && s3.outputs == {};
  }

  /** In every run and from every directory a destination only ever appears holding a body some worker
      finished for it, if and only if no path of the torrent is another one with ".part" appended. */
  lemma FinishedIffNoPartClash(paths: set<bytes>)
    ensures AlwaysFinished(paths) <==> NoPartClash(paths)
  {
    if NoPartClash(paths) {
      forall s: State, events: seq<Event> | Start(s, paths)
        ensures DestinationsFinished(Run(s, events, paths), paths)
      {
        FilesStaySafe(s, events, paths);
      }
    } else {
      var p, q :| p in paths && q in paths && TempOf(p) == q;
      ClashExposesTemp(paths, p);
    }
  }
}
