/** What downloads leave on disk, told from the events alone: what each worker received, in order. */
module WebSeedContents {
  import opened Bytes
  import opened WebSeed

  /** The step writes to the open file of worker `w`. */
  ghost predicate WritesFor(s: State, e: Event, w: nat) {
    e.Write? && e.w == w && w < |s.workers| && s.workers[w].phase.Receiving?
  }

  /** The chunks that worker `w` received while its file was open, joined in the order they came. */
  ghost function Received(s: State, events: seq<Event>, paths: set<bytes>, w: nat): bytes {
    if events == [] then []
    else
      var front, last := events[..|events| - 1], events[|events| - 1];
      Received(s, front, paths, w) + if WritesFor(Run(s, front, paths), last, w) then last.chunk else []
  }

  /** A worker that has not begun received nothing; one that has a file keeps exactly what it received. */
  ghost predicate Keeps(worker: Worker, received: bytes) {
    && (worker.phase.Claimed? ==> received == [])
    && (HoldsFile(worker) ==> worker.phase.body == received)
  }

  lemma NextKeeps(s: State, e: Event, paths: set<bytes>, w: nat, before: bytes, after: bytes)
    requires w < |Next(s, e, paths).workers|
    requires if w < |s.workers| then Keeps(s.workers[w], before) else before == []
    requires w < |s.workers| && HoldsFile(s.workers[w]) ==> s.workers[w].phase.handle < |s.data|
    requires after == before + if WritesFor(s, e, w) then e.chunk else []
    ensures Keeps(Next(s, e, paths).workers[w], after)
  {
    if WritesFor(s, e, w) {
      var h := s.workers[w].phase.handle;
      assert Next(s, e, paths).workers[w].phase == Receiving(h, before + e.chunk);
    } else {
      assert before + [] == before;
      OthersKeep(s, e, paths, w, before);
    }
  }

  lemma OthersKeep(s: State, e: Event, paths: set<bytes>, w: nat, before: bytes)
    requires w < |Next(s, e, paths).workers| && !WritesFor(s, e, w)
    requires if w < |s.workers| then Keeps(s.workers[w], before) else before == []
    ensures Keeps(Next(s, e, paths).workers[w], before)
  {
    if w < |s.workers| {
      if e.Check? || e.Claim? || e.w != w {
        OtherWorker(s, e, paths, w);
      } else {
        OwnStep(s, e, paths, w, before);
      }
    }
  }

  lemma OtherWorker(s: State, e: Event, paths: set<bytes>, w: nat)
    requires w < |s.workers| && (e.Check? || e.Claim? || e.w != w)
    ensures w < |Next(s, e, paths).workers| && Next(s, e, paths).workers[w] == s.workers[w]
  {
  }

  lemma OwnStep(s: State, e: Event, paths: set<bytes>, w: nat, before: bytes)
    requires w < |s.workers| && !e.Check? && !e.Claim? && e.w == w && !WritesFor(s, e, w) && Keeps(s.workers[w], before)
    ensures w < |Next(s, e, paths).workers| && Keeps(Next(s, e, paths).workers[w], before)
  {
  }

  lemma WorkersStay(s: State, e: Event, paths: set<bytes>)
    ensures |s.workers| <= |Next(s, e, paths).workers|
  {
  }

  lemma {:induction false} NobodyReceives(s: State, events: seq<Event>, paths: set<bytes>, w: nat)
    requires |Run(s, events, paths).workers| <= w
    ensures Received(s, events, paths, w) == []
  {
    if events != [] {
      var front := events[..|events| - 1];
      WorkersStay(Run(s, front, paths), events[|events| - 1], paths);
      NobodyReceives(s, front, paths, w);
    }
  }

  /** In every run, whatever the paths are, a worker that has a file keeps in it what it received. */
  lemma {:induction false} BodyIsReceived(s: State, events: seq<Event>, paths: set<bytes>, w: nat)
    requires Start(s, paths) && w < |Run(s, events, paths).workers|
    ensures Keeps(Run(s, events, paths).workers[w], Received(s, events, paths, w))
  {
    if events != [] {
      var front := events[..|events| - 1];
      var q := Run(s, front, paths);
      HandlesStaySeparate(s, front, paths);
      if w < |q.workers| {
        BodyIsReceived(s, front, paths, w);
        assert OnlyTempName(q, q.workers[w]);
      } else {
        NobodyReceives(s, front, paths, w);
      }
      NextKeeps(q, events[|events| - 1], paths, w, Received(s, front, paths, w), Received(s, events, paths, w));
    }
  }

  // ----- what counts as finished

  /** The receive loop of worker `w` ended well. */
  ghost predicate EndedWell(s: State, events: seq<Event>, paths: set<bytes>, w: nat) {
    events != [] &&
    var front, last := events[..|events| - 1], events[|events| - 1];
    EndedWell(s, front, paths, w) || EndsWell(Run(s, front, paths), last, w)
  }

  ghost predicate EndsWell(s: State, e: Event, w: nat) {
    e == Close(w, true) && w < |s.workers| && s.workers[w].phase.Receiving?
  }

  /** Nothing is received any more. */
  ghost predicate Closed(s: State, w: nat) {
    w < |s.workers| && (Complete(s.workers[w]) || s.workers[w].phase.Leaving? || s.workers[w].phase.Gone?)
  }

  lemma NextKeepsClosed(s: State, e: Event, paths: set<bytes>, w: nat)
    requires Closed(s, w) || EndsWell(s, e, w)
    ensures Closed(Next(s, e, paths), w) && Next(s, e, paths).workers[w].path == s.workers[w].path
    ensures !WritesFor(s, e, w)
  {
  }

  lemma {:induction false} EndedIsClosed(s: State, events: seq<Event>, paths: set<bytes>, w: nat)
    requires EndedWell(s, events, paths, w)
    ensures Closed(Run(s, events, paths), w)
  {
    var front, last := events[..|events| - 1], events[|events| - 1];
    if EndedWell(s, front, paths, w) {
      EndedIsClosed(s, front, paths, w);
    }
    NextKeepsClosed(Run(s, front, paths), last, paths, w);
  }

  /** Worker `w` is for the path, its receive loop ended well, and this is what it received. */
  ghost predicate DownloadOf(s: State, events: seq<Event>, paths: set<bytes>, path: bytes, body: bytes, w: nat) {
    && EndedWell(s, events, paths, w) && Received(s, events, paths, w) == body
    && w < |Run(s, events, paths).workers| && Run(s, events, paths).workers[w].path == path
  }

  ghost predicate ReceivedFor(s: State, events: seq<Event>, paths: set<bytes>, path: bytes, body: bytes) {
    exists w :: DownloadOf(s, events, paths, path, body, w)
  }

  lemma StaysDownloaded(s: State, events: seq<Event>, paths: set<bytes>, path: bytes, body: bytes, w: nat)
    requires events != [] && DownloadOf(s, events[..|events| - 1], paths, path, body, w)
    ensures DownloadOf(s, events, paths, path, body, w)
  {
    var front := events[..|events| - 1];
    EndedIsClosed(s, front, paths, w);
    NextKeepsClosed(Run(s, front, paths), events[|events| - 1], paths, w);
    assert body + [] == body;
  }

  /** A body that newly counts as finished belongs to a receive loop that ends well in this step. */
  lemma NewOutput(s: State, e: Event, paths: set<bytes>, path: bytes, body: bytes)
    requires (path, body) in Next(s, e, paths).outputs && (path, body) !in s.outputs
    ensures e.Close? && EndsWell(s, e, e.w) && s.workers[e.w].path == path && s.workers[e.w].phase.body == body
  {
  }

  /** Every body that counts as finished for a path did so from the start, or is what a worker for the
      path received until its receive loop ended well, from the first chunk to the last. */
  lemma {:induction false} FinishedIsReceived(s: State, events: seq<Event>, paths: set<bytes>, path: bytes, body: bytes)
    requires Start(s, paths) && (path, body) in Run(s, events, paths).outputs
    ensures (path, body) in s.outputs || ReceivedFor(s, events, paths, path, body)
  {
    if events != [] {
      var front, last := events[..|events| - 1], events[|events| - 1];
      if (path, body) !in Run(s, front, paths).outputs {
        NewFinished(s, events, paths, path, body);
      } else {
        FinishedIsReceived(s, front, paths, path, body);
        if (path, body) !in s.outputs {
          var w :| DownloadOf(s, front, paths, path, body, w);
          StaysDownloaded(s, events, paths, path, body, w);
        }
      }
    }
  }

  lemma NewFinished(s: State, events: seq<Event>, paths: set<bytes>, path: bytes, body: bytes)
    requires Start(s, paths) && events != [] && (path, body) in Run(s, events, paths).outputs
    requires (path, body) !in Run(s, events[..|events| - 1], paths).outputs
    ensures ReceivedFor(s, events, paths, path, body)
  {
    var front, last := events[..|events| - 1], events[|events| - 1];
    var q := Run(s, front, paths);
    NewOutput(q, last, paths, path, body);
    BodyIsReceived(s, front, paths, last.w);
    NextKeepsClosed(q, last, paths, last.w);
    assert body + [] == body;
    assert DownloadOf(s, events, paths, path, body, last.w);
  }

  // ----- what appears under a destination

  /** Where no path is another one with `.part` behind it: every destination holds what it held at the
      start, or all that a worker for it received, in order. */
  lemma DestinationsHoldReceived(s: State, events: seq<Event>, paths: set<bytes>, p: bytes)
    requires Start(s, paths) && NoPartClash(paths) && p in paths && p in Run(s, events, paths).names
    ensures var r := Run(s, events, paths);
            && r.names[p] < |r.data|
            && var body := r.data[r.names[p]];
               (p, body) in s.outputs || ReceivedFor(s, events, paths, p, body)
  {
    var r := Run(s, events, paths);
    FilesStaySafe(s, events, paths);
    FinishedIsReceived(s, events, paths, p, r.data[r.names[p]]);
  }

  /** There a rename that succeeds, the first or the second one, puts exactly what the worker received under its
      path, and takes the temporary name away. */
  lemma RenameDelivers(s: State, events: seq<Event>, paths: set<bytes>, w: nat, again: bool)
    requires Start(s, paths) && NoPartClash(paths) && w < |Run(s, events, paths).workers|
    requires var phase := Run(s, events, paths).workers[w].phase;
             if again then phase.RenamingAgain? else phase.Renaming?
    ensures var q := Run(s, events, paths);
            var r := Next(q, if again then RenameAgain(w, true) else Rename(w, true), paths);
            var p := q.workers[w].path;
            && p in r.names && r.names[p] < |r.data| && r.data[r.names[p]] == Received(s, events, paths, w)
            && TempOf(p) !in r.names && r.workers[w].phase.Leaving?
  {
    var q := Run(s, events, paths);
    FilesStaySafe(s, events, paths);
    BodyIsReceived(s, events, paths, w);
    assert OwnsTemp(q, q.workers[w]);
    assert |TempOf(q.workers[w].path)| != |q.workers[w].path|;
  }

  /** A download that fails takes its temporary file away and leaves the destination alone. */
  lemma FailureCleansUp(s: State, w: nat, paths: set<bytes>)
    requires w < |s.workers| && s.workers[w].phase.Receiving?
    ensures var r := Next(Next(s, Close(w, false), paths), RemoveTemp(w), paths);
            && r.names == s.names - {TempOf(s.workers[w].path)} && r.outputs == s.outputs && r.workers[w].phase.Leaving?
  {
  }

  // ----- a download from its start to its end

  function Writes(w: nat, chunks: seq<bytes>): seq<Event> {
    seq(|chunks|, i requires 0 <= i < |chunks| => Write(w, chunks[i]))
  }

  function Joined(chunks: seq<bytes>): bytes {
    if chunks == [] then [] else Joined(chunks[..|chunks| - 1]) + chunks[|chunks| - 1]
  }

  /** Steps one after the other from any state. */
  function After(s: State, events: seq<Event>, paths: set<bytes>): State
    decreases |events|
  {
    if events == [] then s else After(Next(s, events[0], paths), events[1..], paths)
  }

  lemma {:induction false} RunFrom(s: State, front: seq<Event>, back: seq<Event>, paths: set<bytes>)
    ensures Run(s, front + back, paths) == After(Run(s, front, paths), back, paths)
    decreases |back|
  {
    if back == [] {
      assert front + back == front;
    } else {
      var next := front + [back[0]];
      assert next[..|front|] == front && next + back[1..] == front + back;
      RunFrom(s, next, back[1..], paths);
    }
  }

  lemma InThree(s: State, a: seq<Event>, b: seq<Event>, c: seq<Event>, paths: set<bytes>)
    ensures Run(s, a + (b + c), paths) == After(Run(Run(s, a, paths), b, paths), c, paths)
  {
    RunFrom(s, a, b + c, paths);
    RunFrom(Run(s, a, paths), [], b + c, paths);
    assert [] + (b + c) == b + c;
    RunFrom(Run(s, a, paths), b, c, paths);
  }

  /** A worker with its file open writes what it receives behind what it has. */
  lemma {:induction false} WritesJoin(s: State, w: nat, chunks: seq<bytes>, paths: set<bytes>, h: nat, body: bytes)
    requires w < |s.workers| && s.workers[w].phase == Receiving(h, body) && h < |s.data| && s.data[h] == body
    ensures Run(s, Writes(w, chunks), paths) ==
            Enter(s, w, Receiving(h, body + Joined(chunks))).(data := s.data[h := body + Joined(chunks)])
  {
    if chunks == [] {
      assert body + [] == body && s.workers[w := s.workers[w]] == s.workers && s.data[h := body] == s.data;
    } else {
      var front := chunks[..|chunks| - 1];
      WritesJoin(s, w, front, paths, h, body);
      assert Writes(w, chunks)[..|chunks| - 1] == Writes(w, front);
      assert body + Joined(front) + chunks[|chunks| - 1] == body + Joined(chunks);
      var q := Run(s, Writes(w, front), paths);
      assert q.data[h := body + Joined(chunks)] == s.data[h := body + Joined(chunks)];
      assert q.workers[w := Worker(s.workers[w].path, Receiving(h, body + Joined(chunks)))] ==
             s.workers[w := Worker(s.workers[w].path, Receiving(h, body + Joined(chunks)))];
    }
  }

  /** How a download that received everything ends: with one rename, or, if that fails, with the old file
      removed and a second one. */
  function Ending(again: bool): seq<Event> {
    if again then [Close(0, true), Rename(0, false), RemoveOld(0), RenameAgain(0, true), Leave(0)]
    else [Close(0, true), Rename(0, true), Leave(0)]
  }

  /** A file that is missing at the start and asked for once: its download, whatever the chunks, leaves exactly the
      joined chunks under its path, no temporary file, and nothing in flight. */
  lemma WholeDownload(s: State, p: bytes, chunks: seq<bytes>, again: bool, paths: set<bytes>)
    requires Start(s, paths) && p in paths && p !in s.names
    ensures var r := Run(s, [Check(p), Claim(p), Open(0)] + (Writes(0, chunks) + Ending(again)), paths);
            && p in r.names && r.names[p] < |r.data| && r.data[r.names[p]] == Joined(chunks)
            && TempOf(p) !in r.names && r.inFlight == {} && (p, Joined(chunks)) in r.outputs
            && r.workers == [Worker(p, Gone)]
            && forall n :: n in s.names && n != TempOf(p) ==> n in r.names && r.names[n] == s.names[n]
  {
    var opening := [Check(p), Claim(p), Open(0)];
    var q := Run(s, opening, paths);
    var h := Opened(s, p, paths);
    WritesJoin(q, 0, chunks, paths, h, []);
    assert [] + Joined(chunks) == Joined(chunks);
    InThree(s, opening, Writes(0, chunks), Ending(again), paths);
    Ended(Run(q, Writes(0, chunks), paths), p, h, Joined(chunks), again, paths);
  }

  lemma Opened(s: State, p: bytes, paths: set<bytes>) returns (h: nat)
    requires Start(s, paths) && p in paths && p !in s.names
    ensures var q := Run(s, [Check(p), Claim(p), Open(0)], paths);
            && q.workers == [Worker(p, Receiving(h, []))] && h < |q.data| && q.data[h] == [] && q.inFlight == {p}
            && q.names == s.names[TempOf(p) := h]
  {
    var events := [Check(p), Claim(p), Open(0)];
    RunFrom(s, [], events, paths);
    assert [] + events == events;
    AfterThree(s, Check(p), Claim(p), Open(0), paths);
    var claimed := Next(Next(s, Check(p), paths), Claim(p), paths);
    Claimed(s, p, paths);
    h := OpensTemp(claimed, p, paths);
  }

  lemma Claimed(s: State, p: bytes, paths: set<bytes>)
    requires s.inFlight == {} && s.pending == multiset{} && s.workers == [] && p in paths && p !in s.names
    ensures Next(Next(s, Check(p), paths), Claim(p), paths) == s.(inFlight := {p}, workers := [Worker(p, Phase.Claimed)])
  {
    assert multiset{} + multiset{p} - multiset{p} == multiset{};
    assert [] + [Worker(p, Phase.Claimed)] == [Worker(p, Phase.Claimed)];
  }

  lemma OpensTemp(s: State, p: bytes, paths: set<bytes>) returns (h: nat)
    requires s.workers == [Worker(p, Phase.Claimed)] && (TempOf(p) in s.names ==> s.names[TempOf(p)] < |s.data|)
    ensures var q := Next(s, Open(0), paths);
            && q.workers == [Worker(p, Receiving(h, []))] && h < |q.data| && q.data[h] == [] && q.inFlight == s.inFlight
            && q.names == s.names[TempOf(p) := h]
  {
    h := if TempOf(p) in s.names then s.names[TempOf(p)] else |s.data|;
  }

  lemma Ended(q: State, p: bytes, h: nat, body: bytes, again: bool, paths: set<bytes>)
    requires q.workers == [Worker(p, Receiving(h, body))] && q.inFlight == {p}
    requires TempOf(p) in q.names && q.names[TempOf(p)] == h
    ensures var r := After(q, Ending(again), paths);
            && r.workers == [Worker(p, Gone)] && r.inFlight == {} && r.data == q.data && (p, body) in r.outputs
            && r.names == (q.names - {TempOf(p)})[p := h]
  {
    if again {
      AfterFive(q, Close(0, true), Rename(0, false), RemoveOld(0), RenameAgain(0, true), Leave(0), paths);
      EndsSecond(q, p, h, body, paths);
    } else {
      AfterThree(q, Close(0, true), Rename(0, true), Leave(0), paths);
      EndsFirst(q, p, h, body, paths);
    }
  }

  lemma EndsFirst(q: State, p: bytes, h: nat, body: bytes, paths: set<bytes>)
    requires q.workers == [Worker(p, Receiving(h, body))] && TempOf(p) in q.names && q.names[TempOf(p)] == h
    ensures Next(Next(Next(q, Close(0, true), paths), Rename(0, true), paths), Leave(0), paths) ==
            q.(workers := [Worker(p, Gone)], inFlight := q.inFlight - {p}, outputs := q.outputs + {(p, body)},
               names := (q.names - {TempOf(p)})[p := h])
  {
  }

  lemma EndsSecond(q: State, p: bytes, h: nat, body: bytes, paths: set<bytes>)
    requires q.workers == [Worker(p, Receiving(h, body))] && TempOf(p) in q.names && q.names[TempOf(p)] == h
    ensures var replacing := Next(Next(q, Close(0, true), paths), Rename(0, false), paths);
            Next(Next(Next(replacing, RemoveOld(0), paths), RenameAgain(0, true), paths), Leave(0), paths) ==
            q.(workers := [Worker(p, Gone)], inFlight := q.inFlight - {p}, outputs := q.outputs + {(p, body)},
               names := (q.names - {TempOf(p)})[p := h])
  {
    assert |TempOf(p)| != |p|;
    var replacing := Next(Next(q, Close(0, true), paths), Rename(0, false), paths);
    assert replacing == q.(workers := [Worker(p, Replacing(h, body))], outputs := q.outputs + {(p, body)});
    var removed := Next(replacing, RemoveOld(0), paths);
    assert removed == replacing.(workers := [Worker(p, RenamingAgain(h, body))], names := q.names - {p});
    var moved := Next(removed, RenameAgain(0, true), paths);
    assert (q.names - {p} - {TempOf(p)})[p := h] == (q.names - {TempOf(p)})[p := h];
    assert moved == removed.(workers := [Worker(p, Leaving)], names := (q.names - {TempOf(p)})[p := h]);
  }

  lemma AfterStep(s: State, a: Event, rest: seq<Event>, paths: set<bytes>)
    ensures After(s, [a] + rest, paths) == After(Next(s, a, paths), rest, paths)
  {
    assert ([a] + rest)[1..] == rest;
  }

  lemma AfterThree(s: State, a: Event, b: Event, c: Event, paths: set<bytes>)
    ensures After(s, [a, b, c], paths) == Next(Next(Next(s, a, paths), b, paths), c, paths)
  {
    assert [a, b, c] == [a] + [b, c] && [b, c] == [b] + [c] && [c] == [c] + [];
    var s1 := Next(s, a, paths);
    var s2 := Next(s1, b, paths);
    AfterStep(s, a, [b, c], paths);
    AfterStep(s1, b, [c], paths);
    AfterStep(s2, c, [], paths);
  }

  lemma AfterFive(s: State, a: Event, b: Event, c: Event, d: Event, e: Event, paths: set<bytes>)
    ensures After(s, [a, b, c, d, e], paths) ==
            Next(Next(Next(Next(Next(s, a, paths), b, paths), c, paths), d, paths), e, paths)
  {
    assert [a, b, c, d, e] == [a] + [b, c, d, e] && [b, c, d, e] == [b] + [c, d, e];
    var s1 := Next(s, a, paths);
    AfterStep(s, a, [b, c, d, e], paths);
    AfterStep(s1, b, [c, d, e], paths);
    AfterThree(Next(s1, b, paths), c, d, e, paths);
  }
}
