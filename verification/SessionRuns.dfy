/** Whole runs of a session: what the reads of a run leave in the engine's queue, in the cache and in the
    set of running downloads. */
module SessionRuns {
  import opened Bytes
  import opened Machine
  import opened Namespace
  import opened Session
  import Cache
  import Engine
  import LruHistory

  /** Where a session's constructor leaves it. */
  const STARTED := Reading(map[], 0, Engine.Step(Engine.IDLE, Engine.Start), {})

  /** A session after a run of uses. */
  ghost function RunUses(uses: seq<Use>, maxBytes: nat, enabled: bool): Reading
    requires Lengths32(uses)
  {
    AfterUses(STARTED, uses, maxBytes, enabled)
  }

  /** The use reads inside a file. */
  predicate Reads(u: Use) {
    u.Streamed? && !u.entry.isDirectory && u.offset < u.entry.size
  }

  function RequestOf(u: Use): Engine.StreamRequest
    requires u.Streamed? && u.length < TWO_32
  {
    Engine.StreamRequest(u.entry.index, u.offset, ClampStreamWindow(u.entry, u.offset, u.length))
  }

  lemma Front(uses: seq<Use>)
    requires Lengths32(uses) && uses != []
    ensures Lengths32(uses[..|uses| - 1]) && (uses[|uses| - 1].Streamed? ==> uses[|uses| - 1].length < TWO_32)
  {
    assert uses[|uses| - 1] in uses && forall u <- uses[..|uses| - 1] :: u in uses;
  }

  // ----- the queue

  /** What the uses are to the engine. */
  function EventsOf(uses: seq<Use>): seq<Engine.Event>
    requires Lengths32(uses)
  {
    if uses == [] then [Engine.Start]
    else
      Front(uses);
      EventsOf(uses[..|uses| - 1]) + EventsOfOne(uses[|uses| - 1])
  }

  function EventsOfOne(u: Use): seq<Engine.Event>
    requires u.Streamed? ==> u.length < TWO_32
  {
    if u.Started? then [Engine.Start]
    else if u.Stopped? then [Engine.Stop]
    else if Reads(u) then [Engine.Request(RequestOf(u)), Engine.Pump(u.meets.connects)]
    else []
  }

  lemma EngineTwo(events: seq<Engine.Event>, a: Engine.Event, b: Engine.Event)
    ensures Engine.Run(events + [a]) == Engine.Step(Engine.Run(events), a)
    ensures Engine.Run(events + [a, b]) == Engine.Step(Engine.Step(Engine.Run(events), a), b)
  {
    assert (events + [a])[..|events|] == events;
    assert (events + [a, b])[..|events| + 1] == events + [a];
  }

  /** The queue of a session is that of an engine which is started and then meets the session's events. */
  lemma {:induction false} QueueIsEngine(uses: seq<Use>, maxBytes: nat, enabled: bool)
    requires Lengths32(uses)
    ensures RunUses(uses, maxBytes, enabled).queue == Engine.Run(EventsOf(uses))
  {
    if uses == [] {
      EngineTwo([], Engine.Start, Engine.Start);
      assert [] + [Engine.Start] == [Engine.Start];
    } else {
      Front(uses);
      var front, last := uses[..|uses| - 1], uses[|uses| - 1];
      QueueIsEngine(front, maxBytes, enabled);
      QueueStep(RunUses(front, maxBytes, enabled), EventsOf(front), last, maxBytes, enabled);
    }
  }

  lemma QueueStep(r: Reading, events: seq<Engine.Event>, last: Use, maxBytes: nat, enabled: bool)
    requires (last.Streamed? ==> last.length < TWO_32) && r.queue == Engine.Run(events)
    ensures AfterUse(r, last, maxBytes, enabled).queue == Engine.Run(events + EventsOfOne(last))
  {
    if last.Started? {
      EngineTwo(events, Engine.Start, Engine.Start);
    } else if last.Stopped? {
      EngineTwo(events, Engine.Stop, Engine.Stop);
    } else if Reads(last) {
      EngineTwo(events, Engine.Request(RequestOf(last)), Engine.Pump(last.meets.connects));
    } else {
      assert events + [] == events;
    }
  }

  /** The engine was started after it was last stopped; a session starts it. */
  predicate Running(uses: seq<Use>) {
    if uses == [] then true
    else
      var last := uses[|uses| - 1];
      last.Started? || (!last.Stopped? && Running(uses[..|uses| - 1]))
  }

  /** The requests of the reads since the last stop, as far as the engine was running. */
  function Accepted(uses: seq<Use>): seq<Engine.StreamRequest>
    requires Lengths32(uses)
  {
    if uses == [] then []
    else
      Front(uses);
      var front, last := uses[..|uses| - 1], uses[|uses| - 1];
      if last.Stopped? then []
      else Accepted(front) + if Reads(last) && Running(front) then [RequestOf(last)] else []
  }

  lemma {:induction false} AcceptedAreEngines(uses: seq<Use>)
    requires Lengths32(uses)
    ensures Engine.RunningAfter(EventsOf(uses)) == Running(uses)
    ensures Engine.AcceptedSinceStop(EventsOf(uses)) == Accepted(uses)
  {
    if uses == [] {
      assert [Engine.Start][..0] == [];
    } else {
      Front(uses);
      var front, last := uses[..|uses| - 1], uses[|uses| - 1];
      AcceptedAreEngines(front);
      AcceptedStep(EventsOf(front), last);
    }
  }

  lemma AcceptedStep(events: seq<Engine.Event>, last: Use)
    requires last.Streamed? ==> last.length < TWO_32
    ensures var all := events + EventsOfOne(last);
            && Engine.RunningAfter(all) == (last.Started? || (!last.Stopped? && Engine.RunningAfter(events)))
            && Engine.AcceptedSinceStop(all) ==
               if last.Stopped? then []
               else Engine.AcceptedSinceStop(events) +
                    if Reads(last) && Engine.RunningAfter(events) then [RequestOf(last)] else []
  {
    var one, accepted := EventsOfOne(last), Engine.AcceptedSinceStop(events);
    assert accepted + [] == accepted && events + [] == events;
    if one != [] {
      assert (events + [one[0]])[..|events|] == events;
      if |one| == 2 {
        assert (events + one)[..|events| + 1] == events + [one[0]];
      } else {
        assert one == [one[0]];
      }
    }
  }

  /** In every run of a session whose entries come from its index, whatever is read: the requests taken from
      the queue since the last stop, followed by those still in it, are those of the reads, in order, none
      lost or repeated, and each lies inside its file; so a pump never looks up a file that is not there. */
  lemma StreamsStayInFiles(uses: seq<Use>, files: seq<FileRecord>, maxBytes: nat, enabled: bool)
    requires Lengths32(uses) && forall u <- uses :: u.Streamed? ==> Known(u.entry, files)
    ensures var q := RunUses(uses, maxBytes, enabled).queue;
            && q.popped + q.requests == Accepted(uses)
            && forall r <- q.popped + q.requests :: Engine.InFile(r, files)
  {
    QueueIsEngine(uses, maxBytes, enabled);
    AcceptedAreEngines(uses);
    Engine.QueueKeepsRequests(EventsOf(uses));
    AcceptedInFiles(uses, files);
  }

  lemma {:induction false} AcceptedInFiles(uses: seq<Use>, files: seq<FileRecord>)
    requires Lengths32(uses) && forall u <- uses :: u.Streamed? ==> Known(u.entry, files)
    ensures forall r <- Accepted(uses) :: Engine.InFile(r, files)
  {
    if uses != [] {
      Front(uses);
      var front, last := uses[..|uses| - 1], uses[|uses| - 1];
      assert last in uses && forall u <- front :: u in uses;
      AcceptedInFiles(front, files);
      if Reads(last) {
        KnownInFile(last.entry, last.offset, RequestOf(last).length, files);
      }
    }
  }

  // ----- the cache

  /** What the uses are to the cache. */
  function StepsOf(uses: seq<Use>): seq<LruHistory.Step> {
    if uses == [] then []
    else StepsOf(uses[..|uses| - 1]) + StepsOfOne(uses[|uses| - 1])
  }

  function StepsOfOne(u: Use): seq<LruHistory.Step> {
    if Reads(u) then [LruHistory.Touch(u.entry.virtualPath, u.entry.size), LruHistory.Evict] else []
  }

  /** The cache of a session is that of a run which touches and evicts once for each read of a file. */
  lemma {:induction false} CacheIsHistory(uses: seq<Use>, maxBytes: nat, enabled: bool)
    requires Lengths32(uses)
    ensures var r := RunUses(uses, maxBytes, enabled);
            LruHistory.State(r.cached, r.tick) == LruHistory.Run(StepsOf(uses), maxBytes)
  {
    if uses != [] {
      Front(uses);
      var front, last := uses[..|uses| - 1], uses[|uses| - 1];
      CacheIsHistory(front, maxBytes, enabled);
      CacheStep(RunUses(front, maxBytes, enabled), StepsOf(front), last, maxBytes, enabled);
    }
  }

  lemma CacheStep(r: Reading, steps: seq<LruHistory.Step>, last: Use, maxBytes: nat, enabled: bool)
    requires last.Streamed? ==> last.length < TWO_32
    requires LruHistory.State(r.cached, r.tick) == LruHistory.Run(steps, maxBytes)
    ensures var after := AfterUse(r, last, maxBytes, enabled);
            LruHistory.State(after.cached, after.tick) == LruHistory.Run(steps + StepsOfOne(last), maxBytes)
  {
    if Reads(last) {
      var touch := LruHistory.Touch(last.entry.virtualPath, last.entry.size);
      LruHistory.RunAppend(steps, touch, maxBytes);
      LruHistory.RunAppend(steps + [touch], LruHistory.Evict, maxBytes);
      assert steps + [touch] + [LruHistory.Evict] == steps + [touch, LruHistory.Evict];
    } else {
      assert steps + [] == steps;
    }
  }

  ghost predicate SizesKept(uses: seq<Use>, size: map<bytes, nat>) {
    forall u <- uses :: Reads(u) ==> u.entry.virtualPath in size && size[u.entry.virtualPath] == u.entry.size
  }

  /** After every run in which files keep their sizes the tracked files are a most-recent-first prefix of all
      that were read. Right after a read every such prefix whose sizes fit the budget is tracked; the true
      total is within the budget exactly when no prefix of what was tracked, with the file just read, hides
      its size modulo 2^64; and one eviction of all that was read would leave the same if none of that does. */
  lemma CacheKeepsLongestPrefix(uses: seq<Use>, maxBytes: nat, enabled: bool, size: map<bytes, nat>)
    requires Lengths32(uses) && SizesKept(uses, size)
    ensures var m, all := RunUses(uses, maxBytes, enabled).cached, LruHistory.Touched(StepsOf(uses)).entries;
            && Cache.NewestRun(m, all)
            && (uses != [] && Reads(uses[|uses| - 1]) ==>
                  var before := WithLast(uses, maxBytes, enabled);
                  && LruHistory.HoldsFitting(m, all, maxBytes)
                  && (Cache.TotalSize(m) <= maxBytes <==> !LruHistory.Overruns(before, maxBytes))
                  && (!LruHistory.Overruns(all, maxBytes) ==>
                        m == Cache.Evict(all, maxBytes) && Cache.TotalSize(m) <= maxBytes))
  {
    CacheIsHistory(uses, maxBytes, enabled);
    LruHistory.TrackedPrefix(StepsOf(uses), maxBytes);
    SizesFixed(uses, size);
    if uses != [] && Reads(uses[|uses| - 1]) {
      LruHistory.LongestPrefixThatFits(StepsOf(uses), maxBytes, size);
      BeforeEviction(uses, maxBytes, enabled);
    }
  }

  /** What is tracked when the last read has been recorded and nothing evicted for it yet. */
  ghost function WithLast(uses: seq<Use>, maxBytes: nat, enabled: bool): Cache.Entries
    requires Lengths32(uses) && uses != [] && Reads(uses[|uses| - 1])
  {
    Front(uses);
    var r, e := RunUses(uses[..|uses| - 1], maxBytes, enabled), uses[|uses| - 1].entry;
    r.cached[e.virtualPath := Cache.Entry(e.size, r.tick + 1)]
  }

  lemma BeforeEviction(uses: seq<Use>, maxBytes: nat, enabled: bool)
    requires Lengths32(uses) && uses != [] && Reads(uses[|uses| - 1])
    ensures var steps := StepsOf(uses);
            && steps != [] && steps[|steps| - 1].Evict?
            && LruHistory.Run(steps[..|steps| - 1], maxBytes).entries == WithLast(uses, maxBytes, enabled)
  {
    Front(uses);
    var front, e := uses[..|uses| - 1], uses[|uses| - 1].entry;
    CacheIsHistory(front, maxBytes, enabled);
    TouchedLast(StepsOf(front), LruHistory.Touch(e.virtualPath, e.size), StepsOf(uses), maxBytes);
  }

  lemma TouchedLast(steps: seq<LruHistory.Step>, touch: LruHistory.Step, all: seq<LruHistory.Step>, maxBytes: nat)
    requires all == steps + [touch, LruHistory.Evict]
    ensures LruHistory.Run(all[..|all| - 1], maxBytes) == LruHistory.Apply(LruHistory.Run(steps, maxBytes), touch, maxBytes)
  {
    LruHistory.RunAppend(steps, touch, maxBytes);
    assert all[..|all| - 1] == steps + [touch];
  }

  lemma {:induction false} SizesFixed(uses: seq<Use>, size: map<bytes, nat>)
    requires SizesKept(uses, size)
    ensures LruHistory.FixedSizes(StepsOf(uses), size)
  {
    if uses != [] {
      assert uses[|uses| - 1] in uses && forall u <- uses[..|uses| - 1] :: u in uses;
      SizesFixed(uses[..|uses| - 1], size);
    }
  }

  // ----- the running downloads

  /** The use finds no payload for the file `p`, with downloads enabled. */
  predicate Asks(u: Use, p: bytes, enabled: bool) {
    enabled &&
    match u
    case Streamed(entry, _, _, meets) => Reads(u) && !meets.present && entry.virtualPath == p
    case Attempted(entry, offset, payload) =>
      !entry.isDirectory && offset < entry.size && payload.Missing? && !payload.appears && entry.virtualPath == p
    case _ => false
  }

  /** Some use asked for `p`, and no download of it has ended since. */
  ghost predicate AskedSinceEnd(uses: seq<Use>, p: bytes, enabled: bool) {
    exists i :: AskedAt(uses, p, enabled, i)
  }

  ghost predicate AskedAt(uses: seq<Use>, p: bytes, enabled: bool, i: nat) {
    i < |uses| && Asks(uses[i], p, enabled) && forall j :: i < j < |uses| ==> uses[j] != Ended(p)
  }

  /** A path is in the set exactly if a read found its payload missing and no download of it ended since. */
  lemma {:induction false} InFlightIffAsked(uses: seq<Use>, maxBytes: nat, enabled: bool, p: bytes)
    requires Lengths32(uses)
    ensures p in RunUses(uses, maxBytes, enabled).inFlight <==> AskedSinceEnd(uses, p, enabled)
  {
    if uses != [] {
      Front(uses);
      var front, last := uses[..|uses| - 1], uses[|uses| - 1];
      InFlightIffAsked(front, maxBytes, enabled, p);
      InFlightStep(RunUses(front, maxBytes, enabled), last, maxBytes, enabled, p);
      AskedStep(uses, p, enabled);
    }
  }

  lemma InFlightStep(r: Reading, last: Use, maxBytes: nat, enabled: bool, p: bytes)
    requires last.Streamed? ==> last.length < TWO_32
    ensures p in AfterUse(r, last, maxBytes, enabled).inFlight <==>
              Asks(last, p, enabled) || (p in r.inFlight && last != Ended(p))
  {
  }

  lemma AskedStep(uses: seq<Use>, p: bytes, enabled: bool)
    requires uses != []
    ensures var front, last := uses[..|uses| - 1], uses[|uses| - 1];
            AskedSinceEnd(uses, p, enabled) <==>
              Asks(last, p, enabled) || (AskedSinceEnd(front, p, enabled) && last != Ended(p))
  {
    var front, last := uses[..|uses| - 1], uses[|uses| - 1];
    if Asks(last, p, enabled) {
      assert AskedAt(uses, p, enabled, |uses| - 1);
    }
    if AskedSinceEnd(front, p, enabled) && last != Ended(p) {
      var i: nat :| AskedAt(front, p, enabled, i);
      assert AskedAt(uses, p, enabled, i);
    }
    if AskedSinceEnd(uses, p, enabled) {
      var i: nat :| AskedAt(uses, p, enabled, i);
      if i < |front| {
        assert uses[i] == front[i] && AskedAt(front, p, enabled, i);
      }
    }
  }
}
