/** The cache over whole runs: which keys are tracked after any interleaving of touches and evictions. */
module LruHistory {
  import opened Bytes
  import opened Machine
  import opened Cache

  datatype Step = Touch(key: bytes, size: nat) | Evict

  datatype State = State(entries: Entries, tick: nat)

  /** What `touch` and `evictIfNeeded` do to the bookkeeping. */
  ghost function Apply(s: State, step: Step, maxBytes: nat): State {
    match step
    case Touch(key, size) => State(s.entries[key := Entry(size, s.tick + 1)], s.tick + 1)
    case Evict => State(Cache.Evict(s.entries, maxBytes), s.tick)
  }

  /** A run from the empty cache. */
  ghost function Run(steps: seq<Step>, maxBytes: nat): State {
    if steps == [] then State(map[], 0)
    else Apply(Run(steps[..|steps| - 1], maxBytes), steps[|steps| - 1], maxBytes)
  }

  /** Everything ever touched, with its last size and the time of its last touch: the run in which
      nothing is ever evicted. */
  ghost function Touched(steps: seq<Step>): State {
    if steps == [] then State(map[], 0)
    else
      var s, last := Touched(steps[..|steps| - 1]), steps[|steps| - 1];
      if last.Evict? then s else Apply(s, last, 0)
  }

  ghost predicate FixedSizes(steps: seq<Step>, size: map<bytes, nat>) {
    forall s <- steps :: s.Touch? ==> s.key in size && size[s.key] == s.size
  }

  lemma RunTransitive(c: Entries, m: Entries, a: Entries)
    requires NewestRun(c, m) && NewestRun(m, a)
    ensures NewestRun(c, a)
  {
  }

  /** The tracked entries are always a most-recent-first prefix of everything ever touched: with a
      key, every key touched later is tracked too, with its last size and time. */
  lemma {:induction false} TrackedPrefix(steps: seq<Step>, maxBytes: nat)
    ensures var s, all := Run(steps, maxBytes), Touched(steps);
            && s.tick == all.tick && Clocked(s.entries, s.tick) && Clocked(all.entries, all.tick)
            && NewestRun(s.entries, all.entries)
  {
    if steps != [] {
      var front := steps[..|steps| - 1];
      TrackedPrefix(front, maxBytes);
      if steps[|steps| - 1].Evict? {
        var m := Run(front, maxBytes).entries;
        EvictExact(m, maxBytes);
        RunTransitive(Cache.Evict(m, maxBytes), m, Touched(front).entries);
      }
    }
  }

  /** Inclusion: on the same steps a larger budget tracks at least the same keys, at every moment. */
  lemma {:induction false} LargerBudgetTracksMore(steps: seq<Step>, small: nat, large: nat)
    requires small <= large
    ensures Run(steps, small).entries.Keys <= Run(steps, large).entries.Keys
  {
    if steps != [] {
      var front := steps[..|steps| - 1];
      LargerBudgetTracksMore(front, small, large);
      TrackedPrefix(front, small);
      TrackedPrefix(front, large);
      if steps[|steps| - 1].Evict? {
        var m, n := Run(front, small).entries, Run(front, large).entries;
        EvictExact(m, small);
        EvictExact(n, large);
        var r := Cache.Evict(m, small);
        RunTransitive(r, m, Touched(front).entries);
        assert NewestRun(r, n);
      }
    }
  }

  // ----- what exactly is tracked after an eviction

  /** Every newest run of `all` that goes beyond `m` is too large. */
  ghost predicate NothingMoreFits(m: Entries, all: Entries, maxBytes: nat) {
    forall c: Entries :: NewestRun(c, all) && m.Keys < c.Keys ==> TotalSize(c) > maxBytes
  }

  lemma {:induction false} TotalMonotonic(c: Entries, d: Entries)
    requires forall k :: k in c ==> k in d && c[k].size == d[k].size
    ensures TotalSize(c) <= TotalSize(d)
    decreases |c|
  {
    if c != map[] {
      var k :| k in c;
      TotalRemove(c, k);
      TotalRemove(d, k);
      TotalMonotonic(c - {k}, d - {k});
    }
  }

  lemma TouchKeepsNothingMore(m: Entries, all: Entries, key: bytes, e: Entry, maxBytes: nat)
    requires NewestRun(m, all) && DistinctTicks(all) && NothingMoreFits(m, all, maxBytes)
    requires forall k :: k in all ==> all[k].tick < e.tick
    requires key in all ==> all[key].size == e.size
    ensures NothingMoreFits(m[key := e], all[key := e], maxBytes)
  {
    forall d: Entries | NewestRun(d, all[key := e]) && m[key := e].Keys < d.Keys ensures TotalSize(d) > maxBytes {
      var c := RunBeforeTouch(m, all, key, e, d);
    }
  }

  /** A run that goes too far after a touch holds one that went too far before it. */
  lemma RunBeforeTouch(m: Entries, all: Entries, key: bytes, e: Entry, d: Entries) returns (c: Entries)
    requires NewestRun(m, all) && DistinctTicks(all)
    requires forall k :: k in all ==> all[k].tick < e.tick
    requires key in all ==> all[key].size == e.size
    requires NewestRun(d, all[key := e]) && m[key := e].Keys < d.Keys
    ensures NewestRun(c, all) && m.Keys < c.Keys && TotalSize(c) <= TotalSize(d)
  {
    var x :| x in d && x !in m[key := e];
    c := map k | k in all && all[k].tick >= all[x].tick :: all[k];
    forall k | k in m ensures k in c {
      assert k in all;
    }
    assert x in c;
    forall k | k in c ensures k in d && c[k].size == d[k].size {
      if k != key && k != x {
        assert all[key := e][k].tick > all[key := e][x].tick;
      }
    }
    TotalMonotonic(c, d);
  }

  lemma NestedRuns(c: Entries, m: Entries, all: Entries)
    requires NewestRun(c, all) && NewestRun(m, all) && DistinctTicks(all)
    ensures (c.Keys <= m.Keys && NewestRun(c, m)) || m.Keys < c.Keys
  {
    if !(c.Keys <= m.Keys) {
      var x :| x in c && x !in m;
      forall k | k in m ensures k in c {
        assert all[k].tick > all[x].tick;
      }
    }
  }

  lemma EvictKeepsNothingMore(m: Entries, all: Entries, maxBytes: nat)
    requires NewestRun(m, all) && DistinctTicks(all) && NothingMoreFits(m, all, maxBytes)
    ensures NothingMoreFits(Cache.Evict(m, maxBytes), all, maxBytes)
  {
    EvictExact(m, maxBytes);
    var r := Cache.Evict(m, maxBytes);
    forall c: Entries | NewestRun(c, all) && r.Keys < c.Keys ensures TotalSize(c) > maxBytes {
      NestedRuns(c, m, all);
      if NewestRun(c, m) {
        assert !Fits(c, maxBytes);
        LowIsSmaller(TotalSize(c));
      }
    }
  }

  lemma {:induction false} NothingMoreEver(steps: seq<Step>, maxBytes: nat, size: map<bytes, nat>)
    requires FixedSizes(steps, size)
    ensures NothingMoreFits(Run(steps, maxBytes).entries, Touched(steps).entries, maxBytes)
  {
    if steps != [] {
      var front, last := steps[..|steps| - 1], steps[|steps| - 1];
      TrackedPrefix(front, maxBytes);
      TouchedSizes(front, size);
      NothingMoreEver(front, maxBytes, size);
      NothingMoreStep(Run(front, maxBytes), Touched(front), last, maxBytes);
    }
  }

  lemma NothingMoreStep(s: State, all: State, step: Step, maxBytes: nat)
    requires NewestRun(s.entries, all.entries) && Clocked(all.entries, all.tick) && s.tick == all.tick
    requires NothingMoreFits(s.entries, all.entries, maxBytes)
    requires step.Touch? && step.key in all.entries ==> all.entries[step.key].size == step.size
    ensures NothingMoreFits(Apply(s, step, maxBytes).entries,
                            if step.Evict? then all.entries else Apply(all, step, 0).entries, maxBytes)
  {
    match step
    case Touch(key, size) =>
      var e := Entry(size, s.tick + 1);
      TouchKeepsNothingMore(s.entries, all.entries, key, e, maxBytes);
      assert Apply(s, step, maxBytes).entries == s.entries[key := e];
      assert Apply(all, step, 0).entries == all.entries[key := e];
    case Evict =>
      EvictKeepsNothingMore(s.entries, all.entries, maxBytes);
  }

  lemma {:induction false} TouchedSizes(steps: seq<Step>, size: map<bytes, nat>)
    requires FixedSizes(steps, size)
    ensures forall k :: k in Touched(steps).entries ==> k in size && Touched(steps).entries[k].size == size[k]
  {
    if steps != [] {
      TouchedSizes(steps[..|steps| - 1], size);
    }
  }

  /** Some most-recent-first prefix is too large, and its size modulo 2^64 is not. */
  ghost predicate Overruns(m: Entries, maxBytes: nat) {
    exists c: Entries :: NewestRun(c, m) && TotalSize(c) > maxBytes && Fits(c, maxBytes)
  }

  /** Eviction brings the true total within the budget exactly when no prefix wraps around to a total
      that looks small enough. */
  lemma BudgetKeptIff(m: Entries, maxBytes: nat)
    requires DistinctTicks(m)
    ensures TotalSize(Cache.Evict(m, maxBytes)) <= maxBytes <==> !Overruns(m, maxBytes)
  {
    var r := Cache.Evict(m, maxBytes);
    EvictExact(m, maxBytes);
    if TotalSize(r) > maxBytes {
      assert Overruns(m, maxBytes);
    }
    if c: Entries :| NewestRun(c, m) && TotalSize(c) > maxBytes && Fits(c, maxBytes) {
      TotalMonotonic(c, r);
    }
  }

  /** `m` holds every most-recent-first prefix of `all` whose sizes fit the budget. */
  ghost predicate HoldsFitting(m: Entries, all: Entries, maxBytes: nat) {
    NewestRun(m, all) && forall c: Entries :: NewestRun(c, all) && TotalSize(c) <= maxBytes ==> c.Keys <= m.Keys
  }

  /** Right after every eviction of every run in which a key keeps its size, every most-recent-first
      prefix of everything ever touched whose sizes fit the budget is tracked. The tracked entries are
      the longest of these exactly when no prefix of what was there before that eviction wraps around
      into the budget; and they are what one single eviction would leave of everything ever touched
      when no prefix of that wraps. */
  lemma LongestPrefixThatFits(steps: seq<Step>, maxBytes: nat, size: map<bytes, nat>)
    requires steps != [] && steps[|steps| - 1].Evict? && FixedSizes(steps, size)
    ensures var m, all := Run(steps, maxBytes).entries, Touched(steps).entries;
            var before := Run(steps[..|steps| - 1], maxBytes).entries;
            && HoldsFitting(m, all, maxBytes)
            && (TotalSize(m) <= maxBytes <==> !Overruns(before, maxBytes))
            && (!Overruns(all, maxBytes) ==> m == Cache.Evict(all, maxBytes) && TotalSize(m) <= maxBytes)
  {
    var m, all := Run(steps, maxBytes).entries, Touched(steps).entries;
    var before := Run(steps[..|steps| - 1], maxBytes).entries;
    TrackedPrefix(steps, maxBytes);
    TrackedPrefix(steps[..|steps| - 1], maxBytes);
    NothingMoreEver(steps, maxBytes, size);
    EvictExact(before, maxBytes);
    BudgetKeptIff(before, maxBytes);
    forall c: Entries | NewestRun(c, all) && TotalSize(c) <= maxBytes ensures c.Keys <= m.Keys {
      NestedRuns(c, m, all);
    }
    if !Overruns(all, maxBytes) {
      FittingRunIsEvict(m, all, maxBytes);
    }
  }

  lemma FittingRunIsEvict(m: Entries, all: Entries, maxBytes: nat)
    requires DistinctTicks(all) && Fits(m, maxBytes)
    requires HoldsFitting(m, all, maxBytes) && !Overruns(all, maxBytes)
    ensures m == Cache.Evict(all, maxBytes) && TotalSize(m) <= maxBytes
  {
    EvictExact(all, maxBytes);
    BudgetKeptIff(all, maxBytes);
    var r := Cache.Evict(all, maxBytes);
    assert r.Keys == m.Keys;
    assert r == m;
  }

  /** With a budget of 2^63, two reads of different files of 2^63 bytes each, one after the other, each
      followed by its eviction, leave both tracked: 2^64 bytes, whose total modulo 2^64 is zero. */
  lemma WrapKeepsTwo(a: bytes, b: bytes)
    requires a != b
    ensures var half := TWO_64 / 2;
            var s := Run([Touch(a, half), Step.Evict, Touch(b, half), Step.Evict], half);
            s.entries == map[a := Entry(half, 1), b := Entry(half, 2)] && TotalSize(s.entries) == TWO_64
  {
    var half := TWO_64 / 2;
    var one, two := WrappingTotals(a, b);
    var s1, s2, s3 := [Touch(a, half)], [Touch(a, half), Step.Evict], [Touch(a, half), Step.Evict, Touch(b, half)];
    RunAppend([], Touch(a, half), half);
    assert [] + [Touch(a, half)] == s1 && Run(s1, half) == State(one, 1);
    RunAppend(s1, Step.Evict, half);
    assert s1 + [Step.Evict] == s2 && Run(s2, half) == State(one, 1);
    RunAppend(s2, Touch(b, half), half);
    assert s2 + [Touch(b, half)] == s3 && Run(s3, half) == State(two, 2);
    RunAppend(s3, Step.Evict, half);
    assert s3 + [Step.Evict] == [Touch(a, half), Step.Evict, Touch(b, half), Step.Evict];
  }

  lemma WrappingTotals(a: bytes, b: bytes) returns (one: Entries, two: Entries)
    requires a != b
    ensures one == map[a := Entry(TWO_64 / 2, 1)] && two == one[b := Entry(TWO_64 / 2, 2)]
    ensures two == map[a := Entry(TWO_64 / 2, 1), b := Entry(TWO_64 / 2, 2)] && TotalSize(two) == TWO_64
    ensures Cache.Evict(one, TWO_64 / 2) == one && Cache.Evict(two, TWO_64 / 2) == two
  {
    one := map[a := Entry(TWO_64 / 2, 1)];
    two := map[a := Entry(TWO_64 / 2, 1), b := Entry(TWO_64 / 2, 2)];
    TotalRemove(two, b);
    TotalRemove(one, a);
    assert two - {b} == one && one - {a} == map[];
    assert Fits(one, TWO_64 / 2) && Fits(two, TWO_64 / 2);
  }

  lemma RunAppend(steps: seq<Step>, last: Step, maxBytes: nat)
    ensures Run(steps + [last], maxBytes) == Apply(Run(steps, maxBytes), last, maxBytes)
  {
    assert (steps + [last])[..|steps|] == steps;
  }
}
