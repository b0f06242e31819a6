/** The cache's bookkeeping map, its logical clock, and what eviction leaves in it. */
module Cache {
  import opened Bytes
  import opened Machine

  datatype Entry = Entry(size: nat, tick: nat)

  type Entries = map<bytes, Entry>

  ghost predicate DistinctTicks(m: Entries) {
    forall j, k :: j in m && k in m && m[j].tick == m[k].tick ==> j == k
  }

  ghost function TotalSize(m: Entries): nat {
    if m == map[] then 0 else var k :| k in m; m[k].size + TotalSize(m - {k})
  }

  /** The program adds and subtracts sizes in 64-bit arithmetic. */
  ghost function Total64(m: Entries): nat { Low64(TotalSize(m)) }

  ghost predicate Fits(m: Entries, maxBytes: nat) {
    Total64(m) <= maxBytes
  }

  ghost predicate IsOldest(m: Entries, k: bytes) {
    k in m && forall j :: j in m ==> m[k].tick <= m[j].tick
  }

  ghost function Oldest(m: Entries): (k: bytes)
    requires m != map[]
    ensures IsOldest(m, k)
  {
    OldestExists(m);
    var k :| IsOldest(m, k); k
  }

  lemma {:induction false} OldestExists(m: Entries)
    requires m != map[]
    ensures exists k :: IsOldest(m, k)
    decreases |m|
  {
    var j :| j in m;
    var rest := m - {j};
    if rest == map[] {
      assert forall i :: i in m ==> i == j || i in rest;
      assert IsOldest(m, j);
    } else {
      OldestExists(rest);
      var k :| IsOldest(rest, k);
      forall i | i in m && i != j ensures m[k].tick <= m[i].tick { assert i in rest; }
      assert IsOldest(m, if m[j].tick < m[k].tick then j else k);
    }
  }

  lemma {:induction false} TotalRemove(m: Entries, k: bytes)
    requires k in m
    ensures TotalSize(m) == m[k].size + TotalSize(m - {k})
    decreases |m|
  {
    var j :| j in m && TotalSize(m) == m[j].size + TotalSize(m - {j});
    if j != k {
      TotalRemove(m - {j}, k);
      TotalRemove(m - {k}, j);
      assert m - {j} - {k} == m - {k} - {j};
    }
  }

  /** What eviction leaves: the oldest entry goes until the rest fits. */
  ghost function Evict(m: Entries, maxBytes: nat): Entries
    decreases |m|
  {
    if Fits(m, maxBytes) then m else Evict(m - {Oldest(m)}, maxBytes)
  }

  /** `c` is a newest run of `m`: with an entry it holds every newer one. */
  ghost predicate NewestRun(c: Entries, m: Entries) {
    && (forall k :: k in c ==> k in m && c[k] == m[k])
    && (forall j, k :: k in c && j in m && m[j].tick > m[k].tick ==> j in c)
  }

  /** Eviction keeps the largest newest run that fits; so the victims are the shortest oldest run
      whose removal makes the rest fit, and every survivor is newer than every victim. */
  lemma {:induction false} EvictExact(m: Entries, maxBytes: nat)
    requires DistinctTicks(m)
    ensures var r := Evict(m, maxBytes);
            && NewestRun(r, m) && DistinctTicks(r) && Fits(r, maxBytes)
            && (forall j, k :: j in m && j !in r && k in r ==> m[j].tick < m[k].tick)
            && (forall c: Entries :: NewestRun(c, m) && Fits(c, maxBytes) ==> c.Keys <= r.Keys)
    decreases |m|
  {
    if !Fits(m, maxBytes) {
      var k := Oldest(m);
      var rest := m - {k};
      EvictExact(rest, maxBytes);
      var r := Evict(rest, maxBytes);
      forall c: Entries | NewestRun(c, m) && Fits(c, maxBytes) ensures c.Keys <= r.Keys {
        SmallerRun(c, m, maxBytes);
      }
    }
  }

  /** A run that fits, of entries that do not, leaves the oldest out. */
  lemma SmallerRun(c: Entries, m: Entries, maxBytes: nat)
    requires DistinctTicks(m) && m != map[] && NewestRun(c, m) && Fits(c, maxBytes) && !Fits(m, maxBytes)
    ensures NewestRun(c, m - {Oldest(m)})
  {
    RunWithOldest(c, m);
  }

  /** A newest run with the oldest entry is everything. */
  lemma RunWithOldest(c: Entries, m: Entries)
    requires DistinctTicks(m) && m != map[] && NewestRun(c, m)
    ensures Oldest(m) in c ==> c == m
  {
    if Oldest(m) in c {
      forall j | j in m ensures j in c && c[j] == m[j] {
        assert j == Oldest(m) || m[j].tick > m[Oldest(m)].tick;
      }
      assert c.Keys == m.Keys;
    }
  }

  lemma NextOldest(ordered: seq<Item>, i: nat, m: Entries)
    requires i < |ordered| && ordered[i..] == ByTick(m)
    ensures m != map[] && ordered[i] == Item(Oldest(m), m[Oldest(m)])
    ensures ordered[i + 1..] == ByTick(m - {Oldest(m)})
  {
    assert ordered[i] == ordered[i..][0] && ordered[i + 1..] == ordered[i..][1..];
  }

  /** One turn of the eviction loop. */
  lemma EvictStep(m: Entries, maxBytes: nat)
    requires DistinctTicks(m) && !Fits(m, maxBytes)
    ensures m != map[]
    ensures var k := Oldest(m);
            && Evict(m, maxBytes) == Evict(m - {k}, maxBytes)
            && Sub64(Total64(m), m[k].size) == Total64(m - {k})
  {
    var k := Oldest(m);
    TotalRemove(m, k);
    SubModulo(TotalSize(m), m[k].size);
  }

  // ----- the class

  datatype Item = Item(key: bytes, entry: Entry)

  /** The entries in the order of their ticks, oldest first. */
  ghost function ByTick(m: Entries): seq<Item>
    decreases |m|
  {
    if m == map[] then [] else var k := Oldest(m); [Item(k, m[k])] + ByTick(m - {k})
  }

  class CacheManager {
    const maxBytes: nat
    var tick: nat
    var entries: Entries

    constructor (maxBytes: nat)
      ensures this.maxBytes == maxBytes && tick == 0 && entries == map[]
    {
      this.maxBytes := maxBytes;
      tick, entries := 0, map[];
    }

    /** Ticks are distinct and not from the future. */
    ghost predicate Valid()
      reads this
    {
      Clocked(entries, tick)
    }

    method Touch(key: bytes, sizeBytes: nat)
      requires Valid()
      modifies this
      ensures Valid()
      ensures tick == old(tick) + 1 && entries == old(entries)[key := Entry(sizeBytes, old(tick) + 1)]
    {
      tick := tick + 1;
      entries := entries[key := Entry(sizeBytes, tick)];
    }

    method EvictIfNeeded()
      requires Valid()
      modifies this
      ensures Valid() && tick == old(tick)
      ensures entries == Evict(old(entries), maxBytes)
    {
      var total := SumSizes(entries);
      if total <= maxBytes {
        return;
      }
      ghost var result := Evict(entries, maxBytes);
      var ordered := OldestFirst(entries);
      for i := 0 to |ordered|
        invariant Valid() && tick == old(tick)
        invariant ordered[i..] == ByTick(entries)
        invariant total == Total64(entries) && !Fits(entries, maxBytes)
        invariant result == Evict(entries, maxBytes)
      {
        var item := ordered[i];
        NextOldest(ordered, i, entries);
        EvictStep(entries, maxBytes);
        total := Sub64(total, item.entry.size);
        entries := entries - {item.key};
        if total <= maxBytes {
          return;
        }
      }
    }
  }

  ghost predicate Clocked(m: Entries, tick: nat) {
    DistinctTicks(m) && forall k :: k in m ==> m[k].tick <= tick
  }

  lemma SumStep(rest: Entries, k: bytes, exact: nat)
    requires k in rest
    ensures exact + TotalSize(rest) == exact + rest[k].size + TotalSize(rest - {k})
    ensures Add64(Low64(exact), rest[k].size) == Low64(exact + rest[k].size)
  {
    TotalRemove(rest, k);
    AddModulo(exact, rest[k].size);
  }

  /** The summing loop, over an unordered map. */
  method SumSizes(m: Entries) returns (total: nat)
    ensures total == Total64(m)
  {
    total := 0;
    ghost var left := TotalSize(m);
    var rest := m;
    while rest != map[]
      invariant left == TotalSize(rest) <= TotalSize(m)
      invariant total == Low64(TotalSize(m) - left)
      decreases |rest|
    {
      var k :| k in rest;
      var size := rest[k].size;
      SumStep(rest, k, TotalSize(m) - left);
      rest := rest - {k};
      left := TotalSize(rest);
      total := Add64(total, size);
    }
  }

  /** The entries copied out and sorted by tick. */
  method OldestFirst(m: Entries) returns (ordered: seq<Item>)
    requires DistinctTicks(m)
    ensures ordered == ByTick(m)
  {
    ordered := [];
    var rest := m;
    while rest != map[]
      invariant DistinctTicks(rest) && ordered + ByTick(rest) == ByTick(m)
      decreases |rest|
    {
      var k := FindOldest(rest);
      ordered := ordered + [Item(k, rest[k])];
      rest := rest - {k};
    }
  }

  method FindOldest(m: Entries) returns (oldest: bytes)
    requires DistinctTicks(m) && m != map[]
    ensures oldest == Oldest(m)
  {
    oldest :| oldest in m;
    var unseen := m.Keys - {oldest};
    while unseen != {}
      invariant oldest in m && unseen <= m.Keys
      invariant forall k :: k in m && k !in unseen ==> m[oldest].tick <= m[k].tick
      decreases |unseen|
    {
      var k :| k in unseen;
      if m[k].tick < m[oldest].tick {
        oldest := k;
      }
      unseen := unseen - {k};
    }
  }
}
