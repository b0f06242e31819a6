/** Directory enumerations of the projected file system: resumable listings, one per enumeration id. */
module DirectoryEnumeration {
  import opened Bytes
  import opened Machine
  import opened Namespace
  import Projected

  /** What the system does with one entry offered to its buffer. */
  datatype Fill = Accepted | Insufficient | Failed

  datatype Outcome = Fine | Error

  datatype Enumeration = Enumeration(entries: seq<FileEntry>, nextIndex: nat)

  type Enumerations = map<bytes, Enumeration>

  const FRESH := Enumeration([], 0)

  function Leaf(path: bytes): bytes {
    path[LastSlash(path) + 1..]
  }

  /** A function of names, as a function of entries. */
  function ByName<T>(f: bytes -> T): FileEntry -> T {
    (e: FileEntry) => f(Leaf(e.virtualPath))
  }

  // ----- what a reload puts into an enumeration

  function Matching(s: seq<FileEntry>, keep: FileEntry -> bool): seq<FileEntry> {
    if s == [] then []
    else
      var front, last := Matching(s[..|s| - 1], keep), s[|s| - 1];
      if keep(last) then front + [last] else front
  }

  ghost predicate SortedBy(s: seq<FileEntry>, rank: FileEntry -> real) {
    forall i, j :: 0 <= i < j < |s| ==> rank(s[i]) <= rank(s[j])
  }

  /** `loaded` is the filtered listing in order. */
  ghost predicate IsReload(loaded: seq<FileEntry>, listing: seq<FileEntry>,
                           keep: FileEntry -> bool, rank: FileEntry -> real) {
    multiset(loaded) == multiset(Matching(listing, keep)) && SortedBy(loaded, rank)
  }

  method Filter(listing: seq<FileEntry>, keep: FileEntry -> bool) returns (kept: seq<FileEntry>)
    ensures kept == Matching(listing, keep)
  {
    kept := [];
    for i := 0 to |listing|
      invariant kept == Matching(listing[..i], keep)
    {
      assert listing[..i + 1][..i] == listing[..i];
      if keep(listing[i]) {
        kept := kept + [listing[i]];
      }
    }
    assert listing[..|listing|] == listing;
  }

  method Sort(entries: seq<FileEntry>, rank: FileEntry -> real) returns (sorted: seq<FileEntry>)
    ensures multiset(sorted) == multiset(entries) && SortedBy(sorted, rank)
  {
    sorted := [];
    for i := 0 to |entries|
      invariant multiset(sorted) == multiset(entries[..i]) && SortedBy(sorted, rank)
    {
      sorted := InsertByRank(sorted, entries[i], rank);
      assert entries[..i + 1] == entries[..i] + [entries[i]];
    }
    assert entries[..|entries|] == entries;
  }

  method InsertByRank(sorted: seq<FileEntry>, e: FileEntry, rank: FileEntry -> real) returns (r: seq<FileEntry>)
    requires SortedBy(sorted, rank)
    ensures SortedBy(r, rank) && multiset(r) == multiset(sorted) + multiset{e}
  {
    var position := 0;
    while position < |sorted| && rank(sorted[position]) <= rank(e)
      invariant 0 <= position <= |sorted|
      invariant forall k :: 0 <= k < position ==> rank(sorted[k]) <= rank(e)
    {
      position := position + 1;
    }
    Inserted(sorted, e, position, rank);
    InsertedSame(sorted, e, position);
    r := sorted[..position] + [e] + sorted[position..];
  }

  lemma Inserted(s: seq<FileEntry>, e: FileEntry, position: nat, rank: FileEntry -> real)
    requires SortedBy(s, rank) && position <= |s|
    requires forall k :: 0 <= k < position ==> rank(s[k]) <= rank(e)
    requires position < |s| ==> rank(e) <= rank(s[position])
    ensures SortedBy(s[..position] + [e] + s[position..], rank)
  {
  }

  lemma InsertedSame(s: seq<FileEntry>, e: FileEntry, position: nat)
    requires position <= |s|
    ensures multiset(s[..position] + [e] + s[position..]) == multiset(s) + multiset{e}
  {
    assert s == s[..position] + s[position..];
  }

  // ----- the callbacks as functions

  datatype Call =
    | Start(id: bytes)
    | End(id: bytes)
    | Get(id: bytes, restart: bool, reload: seq<FileEntry>, accepted: nat)

  /** A get reloads on a restart and while the enumeration has no entries. */
  predicate Reloads(m: Enumerations, id: bytes, restart: bool) {
    restart || id !in m || m[id].entries == []
  }

  /** The enumeration a get works on. */
  function Current(m: Enumerations, id: bytes, restart: bool, reload: seq<FileEntry>): Enumeration {
    if Reloads(m, id, restart) then Enumeration(reload, 0) else m[id]
  }

  /** A get advances by the number of entries the buffer accepts, at most to the end. */
  function Step(m: Enumerations, call: Call): Enumerations {
    match call
    case Start(id) => m[id := FRESH]
    case End(id) => m - {id}
    case Get(id, restart, reload, accepted) =>
      var e := Current(m, id, restart, reload);
      m[id := e.(nextIndex := Position(e, accepted))]
  }

  function Position(e: Enumeration, accepted: nat): nat {
    if e.nextIndex < |e.entries| then Min(e.nextIndex + accepted, |e.entries|) else e.nextIndex
  }

  /** What a call delivers. */
  function Delivered(m: Enumerations, call: Call): seq<FileEntry> {
    if !call.Get? then []
    else
      var e := Current(m, call.id, call.restart, call.reload);
      if e.nextIndex < |e.entries| then e.entries[e.nextIndex..Position(e, call.accepted)] else []
  }

  function Run(m: Enumerations, calls: seq<Call>): Enumerations {
    if calls == [] then m else Step(Run(m, calls[..|calls| - 1]), calls[|calls| - 1])
  }

  /** Everything delivered to one id, in order. */
  function DeliveredTo(m: Enumerations, calls: seq<Call>, id: bytes): seq<FileEntry> {
    if calls == [] then []
    else
      var front, last := calls[..|calls| - 1], calls[|calls| - 1];
      DeliveredTo(m, front, id) + if last.id == id then Delivered(Run(m, front), last) else []
  }

  /** What the buffers accept for one id in total. */
  function AcceptedFor(calls: seq<Call>, id: bytes): nat {
    if calls == [] then 0
    else
      var last := calls[|calls| - 1];
      AcceptedFor(calls[..|calls| - 1], id) + if last.id == id && last.Get? then last.accepted else 0
  }

  /** No call closes, reopens or restarts the enumeration. */
  ghost predicate Undisturbed(calls: seq<Call>, id: bytes) {
    forall c <- calls :: c.id == id ==> c.Get? && !c.restart
  }

  /** A call leaves the enumerations of all other ids alone. */
  lemma OthersUntouched(m: Enumerations, call: Call, other: bytes)
    requires other != call.id
    ensures other in Step(m, call) <==> other in m
    ensures other in m ==> Step(m, call)[other] == m[other]
  {
  }

  /** From a state with listing `list` on, any interleaving of gets with any buffer capacities delivers
      the entries in order from the current position, none skipped or repeated, as many as the buffers
      took in total up to the end of the listing. */
  lemma {:induction false} DeliversInOrder(m: Enumerations, calls: seq<Call>, id: bytes)
    requires id in m && m[id].entries != [] && m[id].nextIndex <= |m[id].entries| && Undisturbed(calls, id)
    ensures InOrder(m, calls, id, m[id].entries, m[id].nextIndex)
  {
    if calls != [] {
      var front, last := calls[..|calls| - 1], calls[|calls| - 1];
      assert last in calls && forall c <- front :: c in calls;
      DeliversInOrder(m, front, id);
      InOrderStep(m, calls, id, m[id].entries, m[id].nextIndex);
    }
  }

  /** The calls have delivered `list` from position `from` on, as far as the buffers took it. */
  ghost predicate InOrder(m: Enumerations, calls: seq<Call>, id: bytes, list: seq<FileEntry>, from: nat)
    requires from <= |list|
  {
    var upTo := Min(from + AcceptedFor(calls, id), |list|);
    id in Run(m, calls) && Run(m, calls)[id] == Enumeration(list, upTo) && DeliveredTo(m, calls, id) == list[from..upTo]
  }

  lemma InOrderStep(m: Enumerations, calls: seq<Call>, id: bytes, list: seq<FileEntry>, from: nat)
    requires calls != [] && from <= |list| && list != [] && InOrder(m, calls[..|calls| - 1], id, list, from)
    requires var last := calls[|calls| - 1]; last.id == id ==> last.Get? && !last.restart
    ensures InOrder(m, calls, id, list, from)
  {
    var front, last := calls[..|calls| - 1], calls[|calls| - 1];
    var at, upTo := Min(from + AcceptedFor(front, id), |list|), Min(from + AcceptedFor(calls, id), |list|);
    DeliversStep(Run(m, front), last, id, list, at);
    assert Run(m, calls) == Step(Run(m, front), last);
    assert upTo == if last.id == id then Min(at + last.accepted, |list|) else at;
    SlicesJoin(list, from, at, upTo);
  }

  lemma DeliversStep(m: Enumerations, call: Call, id: bytes, list: seq<FileEntry>, at: nat)
    requires id in m && m[id] == Enumeration(list, at) && at <= |list| && list != []
    requires call.id == id ==> call.Get? && !call.restart
    ensures var next := if call.id == id then Min(at + call.accepted, |list|) else at;
            && id in Step(m, call) && Step(m, call)[id] == Enumeration(list, next)
            && (if call.id == id then Delivered(m, call) else []) == list[at..next]
  {
    if call.id != id {
      OthersUntouched(m, call, id);
    }
  }

  lemma SlicesJoin(list: seq<FileEntry>, a: nat, b: nat, c: nat)
    requires a <= b <= c <= |list|
    ensures list[a..b] + list[b..c] == list[a..c]
  {
  }

  lemma PrefixIsAll(list: seq<FileEntry>, n: nat)
    requires n <= |list|
    ensures list[0..n] == list[..n] && (list[..n] == list <==> n == |list|)
  {
    assert list[..|list|] == list;
  }

  lemma FirstGet(m: Enumerations, id: bytes, restart: bool, reload: seq<FileEntry>, accepted: nat)
    returns (m': Enumerations)
    requires reload != [] && (restart || id !in m || m[id] == FRESH)
    ensures var first, n := Get(id, restart, reload, accepted), Min(accepted, |reload|);
            m' == Step(m, first) && id in m' && m'[id] == Enumeration(reload, n) && Delivered(m, first) == reload[0..n]
  {
    m' := Step(m, Get(id, restart, reload, accepted));
  }

  /** Everything delivered by a first get and the calls after it. */
  function AllDelivered(m: Enumerations, first: Call, calls: seq<Call>, id: bytes): seq<FileEntry> {
    Delivered(m, first) + DeliveredTo(Step(m, first), calls, id)
  }

  /** `all` is in order, has each entry of the filtered listing at most as often as it is listed, and is
      all of it exactly when the buffers took at least as many entries as there are. */
  ghost predicate DeliveredOnce(all: seq<FileEntry>, listing: seq<FileEntry>, keep: FileEntry -> bool,
                                rank: FileEntry -> real, total: nat) {
    var size := |Matching(listing, keep)|;
    && SortedBy(all, rank) && multiset(all) <= multiset(Matching(listing, keep)) && |all| == Min(total, size)
    && (IsReload(all, listing, keep, rank) <==> total >= size)
  }

  /** From a start or restart on, with a filtered listing that is not empty, and whatever the buffers take
      and other enumerations do in between. */
  lemma EnumerationDeliversOnce(m: Enumerations, first: Call, calls: seq<Call>, listing: seq<FileEntry>,
                                keep: FileEntry -> bool, rank: FileEntry -> real)
    requires first.Get? && (first.restart || first.id !in m || m[first.id] == FRESH)
    requires IsReload(first.reload, listing, keep, rank) && Matching(listing, keep) != []
    requires Undisturbed(calls, first.id)
    ensures DeliveredOnce(AllDelivered(m, first, calls, first.id), listing, keep, rank,
                          first.accepted + AcceptedFor(calls, first.id))
  {
    SameSize(first.reload, Matching(listing, keep));
    var total, all := DeliversFromStart(m, first, calls);
    PrefixDelivered(first.reload, all, total, listing, keep, rank);
  }

  /** The deliveries are a prefix of what the first get loaded. */
  lemma DeliversFromStart(m: Enumerations, first: Call, calls: seq<Call>) returns (total: nat, all: seq<FileEntry>)
    requires first.Get? && first.reload != [] && (first.restart || first.id !in m || m[first.id] == FRESH)
    requires Undisturbed(calls, first.id)
    ensures total == first.accepted + AcceptedFor(calls, first.id)
    ensures all == AllDelivered(m, first, calls, first.id) && all == first.reload[..Min(total, |first.reload|)]
  {
    var reload, id := first.reload, first.id;
    total, all := first.accepted + AcceptedFor(calls, id), AllDelivered(m, first, calls, id);
    var upTo := Min(total, |reload|);
    var m' := FirstGet(m, id, first.restart, reload, first.accepted);
    DeliversInOrder(m', calls, id);
    SlicesJoin(reload, 0, Min(first.accepted, |reload|), upTo);
    PrefixIsAll(reload, upTo);
  }

  lemma SameSize(a: seq<FileEntry>, b: seq<FileEntry>)
    requires multiset(a) == multiset(b)
    ensures |a| == |b|
  {
    assert |multiset(a)| == |a| && |multiset(b)| == |b|;
  }

  lemma PrefixDelivered(reload: seq<FileEntry>, all: seq<FileEntry>, total: nat, listing: seq<FileEntry>,
                        keep: FileEntry -> bool, rank: FileEntry -> real)
    requires IsReload(reload, listing, keep, rank)
    requires all == reload[..Min(total, |reload|)]
    ensures DeliveredOnce(all, listing, keep, rank, total)
  {
    var n := Min(total, |reload|);
    SameSize(reload, Matching(listing, keep));
    assert reload == all + reload[n..];
    if n < |reload| {
      if multiset(all) == multiset(reload) { SameSize(all, reload); }
    } else {
      assert all == reload;
    }
  }

  // ----- the callbacks as the program runs them

  /** How many of the first `n` offers are accepted before one is not. */
  function AcceptedFirst(fill: nat -> Fill, n: nat): nat {
    if n == 0 then 0
    else
      var before := AcceptedFirst(fill, n - 1);
      if before == n - 1 && fill(n - 1).Accepted? then n else before
  }

  lemma OneOffer(fill: nat -> Fill, n: nat)
    requires AcceptedFirst(fill, n) == n
    ensures AcceptedFirst(fill, n + 1) == if fill(n).Accepted? then n + 1 else n
  {
  }

  lemma SliceGrows(list: seq<FileEntry>, a: nat, b: nat)
    requires a <= b < |list|
    ensures list[a..b + 1] == list[a..b] + [list[b]]
  {
  }

  lemma GetIs(m: Enumerations, id: bytes, restart: bool, reload: seq<FileEntry>, accepted: nat, e: Enumeration,
              delivered: seq<FileEntry>)
    requires e == Current(m, id, restart, reload) && e.nextIndex + |delivered| == Position(e, accepted)
    requires delivered == if e.nextIndex < |e.entries| then e.entries[e.nextIndex..e.nextIndex + |delivered|] else []
    ensures var call := Get(id, restart, reload, accepted);
            Step(m, call) == m[id := e.(nextIndex := e.nextIndex + |delivered|)] && Delivered(m, call) == delivered
  {
  }

  class Provider {
    /** The order of `PrjFileNameCompare` is any total preorder of names, equal names included: it is
        given by a rank, since every total preorder of countably many names is. */
    const rank: bytes -> real
    var enumerations: Enumerations

    constructor (rank: bytes -> real)
      ensures this.rank == rank && enumerations == map[]
    {
      this.rank := rank;
      enumerations := map[];
    }

    method StartDirEnum(id: bytes)
      modifies this
      ensures enumerations == Step(old(enumerations), Start(id))
    {
      enumerations := enumerations[id := Enumeration([], 0)];
    }

    method EndDirEnum(id: bytes)
      modifies this
      ensures enumerations == Step(old(enumerations), End(id))
    {
      enumerations := enumerations - {id};
    }

    /** `names` and `ix` are the projected index and the session's, `asked` the directory as the system
        names it, `matches` the search expression, and `fill` what the system does with each entry it is
        offered. */
    method GetDirEnum(id: bytes, restart: bool, names: Projected.Projection, ix: Index, asked: Projected.wide,
                      matches: bytes -> bool, fill: nat -> Fill)
      returns (delivered: seq<FileEntry>, outcome: Outcome, ghost reload: seq<FileEntry>)
      modifies this
      ensures Reloads(old(enumerations), id, restart) ==>
                IsReload(reload, Projected.ListProjected(names, ix, asked), ByName(matches), ByName(rank))
      ensures var call := Get(id, restart, reload, AcceptedFirst(fill, |delivered| + 1));
              enumerations == Step(old(enumerations), call) && delivered == Delivered(old(enumerations), call)
      ensures outcome == Error <==>
              enumerations[id].nextIndex < |enumerations[id].entries| && fill(|delivered|) == Failed
    {
      var state := if id in enumerations then enumerations[id] else Enumeration([], 0);
      reload := [];
      if restart || state.entries == [] {
        var listing := Projected.ListProjected(names, ix, asked);
        var kept := Filter(listing, ByName(matches));
        var sorted := Sort(kept, ByName(rank));
        state := Enumeration(sorted, 0);
        reload := sorted;
      }
      delivered, outcome := FillBuffer(state, fill);
      GetIs(enumerations, id, restart, reload, AcceptedFirst(fill, |delivered| + 1), state, delivered);
      enumerations := enumerations[id := state.(nextIndex := state.nextIndex + |delivered|)];
    }

    /** The loop that offers entries until one is not accepted or none is left. */
    static method FillBuffer(start: Enumeration, fill: nat -> Fill)
      returns (delivered: seq<FileEntry>, outcome: Outcome)
      ensures start.nextIndex + |delivered| == Position(start, AcceptedFirst(fill, |delivered| + 1))
      ensures delivered == if start.nextIndex < |start.entries|
                           then start.entries[start.nextIndex..start.nextIndex + |delivered|] else []
      ensures outcome == Error <==>
              start.nextIndex + |delivered| < |start.entries| && fill(|delivered|) == Failed
    {
      var state := start;
      delivered, outcome := [], Fine;
      while state.nextIndex < |state.entries|
        invariant state == start.(nextIndex := start.nextIndex + |delivered|)
        invariant start.nextIndex < |start.entries| ==>
                    state.nextIndex <= |start.entries| && delivered == start.entries[start.nextIndex..state.nextIndex]
        invariant start.nextIndex >= |start.entries| ==> delivered == []
        invariant AcceptedFirst(fill, |delivered|) == |delivered|
        decreases |state.entries| - state.nextIndex
      {
        var entry := state.entries[state.nextIndex];
        var result := fill(|delivered|);
        OneOffer(fill, |delivered|);
        SliceGrows(start.entries, start.nextIndex, state.nextIndex);
        if result == Insufficient {
          return;
        }
        if result == Failed {
          outcome := Error;
          return;
        }
        delivered := delivered + [entry];
        state := state.(nextIndex := state.nextIndex + 1);
      }
    }
  }
}
