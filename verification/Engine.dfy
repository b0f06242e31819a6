/** The torrent engine: its request queue, and the piece arithmetic of the block requests it sends. */
module Engine {
  import opened Bytes
  import opened Machine
  import opened Namespace
  import opened Metadata
  import opened MetadataTheorems
  import Sha1Spec
  import Sha1Stream

  datatype StreamRequest = StreamRequest(fileIndex: int, offset: nat, length: nat)

  datatype BlockRequest = BlockRequest(place: Place, length: nat)

  const BLOCK_LIMIT := 16 * 1024

  /** The request lies within the file it names. */
  predicate InFile(r: StreamRequest, files: seq<FileRecord>) {
    && 0 <= r.fileIndex < |files|
    && 0 < r.length < TWO_32 && r.offset + r.length <= files[r.fileIndex].size
  }

  function GlobalOffset(files: seq<FileRecord>, fileIndex: nat, offset: nat): nat
    requires fileIndex < |files|
  {
    Add64(files[fileIndex].offset, offset)
  }

  datatype Place = Place(piece: nat, offset: nat)

  /** The piece a position of the torrent falls into, in the 32-bit arithmetic of the program. */
  function PlaceOf(global: nat, pieceLength: nat): Place
    requires Low32(pieceLength) > 0
  {
    Place(Low32(global / Low32(pieceLength)), Low32(global % Low32(pieceLength)))
  }

  /** The block a request asks a peer for. */
  function BlockFor(r: StreamRequest, files: seq<FileRecord>, pieceLength: nat): BlockRequest
    requires 0 <= r.fileIndex < |files| && Low32(pieceLength) > 0
  {
    BlockRequest(PlaceOf(GlobalOffset(files, r.fileIndex, r.offset), pieceLength), Limited(r.length))
  }

  function Limited(length: nat): nat { Min(length, BLOCK_LIMIT) }

  // ----- the queue

  datatype Queue = Queue(running: bool, connected: bool, requests: seq<StreamRequest>, popped: seq<StreamRequest>)

  /** `popped` lists what has been taken from the queue since the last stop. */
  const IDLE := Queue(false, false, [], [])

  /** `connects` says whether a connection attempt made in a pump succeeds. */
  datatype Event = Start | Stop | Request(request: StreamRequest) | Pump(connects: bool)

  function Step(q: Queue, e: Event): Queue {
    match e
    case Start => q.(running := true)
    case Stop => q.(running := false, requests := [], popped := [])
    case Request(r) => if q.running then q.(requests := q.requests + [r]) else q
    case Pump(connects) =>
      if !q.running || (!q.connected && !connects) then q
      else if q.requests == [] then q.(connected := true)
      else q.(connected := true, requests := q.requests[1..], popped := q.popped + [q.requests[0]])
  }

  function Run(events: seq<Event>): Queue {
    if events == [] then IDLE else Step(Run(events[..|events| - 1]), events[|events| - 1])
  }

  /** Whether a start came after the last stop. */
  predicate RunningAfter(events: seq<Event>) {
    if events == [] then false
    else
      var last := events[|events| - 1];
      if last.Start? then true else if last.Stop? then false else RunningAfter(events[..|events| - 1])
  }

  /** The requests made since the last stop while the engine was running, in order. */
  function AcceptedSinceStop(events: seq<Event>): seq<StreamRequest> {
    if events == [] then []
    else
      var front, last := events[..|events| - 1], events[|events| - 1];
      match last
      case Stop => []
      case Request(r) => AcceptedSinceStop(front) + if RunningAfter(front) then [r] else []
      case _ => AcceptedSinceStop(front)
  }

  /** Between stops no request is lost, repeated or reordered: those taken from the queue followed by
      those still in it are the accepted ones. */
  lemma {:induction false} QueueKeepsRequests(events: seq<Event>)
    ensures Run(events).running == RunningAfter(events)
    ensures Run(events).popped + Run(events).requests == AcceptedSinceStop(events)
  {
    if events != [] {
      var front, last := events[..|events| - 1], events[|events| - 1];
      QueueKeepsRequests(front);
      var q := Run(front);
      if last.Request? {
        assert q.popped + (q.requests + [last.request]) == (q.popped + q.requests) + [last.request];
        assert AcceptedSinceStop(front) + [] == AcceptedSinceStop(front);
      } else if last.Pump? && q.requests != [] {
        assert q.popped + [q.requests[0]] + q.requests[1..] == q.popped + q.requests;
      }
    }
  }

  /** The queue after pumps, each with whether a connection attempt made in it succeeds. */
  function Pumped(q: Queue, pumps: seq<bool>): Queue {
    if pumps == [] then q else Step(Pumped(q, pumps[..|pumps| - 1]), Pump(pumps[|pumps| - 1]))
  }

  /** `taken` requests, if there are so many, are gone from the front of the queue. */
  ghost predicate Drained(q: Queue, r: Queue, taken: nat) {
    var n := Min(taken, |q.requests|);
    && r.running == q.running && r.requests == q.requests[n..] && r.popped == q.popped + q.requests[..n]
    && r.connected == (taken > 0 || q.connected)
  }

  /** Pumps of a running engine take the oldest requests, one each, from the first pump on that finds or makes
      a connection; as long as there is none they leave everything as it is. */
  lemma {:induction false} PumpsDrain(q: Queue, pumps: seq<bool>)
    requires q.running
    ensures Drained(q, Pumped(q, pumps), Effective(q.connected, pumps))
  {
    if pumps == [] {
      assert q.popped + q.requests[..0] == q.popped;
    } else {
      var front, last := pumps[..|pumps| - 1], pumps[|pumps| - 1];
      PumpsDrain(q, front);
      EffectiveMore(q.connected, front, last);
      assert front + [last] == pumps;
      OneMorePump(q, Pumped(q, front), Effective(q.connected, front), last);
    }
  }

  lemma OneMorePump(q: Queue, r: Queue, taken: nat, last: bool)
    requires q.running && Drained(q, r, taken)
    ensures Drained(q, Step(r, Pump(last)), if r.connected || last then taken + 1 else taken)
  {
    if taken < |q.requests| {
      assert q.requests[..taken + 1] == q.requests[..taken] + [q.requests[taken]];
      assert q.requests[taken..][1..] == q.requests[taken + 1..];
      assert q.popped + q.requests[..taken] + [q.requests[taken]] == q.popped + q.requests[..taken + 1];
    }
  }

  lemma {:induction false} EffectiveMore(connected: bool, front: seq<bool>, last: bool)
    ensures Effective(connected, front + [last]) ==
            Effective(connected, front) + if connected || last || Effective(connected, front) > 0 then 1 else 0
    decreases |front|
  {
    if front == [] {
      assert [last][1..] == [];
    } else {
      assert (front + [last])[1..] == front[1..] + [last];
      if !connected && !front[0] {
        EffectiveMore(connected, front[1..], last);
      }
    }
  }

  /** How many of the pumps come at or after a connection. */
  function Effective(connected: bool, pumps: seq<bool>): nat {
    if pumps == [] then 0
    else if connected || pumps[0] then |pumps|
    else Effective(connected, pumps[1..])
  }

  class TorrentEngine {
    const files: seq<FileRecord>
    const pieceLength: nat
    const pieceHashes: seq<bytes>
    var running: bool
    var connected: bool
    var requests: seq<StreamRequest>
    ghost var popped: seq<StreamRequest>

    ghost function View(): Queue
      reads this
    {
      Queue(running, connected, requests, popped)
    }

    ghost predicate Valid()
      reads this
    {
      forall r <- requests :: InFile(r, files)
    }

    constructor (metadata: TorrentMetadata)
      ensures Valid() && View() == IDLE
      ensures files == metadata.files && pieceLength == metadata.pieceLength && pieceHashes == metadata.pieceHashes
    {
      files, pieceLength, pieceHashes := metadata.files, metadata.pieceLength, metadata.pieceHashes;
      running, connected, requests, popped := false, false, [], [];
    }

    method Start()
      modifies this
      ensures View() == Step(old(View()), Event.Start)
    {
      running := true;
    }

    method Stop()
      modifies this
      ensures Valid() && View() == Step(old(View()), Event.Stop)
    {
      running := false;
      requests, popped := [], [];
    }

    method RequestFileData(fileIndex: int, offset: nat, length: nat)
      modifies this
      ensures View() == Step(old(View()), Request(StreamRequest(fileIndex, offset, length)))
      ensures old(Valid()) && InFile(StreamRequest(fileIndex, offset, length), files) ==> Valid()
    {
      if !running {
        return;
      }
      requests := requests + [StreamRequest(fileIndex, offset, length)];
    }

    /** A pump takes a request from the queue; then it indexes the file list and divides by the low 32
        bits of the piece length. */
    predicate Takes(connects: bool)
      reads this
    {
      running && (connected || connects) && requests != []
    }

    /** `connects` and `interested` say whether a connection attempt and the interested message succeed. */
    method PumpOnce(connects: bool, interested: bool) returns (sent: Option<BlockRequest>)
      requires Takes(connects) ==> Low32(pieceLength) > 0 && 0 <= requests[0].fileIndex < |files|
      modifies this
      ensures View() == Step(old(View()), Pump(connects)) && (old(Valid()) ==> Valid())
      ensures sent == if old(Takes(connects)) && interested
                      then Some(BlockFor(old(requests)[0], files, pieceLength)) else None
    {
      sent := None;
      if !running {
        return;
      }
      if !connected {
        if !connects {
          return;
        }
        connected := true;
      }
      if requests != [] {
        var request := requests[0];
        var place := PlaceOf(GlobalOffset(files, request.fileIndex, request.offset), pieceLength);
        if interested {
          sent := Some(BlockRequest(place, Limited(request.length)));
        }
        requests := requests[1..];
        popped := popped + [request];
      }
    }

    /** A piece is accepted exactly when its SHA-1 is the stored hash of an existing piece. */
    method VerifyPiece(pieceIndex: nat, pieceData: bytes) returns (ok: bool)
      ensures ok <==> pieceIndex < |pieceHashes| && Sha1Spec.Sha1(pieceData) == pieceHashes[pieceIndex]
    {
      if pieceIndex >= |pieceHashes| {
        return false;
      }
      var sha1 := new Sha1Stream.Sha1();
      assert [] + pieceData == pieceData;
      sha1.Update(pieceData);
      var digest := sha1.Final();
      ok := digest == pieceHashes[pieceIndex];
    }
  }

  // ----- piece arithmetic

  /** The assumptions under which offsets are offsets: the files tile the torrent without overflow, and
      the piece length and every piece index fit in 32 bits. */
  ghost predicate PiecesFit(files: seq<FileRecord>, pieceLength: nat) {
    && Tiles(files) && SizesTotal(files) < TWO_64
    && 0 < pieceLength < TWO_32 && SizesTotal(files) <= pieceLength * TWO_32
  }

  ghost predicate ByteOfFile(files: seq<FileRecord>, i: nat, offset: nat) {
    i < |files| && offset < files[i].size
  }

  ghost function PieceOf(files: seq<FileRecord>, pieceLength: nat, i: nat, offset: nat): Place
    requires ByteOfFile(files, i, offset) && Low32(pieceLength) > 0
  {
    PlaceOf(GlobalOffset(files, i, offset), pieceLength)
  }

  lemma GlobalIsExact(files: seq<FileRecord>, i: nat, offset: nat)
    requires Tiles(files) && SizesTotal(files) < TWO_64 && ByteOfFile(files, i, offset)
    ensures GlobalOffset(files, i, offset) == files[i].offset + offset < SizesTotal(files)
  {
    PrefixSmaller(files, i);
    Add64Exact(files[i].offset, offset);
  }

  lemma QuotientBelow(g: nat, d: nat, n: nat)
    requires d > 0 && g < d * n
    ensures g / d < n
  {
    ProductGrows(d, n, g / d);
  }

  lemma ProductGrows(d: nat, a: nat, b: nat)
    ensures a <= b ==> d * a <= d * b
    ensures a < b ==> d * a + d <= d * b
  {
    if a < b {
      var k := b - a - 1;
      assert d * (a + 1 + k) == d * a + d + d * k;
    }
  }

  /** Within 32-bit range the place of a position is quotient and remainder. */
  lemma PlaceIsExact(global: nat, pieceLength: nat)
    requires 0 < pieceLength < TWO_32 && global < pieceLength * TWO_32
    ensures Low32(pieceLength) == pieceLength
    ensures PlaceOf(global, pieceLength) == Place(global / pieceLength, global % pieceLength)
  {
    Low32Small(pieceLength);
    QuotientBelow(global, pieceLength, TWO_32);
    Low32Small(global / pieceLength);
    Low32Small(global % pieceLength);
  }

  lemma Low32Small(n: nat)
    requires n < TWO_32
    ensures Low32(n) == n
  {
  }

  /** Piece index and offset put together again are the position of the byte in the torrent. */
  lemma PieceRecombines(files: seq<FileRecord>, pieceLength: nat, i: nat, offset: nat)
    requires PiecesFit(files, pieceLength) && ByteOfFile(files, i, offset)
    ensures Low32(pieceLength) == pieceLength
    ensures var p := PieceOf(files, pieceLength, i, offset);
            pieceLength * p.piece + p.offset == files[i].offset + offset && p.offset < pieceLength
  {
    GlobalIsExact(files, i, offset);
    PlaceIsExact(files[i].offset + offset, pieceLength);
  }

  /** The block asked for on behalf of a request begins at the request's first byte, stays inside its file, and is
      as long as the request, but not longer than 16 KiB. */
  lemma BlockIsRequested(r: StreamRequest, files: seq<FileRecord>, pieceLength: nat)
    requires InFile(r, files) && PiecesFit(files, pieceLength)
    ensures Low32(pieceLength) == pieceLength
    ensures var b := BlockFor(r, files, pieceLength);
            && pieceLength * b.place.piece + b.place.offset == files[r.fileIndex].offset + r.offset
            && b.place.offset < pieceLength && b.place == PieceOf(files, pieceLength, r.fileIndex, r.offset)
            && b.length <= r.length && b.length <= 16384 && (b.length == r.length || b.length == 16384) && b.length > 0
            && r.offset + b.length <= files[r.fileIndex].size
  {
    PieceRecombines(files, pieceLength, r.fileIndex, r.offset);
  }

  /** Different bytes of the files get different places in the pieces. */
  lemma PieceInjective(files: seq<FileRecord>, pieceLength: nat, i: nat, x: nat, j: nat, y: nat)
    requires PiecesFit(files, pieceLength) && ByteOfFile(files, i, x) && ByteOfFile(files, j, y)
    requires Low32(pieceLength) > 0 && PieceOf(files, pieceLength, i, x) == PieceOf(files, pieceLength, j, y)
    ensures i == j && x == y
  {
    PieceRecombines(files, pieceLength, i, x);
    PieceRecombines(files, pieceLength, j, y);
    GlobalIsExact(files, i, x);
    var only := FileAtOffset(files, files[i].offset + x);
  }

  /** Every place in the pieces below the total is the place of a byte of some file. */
  lemma PieceSurjective(files: seq<FileRecord>, pieceLength: nat, place: Place) returns (i: nat, offset: nat)
    requires PiecesFit(files, pieceLength) && place.offset < pieceLength
    requires pieceLength * place.piece + place.offset < SizesTotal(files)
    ensures ByteOfFile(files, i, offset) && Low32(pieceLength) > 0
    ensures PieceOf(files, pieceLength, i, offset) == place
  {
    var g := pieceLength * place.piece + place.offset;
    i := FileAtOffset(files, g);
    offset := g - files[i].offset;
    PieceRecombines(files, pieceLength, i, offset);
    var p := PieceOf(files, pieceLength, i, offset);
    SplitUnique(pieceLength, place.piece, place.offset, p.piece, p.offset);
  }

  lemma SplitUnique(d: nat, q: nat, r: nat, p: nat, s: nat)
    requires r < d && s < d && d * q + r == d * p + s
    ensures q == p && r == s
  {
    ProductGrows(d, q, p);
    ProductGrows(d, p, q);
  }

  /** When the stored hashes cover the torrent, every byte of every file is in a piece with a hash. */
  lemma PieceHasHash(files: seq<FileRecord>, pieceLength: nat, pieceHashes: seq<bytes>,
                                        i: nat, offset: nat)
    requires PiecesFit(files, pieceLength) && ByteOfFile(files, i, offset)
    requires SizesTotal(files) <= pieceLength * |pieceHashes|
    ensures Low32(pieceLength) > 0
    ensures PieceOf(files, pieceLength, i, offset).piece < |pieceHashes|
  {
    var g := GlobalOffset(files, i, offset);
    GlobalIsExact(files, i, offset);
    PlaceHasHash(g, SizesTotal(files), pieceLength, |pieceHashes|);
    assert PieceOf(files, pieceLength, i, offset) == PlaceOf(g, pieceLength);
  }

  lemma PlaceHasHash(global: nat, total: nat, pieceLength: nat, hashes: nat)
    requires 0 < pieceLength < TWO_32 && total <= pieceLength * TWO_32
    requires global < total <= pieceLength * hashes
    ensures Low32(pieceLength) > 0 && PlaceOf(global, pieceLength).piece < hashes
  {
    PlaceIsExact(global, pieceLength);
    QuotientBelow(global, pieceLength, hashes);
  }
}
