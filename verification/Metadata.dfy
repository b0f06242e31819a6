/** Torrent metadata: what `loadFromFile` makes of the bytes of a torrent file. */
module Metadata {
  import opened Bytes
  import opened Machine
  import opened Bencode
  import opened BencodeParsing
  import opened Namespace
  import Sha1Spec
  import Sha1Stream

  const ANNOUNCE: bytes := [97, 110, 110, 111, 117, 110, 99, 101]                          // "announce"
  const INFO: bytes := [105, 110, 102, 111]                                                // "info"
  const NAME: bytes := [110, 97, 109, 101]                                                 // "name"
  const PIECE_LENGTH: bytes := [112, 105, 101, 99, 101, 32, 108, 101, 110, 103, 116, 104]  // "piece length"
  const PIECES: bytes := [112, 105, 101, 99, 101, 115]                                     // "pieces"
  const FILES: bytes := [102, 105, 108, 101, 115]                                          // "files"
  const PATH: bytes := [112, 97, 116, 104]                                                 // "path"
  const LENGTH: bytes := [108, 101, 110, 103, 116, 104]                                    // "length"

  datatype TorrentMetadata = TorrentMetadata(
    name: bytes, infoHashHex: bytes, announceUrl: bytes, totalSize: nat, pieceLength: nat,
    pieceCount: nat, pieceHashes: seq<bytes>, files: seq<FileRecord>)

  datatype LoadError =
    | NotBencode(reason: ParseError) | RootNotDictionary | MissingKey(key: bytes) | InfoNotDictionary
    | WrongType | FilesNotList | FileNotDictionary | PathComponentNotText

  type Loaded<T> = Result<T, LoadError>

  /** `static_cast<std::uint64_t>` of a signed integer. */
  function ToUint64(n: int): nat { Low64(n) }

  function RequireKey(dict: seq<Entry>, key: bytes): Loaded<Value> {
    match Find(dict, key)
    case None => Err(MissingKey(key))
    case Some(v) => Ok(v)
  }

  function RequireText(dict: seq<Entry>, key: bytes): Loaded<bytes> {
    match RequireKey(dict, key)
    case Err(e) => Err(e)
    case Ok(v) => if v.Text? then Ok(v.s) else Err(WrongType)
  }

  function RequireInteger(dict: seq<Entry>, key: bytes): Loaded<int> {
    match RequireKey(dict, key)
    case Err(e) => Err(e)
    case Ok(v) => if v.Integer? then Ok(v.n) else Err(WrongType)
  }

  /** `joinPathList`, continued from what has been joined already. */
  function JoinFrom(out: bytes, parts: seq<Value>): Loaded<bytes>
    decreases parts
  {
    if parts == [] then Ok(out)
    else if !parts[0].Text? then Err(PathComponentNotText)
    else JoinFrom((if out != [] then out + [SLASH] else out) + parts[0].s, parts[1..])
  }

  function OneFile(name: bytes, item: Value, offset: nat): Loaded<FileRecord> {
    if !item.Dictionary? then Err(FileNotDictionary)
    else
      match RequireKey(item.entries, PATH)
      case Err(e) => Err(e)
      case Ok(path) =>
        if !path.List? then Err(WrongType)
        else
          match JoinFrom([], path.items)
          case Err(e) => Err(e)
          case Ok(joined) =>
            match RequireInteger(item.entries, LENGTH)
            case Err(e) => Err(e)
            case Ok(length) => Ok(FileRecord(name + [SLASH] + joined, ToUint64(length), offset))
  }

  /** The records of a file list, the first of them at `offset`. */
  function FilesFrom(name: bytes, items: seq<Value>, offset: nat): Loaded<seq<FileRecord>> {
    if items == [] then Ok([])
    else
      match OneFile(name, items[0], offset)
      case Err(e) => Err(e)
      case Ok(record) =>
        match FilesFrom(name, items[1..], Add64(offset, record.size))
        case Err(e) => Err(e)
        case Ok(rest) => Ok([record] + rest)
  }

  function FilesOf(info: seq<Entry>, name: bytes): Loaded<seq<FileRecord>> {
    match Find(info, FILES)
    case Some(files) => if files.List? then FilesFrom(name, files.items, 0) else Err(FilesNotList)
    case None =>
      match RequireInteger(info, LENGTH)
      case Err(e) => Err(e)
      case Ok(length) => Ok([FileRecord(name, ToUint64(length), 0)])
  }

  function SizesTotal(files: seq<FileRecord>): nat {
    if files == [] then 0 else SizesTotal(files[..|files| - 1]) + files[|files| - 1].size
  }

  function PieceHashes(pieces: bytes): (hashes: seq<bytes>)
    ensures |hashes| == |pieces| / 20
  {
    seq(|pieces| / 20, i requires 0 <= i < |pieces| / 20 => pieces[20 * i..20 * i + 20])
  }

  function AnnounceOf(root: seq<Entry>): bytes {
    match Find(root, ANNOUNCE)
    case Some(v) => if v.Text? then v.s else []
    case None => []
  }

  function FromInfo(infoValue: Value, announceUrl: bytes): Loaded<TorrentMetadata> {
    if !infoValue.Dictionary? then Err(InfoNotDictionary)
    else
      var info := infoValue.entries;
      match RequireText(info, NAME)
      case Err(e) => Err(e)
      case Ok(name) =>
        match RequireInteger(info, PIECE_LENGTH)
        case Err(e) => Err(e)
        case Ok(pieceLength) =>
          match RequireText(info, PIECES)
          case Err(e) => Err(e)
          case Ok(pieces) =>
            match FilesOf(info, name)
            case Err(e) => Err(e)
            case Ok(files) =>
              Ok(TorrentMetadata(name, Sha1Stream.Hex(Sha1Spec.Sha1(Encode(infoValue))), announceUrl,
                                 Low64(SizesTotal(files)), ToUint64(pieceLength),
                                 |pieces| / 20, PieceHashes(pieces), files))
  }

  function Load(raw: bytes): Loaded<TorrentMetadata> {
    match Bencode.Parse(raw)
    case Err(e) => Err(NotBencode(e))
    case Ok(root) =>
      if !root.Dictionary? then Err(RootNotDictionary)
      else
        match RequireKey(root.entries, INFO)
        case Err(e) => Err(e)
        case Ok(infoValue) => FromInfo(infoValue, AnnounceOf(root.entries))
  }

  // ----- what the joining loop computes

  /** `out` with a slash and a component behind it, for each of the components. */
  function Behind(out: bytes, cs: seq<bytes>): bytes {
    if cs == [] then out else Behind(out, cs[..|cs| - 1]) + ([SLASH] + cs[|cs| - 1])
  }

  lemma {:induction false} BehindFirst(out: bytes, c: bytes, cs: seq<bytes>)
    ensures Behind(out, [c] + cs) == Behind(out + ([SLASH] + c), cs)
    decreases |cs|
  {
    var all := [c] + cs;
    if cs == [] {
      assert all[..0] == [];
    } else {
      assert all[..|all| - 1] == [c] + cs[..|cs| - 1];
      BehindFirst(out, c, cs[..|cs| - 1]);
    }
  }

  predicate AllText(parts: seq<Value>) {
    forall i :: 0 <= i < |parts| ==> parts[i].Text?
  }

  /** The strings of a list; a value that is no string counts as the empty one. */
  function Texts(parts: seq<Value>): (cs: seq<bytes>)
    ensures |cs| == |parts|
  {
    seq(|parts|, i requires 0 <= i < |parts| => if parts[i].Text? then parts[i].s else [])
  }

  function WithoutLeadingEmpty(cs: seq<bytes>): seq<bytes> {
    if cs != [] && cs[0] == [] then WithoutLeadingEmpty(cs[1..]) else cs
  }

  /** The components with slashes between them. */
  function Intercalated(cs: seq<bytes>): bytes {
    if cs == [] then [] else Behind(cs[0], cs[1..])
  }

  lemma {:induction false} JoinBehind(out: bytes, parts: seq<Value>)
    requires out != []
    ensures JoinFrom(out, parts) == if AllText(parts) then Ok(Behind(out, Texts(parts))) else Err(PathComponentNotText)
    decreases |parts|
  {
    if parts != [] && parts[0].Text? {
      var next := out + [SLASH] + parts[0].s;
      assert next == out + ([SLASH] + parts[0].s);
      JoinBehind(next, parts[1..]);
      assert AllText(parts) <==> AllText(parts[1..]);
      assert Texts(parts) == [parts[0].s] + Texts(parts[1..]);
      BehindFirst(out, parts[0].s, Texts(parts[1..]));
    }
  }

  /** Joining a path list puts slashes between its components, those before the first non-empty one
      left out; it fails exactly when a component is no string. */
  lemma {:induction false} JoinIntercalates(parts: seq<Value>)
    ensures JoinFrom([], parts) == if AllText(parts) then Ok(Intercalated(WithoutLeadingEmpty(Texts(parts))))
                                   else Err(PathComponentNotText)
    decreases |parts|
  {
    if parts != [] && parts[0].Text? {
      var c, rest := parts[0].s, parts[1..];
      assert [] + c == c;
      assert AllText(parts) <==> AllText(rest);
      assert Texts(parts)[0] == c && Texts(parts)[1..] == Texts(rest);
      if c == [] {
        JoinIntercalates(rest);
      } else {
        JoinBehind(c, rest);
      }
    }
  }

  // ----- the loader as the program runs it

  method JoinPathList(parts: seq<Value>) returns (r: Loaded<bytes>)
    ensures r == if AllText(parts) then Ok(Intercalated(WithoutLeadingEmpty(Texts(parts)))) else Err(PathComponentNotText)
  {
    JoinIntercalates(parts);
    var out: bytes := [];
    for i := 0 to |parts|
      invariant JoinFrom([], parts) == JoinFrom(out, parts[i..])
    {
      if !parts[i].Text? {
        return Err(PathComponentNotText);
      }
      if out != [] {
        out := out + [SLASH];
      }
      out := out + parts[i].s;
      assert parts[i..][1..] == parts[i + 1..];
    }
    r := Ok(out);
  }

  /** The records of a file list, put behind those already collected. */
  ghost function Collected(front: seq<FileRecord>, rest: Loaded<seq<FileRecord>>): Loaded<seq<FileRecord>> {
    match rest
    case Err(e) => Err(e)
    case Ok(files) => Ok(front + files)
  }

  method LoadFile(name: bytes, item: Value, offset: nat) returns (r: Loaded<FileRecord>)
    ensures r == OneFile(name, item, offset)
  {
    if !item.Dictionary? {
      return Err(FileNotDictionary);
    }
    var path := RequireKey(item.entries, PATH);
    if path.Err? {
      return Err(path.error);
    }
    if !path.value.List? {
      return Err(WrongType);
    }
    JoinIntercalates(path.value.items);
    var joined := JoinPathList(path.value.items);
    if joined.Err? {
      return Err(joined.error);
    }
    var length := RequireInteger(item.entries, LENGTH);
    if length.Err? {
      return Err(length.error);
    }
    r := Ok(FileRecord(name + [SLASH] + joined.value, ToUint64(length.value), offset));
  }

  /** The loop over the file list: records, and the running offset and total. */
  method LoadFiles(name: bytes, items: seq<Value>) returns (r: Loaded<seq<FileRecord>>, totalSize: nat)
    ensures r == FilesFrom(name, items, 0)
    ensures r.Ok? ==> totalSize == Low64(SizesTotal(r.value))
  {
    var offset := 0;
    totalSize := 0;
    var files: seq<FileRecord> := [];
    CollectedNothing(files, FilesFrom(name, items, 0));
    for i := 0 to |items|
      invariant FilesFrom(name, items, 0) == Collected(files, FilesFrom(name, items[i..], offset))
      invariant totalSize == Low64(SizesTotal(files))
    {
      assert items[i..][1..] == items[i + 1..];
      var record := LoadFile(name, items[i], offset);
      if record.Err? {
        return Err(record.error), totalSize;
      }
      CollectedOne(files, record.value, FilesFrom(name, items[i + 1..], Add64(offset, record.value.size)));
      AddModulo(SizesTotal(files), record.value.size);
      offset := Add64(offset, record.value.size);
      totalSize := Add64(totalSize, record.value.size);
      files := files + [record.value];
    }
    CollectedNothing(files, Ok([]));
    r := Ok(files);
  }

  lemma CollectedNothing(front: seq<FileRecord>, rest: Loaded<seq<FileRecord>>)
    ensures Collected([], rest) == rest
    ensures rest == Ok([]) ==> Collected(front, rest) == Ok(front)
  {
    assert front + [] == front;
    if rest.Ok? { assert [] + rest.value == rest.value; }
  }

  lemma CollectedOne(front: seq<FileRecord>, record: FileRecord, rest: Loaded<seq<FileRecord>>)
    ensures Collected(front, if rest.Ok? then Ok([record] + rest.value) else rest) ==
            Collected(front + [record], rest)
    ensures SizesTotal(front + [record]) == SizesTotal(front) + record.size
  {
    if rest.Ok? { assert front + ([record] + rest.value) == front + [record] + rest.value; }
    assert (front + [record])[..|front|] == front;
  }

  method LoadPieces(pieces: bytes) returns (pieceHashes: seq<bytes>)
    ensures pieceHashes == PieceHashes(pieces)
  {
    pieceHashes := [];
    var pieceCount := |pieces| / 20;
    for i := 0 to pieceCount
      invariant pieceHashes == PieceHashes(pieces)[..i]
    {
      pieceHashes := pieceHashes + [pieces[i * 20..i * 20 + 20]];
    }
  }

  /** The file list of a multi-file torrent, or the one file of a single-file torrent. */
  method LoadFileList(info: seq<Entry>, name: bytes) returns (files: Loaded<seq<FileRecord>>, totalSize: nat)
    ensures files == FilesOf(info, name)
    ensures files.Ok? ==> totalSize == Low64(SizesTotal(files.value))
  {
    totalSize := 0;
    var found := Find(info, FILES);
    if found.Some? {
      if !found.value.List? {
        return Err(FilesNotList), totalSize;
      }
      files, totalSize := LoadFiles(name, found.value.items);
    } else {
      var length := RequireInteger(info, LENGTH);
      if length.Err? {
        return Err(length.error), totalSize;
      }
      var record := FileRecord(name, ToUint64(length.value), 0);
      totalSize := record.size;
      files := Ok([record]);
      CollectedOne([], record, Ok([]));
      assert [] + [record] == [record];
    }
  }

  method LoadInfo(infoValue: Value, announceUrl: bytes) returns (r: Loaded<TorrentMetadata>)
    ensures r == FromInfo(infoValue, announceUrl)
  {
    if !infoValue.Dictionary? {
      return Err(InfoNotDictionary);
    }
    var info := infoValue.entries;
    var name := RequireText(info, NAME);
    if name.Err? {
      return Err(name.error);
    }
    var pieceLength := RequireInteger(info, PIECE_LENGTH);
    if pieceLength.Err? {
      return Err(pieceLength.error);
    }
    var pieces := RequireText(info, PIECES);
    if pieces.Err? {
      return Err(pieces.error);
    }
    var pieceHashes := LoadPieces(pieces.value);
    var encoded := EncodeBencode(infoValue);
    var digest := Sha1Stream.Digest(encoded);
    var infoHashHex := Sha1Stream.ToHex(digest);

    var files, totalSize := LoadFileList(info, name.value);
    if files.Err? {
      return Err(files.error);
    }
    r := Ok(TorrentMetadata(name.value, infoHashHex, announceUrl, totalSize, ToUint64(pieceLength.value),
                            |pieces.value| / 20, pieceHashes, files.value));
  }

  method LoadFromBytes(raw: bytes) returns (r: Loaded<TorrentMetadata>)
    ensures r == Load(raw)
  {
    var parser := new BencodeParser(raw);
    var root := parser.Parse();
    if root.Err? {
      return Err(NotBencode(root.error));
    }
    if !root.value.Dictionary? {
      return Err(RootNotDictionary);
    }
    var announceUrl: bytes := [];
    var announce := Find(root.value.entries, ANNOUNCE);
    if announce.Some? && announce.value.Text? {
      announceUrl := announce.value.s;
    }
    var infoValue := RequireKey(root.value.entries, INFO);
    if infoValue.Err? {
      return Err(infoValue.error);
    }
    r := LoadInfo(infoValue.value, announceUrl);
  }
}
