/** Torrents as descriptions: which values are torrents, and that loading the encoding of a description gives
    every part of it back. */
module TorrentRoundTrip {
  import opened Bytes
  import opened Machine
  import opened Decimal
  import opened Bencode
  import opened BencodeTheorems
  import opened Namespace
  import opened Metadata
  import opened MetadataTheorems
  import opened TorrentPaths
  import Sha1Spec
  import Sha1Stream

  // ----- what loads

  ghost predicate HasText(es: seq<Entry>, key: bytes) { Find(es, key).Some? && Find(es, key).value.Text? }

  ghost predicate HasInteger(es: seq<Entry>, key: bytes) { Find(es, key).Some? && Find(es, key).value.Integer? }

  /** An entry of a file list: a path of strings, and a length. */
  ghost predicate IsFile(item: Value) {
    && item.Dictionary? && HasInteger(item.entries, LENGTH)
    && Find(item.entries, PATH).Some? && Find(item.entries, PATH).value.List?
    && AllText(Find(item.entries, PATH).value.items)
  }

  ghost predicate IsInfo(info: seq<Entry>) {
    && HasText(info, NAME) && HasInteger(info, PIECE_LENGTH) && HasText(info, PIECES)
    && match Find(info, FILES)
       case Some(files) => files.List? && forall i :: 0 <= i < |files.items| ==> IsFile(files.items[i])
       case None => HasInteger(info, LENGTH)
  }

  ghost predicate IsTorrent(root: Value) {
    root.Dictionary? && match Find(root.entries, INFO) case Some(Dictionary(info)) => IsInfo(info) case _ => false
  }

  lemma FileIffLoads(name: bytes, item: Value, offset: nat)
    ensures OneFile(name, item, offset).Ok? <==> IsFile(item)
  {
    if item.Dictionary? && Find(item.entries, PATH).Some? && Find(item.entries, PATH).value.List? {
      JoinIntercalates(Find(item.entries, PATH).value.items);
    }
  }

  lemma {:induction false} FilesIffLoad(name: bytes, items: seq<Value>, offset: nat)
    ensures FilesFrom(name, items, offset).Ok? <==> forall i :: 0 <= i < |items| ==> IsFile(items[i])
    decreases |items|
  {
    if items != [] {
      FileIffLoads(name, items[0], offset);
      if IsFile(items[0]) {
        var rest := items[1..];
        FilesIffLoad(name, rest, Add64(offset, OneFile(name, items[0], offset).value.size));
        assert forall i :: 1 <= i < |items| ==> items[i] == rest[i - 1];
      }
    }
  }

  lemma InfoIffLoads(info: seq<Entry>, announceUrl: bytes)
    ensures FromInfo(Dictionary(info), announceUrl).Ok? <==> IsInfo(info)
  {
    if HasText(info, NAME) && Find(info, FILES).Some? && Find(info, FILES).value.List? {
      FilesIffLoad(Find(info, NAME).value.s, Find(info, FILES).value.items, 0);
    }
  }

  /** A byte string loads exactly if it is bencode and its value is a torrent. */
  lemma LoadsIffTorrent(raw: bytes)
    ensures Load(raw).Ok? <==> Bencode.Parse(raw).Ok? && IsTorrent(Bencode.Parse(raw).value)
  {
    if Bencode.Parse(raw).Ok? && Bencode.Parse(raw).value.Dictionary? {
      var root := Bencode.Parse(raw).value.entries;
      match Find(root, INFO)
      case Some(Dictionary(info)) => InfoIffLoads(info, AnnounceOf(root));
      case _ =>
    }
  }

  // ----- piece hashes

  function Concat(parts: seq<bytes>): bytes {
    if parts == [] then [] else Concat(parts[..|parts| - 1]) + parts[|parts| - 1]
  }

  /** Cut into pieces of 20 bytes; joined again they are the text up to a rest of fewer than 20 bytes. */
  lemma HashesJoin(pieces: bytes)
    ensures Concat(PieceHashes(pieces)) == pieces[..20 * (|pieces| / 20)]
    ensures forall h <- PieceHashes(pieces) :: |h| == 20
  {
    HashesJoinFirst(pieces, |pieces| / 20);
    assert PieceHashes(pieces)[..|pieces| / 20] == PieceHashes(pieces);
  }

  lemma {:induction false} HashesJoinFirst(pieces: bytes, n: nat)
    requires n <= |pieces| / 20
    ensures Concat(PieceHashes(pieces)[..n]) == pieces[..20 * n]
  {
    if n > 0 {
      HashesJoinFirst(pieces, n - 1);
      var first := PieceHashes(pieces)[..n];
      assert first[..n - 1] == PieceHashes(pieces)[..n - 1];
      assert pieces[..20 * n] == pieces[..20 * (n - 1)] + pieces[20 * (n - 1)..20 * n];
    }
  }

  lemma {:induction false} ConcatAt(hashes: seq<bytes>, i: nat)
    requires i < |hashes| && forall h <- hashes :: |h| == 20
    ensures |Concat(hashes)| == 20 * |hashes| && Concat(hashes)[20 * i..20 * i + 20] == hashes[i]
    decreases |hashes|
  {
    var front, last := hashes[..|hashes| - 1], hashes[|hashes| - 1];
    assert last in hashes && forall h <- front :: h in hashes;
    if front != [] {
      ConcatAt(front, if i < |front| then i else 0);
      if i < |front| {
        assert Concat(hashes)[20 * i..20 * i + 20] == Concat(front)[20 * i..20 * i + 20];
      }
    }
  }

  lemma HashesOfConcat(hashes: seq<bytes>)
    requires forall h <- hashes :: |h| == 20
    ensures PieceHashes(Concat(hashes)) == hashes && |Concat(hashes)| == 20 * |hashes|
  {
    if hashes != [] {
      ConcatAt(hashes, 0);
    }
    var again := PieceHashes(Concat(hashes));
    forall i | 0 <= i < |hashes| ensures again[i] == hashes[i] {
      ConcatAt(hashes, i);
      CutAgain(Concat(hashes), i);
    }
  }

  lemma CutAgain(pieces: bytes, i: nat)
    requires i < |pieces| / 20
    ensures PieceHashes(pieces)[i] == pieces[20 * i..20 * i + 20]
  {
  }

  /** The stored hashes of every loaded torrent, joined in order, are its `pieces` text but for a rest of
      fewer than 20 bytes. */
  lemma LoadedHashes(raw: bytes) returns (pieces: bytes)
    requires Load(raw).Ok?
    ensures Bencode.Parse(raw).Ok? && IsTorrent(Bencode.Parse(raw).value)
    ensures Find(Find(Bencode.Parse(raw).value.entries, INFO).value.entries, PIECES) == Some(Text(pieces))
    ensures var m := Load(raw).value;
            && m.pieceCount == |m.pieceHashes| == |pieces| / 20 && Concat(m.pieceHashes) == pieces[..20 * m.pieceCount]
            && forall h <- m.pieceHashes :: |h| == 20
  {
    LoadsIffTorrent(raw);
    pieces := Find(Find(Bencode.Parse(raw).value.entries, INFO).value.entries, PIECES).value.s;
    HashesJoin(pieces);
  }

  // ----- keys and lookups

  lemma {:induction false} FindAt(es: seq<Entry>, i: nat)
    requires i < |es| && forall j :: 0 <= j < i ==> es[j].key != es[i].key
    ensures Find(es, es[i].key) == Some(es[i].value)
    decreases |es|
  {
    if i > 0 {
      FindAt(es[1..], i - 1);
    }
  }

  lemma {:induction false} FindNothing(es: seq<Entry>, key: bytes)
    requires forall e <- es :: e.key != key
    ensures Find(es, key) == None
    decreases |es|
  {
    if es != [] {
      FindNothing(es[1..], key);
    }
  }

  lemma DifferentKeys()
    ensures |NAME| == 4 && |LENGTH| == 6 && |PIECE_LENGTH| == 12 && |PIECES| == 6 && |FILES| == 5
    ensures |INFO| == 4 && |PATH| == 4 && |ANNOUNCE| == 8
    ensures LENGTH[0] < NAME[0] < PIECES[0] == PIECE_LENGTH[0] && FILES[0] < LENGTH[0] < PATH[0]
    ensures ANNOUNCE[0] < INFO[0]
  {
  }

  /** Where two strings differ first, the smaller byte decides. */
  lemma {:induction false} LessAt(a: bytes, b: bytes, i: nat)
    requires i < |a| && i < |b| && a[..i] == b[..i] && a[i] < b[i]
    ensures Less(a, b)
    decreases i
  {
    if i > 0 {
      assert a[0] == a[..i][0] == b[..i][0] == b[0];
      assert a[1..][..i - 1] == a[..i][1..] && b[1..][..i - 1] == b[..i][1..];
      LessAt(a[1..], b[1..], i - 1);
    }
  }

  lemma KeysAscending()
    ensures Less(ANNOUNCE, INFO)
    ensures Less(FILES, NAME) && Less(FILES, PIECE_LENGTH) && Less(FILES, PIECES)
    ensures Less(LENGTH, NAME) && Less(LENGTH, PIECE_LENGTH) && Less(LENGTH, PIECES) && Less(LENGTH, PATH)
    ensures Less(NAME, PIECE_LENGTH) && Less(NAME, PIECES) && Less(PIECE_LENGTH, PIECES)
  {
    DifferentKeys();
    LessAt(ANNOUNCE, INFO, 0);
    LessAt(FILES, NAME, 0);
    LessAt(FILES, PIECE_LENGTH, 0);
    LessAt(FILES, PIECES, 0);
    LessAt(LENGTH, NAME, 0);
    LessAt(LENGTH, PIECE_LENGTH, 0);
    LessAt(LENGTH, PIECES, 0);
    LessAt(LENGTH, PATH, 0);
    LessAt(NAME, PIECE_LENGTH, 0);
    LessAt(NAME, PIECES, 0);
    LessAt(PIECE_LENGTH, PIECES, 5);
  }

  lemma DictionaryValid(entries: seq<Entry>)
    requires Ascending(entries) && forall e <- entries :: |e.key| < TWO_64 && Valid(e.value)
    ensures Valid(Dictionary(entries))
  {
  }

  // ----- descriptions

  /** A file of a list: its path, component by component, and its length. */
  datatype FileSpec = FileSpec(path: seq<bytes>, length: int)

  datatype Layout = Single(length: int) | Multi(files: seq<FileSpec>)

  datatype Torrent = Torrent(announce: Option<bytes>, name: bytes, pieceLength: int, hashes: seq<bytes>, layout: Layout)

  ghost predicate Fits(n: int) { INT64_MIN <= n <= INT64_MAX }

  ghost predicate Sized(cs: seq<bytes>) {
    forall c <- cs :: |c| < TWO_64
  }

  /** The description's numbers and texts fit the program's types, and hashes have 20 bytes. */
  ghost predicate Storable(t: Torrent) {
    && (t.announce.Some? ==> |t.announce.value| < TWO_64) && |t.name| < TWO_64 && Fits(t.pieceLength)
    && 20 * |t.hashes| < TWO_64 && (forall h <- t.hashes :: |h| == 20)
    && match t.layout
       case Single(length) => Fits(length)
       case Multi(files) => forall f <- files :: Sized(f.path) && Fits(f.length)
  }

  function TextValues(cs: seq<bytes>): (parts: seq<Value>)
    ensures AllText(parts) && Texts(parts) == cs
  {
    seq(|cs|, i requires 0 <= i < |cs| => Text(cs[i]))
  }

  function ItemOf(f: FileSpec): Value {
    Dictionary([Entry(LENGTH, Integer(f.length)), Entry(PATH, List(TextValues(f.path)))])
  }

  function ItemsOf(files: seq<FileSpec>): (items: seq<Value>)
    ensures |items| == |files| && forall i :: 0 <= i < |files| ==> items[i] == ItemOf(files[i])
  {
    seq(|files|, i requires 0 <= i < |files| => ItemOf(files[i]))
  }

  /** The file list, or the length of the only file. */
  function FirstOf(layout: Layout): Entry {
    match layout
    case Single(length) => Entry(LENGTH, Integer(length))
    case Multi(files) => Entry(FILES, List(ItemsOf(files)))
  }

  function InfoOf(t: Torrent): seq<Entry> {
    [FirstOf(t.layout), Entry(NAME, Text(t.name)), Entry(PIECE_LENGTH, Integer(t.pieceLength)),
     Entry(PIECES, Text(Concat(t.hashes)))]
  }

  function EntriesOf(announce: Option<bytes>, info: Value): seq<Entry> {
    (match announce case Some(url) => [Entry(ANNOUNCE, Text(url))] case None => []) + [Entry(INFO, info)]
  }

  function ValueOf(t: Torrent): Value {
    Dictionary(EntriesOf(t.announce, Dictionary(InfoOf(t))))
  }

  // ----- descriptions can be encoded

  lemma ItemValid(f: FileSpec)
    requires Sized(f.path) && Fits(f.length)
    ensures Valid(ItemOf(f))
  {
    DifferentKeys();
    KeysAscending();
    TextsValid(f.path);
    DictionaryValid([Entry(LENGTH, Integer(f.length)), Entry(PATH, List(TextValues(f.path)))]);
  }

  lemma TextsValid(cs: seq<bytes>)
    requires Sized(cs)
    ensures Valid(List(TextValues(cs)))
  {
    assert forall x <- TextValues(cs) :: Valid(x);
  }

  lemma FirstValid(t: Torrent)
    requires Storable(t)
    ensures Valid(FirstOf(t.layout).value)
  {
    if t.layout.Multi? {
      forall x | x in ItemsOf(t.layout.files) ensures Valid(x) {
        var i :| 0 <= i < |t.layout.files| && x == ItemsOf(t.layout.files)[i];
        assert t.layout.files[i] in t.layout.files;
        ItemValid(t.layout.files[i]);
      }
    }
  }

  lemma InfoAscending(t: Torrent)
    ensures Ascending(InfoOf(t))
  {
    KeysAscending();
  }

  lemma InfoValid(t: Torrent)
    requires Storable(t)
    ensures Valid(Dictionary(InfoOf(t)))
  {
    var info := InfoOf(t);
    InfoAscending(t);
    FirstValid(t);
    DifferentKeys();
    HashesOfConcat(t.hashes);
    forall e | e in info ensures |e.key| < TWO_64 && Valid(e.value) {
      assert e == info[0] || e == info[1] || e == info[2] || e == info[3];
    }
    DictionaryValid(info);
  }

  lemma RootValid(announce: Option<bytes>, info: Value)
    requires Valid(info) && (announce.Some? ==> |announce.value| < TWO_64)
    ensures Valid(Dictionary(EntriesOf(announce, info)))
  {
    DifferentKeys();
    KeysAscending();
    DictionaryValid(EntriesOf(announce, info));
  }

  // ----- and are what is loaded

  lemma InfoLookups(t: Torrent)
    ensures var info := InfoOf(t);
            && Find(info, NAME) == Some(Text(t.name)) && Find(info, PIECE_LENGTH) == Some(Integer(t.pieceLength))
            && Find(info, PIECES) == Some(Text(Concat(t.hashes)))
            && match t.layout
               case Single(length) => Find(info, FILES) == None && Find(info, LENGTH) == Some(Integer(length))
               case Multi(files) => Find(info, FILES) == Some(List(ItemsOf(files)))
  {
    var info := InfoOf(t);
    DifferentKeys();
    FindAt(info, 0);
    FindAt(info, 1);
    FindAt(info, 2);
    FindAt(info, 3);
    if t.layout.Single? {
      FindNothing(info, FILES);
    }
  }

  lemma RootLookups(announce: Option<bytes>, info: Value)
    ensures var root := EntriesOf(announce, info);
            RequireKey(root, INFO) == Ok(info) && AnnounceOf(root) == if announce.Some? then announce.value else []
  {
    var root := EntriesOf(announce, info);
    DifferentKeys();
    if announce.Some? {
      FindAt(root, 0);
      FindAt(root, 1);
    } else {
      FindAt(root, 0);
      FindNothing(root, ANNOUNCE);
    }
  }

  /** The path of a file in the list: the torrent's name, a slash, and the components from the first non-empty one on. */
  function FilePath(name: bytes, path: seq<bytes>): bytes {
    name + [SLASH] + Intercalated(WithoutLeadingEmpty(path))
  }

  lemma ItemLoads(name: bytes, f: FileSpec, offset: nat)
    ensures OneFile(name, ItemOf(f), offset) == Ok(FileRecord(FilePath(name, f.path), ToUint64(f.length), offset))
    ensures IsFile(ItemOf(f)) && PathTexts(ItemOf(f)) == f.path
  {
    var entries := [Entry(LENGTH, Integer(f.length)), Entry(PATH, List(TextValues(f.path)))];
    DifferentKeys();
    FindAt(entries, 0);
    FindAt(entries, 1);
    assert Find(entries, PATH) == Some(List(TextValues(f.path))) && Find(entries, LENGTH) == Some(Integer(f.length));
    JoinIntercalates(TextValues(f.path));
  }

  /** The loaded files are those described, in order, each behind the ones before it. */
  ghost predicate FilesMatch(t: Torrent, files: seq<FileRecord>) {
    && (forall i :: 0 <= i < |files| ==> files[i].offset == OffsetOf(0, files, i))
    && match t.layout
       case Single(length) => |files| == 1 && files[0].relativePath == t.name && files[0].size == ToUint64(length)
       case Multi(specs) =>
         |files| == |specs| && forall i :: 0 <= i < |specs| ==>
           files[i].relativePath == FilePath(t.name, specs[i].path) && files[i].size == ToUint64(specs[i].length)
  }

  lemma FilesLoad(t: Torrent)
    ensures FilesOf(InfoOf(t), t.name).Ok? && FilesMatch(t, FilesOf(InfoOf(t), t.name).value)
    ensures Components(InfoOf(t), t.name) ==
            match t.layout
            case Single(_) => [[t.name]]
            case Multi(specs) => seq(|specs|, i requires 0 <= i < |specs| => [t.name] + specs[i].path)
  {
    InfoLookups(t);
    match t.layout
    case Single(length) =>
      FilesOfOffsets(InfoOf(t), t.name);
    case Multi(specs) =>
      var items := ItemsOf(specs);
      forall i | 0 <= i < |specs| ensures IsFile(items[i]) && PathTexts(items[i]) == specs[i].path {
        ItemLoads(t.name, specs[i], 0);
      }
      FilesIffLoad(t.name, items, 0);
      FilesOfOffsets(InfoOf(t), t.name);
      FilesFromLength(t.name, items, 0);
      forall i | 0 <= i < |specs|
        ensures var r := FilesFrom(t.name, items, 0).value[i];
                r.relativePath == FilePath(t.name, specs[i].path) && r.size == ToUint64(specs[i].length)
      {
        var at := FileOfItem(t.name, items, 0, i);
        ItemLoads(t.name, specs[i], at);
      }
  }

  /** Loading the encoding of a description gives its name, its announce text, its piece length, its hashes and its
      files back, the hash of its info dictionary, and the sum of its lengths modulo 2^64. */
  lemma EncodedLoads(t: Torrent) returns (raw: bytes, m: TorrentMetadata)
    requires Storable(t)
    ensures raw == Encode(ValueOf(t)) && Load(raw) == Ok(m)
    ensures m.name == t.name && m.announceUrl == (if t.announce.Some? then t.announce.value else [])
    ensures m.pieceLength == ToUint64(t.pieceLength) && m.pieceHashes == t.hashes && m.pieceCount == |t.hashes|
    ensures FilesMatch(t, m.files) && m.totalSize == Low64(SizesTotal(m.files))
    ensures m.infoHashHex == Sha1Stream.Hex(Sha1Spec.Sha1(Encode(Dictionary(InfoOf(t)))))
    ensures LoadedComponents(raw) == Components(InfoOf(t), t.name)
  {
    InfoValid(t);
    RootValid(t.announce, Dictionary(InfoOf(t)));
    raw := Encode(ValueOf(t));
    ParseEncode(ValueOf(t));
    m := ParsedLoads(raw, t);
  }

  lemma ParsedLoads(raw: bytes, t: Torrent) returns (m: TorrentMetadata)
    requires Storable(t) && Bencode.Parse(raw) == Ok(ValueOf(t))
    ensures Load(raw) == Ok(m)
    ensures m.name == t.name && m.announceUrl == (if t.announce.Some? then t.announce.value else [])
    ensures m.pieceLength == ToUint64(t.pieceLength) && m.pieceHashes == t.hashes && m.pieceCount == |t.hashes|
    ensures FilesMatch(t, m.files) && m.totalSize == Low64(SizesTotal(m.files))
    ensures m.infoHashHex == Sha1Stream.Hex(Sha1Spec.Sha1(Encode(Dictionary(InfoOf(t)))))
    ensures LoadedComponents(raw) == Components(InfoOf(t), t.name)
  {
    RootLookups(t.announce, Dictionary(InfoOf(t)));
    InfoLookups(t);
    FilesLoad(t);
    HashesOfConcat(t.hashes);
    m := Load(raw).value;
  }
}
