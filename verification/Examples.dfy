/** Concrete inputs: some for which the program does not do what its parts promise elsewhere, and a
    torrent that meets every condition. */
module Examples {
  import opened Bytes
  import opened Machine
  import opened Decimal
  import opened Bencode
  import opened BencodeTheorems
  import opened Namespace
  import opened NamespaceTree
  import opened NamespaceWalk
  import opened Metadata
  import opened MetadataTheorems
  import opened TorrentPaths
  import opened TorrentWalk
  import opened Projected
  import opened SpelledPaths
  import opened ProjectedTheorems
  import opened ProjectedResolution
  import opened TorrentRoundTrip
  import opened ExampleTorrents
  import DirectoryEnumeration
  import ProjectedListing
  import Sha1Spec
  import Sha1Stream

  // ----- accepted, but re-encoded differently

  /** `i-0e` and `i01e` are accepted and re-encoded as `i0e` and `i1e`. */
  lemma OddIntegersAccepted()
    ensures Parse([105, 45, 48, 101]) == Ok(Integer(0)) && Encode(Integer(0)) == [105, 48, 101]
    ensures Parse([105, 48, 49, 101]) == Ok(Integer(1)) && Encode(Integer(1)) == [105, 49, 101]
  {
    assert DecimalValue([48]) == 0 by { assert [48][..0] == []; }
    assert [45, 48][1..] == [48] && [48, 49][..1] == [48];
    assert DecimalValue([48, 49]) == 1;
    IntegerAccepted([45, 48]);
    IntegerAccepted([48, 49]);
    assert [105] + ([45, 48] + [101]) == [105, 45, 48, 101];
    assert [105] + ([48, 49] + [101]) == [105, 48, 49, 101];
  }

  lemma IntegerAccepted(token: bytes)
    requires CH_E !in token && FromCharsInt64(token).Some?
    ensures Parse([CH_I] + (token + [CH_E])) == Ok(Integer(FromCharsInt64(token).value))
  {
    var s := [CH_I] + (token + [CH_E]);
    OccursSlice(s, 0, s);
    OccursSplit3(s, 0, [CH_I], token, [CH_E]);
    ScanToDelimiter(s, 1, token, CH_E);
  }

  /** Any pairs in any order are accepted as a dictionary, and re-encoding reproduces them exactly when
      their keys are strictly ascending: not when a key comes twice or out of order. */
  lemma PairsAccepted(pairs: seq<Entry>, s: bytes, v: Value)
    requires forall e <- pairs :: |e.key| < TWO_64 && Valid(e.value)
    requires s == [CH_D] + EncodeEntries(pairs) && v == Dictionary(Bencode.Build(pairs))
    ensures Parse(s) == Ok(v) && (Encode(v) == s <==> Ascending(pairs))
  {
    PairsParse(pairs, s, v);
    if Ascending(pairs) {
      AscendingReproduced(pairs, s, v);
    }
    if Encode(v) == s {
      ReproducedAscending(pairs, s, v);
    }
  }

  lemma PairsParse(pairs: seq<Entry>, s: bytes, v: Value)
    requires forall e <- pairs :: |e.key| < TWO_64 && Valid(e.value)
    requires s == [CH_D] + EncodeEntries(pairs) && v == Dictionary(Bencode.Build(pairs))
    ensures s != [] && s[0] == CH_D && ParsePairs(s, 1) == Done(pairs, |s|) && Parse(s) == Ok(v)
  {
    var start := 0;
    OccursSlice(s, start, s);
    PairsAcceptedAt(s, start, pairs);
    WholeParse(s, v);
  }

  lemma WholeParse(s: bytes, v: Value)
    requires ParseValue(s, 0) == Done(v, |s|)
    ensures Parse(s) == Ok(v)
  {
  }

  lemma AscendingReproduced(pairs: seq<Entry>, s: bytes, v: Value)
    requires s == [CH_D] + EncodeEntries(pairs) && v == Dictionary(Bencode.Build(pairs)) && Ascending(pairs)
    ensures Encode(v) == s
  {
    BuildOrdered(pairs);
  }

  lemma ReproducedAscending(pairs: seq<Entry>, s: bytes, v: Value)
    requires s != [] && s[0] == CH_D && ParsePairs(s, 1) == Done(pairs, |s|) && Parse(s) == Ok(v) && Encode(v) == s
    ensures Ascending(pairs)
  {
    EncodeParse(s);
  }

  lemma PairsAcceptedAt(s: bytes, pos: nat, pairs: seq<Entry>)
    requires forall e <- pairs :: |e.key| < TWO_64 && Valid(e.value)
    requires Occurs(s, pos, [CH_D] + EncodeEntries(pairs))
    ensures pos < |s| && s[pos] == CH_D
    ensures var end := pos + 1 + |EncodeEntries(pairs)|;
            ParsePairs(s, pos + 1) == Done(pairs, end) &&
            ParseValue(s, pos) == Done(Dictionary(Bencode.Build(pairs)), end)
  {
    OccursSplit(s, pos, [CH_D], EncodeEntries(pairs));
    OccursOne(s, pos, CH_D);
    RoundTripEntries(s, pos + 1, pairs);
  }

  // ----- a torrent whose info hash is not the hash of its own bytes

  /** A single-file info dictionary with `name` before `length`. */
  const UNSORTED: seq<Entry> :=
    [Entry(NAME, Text(SHORT)), Entry(LENGTH, Integer(0)), Entry(PIECE_LENGTH, Integer(1)), Entry(PIECES, Text([]))]

  lemma UnsortedLookups()
    ensures Find(UNSORTED, NAME) == Some(Text(SHORT)) && Find(UNSORTED, LENGTH) == Some(Integer(0))
    ensures Find(UNSORTED, PIECE_LENGTH) == Some(Integer(1)) && Find(UNSORTED, PIECES) == Some(Text([]))
    ensures Find(UNSORTED, FILES) == None && !Ascending(UNSORTED)
  {
    DifferentKeys();
    FindAt(UNSORTED, 0);
    FindAt(UNSORTED, 1);
    FindAt(UNSORTED, 2);
    FindAt(UNSORTED, 3);
    FindNothing(UNSORTED, FILES);
    assert !Less(UNSORTED[0].key, UNSORTED[1].key);
  }

  function UnsortedTorrent(): bytes {
    [CH_D] + (EncodeText(INFO) + (([CH_D] + EncodeEntries(UNSORTED)) + [CH_E]))
  }

  /** A dictionary with one key, whose value is a dictionary of any pairs in any order. */
  lemma NestedParses(raw: bytes, key: bytes, pairs: seq<Entry>) returns (start: nat, end: nat)
    requires |key| < TWO_64 && forall e <- pairs :: |e.key| < TWO_64 && Valid(e.value)
    requires raw == [CH_D] + (EncodeText(key) + (([CH_D] + EncodeEntries(pairs)) + [CH_E]))
    ensures var value := Dictionary(Bencode.Build(pairs));
            && 1 < |raw| && raw[0] == CH_D && raw[1] != CH_E
            && ParsePairs(raw, 1) == Done([Entry(key, value)], |raw|) && ParseText(raw, 1) == Done(key, start)
            && start < |raw| && raw[start] == CH_D
            && ParsePairs(raw, start + 1) == Done(pairs, end) && ParseValue(raw, start) == Done(value, end)
  {
    var inner := [CH_D] + EncodeEntries(pairs);
    start := 1 + |EncodeText(key)|;
    end := start + |inner|;
    NestedOccurs(raw, key, inner);
    RoundTripText(raw, 1, key);
    PairsAcceptedAt(raw, start, pairs);
    EndOfPairs(raw, end);
    OnePair(raw, 1, Entry(key, Dictionary(Bencode.Build(pairs))), start, end);
  }

  lemma OnePair(s: bytes, pos: nat, pair: Entry, at: nat, end: nat)
    requires pos < |s| && s[pos] != CH_E && ParseText(s, pos) == Done(pair.key, at)
    requires ParseValue(s, at) == Done(pair.value, end) && ParsePairs(s, end) == Done([], end + 1)
    ensures ParsePairs(s, pos) == Done([pair], end + 1)
  {
    assert [pair][1..] == [];
    PairsStep(s, pos, [pair], at, end, end + 1);
  }

  lemma NestedOccurs(raw: bytes, key: bytes, inner: bytes)
    requires raw == [CH_D] + (EncodeText(key) + (inner + [CH_E]))
    ensures var start := 1 + |EncodeText(key)|;
            var end := start + |inner|;
            && Occurs(raw, 0, [CH_D]) && Occurs(raw, 1, EncodeText(key)) && Occurs(raw, start, inner)
            && Occurs(raw, end, [CH_E]) && |raw| == end + 1 && raw[0] == CH_D
  {
    OccursSlice(raw, 0, raw);
    OccursSplit(raw, 0, [CH_D], EncodeText(key) + (inner + [CH_E]));
    OccursSplit3(raw, 1, EncodeText(key), inner, [CH_E]);
  }

  lemma EndOfPairs(s: bytes, pos: nat)
    requires Occurs(s, pos, [CH_E])
    ensures pos < |s| && s[pos] == CH_E && ParsePairs(s, pos) == Done([], pos + 1)
  {
    OccursOne(s, pos, CH_E);
  }

  lemma UnsortedParses() returns (start: nat, end: nat)
    ensures var raw := UnsortedTorrent();
            var info := Dictionary(Bencode.Build(UNSORTED));
            && Parse(raw) == Ok(Dictionary([Entry(INFO, info)])) && 1 < |raw| && raw[1] != CH_E
            && ParsePairs(raw, 1).Done? && ParseText(raw, 1) == Done(INFO, start)
            && start < |raw| && raw[start] == CH_D
            && ParsePairs(raw, start + 1) == Done(UNSORTED, end) && ParseValue(raw, start) == Done(info, end)
  {
    DifferentKeys();
    start, end := NestedParses(UnsortedTorrent(), INFO, UNSORTED);
    var outer := [Entry(INFO, Dictionary(Bencode.Build(UNSORTED)))];
    BuildOrdered(outer);
    DictionaryStep(UnsortedTorrent(), 0, outer, |UnsortedTorrent()|);
  }

  lemma UnsortedLoads()
    ensures Load(UnsortedTorrent()).Ok?
  {
    var start, end := UnsortedParses();
    UnsortedLookups();
    BuildFirstWins(UNSORTED, NAME);
    BuildFirstWins(UNSORTED, LENGTH);
    BuildFirstWins(UNSORTED, PIECE_LENGTH);
    BuildFirstWins(UNSORTED, PIECES);
    BuildFirstWins(UNSORTED, FILES);
    NoAnnounce(Dictionary(Bencode.Build(UNSORTED)));
    assert FilesOf(Bencode.Build(UNSORTED), SHORT).Ok?;
    assert FromInfo(Dictionary(Bencode.Build(UNSORTED)), []).Ok?;
  }

  /** The torrent loads, and what is hashed is not what the file holds. */
  lemma InfoHashOfOtherBytes() returns (start: nat, end: nat, hashed: bytes)
    ensures var raw := UnsortedTorrent();
            && Load(raw).Ok? && Load(raw).value.infoHashHex == Sha1Stream.Hex(Sha1Spec.Sha1(hashed))
            && ParsePairs(raw, 1).Done? && ValueSpan(raw, 1, INFO) == Some((start, end))
            && start <= end <= |raw| && hashed != raw[start..end]
  {
    var at, after := UnsortedParses();
    UnsortedLoads();
    UnsortedLookups();
    start, end, hashed := InfoHashOfOwnBytes(UnsortedTorrent());
    assert start == at;
  }

  // ----- torrents with two files

  /** Two lengths of -1 load as sizes of 2^64 - 1, and the total size is not the sum of the sizes. */
  lemma NegativeLengthsOverflow() returns (raw: bytes, m: TorrentMetadata)
    ensures Load(raw) == Ok(m) && m.totalSize == TWO_64 - 2 && SizesTotal(m.files) == 2 * TWO_64 - 2
  {
    MinusOneWraps();
    raw, m := TwoFileTorrent([X], -1, [Y], -1);
  }

  lemma MinusOneWraps()
    ensures ToUint64(-1) == TWO_64 - 1 && Low64(2 * TWO_64 - 2) == TWO_64 - 2
  {
  }

  const X: bytes := [120]
  const Y: bytes := [121]

  /** A torrent that meets every condition of the walk theorems. */
  lemma SmallTorrentWellFormed() returns (raw: bytes)
    ensures WellFormed(raw) && Load(raw).value.totalSize == 7
  {
    var m;
    raw, m := TwoApartTorrent(X, 3, Y, 4);
    SmallIsLow(SizesTotal(m.files));
  }

  /** A torrent with two files of different plain components and small sizes. */
  lemma TwoApartTorrent(x: bytes, a: nat, y: bytes, b: nat) returns (raw: bytes, m: TorrentMetadata)
    requires Plain(x) && Plain(y) && x != y && |x| < TWO_64 && |y| < TWO_64 && a + b < INT64_MAX
    ensures Load(raw) == Ok(m) && WellFormed(raw) && Tree(Namespace.Build(m.files))
    ensures m.files == TwoRecords([x], a, [y], b) && TwoFilesIn(raw, [x], [y])
    ensures SizesTotal(m.files) == a + b && m.totalSize == Low64(SizesTotal(m.files))
  {
    raw, m := SmallTorrent([x], a, [y], b);
    ApartLoaded(raw, m, x, y);
  }

  lemma ApartLoaded(raw: bytes, m: TorrentMetadata, x: bytes, y: bytes)
    requires Load(raw) == Ok(m) && TwoFilesIn(raw, [x], [y])
    requires Plain(x) && Plain(y) && x != y && SizesTotal(m.files) < TWO_64
    ensures WellFormed(raw) && Tree(Namespace.Build(m.files))
  {
    TwoApart(x, y, LoadedComponents(raw));
    LoadedTreeIff(raw);
  }

  lemma TwoApart(x: bytes, y: bytes, comps: seq<seq<bytes>>)
    requires comps == [[SHORT] + [x], [SHORT] + [y]] && Plain(x) && Plain(y) && x != y
    ensures PlainPaths(comps) && NoPrefix(comps)
  {
    assert comps[0][1] != comps[1][1];
    assert !(comps[0] <= comps[1]) && !(comps[1] <= comps[0]);
  }

  // ----- torrents whose index is no tree

  const EMPTY_INSIDE: bytes := [97, 47, 47, 98]  // "a//b"

  ghost predicate NoTree(raw: bytes) {
    Load(raw).Ok? && !Tree(Namespace.Build(Load(raw).value.files))
  }

  /** The index of a loaded torrent is no tree: with two files of one path, with a file below a file, and
      with a file whose name has an empty component. */
  lemma NoTrees() returns (same: bytes, below: bytes, empty: bytes)
    ensures NoTree(same) && TwoFilesIn(same, [X], [X])
    ensures NoTree(below) && TwoFilesIn(below, [X], [X, Y])
    ensures NoTree(empty) && OneFileIn(empty, EMPTY_INSIDE)
  {
    same := StartsOther([X], [X]);
    below := StartsOther([X], [X, Y]);
    empty := EmptyInside();
  }

  /** A file whose components start another's. */
  lemma StartsOther(p: seq<bytes>, q: seq<bytes>) returns (raw: bytes)
    requires Sized(p) && Sized(q) && p <= q && AllPlain(q)
    ensures NoTree(raw) && TwoFilesIn(raw, p, q)
  {
    var m;
    raw, m := TwoFileTorrent(p, 1, q, 1);
    StartingNoTree(raw, p, q);
  }

  lemma StartingNoTree(raw: bytes, p: seq<bytes>, q: seq<bytes>)
    requires TwoFilesIn(raw, p, q) && p <= q && AllPlain(q)
    ensures NoTree(raw)
  {
    PlainButStarting([SHORT] + p, [SHORT] + q, LoadedComponents(raw));
    LoadedTreeIff(raw);
  }

  lemma PlainButStarting(p: seq<bytes>, q: seq<bytes>, comps: seq<seq<bytes>>)
    requires comps == [p, q] && p != [] && p <= q && AllPlain(q)
    ensures PlainPaths(comps) && !NoPrefix(comps)
  {
    assert comps[0] <= comps[1];
    forall i | 0 <= i < |p| ensures Plain(p[i]) {
      assert p[i] == q[i];
    }
  }

  lemma EmptyInside() returns (raw: bytes)
    ensures NoTree(raw) && OneFileIn(raw, EMPTY_INSIDE)
  {
    var m;
    raw, m := SingleFileTorrent(EMPTY_INSIDE, 1);
    EmptyComponent(m.files);
  }

  lemma EmptyComponent(files: seq<FileRecord>)
    requires |files| == 1 && files[0].relativePath == EMPTY_INSIDE
    ensures !Tree(Namespace.Build(files))
  {
    var n := Normalize(EMPTY_INSIDE);
    NormalizeKeeps(EMPTY_INSIDE);
    assert n[2] == AsSlash(EMPTY_INSIDE[1]) && n[3] == AsSlash(EMPTY_INSIDE[2]);
    TreeIffSeparate(files);
    assert FileEntries(files)[0].virtualPath == n;
  }

  // ----- a name that leads to another file

  const QUESTION: bytes := [97, 63]  // "a?"
  const STAR: bytes := [97, 42]      // "a*"

  /** The path of a file of one component, in the namespace. */
  lemma OneBelow(c: bytes)
    requires Plain(c)
    ensures var k := ROOT + PathIn([c]);
            && PathIn([c]) == SHORT + [SLASH] + c && k == PathOf([SHORT] + [c]) && Clean(k)
            && ParentOf(k) == ROOT + SHORT && k[LastSlash(k) + 1..] == c
  {
    var k := ROOT + PathIn([c]);
    OneComponent(c);
    assert AllPlain([SHORT] + [c]);
    NamedPath(SHORT, [c]);
    PathClean([SHORT] + [c]);
    assert k == (ROOT + SHORT) + ([SLASH] + c);
    LastSlashBehind(ROOT + SHORT, c);
  }

  /** The torrent's own directory and a file in it never share a key. */
  lemma LevelsDiffer(c: bytes, a: bool, b: bool, name: Naming)
    requires Plain(c) && WindowsNames(name)
    ensures Key(SHORT, a, name) != Key(PathIn([c]), b, name)
  {
    var path := PathIn([c]);
    OneBelow(c);
    TokenCount(SHORT, 0, TokensFrom(SHORT, 0));
    TokenCount(path, 0, TokensFrom(path, 0));
    assert path[0] == SHORT[0] && path[1] == SLASH && Slashes(path, 0) == Slashes(path, 1);
    if Key(SHORT, a, name) == Key(path, b, name) {
      SameKeySameNames(SHORT, a, path, b, name);
    }
  }

  /** What a file of one component registers. */
  lemma OneBelowRegisters(c: bytes)
    requires Plain(c)
    ensures PathsFrom(PathIn([c]), [], 0) == [SHORT, PathIn([c])]
  {
    var path := PathIn([c]);
    OneBelow(c);
    assert path[0] == SHORT[0] && path[1] == SLASH;
    assert NextSlash(path, 0) == 1 && path[0..1] == SHORT && [] + SHORT == SHORT;
    forall i | 2 <= i < |path| ensures path[i] != SLASH {
      assert path[i] == c[i - 2] && path[i] in c;
    }
    assert NextSlash(path, 2) == |path| && SHORT + ROOT + path[2..|path|] == path;
    PathsFromStep(path, SHORT, 2, path, []);
    PathsFromStep(path, [], 0, SHORT, [path]);
  }

  /** Asking for the display name of the second of two files finds the first. */
  ghost predicate FindsOther(files: seq<FileRecord>, name: Naming) {
    var m, ix, es := IndexFirst(files, |files|, name), Namespace.Build(files), FileEntries(files);
    && |es| == 2 && es[0] != es[1] && HoldsFile(ix, es[1])
    && es[1].virtualPath != [] && Ask(m, ix, es[1].virtualPath, false, name) == Some(es[0])
  }

  /** A torrent with the files `a?` and `a*`: asking for the display name of the second finds the first. */
  lemma WrongFileFound(toWide: bytes -> wide) returns (raw: bytes, m: TorrentMetadata)
    requires toWide(QUESTION) == [97, 63] && toWide(STAR) == [97, 42]
    ensures Load(raw) == Ok(m) && WellFormed(raw) && TwoFilesIn(raw, [QUESTION], [STAR])
    ensures FindsOther(m.files, NamesBy(toWide))
  {
    raw, m := TwoApartTorrent(QUESTION, 1, STAR, 1);
    FirstOfTwo(m.files, toWide);
  }

  lemma FirstOfTwo(files: seq<FileRecord>, toWide: bytes -> wide)
    requires toWide(QUESTION) == [97, 63] && toWide(STAR) == [97, 42] && Tree(Namespace.Build(files))
    requires files == TwoRecords([QUESTION], 1, [STAR], 1)
    ensures FindsOther(files, NamesBy(toWide))
  {
    var name, ix, es := NamesBy(toWide), Namespace.Build(files), FileEntries(files);
    var key := Key(PathIn([STAR]), false, name);
    TwoPaths(es, files);
    TreeIffSeparate(files);
    NamespaceContents(files);
    assert HoldsFile(ix, es[0]) && HoldsFile(ix, es[1]);
    NamesByWindows(toWide);
    SameDisplayKey(toWide);
    FirstHeld(files, key, name);
    AskedKey(PathIn([STAR]), false, name);
    assert es[1].virtualPath[1..] == PathIn([STAR]);
    NormalizeClean(es[0].virtualPath);
  }

  lemma TwoPaths(es: seq<FileEntry>, files: seq<FileRecord>)
    requires files == TwoRecords([QUESTION], 1, [STAR], 1) && es == FileEntries(files)
    ensures |es| == 2 && es[0].virtualPath == ROOT + PathIn([QUESTION]) && es[1].virtualPath == ROOT + PathIn([STAR])
    ensures Clean(es[0].virtualPath) && es[0] != es[1]
  {
    NormalBelow(QUESTION);
    NormalBelow(STAR);
    assert es[0].offset != es[1].offset;
  }

  lemma NormalBelow(c: bytes)
    requires Plain(c)
    ensures Normalize(PathIn([c])) == ROOT + PathIn([c]) && Clean(ROOT + PathIn([c]))
  {
    OneBelow(c);
    NormalizeRelative(PathIn([c]));
  }

  lemma SameDisplayKey(toWide: bytes -> wide)
    requires toWide(QUESTION) == [97, 63] && toWide(STAR) == [97, 42]
    ensures Key(PathIn([QUESTION]), false, NamesBy(toWide)) == Key(PathIn([STAR]), false, NamesBy(toWide))
  {
    NamesByWindows(toWide);
    KeyBelow(QUESTION, NamesBy(toWide));
    KeyBelow(STAR, NamesBy(toWide));
    ClashingName(63);
    ClashingName(42);
    NamesAre(toWide, QUESTION);
    NamesAre(toWide, STAR);
  }

  lemma KeyBelow(c: bytes, name: Naming)
    requires Plain(c) && WindowsNames(name)
    ensures Key(PathIn([c]), false, name) == Key(SHORT, false, name) + WROOT + name(c, false)
  {
    OneBelow(c);
    KeyOfChild(ROOT + PathIn([c]), false, name);
    assert (ROOT + PathIn([c]))[1..] == PathIn([c]) && (ROOT + SHORT)[1..] == SHORT;
  }

  lemma FirstHeld(files: seq<FileRecord>, key: wide, name: Naming)
    requires files == TwoRecords([QUESTION], 1, [STAR], 1) && WindowsNames(name)
    requires key == Key(PathIn([QUESTION]), false, name) && PathIn([QUESTION]) != []
    ensures var m := IndexFirst(files, |files|, name); key in m && m[key] == ROOT + PathIn([QUESTION])
  {
    var paths := PathsOf(files, 2);
    TwoRegister(files);
    LevelsDiffer(QUESTION, false, false, name);
    LevelsDiffer(QUESTION, true, false, name);
    AskedKey(paths[1], false, name);
    assert FirstHolder(paths, 1, key, name);
    IndexKeepsFirst(files, name, key);
  }

  lemma TwoRegister(files: seq<FileRecord>)
    requires files == TwoRecords([QUESTION], 1, [STAR], 1)
    ensures PathsOf(files, 2) == [SHORT, PathIn([QUESTION])] + [SHORT, PathIn([STAR])]
  {
    OneBelowRegisters(QUESTION);
    OneBelowRegisters(STAR);
    assert PathsOf(files, 0) == [] && PathsOf(files, 1) == [] + [SHORT, PathIn([QUESTION])];
  }

  // ----- a name that leads nowhere

  const BACKSLASHED: bytes := [116, 92, 97]  // "t\a"
  const INNER: bytes := [97]                 // "a"

  /** The index is a tree in which no two paths share a key, and asking for the display name of the
      directory `t` finds nothing. */
  ghost predicate FindsNothing(files: seq<FileRecord>, name: Naming) {
    var m, ix := IndexFirst(files, |files|, name), Namespace.Build(files);
    && Tree(ix) && NoSharedKey(ix, name) && !AllSpelled(files)
    && ROOT + SHORT in ix.entries && Ask(m, ix, ROOT + SHORT, false, name) == None
  }

  /** So it is for a torrent of one file named `t\a`. */
  lemma BackslashNotFound(toWide: bytes -> wide) returns (raw: bytes, m: TorrentMetadata)
    requires toWide(SHORT) == [116] && toWide(BACKSLASHED) == [116, 92, 97]
    ensures Load(raw) == Ok(m) && OneFileIn(raw, BACKSLASHED)
    ensures FindsNothing(m.files, NamesBy(toWide))
  {
    raw, m := SingleFileTorrent(BACKSLASHED, 1);
    NamesByWindows(toWide);
    BackslashedTree(m.files);
    BackslashedUnshared(m.files, NamesBy(toWide));
    BackslashedMissing(m.files, toWide);
    BackslashedNotSpelled(m.files);
  }

  lemma BackslashedNotSpelled(files: seq<FileRecord>)
    requires files == [FileRecord(BACKSLASHED, ToUint64(1), 0)]
    ensures !AllSpelled(files)
  {
    BackslashedNormal();
    OneBelow(INNER);
    assert Normalize(BACKSLASHED)[1..][1] != Bare(BACKSLASHED)[1];
    assert !Spelled(files[0].relativePath);
  }

  lemma BackslashedNormal()
    ensures Normalize(BACKSLASHED) == ROOT + PathIn([INNER]) && |Normalize(BACKSLASHED)| == 4
  {
    OneBelow(INNER);
    var n := Normalize(BACKSLASHED);
    NormalizeKeeps(BACKSLASHED);
    assert n[1] == AsSlash(BACKSLASHED[0]) && n[2] == AsSlash(BACKSLASHED[1]) && n[3] == AsSlash(BACKSLASHED[2]);
    assert n == ROOT + PathIn([INNER]);
  }

  ghost predicate EntriesAre(ix: Index, k: bytes, l: bytes) {
    forall x :: x in ix.entries <==> x == ROOT || x == k || x == l
  }

  lemma BackslashedTree(files: seq<FileRecord>)
    requires files == [FileRecord(BACKSLASHED, ToUint64(1), 0)]
    ensures Tree(Namespace.Build(files)) && EntriesAre(Namespace.Build(files), ROOT + SHORT, ROOT + PathIn([INNER]))
  {
    BackslashedNormal();
    OneBelow(INNER);
    OneFileTree(files, ROOT + PathIn([INNER]));
  }

  lemma OneFileTree(files: seq<FileRecord>, p: bytes)
    requires |files| == 1 && Normalize(files[0].relativePath) == p
    requires Clean(p) && |p| == 4 && ParentOf(p) == ROOT + SHORT
    ensures Tree(Namespace.Build(files)) && EntriesAre(Namespace.Build(files), ROOT + SHORT, p)
  {
    TreeIffSeparate(files);
    forall k ensures k in Namespace.Build(files).entries <==> k == ROOT || k == ROOT + SHORT || k == p {
      BackslashedEntry(files, p, k);
    }
  }

  lemma BackslashedEntry(files: seq<FileRecord>, p: bytes, k: bytes)
    requires |files| == 1 && Tree(Namespace.Build(files)) && Normalize(files[0].relativePath) == p
    requires Clean(p) && |p| == 4 && ParentOf(p) == ROOT + SHORT
    ensures k in Namespace.Build(files).entries <==> k == ROOT || k == ROOT + SHORT || k == p
  {
    if k != ROOT {
      EntryAtOrAbove(files, k);
      OnlyOneAbove(p, k);
      assert AtOrAbove(files, k) <==> AtOrUnder(p, k);
    }
  }

  lemma OnlyOneAbove(p: bytes, k: bytes)
    requires Clean(p) && |p| == 4 && ParentOf(p) == ROOT + SHORT && k != ROOT
    ensures AtOrUnder(p, k) <==> k == p || k == ROOT + SHORT
  {
    UnderStep(p, k);
    UnderStep(ROOT + SHORT, k);
    UnderStep(ROOT, k);
    assert [SLASH, 116][..1] == [SLASH] && ROOT + SHORT == [SLASH, 116];
    assert ParentOf(ROOT + SHORT) == ROOT;
  }

  lemma BackslashedUnshared(files: seq<FileRecord>, name: Naming)
    requires files == [FileRecord(BACKSLASHED, ToUint64(1), 0)] && WindowsNames(name)
    ensures NoSharedKey(Namespace.Build(files), name)
  {
    var ix, p := Namespace.Build(files), ROOT + PathIn([INNER]);
    BackslashedTree(files);
    assert p[1..] == PathIn([INNER]) && (ROOT + SHORT)[1..] == SHORT;
    forall k, l, a, b | k in ix.entries && l in ix.entries && k != ROOT && l != ROOT && k != [] && l != [] && k != l
      ensures !SameKey(k, l, a, b, name)
    {
      LevelsDiffer(INNER, a, b, name);
      LevelsDiffer(INNER, b, a, name);
    }
  }

  lemma BackslashedMissing(files: seq<FileRecord>, toWide: bytes -> wide)
    requires files == [FileRecord(BACKSLASHED, ToUint64(1), 0)]
    requires toWide(SHORT) == [116] && toWide(BACKSLASHED) == [116, 92, 97]
    ensures var name := NamesBy(toWide);
            Ask(IndexFirst(files, |files|, name), Namespace.Build(files), ROOT + SHORT, false, name) == None
  {
    var name := NamesBy(toWide);
    NamesByWindows(toWide);
    AskedKey(SHORT, false, name);
    assert (ROOT + SHORT)[1..] == SHORT;
    LongerNames(toWide);
    SingleName(SHORT, name);
    assert Key(SHORT, false, name) == WROOT + name(SHORT, false);
    KeyMissing(files, Key(SHORT, false, name), name);
  }

  lemma KeyMissing(files: seq<FileRecord>, key: wide, name: Naming)
    requires files == [FileRecord(BACKSLASHED, ToUint64(1), 0)] && key != WROOT && key != []
    requires key[1..] != name(BACKSLASHED, false) && key[1..] != name(BACKSLASHED, true)
    ensures key !in IndexFirst(files, |files|, name)
  {
    if key in IndexFirst(files, |files|, name) {
      var q := FirstRegistered(files, name, key);
      OnlyPath(BACKSLASHED);
      assert PathsOf(files, 0) == [] && PathsOf(files, 1) == [] + [BACKSLASHED];
      assert q == BACKSLASHED;
      OnlyName(BACKSLASHED, false, name);
      OnlyName(BACKSLASHED, true, name);
    }
  }

  lemma OnlyName(path: bytes, ascii: bool, name: Naming)
    requires path != [] && SLASH !in path
    ensures Relative(path, ascii, name) == name(path, ascii)
  {
    LastComponent(path, 0, [], ascii, name);
    assert path[0..] == path;
  }

  lemma LongerNames(toWide: bytes -> wide)
    requires toWide(SHORT) == [116] && toWide(BACKSLASHED) == [116, 92, 97]
    ensures var name := NamesBy(toWide);
            name(SHORT, false) != name(BACKSLASHED, false) && name(SHORT, false) != name(BACKSLASHED, true)
  {
    NamesAre(toWide, SHORT);
    NamesAre(toWide, BACKSLASHED);
    FallbackKeepsHash(BACKSLASHED, BACKSLASHED);
    ProjectedListing.SanitizedLength([116]);
    ProjectedListing.SanitizedLength([116, 92, 97]);
  }

  lemma OnlyPath(path: bytes)
    requires path != [] && SLASH !in path
    ensures PathsFrom(path, [], 0) == [path]
  {
    assert NextSlash(path, 0) == |path| && path[0..|path|] == path;
    assert [] + path == path;
  }

  // ----- a listed name that does not lead back

  /** A torrent of one file named `a?`: the file, asked for in the root under the name it is listed by,
      does not ask for its own key. */
  lemma ListedNameNotFound(toWide: bytes -> wide) returns (raw: bytes, m: TorrentMetadata)
    requires toWide(QUESTION) == [97, 63]
    ensures Load(raw) == Ok(m) && WellFormed(raw) && OneFileIn(raw, QUESTION)
    ensures ROOT + QUESTION in Namespace.Build(m.files).entries
    ensures var name := NamesBy(toWide);
            NormalizeProjected(ProjectedListing.AskedListed(ROOT, toWide(QUESTION), name)) != Key(QUESTION, false, name)
  {
    raw, m := SingleFileTorrent(QUESTION, 1);
    OneSize(m.files);
    QuestionLoaded(raw);
    QuestionInRoot(m.files);
    QuestionAsked(toWide);
  }

  lemma QuestionLoaded(raw: bytes)
    requires OneFileIn(raw, QUESTION)
    ensures PlainPaths(LoadedComponents(raw)) && NoPrefix(LoadedComponents(raw))
    ensures Tree(Namespace.Build(Load(raw).value.files))
  {
    PlainAlone(LoadedComponents(raw), QUESTION);
    LoadedTreeIff(raw);
  }

  lemma PlainAlone(comps: seq<seq<bytes>>, name: bytes)
    requires comps == [[name]] && Plain(name)
    ensures PlainPaths(comps) && NoPrefix(comps)
  {
  }

  lemma OneSize(files: seq<FileRecord>)
    requires |files| == 1
    ensures SizesTotal(files) == files[0].size
  {
    assert files[..0] == [];
  }

  /** The path of a file in the root. */
  lemma InRoot(c: bytes)
    requires Plain(c)
    ensures Clean(ROOT + c) && ParentOf(ROOT + c) == ROOT && DirectoryEnumeration.Leaf(ROOT + c) == c
  {
    var k := ROOT + c;
    assert [] + ([SLASH] + c) == k;
    CleanExtend([], c);
    LastSlashBehind([], c);
    assert k[0 + 1..] == c;
  }

  lemma QuestionInRoot(files: seq<FileRecord>)
    requires |files| == 1 && files[0].relativePath == QUESTION && Tree(Namespace.Build(files))
    ensures ROOT + QUESTION in Namespace.Build(files).entries
  {
    InRoot(QUESTION);
    NormalizeRelative(QUESTION);
    FileAtOrAbove(files, 0, ROOT + QUESTION);
    EntryAtOrAbove(files, ROOT + QUESTION);
  }

  lemma QuestionAsked(toWide: bytes -> wide)
    requires toWide(QUESTION) == [97, 63]
    ensures var name := NamesBy(toWide);
            NormalizeProjected(ProjectedListing.AskedListed(ROOT, toWide(QUESTION), name)) != Key(QUESTION, false, name)
  {
    var k := ROOT + QUESTION;
    InRoot(QUESTION);
    assert k[1..] == QUESTION;
    assert Forbidden(toWide(QUESTION)[1]) && toWide(QUESTION)[1] in toWide(QUESTION);
    ProjectedListing.ListedNameAsksOwnKey(k, toWide);
  }
}
