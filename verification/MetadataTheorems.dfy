/** What the loaded metadata says about the torrent file it was read from. */
module MetadataTheorems {
  import opened Bytes
  import opened Machine
  import opened Bencode
  import opened BencodeTheorems
  import opened Namespace
  import opened Metadata
  import Sha1Spec
  import Sha1Stream

  // ----- the info hash

  /** The bytes of the value that belongs to the first pair with the given key: start and end. */
  function ValueSpan(s: bytes, pos: nat, key: bytes): Option<(nat, nat)>
    requires pos <= |s| && ParsePairs(s, pos).Done?
    decreases |s| - pos
  {
    if s[pos] == CH_E then None
    else
      var k := ParseText(s, pos);
      var v := ParseValue(s, k.next);
      if k.value == key then Some((k.next, v.next)) else ValueSpan(s, v.next, key)
  }

  lemma {:induction false} SpanIsFound(s: bytes, pos: nat, key: bytes)
    requires pos <= |s| && ParsePairs(s, pos).Done?
    ensures var found := Find(ParsePairs(s, pos).value, key);
            match ValueSpan(s, pos, key)
            case None => found == None
            case Some(span) =>
              span.0 < span.1 <= |s| && found.Some? && ParseValue(s, span.0) == Done(found.value, span.1)
    decreases |s| - pos
  {
    if s[pos] != CH_E {
      var k := ParseText(s, pos);
      var v := ParseValue(s, k.next);
      SpanIsFound(s, v.next, key);
      var rest := ParsePairs(s, v.next).value;
      assert ([Entry(k.value, v.value)] + rest)[1..] == rest;
    }
  }

  /** The info hash is the hash of the re-encoded value of the first `info` key. */
  lemma LoadedInfo(raw: bytes) returns (info: Value)
    requires Load(raw).Ok?
    ensures Bencode.Parse(raw).Ok? && ParsePairs(raw, 1).Done?
    ensures Find(ParsePairs(raw, 1).value, INFO) == Some(info)
    ensures Load(raw).value.infoHashHex == Sha1Stream.Hex(Sha1Spec.Sha1(Encode(info)))
  {
    BuildFirstWins(ParsePairs(raw, 1).value, INFO);
    info := RequireKey(Bencode.Parse(raw).value.entries, INFO).value;
  }

  /** The info hash is taken over the file's own bytes exactly when these are canonical: the hashed
      text is the re-encoded info value, and it equals the bytes the file holds for the first `info`
      key if and only if those bytes are in canonical form. */
  lemma InfoHashOfOwnBytes(raw: bytes) returns (start: nat, end: nat, hashed: bytes)
    requires Load(raw).Ok?
    ensures Bencode.Parse(raw).Ok? && ParsePairs(raw, 1).Done? && ValueSpan(raw, 1, INFO) == Some((start, end))
    ensures start < end <= |raw| && ParseValue(raw, start).Done? && ParseValue(raw, start).next == end
    ensures hashed == Encode(ParseValue(raw, start).value)
    ensures Load(raw).value.infoHashHex == Sha1Stream.Hex(Sha1Spec.Sha1(hashed))
    ensures hashed == raw[start..end] <==> Canonical(raw, start)
  {
    var info := LoadedInfo(raw);
    SpanIsFound(raw, 1, INFO);
    var span := ValueSpan(raw, 1, INFO).value;
    start, end := span.0, span.1;
    hashed := Encode(info);
    OwnBytesIffCanonical(raw, start);
  }

  lemma OwnBytesIffCanonical(s: bytes, pos: nat)
    requires pos <= |s| && ParseValue(s, pos).Done?
    ensures var r := ParseValue(s, pos); Encode(r.value) == s[pos..r.next] <==> Canonical(s, pos)
  {
    ReencodeIffCanonical(s, pos);
    OccursSlice(s, pos, Encode(ParseValue(s, pos).value));
  }

  // ----- the files tile the torrent

  /** Every file starts where the one before it ends. */
  ghost predicate Tiles(files: seq<FileRecord>) {
    forall i :: 0 <= i < |files| ==> files[i].offset == SizesTotal(files[..i])
  }

  /** Where file `i` starts, computed modulo 2^64 from the start of the first. */
  function OffsetOf(base: nat, files: seq<FileRecord>, i: nat): nat
    requires i <= |files|
  {
    Low64(base + SizesTotal(files[..i]))
  }

  lemma {:induction false} FilesFromOffsets(name: bytes, items: seq<Value>, offset: nat)
    requires FilesFrom(name, items, offset).Ok? && offset < TWO_64
    ensures var files := FilesFrom(name, items, offset).value;
            forall i :: 0 <= i < |files| ==> files[i].offset == OffsetOf(offset, files, i)
  {
    if items != [] {
      var record := OneFile(name, items[0], offset).value;
      var next := Add64(offset, record.size);
      FilesFromOffsets(name, items[1..], next);
      var rest := FilesFrom(name, items[1..], next).value;
      forall i | 0 <= i < |[record] + rest|
        ensures ([record] + rest)[i].offset == OffsetOf(offset, [record] + rest, i)
      {
        if i > 0 { OffsetStep(offset, record, rest, i - 1); }
      }
    }
  }

  lemma OffsetStep(offset: nat, record: FileRecord, rest: seq<FileRecord>, i: nat)
    requires i <= |rest|
    ensures OffsetOf(Add64(offset, record.size), rest, i) == OffsetOf(offset, [record] + rest, i + 1)
  {
    assert ([record] + rest)[..i + 1] == [record] + rest[..i];
    SizesTotalPrepend(record, rest[..i]);
    AddModulo(offset + record.size, SizesTotal(rest[..i]));
  }

  lemma {:induction false} SizesTotalPrepend(record: FileRecord, files: seq<FileRecord>)
    ensures SizesTotal([record] + files) == record.size + SizesTotal(files)
  {
    var all := [record] + files;
    if files == [] {
      assert all[..0] == [];
      assert SizesTotal(all) == SizesTotal(all[..0]) + record.size;
    } else {
      SizesTotalPrepend(record, files[..|files| - 1]);
      assert all[..|all| - 1] == [record] + files[..|files| - 1];
    }
  }

  lemma {:induction false} PrefixSmaller(files: seq<FileRecord>, i: nat)
    requires i <= |files|
    ensures SizesTotal(files[..i]) <= SizesTotal(files)
    ensures i < |files| ==> SizesTotal(files[..i]) + files[i].size <= SizesTotal(files)
    decreases |files|
  {
    if i == |files| {
      assert files[..i] == files;
    } else {
      var front := files[..|files| - 1];
      if i < |front| {
        PrefixSmaller(front, i);
        assert front[..i] == files[..i];
      } else {
        assert files[..i] == front;
      }
    }
  }

  /** The loaded offsets and total are those of a tiling, computed modulo 2^64; they are a tiling with
      the true total exactly when the sizes together stay below 2^64. */
  lemma LoadTiles(raw: bytes)
    requires Load(raw).Ok?
    ensures var m := Load(raw).value;
            && m.totalSize == Low64(SizesTotal(m.files))
            && (forall i :: 0 <= i < |m.files| ==> m.files[i].offset == OffsetOf(0, m.files, i))
            && (SizesTotal(m.files) < TWO_64 <==> Tiles(m.files) && m.totalSize == SizesTotal(m.files))
  {
    var info, name, files := LoadedFrom(raw);
    FilesOfOffsets(info, name);
    if SizesTotal(files) < TWO_64 {
      TilesBelow64(files);
      SmallIsLow(SizesTotal(files));
    }
  }

  lemma LoadedFrom(raw: bytes) returns (info: seq<Entry>, name: bytes, files: seq<FileRecord>)
    requires Load(raw).Ok?
    ensures Bencode.Parse(raw).Ok? && Bencode.Parse(raw).value.Dictionary?
    ensures RequireKey(Bencode.Parse(raw).value.entries, INFO) == Ok(Dictionary(info)) && RequireText(info, NAME) == Ok(name)
    ensures files == Load(raw).value.files && FilesOf(info, name) == Ok(files)
    ensures Load(raw).value.totalSize == Low64(SizesTotal(files))
  {
    info := RequireKey(Bencode.Parse(raw).value.entries, INFO).value.entries;
    name := RequireText(info, NAME).value;
    files := Load(raw).value.files;
  }

  lemma FilesOfOffsets(info: seq<Entry>, name: bytes)
    requires FilesOf(info, name).Ok?
    ensures var files := FilesOf(info, name).value;
            forall i :: 0 <= i < |files| ==> files[i].offset == OffsetOf(0, files, i)
  {
    match Find(info, FILES)
    case Some(list) => FilesFromOffsets(name, list.items, 0);
    case None =>
  }

  lemma TilesBelow64(files: seq<FileRecord>)
    requires forall i :: 0 <= i < |files| ==> files[i].offset == OffsetOf(0, files, i)
    requires SizesTotal(files) < TWO_64
    ensures Tiles(files)
  {
    forall i | 0 <= i < |files| ensures files[i].offset == SizesTotal(files[..i]) {
      OffsetBelow64(files, i);
    }
  }

  lemma OffsetBelow64(files: seq<FileRecord>, i: nat)
    requires i <= |files| && SizesTotal(files) < TWO_64
    ensures OffsetOf(0, files, i) == SizesTotal(files[..i])
  {
    PrefixSmaller(files, i);
    SmallIsLow(SizesTotal(files[..i]));
  }

  lemma TilesOfFront(files: seq<FileRecord>)
    requires Tiles(files) && files != []
    ensures Tiles(files[..|files| - 1])
  {
    var front := files[..|files| - 1];
    forall j | 0 <= j < |front| ensures front[j].offset == SizesTotal(front[..j]) {
      assert front[..j] == files[..j];
    }
  }

  /** In a tiling each file ends before every later one starts. */
  lemma FilesInOrder(files: seq<FileRecord>, j: nat, i: nat)
    requires Tiles(files) && j < i < |files|
    ensures files[j].offset + files[j].size <= files[i].offset
  {
    PrefixSmaller(files[..i], j);
    assert files[..i][..j] == files[..j];
  }

  /** Every byte of the torrent belongs to exactly one file: the files of a tiling leave no gap and do
      not overlap. */
  lemma FileAtOffset(files: seq<FileRecord>, g: nat) returns (i: nat)
    requires Tiles(files) && g < SizesTotal(files)
    ensures i < |files| && files[i].offset <= g < files[i].offset + files[i].size
    ensures forall j :: 0 <= j < |files| && files[j].offset <= g < files[j].offset + files[j].size ==> j == i
  {
    i := SomeFileAt(files, g);
    forall j | 0 <= j < |files| && j != i ensures !(files[j].offset <= g < files[j].offset + files[j].size) {
      if j < i { FilesInOrder(files, j, i); } else { FilesInOrder(files, i, j); }
    }
  }

  lemma {:induction false} SomeFileAt(files: seq<FileRecord>, g: nat) returns (i: nat)
    requires Tiles(files) && g < SizesTotal(files)
    ensures i < |files| && files[i].offset <= g < files[i].offset + files[i].size
  {
    var n := |files| - 1;
    if g < SizesTotal(files[..n]) {
      TilesOfFront(files);
      i := SomeFileAt(files[..n], g);
    } else {
      i := n;
    }
  }
}
