# VirtualTorrentFS in Dafny

This project models the engine of VirtualTorrentFS and proves what its parts promise each other: a
torrent file is parsed, hashed and turned into a tree of virtual paths; the tree is projected under
Windows names and listed through resumable enumerations; reads are clamped, recorded in an LRU cache,
queued for pieces, downloaded at most once at a time, and served over HTTP ranges.

Code that changes state is modelled as a class or as a method with loops over the same state
(`BencodeParser`, `Sha1`, `CacheManager`, `TorrentEngine`, `TorrentSession`, `Provider`,
`ProjectedNames`); each method is proved to compute a function of its inputs or of the old state, and
the theorems are lemmas about these functions. Bytes are integers 0..255, strings of the program are
byte sequences, and the arithmetic of `std::uint64_t` and `std::uint32_t` wraps where the program's
wraps (`Machine`).

| files | what they hold |
|---|---|
| `Bytes`, `Machine`, `Decimal` | byte strings and their order, fixed-width arithmetic, decimal text |
| `Bencode`, `BencodeParser`, `BencodeTheorems`, `BencodeLanguage`, `BencodeWrapped` | encoder and parser of BEP 3, the parser object, round trip and canonical form, the accepted language and the reasons of rejection told without the parser, the parser with its 64-bit addition |
| `Sha1Spec`, `Sha1`, `Sha1Answer` | SHA-1 as in FIPS 180-4, the streaming hasher that refines it, and a known answer |
| `Metadata`, `MetadataTheorems`, `TorrentRoundTrip` | loading a torrent, info hash, tiling of the files, which values load, and descriptions that load as they were encoded |
| `Namespace`, `NamespaceTree`, `NamespaceWalk` | `buildIndex`, when its two maps are one tree, and walks of that tree |
| `TorrentPaths`, `TorrentWalk` | paths as lists of components, and the tree and its walk from the bytes of a torrent file on |
| `Projected`, `SpelledPaths`, `ProjectedTheorems`, `ProjectedResolution` | Windows names, the projected index, what a path registers there, the index against the tree, and when every name resolves |
| `DirectoryEnumeration`, `ProjectedListing`, `TorrentProjection` | the enumeration callbacks, what they deliver of the tree, and the projection from the bytes of a torrent file on |
| `Cache`, `LruHistory` | the bookkeeping map, eviction, and whole runs of it |
| `Engine`, `Session`, `SessionRuns` | request queue and pieces, the session, and whole runs of it against queue, cache and running downloads |
| `WebSeed`, `WebSeedContents`, `WebDav`, `UrlCodec` | the download protocol and what it leaves on disk, range serving, URL encoding |
| `ExampleTorrents`, `Examples` | torrents with given file lists, inputs at which the properties below fail, and a torrent at which all of them hold |

Properties that are false of the code as it stands, each with the exact condition under which it holds and
an input at which it fails:

- Re-encoding reproduces the bytes read if and only if they are canonical (`ReencodeIffCanonical`,
  `EncodeParse`, `InfoHashOfOwnBytes`). The parser accepts `-0` and leading zeros (`OddIntegersAccepted`)
  and keys in any order or twice (`PairsAccepted`); `InfoHashOfOtherBytes` is a torrent that loads and whose
  info hash is not the hash of its own bytes.
- The index is a tree if and only if all paths are clean, no two files share one and no file lies below
  another (`TreeIffSeparate`); `NoTrees` has a torrent that fails each of the three.
- A finished download is what appears under a destination in every run if and only if no path is another
  one with `.part` appended (`FinishedIffNoPartClash`); `ClashExposesTemp` is a run that fails.
- An eviction brings the true total within the budget if and only if no prefix of what was tracked is too
  large and hides it modulo 2^64 (`LongestPrefixThatFits` over whole runs, `BudgetKeptIff` for one call);
  `WrapKeepsTwo` is a run of two reads that fails.
- Offsets and total size are exact if and only if the sizes together stay below 2^64 (`LoadTiles`);
  `NegativeLengthsOverflow` is a torrent that fails.
- Where the index is a tree, every projected name resolves to its own entry if and only if no two paths
  share a key and every file's relative path spells its virtual path with slashes: behind an optional first
  slash it begins with the virtual path, and a slash or the end follows (`ResolvesIffSpelledUnshared`). In the
  torrent of `WrongFileFound` the name of one file finds another. In the torrent of `BackslashNotFound` no
  keys are shared, but its one file is named `t\a`: the tree has a directory `t`, and asking for it finds
  nothing, because the projected index does not take the backslash for a separator. For torrents with plain
  components only the keys matter (`LoadedResolvesIff`).
- The parser as the code makes it, with a 64-bit addition in its bound check, does what the one over natural
  numbers does for every string whose end stays below 2^64, and for no other (`TextAgreesIff`). So it agrees on
  every input except those in which a header that is read wraps, and these should be rejected (`ParseAgrees`).
  There it goes on from an earlier position: on `l18446744073709551595:` it never ends (`EndlessList`), and
  `l18446744073709551614:abcde` it accepts (`ExceedingAccepted`).
- A child of a directory, asked for under the name the enumeration lists it by, asks for its own key if and
  only if that name needs no sanitizing (`ListedNameAsksOwnKey`); `a?` does not (`ListedNameNotFound`).

## Model

| member | source | states |
|---|---|---|
| Decimal.SizeTextUnique | src/Bencode.cpp:80-87 | an accepted length header equals the text of its number exactly when it has no leading zero |
| Decimal.Int64TextUnique | src/Bencode.cpp:61-68 | an accepted integer token equals the text of its number exactly when it has no leading zero and is not `-0` |
| BencodeLanguage.SizeIffSpelled | src/Bencode.cpp:80-87 | the headers accepted for a length are exactly zeros followed by its digits, below 2^64 |
| BencodeLanguage.IntegerIffSpelled | src/Bencode.cpp:61-68 | the tokens accepted for an integer are exactly an optional minus sign, for a number that is not positive, zeros and the digits, in 64 bits |
| BencodeLanguage.ReadIffSpelled | src/Bencode.cpp:27-124 | at every position of every input the parser reads exactly the texts that spell a value, the value they spell |
| BencodeLanguage.AcceptedIffSpelled | src/Bencode.cpp:19-25 | an input is accepted as a value exactly if it spells it, rejected exactly if it spells none, and rejected for trailing bytes exactly if a proper prefix spells one |
| BencodeLanguage.RejectedIffFails | src/Bencode.cpp:27-124 | for every other reason, an input is rejected for it exactly if that is the first thing wrong with it |
| BencodeTheorems.BuildFirstWins | src/Bencode.cpp:112-124 | a dictionary read from any pairs is strictly ordered, holds only given pairs, and finds for every key the first value given for it |
| BencodeTheorems.RoundTrip | src/Bencode.cpp:27-161 | wherever the encoding of a value stands in an input, parsing there returns the value and stops exactly behind it |
| BencodeTheorems.ParseEncode | src/Bencode.cpp:19-25 | parsing the encoding of any value gives the value back |
| BencodeTheorems.EncodePrefixFree | src/Bencode.cpp:138-161 | an encoding that is a prefix of another encoding belongs to the same value, so encoding is injective and prefix-free |
| BencodeTheorems.ParsedValid | src/Bencode.cpp:27-124 | whatever is accepted is a value of the C++ types: 64-bit integers, ordered dictionaries, at any nesting |
| BencodeTheorems.ReencodeIffCanonical | src/Bencode.cpp:27-161 | at any position, re-encoding the parsed value gives the bytes that were read if and only if these are canonical |
| BencodeTheorems.EncodeParse | src/Bencode.cpp:19-161 | for every accepted input, encode after parse is the identity if and only if the input is canonical |
| BencodeTheorems.ReencodeIdempotent | src/Bencode.cpp:19-161 | re-encoding any accepted input gives a canonical text with the same value that re-encoding no longer changes |
| BencodeWrapped.TextAgreesIff | src/Bencode.cpp:71-97 | with the 64-bit addition a string is read as over the natural numbers if and only if its end stays below 2^64; otherwise the rest of the input is taken and the position moves back before its first byte |
| BencodeWrapped.ParseAgrees | src/Bencode.cpp:19-124 | on every input the whole parse with the 64-bit addition ends with the result over the natural numbers, unless a header that is read wraps; that result is then that a string exceeds the input |
| BencodeWrapped.EndlessList | src/Bencode.cpp:89-106 | on `l18446744073709551595:` the list loop reads the header at position 1 again and again without end |
| BencodeWrapped.ExceedingAccepted | src/Bencode.cpp:89-106 | `l18446744073709551614:abcde` is accepted as a list of two strings though the first exceeds the input |
| BencodeTheorems.BoundCheckIff | src/Bencode.cpp:90-95 | the check with its 64-bit addition decides as intended if and only if the addition does not wrap; otherwise the position would move back |
| Examples.OddIntegersAccepted | src/Bencode.cpp:64-68 | `i-0e` and `i01e` are accepted and re-encoded as `i0e` and `i1e` |
| Examples.PairsAccepted | src/Bencode.cpp:112-124 | pairs in any order, with keys once or more, are accepted, and re-encoding reproduces them if and only if the keys ascend strictly |
| Bencode.ParseValue | src/Bencode.cpp:27-46 | every successful parse strictly advances and stays within the input, which is why parsing terminates on every input |
| BencodeParsing.BencodeParser.Parse | src/Bencode.cpp:19-25 | the parser object accepts exactly what the parser function accepts, with the same value or the same error |
| BencodeParsing.BencodeParser.ParseValue | src/Bencode.cpp:27-46 | the object's value and its `pos_` afterwards, or its error, are those of the function at the old `pos_` |
| BencodeParsing.BencodeParser.ParseInteger | src/Bencode.cpp:48-69 | the integer read, the position behind its `e`, or one of the two error cases are those of the function |
| BencodeParsing.BencodeParser.ParseText | src/Bencode.cpp:71-97 | the string read, the position behind it, or one of the three error cases are those of the function, with the bound check as intended |
| BencodeParsing.BencodeParser.ParseList | src/Bencode.cpp:99-110 | the loop that collects items agrees with the recursive reading of the same bytes |
| BencodeParsing.BencodeParser.ParseDictionary | src/Bencode.cpp:112-124 | the loop that emplaces pairs builds the dictionary of all pairs in file order |
| BencodeParsing.EncodeBencode | src/Bencode.cpp:138-161 | the string built by appending is the canonical encoding |
| Sha1Stream.RotationsRotate | src/Sha1.cpp:10-12 | shift-or rotation is the ROTL of FIPS 180-4 for the three amounts used |
| Sha1Stream.ChoiceAndMajority | src/Sha1.cpp:100-108 | the OR forms of choice and majority equal the XOR forms of section 4.1.1 |
| Sha1Stream.Select | src/Sha1.cpp:97-112 | function value and constant of every round are those of sections 4.1.1 and 4.2.1 |
| Sha1Stream.Sha1.Expand | src/Sha1.cpp:80-89 | the 80 words are the message schedule of section 6.1.2 |
| Sha1Stream.Sha1.ProcessBlock | src/Sha1.cpp:79-126 | for every block and state the in-place loop is the compression function of the standard |
| Sha1Stream.Sha1.Update | src/Sha1.cpp:17-30 | after any update the object has absorbed the old message followed by the new bytes: state over full blocks, buffer the rest, bit count modulo 2^64 |
| Sha1Stream.Sha1.Final | src/Sha1.cpp:36-62 | the digest is the SHA-1 of everything updated so far, over both padding paths |
| Sha1Stream.Sha1.PadToLength | src/Sha1.cpp:37-47 | over one block or two, the message so far gets the one bit and exactly the zeros of section 5.1.1 |
| Sha1Stream.ZerosFor | src/Sha1.cpp:38-47 | the zeros written on either path are as many as the standard asks for |
| Sha1Stream.Sha1.Output | src/Sha1.cpp:54-61 | the 20 bytes are the five state words, most significant byte first |
| Sha1Spec.WordRoundTrip | src/Sha1.cpp:82-85 | a word cut into bytes and read back is the same word |
| Sha1Answer.Answer | src/Sha1.cpp:64-68 | the SHA-1 of `abc` is a9993e364706816aba3e25717850c26c9cd0d89d, with all 80 schedule words and round states on the way |
| Sha1Answer.ScheduleRecurs | src/Sha1.cpp:87-89 | the schedule of every block satisfies the recurrence of section 6.1.2 |
| Sha1Stream.LeftRotate | src/Sha1.cpp:10-12 | shift and or, as the code writes it, are the ROTL of the standard for every amount |
| Sha1Spec.PadStatesLength | src/Sha1.cpp:48-50 | a padded message begins with the message, and its last eight bytes, read back, are the number of bits modulo 2^64 |
| Sha1Spec.PadInjective | src/Sha1.cpp:36-52 | messages below 2^64 bits with the same padding are the same |
| Sha1Stream.Digest | src/Sha1.cpp:64-68 | the one-shot digest is the SHA-1 of the text |
| Sha1Stream.DigestPieces | src/Sha1.cpp:17-62 | hashing any split of a message piece by piece gives the SHA-1 of the whole |
| Sha1Stream.HexAt | src/Sha1.cpp:70-77 | every byte is two lower-case hexadecimal digits at its place |
| Sha1Stream.HexInjective | src/Sha1.cpp:70-77 | different digests have different hexadecimal texts |
| Metadata.JoinPathList | src/TorrentMetadata.cpp:22-35 | the components with slashes between them, those before the first non-empty one left out; the error exactly if one is no string |
| Metadata.LoadFiles | src/TorrentMetadata.cpp:74-87 | records and error of the loop are those of the file list; the running total is the sum of the sizes modulo 2^64 |
| Metadata.LoadFromBytes | src/TorrentMetadata.cpp:42-98 | every byte string gives the metadata or the error of the specification, errors in the order the code meets them |
| TorrentRoundTrip.LoadsIffTorrent | src/TorrentMetadata.cpp:42-98 | a byte string loads exactly if it is bencode and its value has an info dictionary with a name, a piece length, pieces, and a list of files with string paths and lengths, or one length |
| TorrentRoundTrip.EncodedLoads | src/TorrentMetadata.cpp:42-98 | for every description of a torrent, loading its encoding gives back name, announce text, piece length, hashes, and every file with its path, length and offset |
| TorrentRoundTrip.LoadedHashes | src/TorrentMetadata.cpp:60-66 | the stored hashes of every loaded torrent, joined in order, are its `pieces` text up to a rest of fewer than 20 bytes |
| TorrentPaths.FilesSpelled | src/TorrentMetadata.cpp:81 | where a file's components are non-empty and without separators, its virtual path is the path of the torrent's name and the components |
| TorrentPaths.PathInjective | src/TorrentMetadata.cpp:22-35 | different lists of such components have different paths |
| TorrentPaths.UnderIffPrefix | src/TorrentSession.cpp:15-21 | one path lies below another if and only if the other's components are a proper prefix of its own |
| TorrentPaths.LoadedTreeIff | src/TorrentSession.cpp:164-202 | for a torrent file with such components the index is a tree if and only if no file's components start another's |
| MetadataTheorems.SpanIsFound | src/TorrentMetadata.cpp:54-58 | the first occurrence of a key marks the bytes of the very value the lookup returns |
| MetadataTheorems.InfoHashOfOwnBytes | src/TorrentMetadata.cpp:43-68 | the info hash is the hex SHA-1 of the re-encoded info value, and that is the file's own bytes for it if and only if those are canonical |
| Examples.InfoHashOfOtherBytes | src/TorrentMetadata.cpp:68 | a torrent with two keys out of order loads, and what is hashed is not what the file holds |
| MetadataTheorems.LoadTiles | src/TorrentMetadata.cpp:70-95 | offsets are prefix sums modulo 2^64; they tile with the true total exactly when the sizes stay below 2^64 |
| Examples.NegativeLengthsOverflow | src/TorrentMetadata.cpp:82-85 | a torrent with two lengths of -1 loads, with a total size of 2^64 - 2 |
| MetadataTheorems.FileAtOffset | src/TorrentMetadata.cpp:74-95 | every position below the total lies in exactly one file: no gap, no overlap |
| NamespaceWalk.NormalizeKeeps | src/TorrentSession.cpp:204-220 | normalizing only adds a missing first slash, turns backslashes into slashes and cuts slashes at the end |
| NamespaceWalk.NormalizeIdempotent | src/TorrentSession.cpp:204-220 | every normalized path is absolute, has no backslash and no closing slash, and normalizing again changes nothing |
| Session.NormalizePath | src/TorrentSession.cpp:204-220 | the string edited in place is the normal form |
| NamespaceTree.PrefixIsAncestor | src/TorrentSession.cpp:15-21 | every directory the scan meets is reached from the path by taking parents |
| NamespaceTree.AncestorIsPrefix | src/TorrentSession.cpp:15-21 | every ancestor below the root is a prefix that ends before a slash |
| NamespaceTree.ScanClean | src/TorrentSession.cpp:179-198 | the character scan of a clean path adds exactly the directories on the way to it, in order |
| NamespaceTree.TreeIffSeparate | src/TorrentSession.cpp:164-202 | for every list of files the two maps are one tree if and only if all paths are clean, no two are equal and none lies below another |
| Examples.NoTrees | src/TorrentSession.cpp:164-202 | three torrents load and give no tree: two files with the components `t`, `x`; `t`, `x` with `t`, `x`, `y`; one file named `a//b` |
| NamespaceTree.NamespaceContents | src/TorrentSession.cpp:164-202 | the entries are exactly the root, the files with their records and the directories above files, and every listing is exact |
| NamespaceWalk.WalkVisits | src/TorrentSession.cpp:67-74 | walking the listings below a directory terminates and visits exactly the entries under it, each once |
| NamespaceWalk.WalkConserves | src/TorrentSession.cpp:67-74 | a walk from the root visits every file once with its record, every directory once, nothing else, and the sizes add up |
| TorrentWalk.WalkAddsUp | src/TorrentMetadata.cpp:85 | for a torrent file with plain components of which none starts another, the sizes seen on a walk of the tree add up to the total size |
| TorrentWalk.ByteHasOneEntry | src/TorrentSession.cpp:173-177 | every byte position of a loaded torrent belongs to exactly one entry seen on the walk |
| Examples.SmallTorrentWellFormed | src/TorrentMetadata.cpp:37-98 | there is a torrent file that meets every condition of the walk theorems |
| Session.TorrentSession.constructor | src/TorrentSession.cpp:42-48 | a started session has the index of its files, an empty cache, nothing in flight, and a running engine with an empty queue, for every loaded torrent |
| Session.TorrentSession.BuildIndex | src/TorrentSession.cpp:164-202 | for every file list the two maps the loops fill are those of the specification |
| Session.TorrentSession.LookupPath | src/TorrentSession.cpp:58-65 | a lookup gives the entry at the normalized path or nothing; the entry has that path, and is a directory or the entry of one of the files |
| Session.TorrentSession.ListPath | src/TorrentSession.cpp:67-74 | the listing is that of the normalized path, empty if there is none, and everything listed lies right below it and is a directory or one of the files |
| Session.IndexKnown | src/TorrentSession.cpp:173-190 | for every list of files, clean or not, each entry is a directory or the entry of one of the files, and of at most 2^31 files the one its 32-bit index names |
| Session.FoundIsNamed | src/TorrentSession.cpp:58-74 | for every list of files and every spelling of a path, what is found has the normalized path as its own, what is listed lies right below it, and the normalized path finds and lists the same |
| Session.ClampStreamWindow | src/TorrentSession.cpp:23-32 | the window is empty only behind the end, never leaves the file, and is shorter than asked or than the read-ahead only when it reaches the end |
| Session.TorrentSession.BeginStreaming | src/TorrentSession.cpp:117-119 | a read inside a file is recorded in the cache, evicts, considers a download, queues one request within that file and pumps once; any other changes nothing |
| Session.TorrentSession.QueueRead | src/TorrentSession.cpp:121-133 | for any window, clamped or not: all of this, or nothing for a directory, an empty window or an offset behind the end; the queue stays inside files if the window does |
| Session.TorrentSession.EnsureWebSeedDownload | src/TorrentSession.cpp:140-162 | a download starts exactly for a file without payload that is not in flight, and its path is in flight afterwards |
| Session.ConsideredIsCheckAndClaim | src/TorrentSession.cpp:145-155 | considering a download is the check and claim of one reader of the download protocol, with a worker started exactly if none was in flight |
| SessionRuns.QueueIsEngine | src/TorrentSession.cpp:121-133 | over any run the queue of the session is that of an engine which is started and meets one request and one pump for each read inside a file |
| SessionRuns.StreamsStayInFiles | src/TorrentEngine.cpp:88-97 | over any run of a session with entries from its index, requests taken and pending are those of the reads since the last stop, in order, each inside its file |
| SessionRuns.CacheIsHistory | src/TorrentSession.cpp:126-127 | over any run the cache of the session is that of touching and evicting once for each read inside a file |
| SessionRuns.CacheKeepsLongestPrefix | src/CacheManager.cpp:16-45 | over any run the tracked files are a most-recent-first prefix of those read; right after a read every prefix that fits is tracked, and the true total fits exactly when no prefix wraps into the budget |
| SessionRuns.InFlightIffAsked | src/TorrentSession.cpp:140-162 | over any run a path is in flight exactly if a read found its payload missing, with downloads enabled, and no download of it ended since |
| Cache.CacheManager.Touch | src/CacheManager.cpp:16-19 | the key gets its size and a tick newer than all, so ticks stay distinct |
| Cache.CacheManager.EvictIfNeeded | src/CacheManager.cpp:21-45 | the loops leave exactly what repeatedly dropping the oldest entry until the rest fits leaves |
| Cache.SumSizes | src/CacheManager.cpp:23-26 | the running total is the sum over the map modulo 2^64, in any order |
| Cache.OldestFirst | src/CacheManager.cpp:31-34 | all entries, oldest first |
| Cache.EvictExact | src/CacheManager.cpp:21-45 | eviction keeps the largest newest run that fits; every survivor is newer than every victim |
| LruHistory.TrackedPrefix | src/CacheManager.cpp:16-45 | under any interleaving of touches and evictions the tracked entries are a most-recent-first prefix of everything ever touched |
| LruHistory.LargerBudgetTracksMore | src/CacheManager.cpp:16-45 | on the same steps a larger budget tracks a superset at every moment |
| LruHistory.LongestPrefixThatFits | src/TorrentSession.cpp:126-127 | right after every eviction of every run with one size per key, every most-recent-first prefix whose sizes fit is tracked; the tracked keys are the longest of these if and only if no prefix of what was there before wraps into the budget |
| LruHistory.BudgetKeptIff | src/CacheManager.cpp:23-44 | the true total fits after eviction if and only if no prefix exceeds the budget and hides it modulo 2^64 |
| LruHistory.WrapKeepsTwo | src/TorrentSession.cpp:126-127 | two reads of files of 2^63 bytes, each followed by its eviction, stay tracked under a budget of 2^63 |
| Engine.TorrentEngine.Stop | src/TorrentEngine.cpp:30-35 | the queue is emptied and the engine stopped |
| Engine.TorrentEngine.RequestFileData | src/TorrentEngine.cpp:37-43 | a request is appended while the engine runs and dropped otherwise |
| Engine.TorrentEngine.PumpOnce | src/TorrentEngine.cpp:62-98 | a pump takes the oldest request if there is a connection and asks for its block, at most 16 KiB |
| Engine.QueueKeepsRequests | src/TorrentEngine.cpp:30-98 | over any run, requests taken since the last stop followed by those pending are the accepted ones in order |
| Engine.PumpsDrain | src/TorrentEngine.cpp:62-98 | pumps of a running engine take the oldest requests, one each, from the first pump with a connection on, and nothing before that |
| Engine.BlockIsRequested | src/TorrentEngine.cpp:88-97 | the block asked for begins at the request's first byte, stays in its file, and is as long as the request or 16 KiB, whichever is less |
| Engine.PieceRecombines | src/TorrentEngine.cpp:90-93 | piece index and offset put together are the position in the torrent |
| Engine.PieceInjective | src/TorrentEngine.cpp:90-93 | different bytes of files get different places |
| Engine.PieceSurjective | src/TorrentEngine.cpp:90-93 | every place below the total is the place of a byte of a file |
| Engine.PieceHasHash | src/TorrentEngine.cpp:101-104 | if the stored hashes cover the torrent, every byte of every file lies in a piece with a hash |
| Engine.TorrentEngine.VerifyPiece | src/TorrentEngine.cpp:101-109 | a piece is accepted exactly when its index exists and its SHA-1 is the stored hash |
| WebSeed.OneDownloadPerPath | src/TorrentSession.cpp:135-162 | in every interleaving of readers and workers the in-flight set is exactly the paths with a claimed or running download, never two for one path |
| WebSeed.FilesStaySafe | src/WebSeedClient.cpp:191-249 | in every interleaving each open temporary file belongs to one worker and holds what it received, and destinations hold finished bodies |
| WebSeed.SingleWriter | src/WebSeedClient.cpp:191-249 | in every interleaving, whatever the paths are, no two workers ever write to the same file |
| WebSeed.ClashExposesTemp | src/WebSeedClient.cpp:192-193 | if one path is another with `.part` appended, three steps put an unfinished file under a destination |
| WebSeed.FinishedIffNoPartClash | src/WebSeedClient.cpp:191-249 | in all runs destinations only ever hold a finished body for their path, if and only if there is no such clash |
| WebSeedContents.BodyIsReceived | src/WebSeedClient.cpp:205-233 | in every run a worker with a file keeps in it exactly the chunks it received, in order |
| WebSeedContents.FinishedIsReceived | src/WebSeedClient.cpp:205-240 | in every run a body counts as finished only if it did at the start or is all that a worker for that path received until its receive loop ended well |
| WebSeedContents.DestinationsHoldReceived | src/WebSeedClient.cpp:191-249 | in every run without a clash each destination holds what it held at the start or exactly such a body |
| WebSeedContents.RenameDelivers | src/WebSeedClient.cpp:242-248 | without a clash a successful rename, the first or the second, puts exactly what the worker received under its path and takes the temporary name away |
| WebSeedContents.WholeDownload | src/WebSeedClient.cpp:191-249 | a missing file asked for once is there after its download, made of all chunks in order, by either way of renaming, with no temporary file and nothing in flight |
| WebSeedContents.FailureCleansUp | src/WebSeedClient.cpp:236-240 | a download that fails removes its temporary file and nothing else |
| UrlCodec.PercentEncodePath | src/WebSeedClient.cpp:60-72 | the text built in the loop is the encoding of every byte in order |
| UrlCodec.UrlDecode | src/WebDavServer.cpp:98-114 | the loop with its skipped characters is the decoding, malformed escapes kept |
| UrlCodec.DecodeEncode | src/WebSeedClient.cpp:60-72 | decoding undoes encoding for every non-empty byte string |
| UrlCodec.EncodedIsWellEscaped | src/WebSeedClient.cpp:60-72 | every encoding consists of unreserved characters, slashes and upper-case escapes, and a text is its own encoding exactly if it has no other characters |
| UrlCodec.DecodedPieces | src/WebDavServer.cpp:98-114 | an escape in either case is decoded to its byte, `+` to a space, every other byte and a `%` without two digits behind it to itself; an empty result is `/` |
| UrlCodec.EncodeInjective | src/WebSeedClient.cpp:60-72 | different paths have different encodings |
| WebDav.ParseRange | src/WebDavServer.cpp:161-168 | a range is non-empty, lies in the file and covers exactly the requested positions; there is none exactly when it starts behind the file or ends before it starts |
| Session.TorrentSession.TryReadFileRange | src/TorrentSession.cpp:89-115 | bytes of the file from the offset on, never more than asked for or than there are; a missing payload makes a download considered |
| WebDav.SendAll | src/WebDavServer.cpp:135-150 | success exactly when all bytes went out |
| WebDav.ReadChunk | src/WebDavServer.cpp:393-406 | bytes of the file at the position come exactly if one of 1200 attempts is the first to find some and none before it gives up: reads nothing of a payload with no download running, after the reads ahead of the attempts before it |
| WebDav.SendRange | src/WebDavServer.cpp:386-412 | for any short reads and partial sends a prefix of the range goes out; leaving by the loop condition means all of it, as many bytes as announced; the session's queue holds only requests inside files all the while |
| WebDav.Serve | src/WebDavServer.cpp:361-412 | a range answer announces and sends that range, any other answer the whole file; a HEAD announces the same, sends nothing, and leaves the session as one read ahead of at most 2 MiB does |
| DirectoryEnumeration.DeliversInOrder | src/VirtualDrive.cpp:528-543 | any gets with any buffer capacities deliver the listing in order from the current position, nothing skipped or repeated |
| DirectoryEnumeration.EnumerationDeliversOnce | src/VirtualDrive.cpp:499-545 | from a start or restart on, what is delivered is in order, has each entry of the filtered listing at most as often as it is listed, and is all of it exactly when the buffers took enough |
| DirectoryEnumeration.Provider.GetDirEnum | src/VirtualDrive.cpp:499-545 | the callback makes that step; a reload is the filtered listing, in order, of the directory found under the projected name; it fails exactly when an offered entry fails |
| DirectoryEnumeration.Provider.FillBuffer | src/VirtualDrive.cpp:528-544 | the loop delivers consecutive entries up to the first one not taken |
| DirectoryEnumeration.Filter | src/VirtualDrive.cpp:510-517 | exactly the matching entries, in order |
| DirectoryEnumeration.Sort | src/VirtualDrive.cpp:518-524 | the same entries in the order of their names |
| ProjectedListing.ListedNameAsksOwnKey | src/VirtualDrive.cpp:533-535 | a child asked for under the name it is listed by asks for its own key if and only if that name is one Windows accepts |
| Examples.ListedNameNotFound | src/VirtualDrive.cpp:533-535 | the file of a torrent named `a?`, asked for under the name it is listed by, does not ask for its own key |
| ProjectedListing.ListsOwnChildren | src/VirtualDrive.cpp:385-391 | where relative paths spell their virtual paths and no two paths share a key, a directory asked for by either projected name lists exactly what the session lists for it |
| ProjectedListing.EnumeratesChildren | src/VirtualDrive.cpp:499-545 | under the same condition an enumeration with enough buffer delivers exactly the matching children of the directory in the tree, each once and in order |
| TorrentProjection.LoadedEnumeratesChildren | src/VirtualDrive.cpp:499-545 | for a torrent file with plain components of which none starts another, so does an enumeration wherever no two paths share a key |
| Projected.SanitizeFixesWindowsNames | src/VirtualDrive.cpp:52-67 | sanitizing leaves exactly the names Windows accepts as they are, so doing it twice changes nothing more |
| Projected.SanitizeAt | src/VirtualDrive.cpp:52-67 | character by character, what is forbidden, or a space or dot at the end, becomes an underscore and everything else stays |
| Projected.SanitizeWindowsComponent | src/VirtualDrive.cpp:52-67 | the name edited in place is that name, of the same length unless it was empty |
| Projected.Sanitize | src/VirtualDrive.cpp:52-67 | the result is a name Windows accepts: not empty, no forbidden character, no closing space or dot |
| Projected.KnownFallbacks | src/VirtualDrive.cpp:157-179 | the fallback names of the empty text and of `a` are `file_811C9DC5` and `a_E40C292C` |
| Projected.FallbackKeepsHash | src/VirtualDrive.cpp:157-179 | the fallback name is kept as built by the sanitizer and shows the hash: equal names mean equal hashes |
| Projected.RelativeProjectedPathFor | src/VirtualDrive.cpp:101-117 | the loop over slashes builds the projected path |
| Projected.ProjectedNames.RegisterProjectedPath | src/VirtualDrive.cpp:358-375 | the map gains both keys of every directory on the way and of the path, keys already there kept |
| Projected.ProjectedNames.BuildProjectedNameIndex | src/VirtualDrive.cpp:349-356 | the map is that of registering every file in order, from the root key alone |
| Projected.ClosingSeparator | src/VirtualDrive.cpp:85-99 | a separator behind a name that is asked for makes no difference |
| ProjectedTheorems.AskedKey | src/VirtualDrive.cpp:85-121 | asking for a projected name with backslashes asks for exactly the key it was registered under |
| ProjectedTheorems.KeyOfChild | src/VirtualDrive.cpp:101-121 | the key of a path is the key of its directory, a slash, and the name of its last component |
| ProjectedTheorems.IndexKeepsFirst | src/VirtualDrive.cpp:349-375 | for every list of files the value of a key is the first path with that key in the order of registration |
| SpelledPaths.RegistersBoundaries | src/VirtualDrive.cpp:358-375 | a non-empty relative path, but for one slash at its start not beginning with a slash, registers exactly its prefixes that end before a slash or at a component's end, and the root if it has that slash |
| SpelledPaths.RegisteredVirtual | src/TorrentSession.cpp:204-220 | in the namespace, whatever separators a path with clean virtual path has, each of them is the file's virtual path or a directory above it |
| SpelledPaths.FileRegistersAncestors | src/VirtualDrive.cpp:358-375 | a path that is its virtual path but for one slash at either end registers itself and its ancestors below the root and nothing else but, at most, the root |
| ProjectedTheorems.ValuesLookUp | src/VirtualDrive.cpp:377-383 | for every list of files whose index is a tree, every value of the projected index looks up to an entry |
| ProjectedTheorems.ProjectionAgrees | src/VirtualDrive.cpp:349-383 | for such paths every value of the index looks up to an entry that has the key, and every path of the tree has both its keys in the index |
| ProjectedTheorems.AskFinds | src/VirtualDrive.cpp:377-383 | every path of the tree asked for by either name finds an entry with that key |
| ProjectedResolution.KeySpells | src/VirtualDrive.cpp:101-121 | a registered path that has the fallback key of its file's virtual path, by either naming, spells that path with slashes |
| ProjectedResolution.NamesByTelling | src/VirtualDrive.cpp:157-179 | equal fallback names come from names of one length, and no display name of an empty text or one that ends in a backslash is a fallback name |
| ProjectedResolution.ResolvesIffSpelledUnshared | src/VirtualDrive.cpp:349-383 | where the index is a tree, every name resolves to its own entry if and only if no two paths of the tree share a key and every relative path spells its virtual path |
| TorrentProjection.LoadedProjectionAgrees | src/VirtualDrive.cpp:349-383 | for a torrent file with plain components of which none starts another, keys and paths of the tree agree in both directions |
| TorrentProjection.LoadedResolvesIff | src/VirtualDrive.cpp:349-383 | for such a torrent file every name resolves to its own entry if and only if no two paths share a key |
| Examples.WrongFileFound | src/VirtualDrive.cpp:349-383 | a torrent with the files `a?` and `a*` loads, and asking for the display name of the second finds the first |
| Examples.BackslashNotFound | src/VirtualDrive.cpp:358-375 | a torrent with one file named `t\a` loads, its index is a tree in which no two paths share a key, and asking for the directory `t` finds nothing |
| ProjectedTheorems.DisplayNamesCanClash | src/VirtualDrive.cpp:52-67 | two names that differ in a forbidden character have the same display key |

## Left out

- BencodeParsing.BencodeParser.ParseText: the bound check at src/Bencode.cpp:90 is modelled over natural numbers, as intended; `BencodeWrapped` has the parser with the 64-bit addition as functions with a bound on calls, since it need not end, and says where both agree.
- Cache.CacheManager.Touch: `tick_` is unbounded; the code's 64-bit counter would wrap after 2^64 touches.
- Cache.CacheManager.EvictIfNeeded: only the bookkeeping map is modelled, not the file removal at src/CacheManager.cpp:38, so nothing is said about payload files; `std::sort` is a selection by tick.
- LruHistory.LongestPrefixThatFits: assumes that a key keeps its size, as file entries do.
- NamespaceTree.NamespaceContents: says what is in the index only where it is a tree; otherwise `TreeIffSeparate` says that it is none.
- ProjectedTheorems.ProjectionAgrees: the index must be a tree, and relative paths must be their virtual paths but for one slash at either end; `ValuesLookUp` and `ResolvesIffSpelledUnshared` need no more than the tree, and of other lists `IndexKeepsFirst` says what the projected index holds.
- ProjectedResolution.ResolvesIffSpelledUnshared: assumes of the decoding of names that the empty text stays empty and a backslash at the end stays one, as in the code pages at src/VirtualDrive.cpp:27-50.
- Session.TorrentSession.BeginStreaming: an entry must be a directory or the entry of a file, which more than 2^31 files can fail because of the 32-bit index, and where a pump takes a request the piece length must have low 32 bits other than zero: the code indexes and divides by these unchecked.
- Engine.TorrentEngine.PumpOnce: whether a connection exists after a pump, and whether the interested message goes out, are inputs; the choice of peers, the announce and the sockets are not modelled. It does not say that a block stays inside its piece, because the code only limits its length.
- Engine.PieceRecombines: sizes tile without overflow, and piece length and piece index fit in 32 bits.
- Projected.NamesBy: decoding of torrent text by code page is an arbitrary function.
- Projected.FallbackKeepsHash: fallback names are not claimed to be unique; different tokens can have the same 32-bit hash.
- DirectoryEnumeration.Provider.GetDirEnum: the order of names and the match of a search expression are arbitrary (the order by a rank, equal ranks allowed); the entries reach the system as a sequence, and what it does with each is an input.
- DirectoryEnumeration.Sort: an insertion sort stands for `std::sort`, which promises the same.
- Session.TorrentSession.EnsureWebSeedDownload: makes its check and its claim in one step; `WebSeed` has them as two, with other threads in between.
- Session.TorrentSession.TryReadFileRange: whether the payload is there, opens, and how much of it can be read are inputs; what can be read are the bytes of one fixed file.
- WebDav.ParseRange: the two numbers are inputs; the text of the header and what `std::stoull` accepts are not modelled.
- WebDav.ReadChunk: with `Waiting`, `WaitOnce` and `Try` a part of one function of the program.
- WebDav.SendRange: of other threads only the end of the file's own download is interleaved with the attempts; the sleep is left out.
- WebDav.Serve: starts where the entry is found and is a file; the texts of the response headers are not modelled, only whether they went out.
- WebSeed.FinishedIffNoPartClash: a body counts as finished when the receive loop ends with a parsed header, since the code does not compare it with a content length; writes to disk succeed, and two names are one file only if the directory says so.
- Sha1Stream.Sha1.Expand: with `FirstWords`, `Assembled`, `Select`, `Turn`, `Increased`, `Accumulate`, `Flush`, `Append`, `Copy`, `PadToLength`, `MakeRoom`, `FillZeros`, `AppendLength` and `Output` it is a part of one function of the program that is a method of its own here.
- Threads, locks and sockets as such; the download protocol is a state machine over the points where threads can interfere.
- PROPFIND and the texts of requests and responses.
- ProjFS placeholders, hard links, the sparse fallback tree and drive letters: foreign effects.
- Peer protocol, port mapping, DHT and tracker messages, configuration and start-up: fixed layouts that would add easy members.
