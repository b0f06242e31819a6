/**
 The projected-path index: names of torrent paths as Windows sees them, and the map that leads from a
 projected path back to the path in the namespace.
 */
module Projected {
  import opened Bytes
  import opened Namespace

  /** A UTF-16 code unit and a wide string. */
  type wchar = n: int | 0 <= n < 0x1_0000

  type wide = seq<wchar>

  const WSLASH: wchar := 47
  const WBACKSLASH: wchar := 92
  const UNDERSCORE: wchar := 95
  const WSPACE: wchar := 32
  const WDOT: wchar := 46
  const WROOT: wide := [WSLASH]

  // ----- component names

  /** A control character or one of < > : " / \ | ? * */
  predicate Forbidden(c: wchar) {
    c < 32 || c == 60 || c == 62 || c == 58 || c == 34 || c == WSLASH || c == WBACKSLASH || c == 124 || c == 63 || c == 42
  }

  predicate SpaceOrDot(c: wchar) { c == WSPACE || c == WDOT }

  function Replaced(name: wide): (r: wide)
    ensures |r| == |name| && forall c <- r :: !Forbidden(c)
  {
    if name == [] then []
    else
      var last := name[|name| - 1];
      Replaced(name[..|name| - 1]) + [if Forbidden(last) then UNDERSCORE else last]
  }

  /** A name Windows accepts: not empty, without forbidden characters, not ending in a space or dot. */
  predicate WindowsName(name: wide) {
    name != [] && !SpaceOrDot(name[|name| - 1]) && forall c <- name :: !Forbidden(c)
  }

  function Sanitize(name: wide): (r: wide)
    ensures WindowsName(r)
  {
    var r := Replaced(name);
    if r == [] then [UNDERSCORE]
    else if SpaceOrDot(r[|r| - 1]) then r[..|r| - 1] + [UNDERSCORE]
    else r
  }

  lemma {:induction false} ReplacedKeeps(name: wide)
    ensures Replaced(name) == name <==> forall c <- name :: !Forbidden(c)
  {
    if name != [] {
      var front, last := name[..|name| - 1], name[|name| - 1];
      ReplacedKeeps(front);
      assert name == front + [last];
      assert Replaced(name)[..|name| - 1] == Replaced(front) && last in name;
    }
  }

  lemma {:induction false} ReplacedAt(name: wide, i: nat)
    requires i < |name|
    ensures Replaced(name)[i] == if Forbidden(name[i]) then UNDERSCORE else name[i]
  {
    if i < |name| - 1 {
      ReplacedAt(name[..|name| - 1], i);
    }
  }

  /** The character is not accepted where it stands. */
  predicate Refused(name: wide, i: nat)
    requires i < |name|
  {
    Forbidden(name[i]) || (i == |name| - 1 && SpaceOrDot(name[i]))
  }

  /** Character by character: what is not accepted becomes an underscore, everything else stays; only the
      empty name gets longer. */
  lemma SanitizeAt(name: wide, i: nat)
    requires i < |name|
    ensures |Sanitize(name)| == |name| && Sanitize([]) == [UNDERSCORE]
    ensures Sanitize(name)[i] == if Refused(name, i) then UNDERSCORE else name[i]
  {
    ReplacedAt(name, i);
    ReplacedAt(name, |name| - 1);
  }

  lemma SanitizeAll(name: wide)
    ensures var r := Sanitize(name);
            && |r| == (if name == [] then 1 else |name|) && (name == [] ==> r == [UNDERSCORE])
            && forall i :: 0 <= i < |name| ==> r[i] == if Refused(name, i) then UNDERSCORE else name[i]
  {
    if name != [] {
      SanitizeAt(name, 0);
    }
    forall i | 0 <= i < |name| ensures Sanitize(name)[i] == if Refused(name, i) then UNDERSCORE else name[i] {
      SanitizeAt(name, i);
    }
  }

  /** Exactly the names Windows accepts are left as they are; so sanitizing twice changes nothing more. */
  lemma SanitizeFixesWindowsNames(name: wide)
    ensures Sanitize(name) == name <==> WindowsName(name)
    ensures Sanitize(Sanitize(name)) == Sanitize(name)
  {
    ReplacedKeeps(name);
    ReplacedKeeps(Sanitize(name));
  }

  /** The sanitizing loops, editing the name in place. */
  method SanitizeWindowsComponent(component: wide) returns (name: wide)
    ensures name == Sanitize(component) && |name| == if component == [] then 1 else |component|
    ensures component == [] ==> name == [UNDERSCORE]
    ensures forall i :: 0 <= i < |component| ==> name[i] == if Refused(component, i) then UNDERSCORE else component[i]
  {
    name := component;
    for i := 0 to |name|
      invariant |name| == |component|
      invariant name[..i] == Replaced(component[..i]) && name[i..] == component[i..]
    {
      assert component[..i + 1][..i] == component[..i] && name[i] == component[i];
      var ch := if Forbidden(name[i]) then UNDERSCORE else name[i];
      name := name[..i] + [ch] + name[i + 1..];
    }
    assert component[..|component|] == component && name[..|name|] == name;
    var replaced := name;
    while name != [] && SpaceOrDot(name[|name| - 1])
      invariant name == replaced || name == Sanitize(component)
      invariant replaced != [] ==> name != []
      decreases if name != [] && SpaceOrDot(name[|name| - 1]) then 1 else 0
    {
      name := name[..|name| - 1] + [UNDERSCORE];
    }
    if name == [] {
      name := [UNDERSCORE];
    }
    SanitizeAll(component);
  }

  /** The characters kept by the ASCII fallback. */
  predicate Ascii(b: byte) {
    65 <= b <= 90 || 97 <= b <= 122 || 48 <= b <= 57 || b == 32 || b == 46 || b == 45 || b == 95 ||
    b == 40 || b == 41 || b == 91 || b == 93
  }

  function AsciiOnly(token: bytes): wide {
    if token == [] then []
    else
      var last := token[|token| - 1];
      AsciiOnly(token[..|token| - 1]) + [if Ascii(last) then last else UNDERSCORE]
  }

  /** The 32-bit FNV-1a hash. */
  function Fnv(token: bytes): bv32 {
    if token == [] then 2166136261
    else FnvMix(Fnv(token[..|token| - 1]), token[|token| - 1])
  }

  function FnvMix(h: bv32, b: byte): bv32 { (h ^ (b as bv32)) * 16777619 }

  function HexNibble(w: bv32): wchar {
    NibbleSmall(w);
    var n := (w & 0xF) as int;
    if n < 10 then 48 + n else 55 + n
  }

  lemma NibbleSmall(w: bv32)
    ensures (w & 0xF) as int < 16
  {
  }

  /** `_%08X` */
  function HashSuffix(h: bv32): wide {
    [UNDERSCORE, HexNibble(h >> 28), HexNibble(h >> 24), HexNibble(h >> 20), HexNibble(h >> 16),
     HexNibble(h >> 12), HexNibble(h >> 8), HexNibble(h >> 4), HexNibble(h)]
  }

  function AsciiFallback(token: bytes): (r: wide)
    ensures WindowsName(r)
  {
    Sanitize(FallbackBase(token) + HashSuffix(Fnv(token)))
  }

  function FallbackBase(token: bytes): wide {
    if token == [] then FILE_NAME else AsciiOnly(token)
  }

  const FILE_NAME: wide := [102, 105, 108, 101]  // "file"

  lemma {:induction false} AsciiOnlyAccepted(token: bytes)
    ensures forall c <- AsciiOnly(token) :: !Forbidden(c)
  {
    if token != [] {
      AsciiOnlyAccepted(token[..|token| - 1]);
    }
  }

  lemma HexNibbleInjective(a: bv32, b: bv32)
    ensures HexNibble(a) != WSPACE && HexNibble(a) != WDOT && !Forbidden(HexNibble(a))
    ensures HexNibble(a) == HexNibble(b) ==> a & 0xF == b & 0xF
  {
    NibbleSmall(a);
    NibbleSmall(b);
    if HexNibble(a) == HexNibble(b) {
      assert (a & 0xF) as int == (b & 0xF) as int;
    }
  }

  lemma SameNibbles(a: bv32, b: bv32)
    requires (a >> 28) & 0xF == (b >> 28) & 0xF && (a >> 24) & 0xF == (b >> 24) & 0xF
    requires (a >> 20) & 0xF == (b >> 20) & 0xF && (a >> 16) & 0xF == (b >> 16) & 0xF
    requires (a >> 12) & 0xF == (b >> 12) & 0xF && (a >> 8) & 0xF == (b >> 8) & 0xF
    requires (a >> 4) & 0xF == (b >> 4) & 0xF && a & 0xF == b & 0xF
    ensures a == b
  {
  }

  lemma SuffixNibbles(a: bv32, b: bv32, k: nat)
    requires HashSuffix(a) == HashSuffix(b) && 1 <= k <= 8
    ensures HashSuffix(a)[k] == HashSuffix(b)[k]
  {
  }

  lemma HashSuffixInjective(a: bv32, b: bv32)
    requires HashSuffix(a) == HashSuffix(b)
    ensures a == b
  {
    assert (a >> 28) & 0xF == (b >> 28) & 0xF by { SuffixNibbles(a, b, 1); HexNibbleInjective(a >> 28, b >> 28); }
    assert (a >> 24) & 0xF == (b >> 24) & 0xF by { SuffixNibbles(a, b, 2); HexNibbleInjective(a >> 24, b >> 24); }
    assert (a >> 20) & 0xF == (b >> 20) & 0xF by { SuffixNibbles(a, b, 3); HexNibbleInjective(a >> 20, b >> 20); }
    assert (a >> 16) & 0xF == (b >> 16) & 0xF by { SuffixNibbles(a, b, 4); HexNibbleInjective(a >> 16, b >> 16); }
    assert (a >> 12) & 0xF == (b >> 12) & 0xF by { SuffixNibbles(a, b, 5); HexNibbleInjective(a >> 12, b >> 12); }
    assert (a >> 8) & 0xF == (b >> 8) & 0xF by { SuffixNibbles(a, b, 6); HexNibbleInjective(a >> 8, b >> 8); }
    assert (a >> 4) & 0xF == (b >> 4) & 0xF by { SuffixNibbles(a, b, 7); HexNibbleInjective(a >> 4, b >> 4); }
    assert a & 0xF == b & 0xF by { SuffixNibbles(a, b, 8); HexNibbleInjective(a, b); }
    SameNibbles(a, b);
  }

  lemma HashSuffixAccepted(h: bv32)
    ensures WindowsName(HashSuffix(h))
  {
    HexNibbleInjective(h >> 28, h);
    HexNibbleInjective(h >> 24, h);
    HexNibbleInjective(h >> 20, h);
    HexNibbleInjective(h >> 16, h);
    HexNibbleInjective(h >> 12, h);
    HexNibbleInjective(h >> 8, h);
    HexNibbleInjective(h >> 4, h);
    HexNibbleInjective(h, h);
  }

  lemma FallbackUnchanged(base: wide, suffix: wide)
    requires WindowsName(suffix) && forall c <- base :: !Forbidden(c)
    ensures Sanitize(base + suffix) == base + suffix
  {
    var name := base + suffix;
    assert forall c <- name :: c in base || c in suffix;
    SanitizeFixesWindowsNames(name);
  }

  /** Sanitizing leaves the fallback name as built, so the hash can be read off its end: two tokens with
      the same fallback name have the same hash. */
  lemma FallbackKeepsHash(s: bytes, t: bytes)
    ensures AsciiFallback(s) == FallbackBase(s) + HashSuffix(Fnv(s))
    ensures AsciiFallback(s) == AsciiFallback(t) ==> Fnv(s) == Fnv(t)
  {
    FallbackIsBuilt(s);
    FallbackIsBuilt(t);
    var a, b := HashSuffix(Fnv(s)), HashSuffix(Fnv(t));
    if AsciiFallback(s) == AsciiFallback(t) {
      SuffixesEqual(FallbackBase(s), a, FallbackBase(t), b);
      HashSuffixInjective(Fnv(s), Fnv(t));
    }
  }

  lemma SuffixesEqual(x: wide, a: wide, y: wide, b: wide)
    requires x + a == y + b && |a| == |b|
    ensures a == b
  {
    assert a == (x + a)[|x|..] && b == (y + b)[|y|..];
  }

  lemma FallbackIsBuilt(token: bytes)
    ensures AsciiFallback(token) == FallbackBase(token) + HashSuffix(Fnv(token))
  {
    AsciiOnlyAccepted(token);
    HashSuffixAccepted(Fnv(token));
    FallbackUnchanged(FallbackBase(token), HashSuffix(Fnv(token)));
  }

  lemma KnownSuffixes()
    ensures HashSuffix(0x811C9DC5) == [UNDERSCORE, 56, 49, 49, 67, 57, 68, 67, 53]
    ensures HashSuffix(0xE40C292C) == [UNDERSCORE, 69, 52, 48, 67, 50, 57, 50, 67]
  {
  }

  lemma KnownHashes()
    ensures Fnv([]) == 0x811C9DC5 && Fnv([97]) == 0xE40C292C
  {
    assert [97][..0] == [] && [97][0] == 97;
  }

  /** The fallback names of the empty text and of `a`: `file_811C9DC5` and `a_E40C292C`. */
  lemma KnownFallbacks()
    ensures AsciiFallback([]) == FILE_NAME + [UNDERSCORE, 56, 49, 49, 67, 57, 68, 67, 53]
    ensures AsciiFallback([97]) == [97] + [UNDERSCORE, 69, 52, 48, 67, 50, 57, 50, 67]
  {
    KnownHashes();
    FallbackIsBuilt([]);
    FallbackIsBuilt([97]);
    assert [97][..0] == [] && AsciiOnly([97]) == [] + [97];
    KnownSuffixes();
  }

  /** How a component is named: for display, or as the ASCII fallback. */
  type Naming = (bytes, bool) -> wide

  /** `toWide` is the decoding of torrent text by code page, left open. */
  function NamesBy(toWide: bytes -> wide): Naming {
    (token, ascii) => if ascii then AsciiFallback(token) else Sanitize(toWide(token))
  }

  ghost predicate WindowsNames(name: Naming) {
    forall token, ascii :: WindowsName(name(token, ascii))
  }

  lemma NamesByWindows(toWide: bytes -> wide)
    ensures WindowsNames(NamesBy(toWide))
  {
    forall token, ascii ensures WindowsName(NamesBy(toWide)(token, ascii)) {
      assert NamesBy(toWide)(token, ascii) == (if ascii then AsciiFallback(token) else Sanitize(toWide(token)));
    }
  }

  // ----- projected paths

  /** `find('/', start)`, or the length. */
  function NextSlash(path: bytes, start: nat): (r: nat)
    requires start <= |path|
    ensures start <= r <= |path|
    ensures r < |path| ==> path[r] == SLASH
    ensures forall i :: start <= i < r ==> path[i] != SLASH
    decreases |path| - start
  {
    if start == |path| || path[start] == SLASH then start else NextSlash(path, start + 1)
  }

  /** `out` with one more component behind it. */
  function Joined(out: wide, name: wide): wide {
    (if out != [] then out + WROOT else out) + name
  }

  /** `current` with one more segment behind it. */
  function JoinedPath(current: bytes, segment: bytes): bytes {
    (if current != [] then current + ROOT else current) + segment
  }

  /** `relativeProjectedPathFor` from position `start` on, behind what it has built. */
  function ProjectFrom(out: wide, path: bytes, start: nat, ascii: bool, name: Naming): wide
    decreases |path| - start
  {
    if start >= |path| then out
    else
      var slash := NextSlash(path, start);
      var next := Joined(out, name(path[start..slash], ascii));
      if slash == |path| then next else ProjectFrom(next, path, slash + 1, ascii, name)
  }

  function Relative(path: bytes, ascii: bool, name: Naming): wide {
    ProjectFrom([], path, 0, ascii, name)
  }

  function Key(path: bytes, ascii: bool, name: Naming): wide {
    WROOT + Relative(path, ascii, name)
  }

  function Backslashed(name: wide): (r: wide)
    ensures |r| == |name|
  {
    if name == [] then []
    else
      var last := name[|name| - 1];
      Backslashed(name[..|name| - 1]) + [if last == WSLASH then WBACKSLASH else last]
  }

  function Forward(name: wide): wide {
    if name == [] then []
    else
      var last := name[|name| - 1];
      Forward(name[..|name| - 1]) + [if last == WBACKSLASH then WSLASH else last]
  }

  function StripWide(name: wide): wide {
    if |name| > 1 && name[|name| - 1] == WSLASH then StripWide(name[..|name| - 1]) else name
  }

  /** `normalizeProjectedPath`, with the empty name for a null pointer. */
  function NormalizeProjected(name: wide): wide {
    if name == [] then WROOT else StripWide(WROOT + Forward(name))
  }

  /** A separator at the end of what is asked for makes no difference. */
  lemma ClosingSeparator(asked: wide, c: wchar)
    requires c == WSLASH || c == WBACKSLASH
    ensures NormalizeProjected(asked + [c]) == NormalizeProjected(asked)
  {
    var all := asked + [c];
    assert all[..|all| - 1] == asked && all[|all| - 1] == c;
    assert Forward(all) == Forward(asked) + [WSLASH];
    StripLast(WROOT + Forward(asked));
    assert WROOT + Forward(all) == WROOT + Forward(asked) + [WSLASH];
    assert asked == [] ==> Forward(asked) == [] && WROOT + [] == WROOT;
  }

  lemma StripLast(front: wide)
    requires front != []
    ensures StripWide(front + [WSLASH]) == StripWide(front)
  {
    assert (front + [WSLASH])[..|front|] == front;
  }

  // ----- the index

  type Projection = map<wide, bytes>

  /** `emplace`: the first path registered under a key keeps it. */
  function Emplace(m: Projection, key: wide, path: bytes): Projection {
    if key in m then m else m[key := path]
  }

  /** Both keys of one path of the namespace. */
  function Register(m: Projection, current: bytes, name: Naming): Projection {
    Emplace(Emplace(m, Key(current, false, name), ROOT + current), Key(current, true, name), ROOT + current)
  }

  function RegisterAll(m: Projection, paths: seq<bytes>, name: Naming): Projection
    decreases |paths|
  {
    if paths == [] then m else RegisterAll(Register(m, paths[0], name), paths[1..], name)
  }

  /** The paths one file registers, from position `start` of its path on: its directories, and itself. */
  function PathsFrom(path: bytes, current: bytes, start: nat): seq<bytes>
    decreases |path| - start
  {
    if start >= |path| then []
    else
      var slash := NextSlash(path, start);
      var next := JoinedPath(current, path[start..slash]);
      [next] + (if slash == |path| then [] else PathsFrom(path, next, slash + 1))
  }

  /** The paths the first `n` files register, in order. */
  function PathsOf(files: seq<FileRecord>, n: nat): seq<bytes>
    requires n <= |files|
  {
    if n == 0 then [] else PathsOf(files, n - 1) + PathsFrom(files[n - 1].relativePath, [], 0)
  }

  /** The index after the first `n` files. */
  function IndexFirst(files: seq<FileRecord>, n: nat, name: Naming): Projection
    requires n <= |files|
  {
    RegisterAll(map[WROOT := ROOT], PathsOf(files, n), name)
  }

  lemma PathsFromStep(path: bytes, current: bytes, start: nat, next: bytes, rest: seq<bytes>)
    requires start < |path| && next == JoinedPath(current, path[start..NextSlash(path, start)])
    requires var slash := NextSlash(path, start); rest == if slash == |path| then [] else PathsFrom(path, next, slash + 1)
    ensures PathsFrom(path, current, start) == [next] + rest
  {
  }

  /** Registering one path after another is what the scan does. */
  lemma RegisterStep(m: Projection, path: bytes, current: bytes, start: nat, next: bytes, name: Naming)
    requires start < |path| && next == JoinedPath(current, path[start..NextSlash(path, start)])
    ensures var slash := NextSlash(path, start);
            RegisterAll(m, PathsFrom(path, current, start), name) ==
            RegisterAll(Register(m, next, name), if slash == |path| then [] else PathsFrom(path, next, slash + 1), name)
  {
    var slash := NextSlash(path, start);
    var rest := if slash == |path| then [] else PathsFrom(path, next, slash + 1);
    PathsFromStep(path, current, start, next, rest);
    assert ([next] + rest)[1..] == rest;
  }

  lemma {:induction false} RegisterAllJoin(m: Projection, a: seq<bytes>, b: seq<bytes>, name: Naming)
    ensures RegisterAll(m, a + b, name) == RegisterAll(RegisterAll(m, a, name), b, name)
    decreases |a|
  {
    if a == [] {
      assert a + b == b;
    } else {
      assert (a + b)[1..] == a[1..] + b;
      RegisterAllJoin(Register(m, a[0], name), a[1..], b, name);
    }
  }

  function LookupProjected(m: Projection, ix: Index, asked: wide): Option<FileEntry> {
    var key := NormalizeProjected(asked);
    if key in m then Lookup(ix, m[key]) else None
  }

  /** `listProjectedDirectory`. */
  function ListProjected(m: Projection, ix: Index, asked: wide): seq<FileEntry> {
    var key := NormalizeProjected(asked);
    if key in m then ListDirectory(ix, m[key]) else []
  }

  // ----- the index as the program fills it

  method RelativeProjectedPathFor(path: bytes, ascii: bool, name: Naming) returns (out: wide)
    ensures out == Relative(path, ascii, name)
  {
    out := [];
    var start := 0;
    while start < |path|
      invariant 0 <= start
      invariant ProjectFrom(out, path, start, ascii, name) == Relative(path, ascii, name)
      decreases |path| - start
    {
      var slash := NextSlash(path, start);
      var token := path[start..slash];
      if out != [] {
        out := out + [WSLASH];
      }
      out := out + name(token, ascii);
      if slash == |path| {
        break;
      }
      start := slash + 1;
    }
  }

  class ProjectedNames {
    var projectedToVirtual: Projection

    const name: Naming

    constructor (toWide: bytes -> wide)
      ensures projectedToVirtual == map[] && name == NamesBy(toWide)
    {
      name := NamesBy(toWide);
      projectedToVirtual := map[];
    }

    method RegisterProjectedPath(path: bytes)
      modifies this
      ensures projectedToVirtual == RegisterAll(old(projectedToVirtual), PathsFrom(path, [], 0), name)
    {
      ghost var all := RegisterAll(projectedToVirtual, PathsFrom(path, [], 0), name);
      var currentVirtual: bytes := [];
      var start := 0;
      while start < |path|
        invariant 0 <= start
        invariant RegisterAll(projectedToVirtual, PathsFrom(path, currentVirtual, start), name) == all
        decreases |path| - start
      {
        var slash := NextSlash(path, start);
        var token := path[start..slash];
        ghost var before := currentVirtual;
        if currentVirtual != [] {
          currentVirtual := currentVirtual + [SLASH];
        }
        currentVirtual := currentVirtual + token;
        RegisterStep(projectedToVirtual, path, before, start, currentVirtual, name);
        var display := RelativeProjectedPathFor(currentVirtual, false, name);
        projectedToVirtual := Emplace(projectedToVirtual, WROOT + display, ROOT + currentVirtual);
        var fallback := RelativeProjectedPathFor(currentVirtual, true, name);
        projectedToVirtual := Emplace(projectedToVirtual, WROOT + fallback, ROOT + currentVirtual);
        if slash == |path| {
          break;
        }
        start := slash + 1;
      }
    }

    method BuildProjectedNameIndex(files: seq<FileRecord>)
      modifies this
      ensures projectedToVirtual == IndexFirst(files, |files|, name)
    {
      projectedToVirtual := map[];
      projectedToVirtual := projectedToVirtual[[WSLASH] := [SLASH]];
      for i := 0 to |files|
        invariant projectedToVirtual == IndexFirst(files, i, name)
      {
        RegisterAllJoin(map[WROOT := ROOT], PathsOf(files, i), PathsFrom(files[i].relativePath, [], 0), name);
        RegisterProjectedPath(files[i].relativePath);
      }
    }
  }
}
