/**
  Looking a file up in the root directory (fs/fat32/fat32.c): `scan_root` in its lookup mode and
  `fat32_open`.  What a lookup finds is said without reference to the loops: the first live
  plain file of that name in a sector that the scan reaches, before the directory is over.
 */
module Directory {
  import opened Numbers
  import opened Sectors
  import opened Fat32
  import Names

  const ENTRY: nat := 32
  const SLOTS: nat := 16

  type Key = e: seq<Byte> | |e| == 11 witness seq(11, _ => 0)

  // ---------------------------------------------------------------- entries

  function Entry(s: Sector, j: nat): (d: seq<Byte>)
    requires j < SLOTS
    ensures |d| == ENTRY
  {
    s[ENTRY * j..ENTRY * j + ENTRY]
  }

  /** Bit `k` of a byte. */
  predicate HasBit(x: Byte, k: nat) {
    if k == 0 then x % 2 == 1 else HasBit(x / 2, k - 1)
  }

  /** Nothing follows this entry. */
  predicate Ends(d: seq<Byte>)
    requires |d| == ENTRY
  {
    d[0] == 0
  }

  /** A live entry of a plain file: not deleted, no long-name part, no volume label, no directory. */
  predicate PlainFile(d: seq<Byte>)
    requires |d| == ENTRY
  {
    d[0] != 0 && d[0] != 0xe5 && d[11] != 0x0f && !HasBit(d[11], 3) && !HasBit(d[11], 4)
  }

  predicate Matches(d: seq<Byte>, key: Key)
    requires |d| == ENTRY
  {
    PlainFile(d) && d[..11] == key
  }

  function FileAt(d: seq<Byte>): File
    requires |d| == ENTRY
  {
    File(Le16(d, 20) * 0x1_0000 + Le16(d, 26), Le32(d, 28), 0, false)
  }

  /** What an entry says about its file, byte by byte. */
  predicate Describes(d: seq<Byte>, f: File)
    requires |d| == ENTRY
  {
    && f.first == FourBytes(d[26], d[27], d[20], d[21])
    && f.size == FourBytes(d[28], d[29], d[30], d[31])
    && f.position == 0 && !f.directory
  }

  lemma FileDescribed(d: seq<Byte>)
    requires |d| == ENTRY
    ensures Describes(d, FileAt(d))
  {
  }

  /** An entry says one thing. */
  lemma DescribedOnce(d: seq<Byte>, f: File, g: File)
    requires |d| == ENTRY && Describes(d, f) && Describes(d, g)
    ensures f == g
  {
  }

  /** The attribute byte of a plain file has bits 3 and 4 clear. */
  lemma PlainFileIff(d: seq<Byte>)
    requires |d| == ENTRY
    ensures PlainFile(d) <==> d[0] != 0 && d[0] != 0xe5 && d[11] % 32 < 8
  {
    hide HasBit;
    BitsOf(d[11]);
    LowFive(d[11]);
  }

  lemma LowFive(x: Byte)
    ensures x % 32 < 8 <==> x / 8 % 2 == 0 && x / 16 % 2 == 0
  {
    var y, q, r := x / 8, x / 32, x % 32;
    assert y == 4 * q + r / 8;
    assert y % 2 == r / 8 % 2 && x / 16 == 2 * q + r / 16;
  }

  lemma BitsOf(x: Byte)
    ensures HasBit(x, 3) <==> x / 8 % 2 == 1
    ensures HasBit(x, 4) <==> x / 16 % 2 == 1
  {
    var y := x / 2 / 2 / 2;
    assert y == x / 8 && y / 2 == x / 16;
    assert HasBit(x, 3) == HasBit(x / 2, 2) == HasBit(x / 2 / 2, 1) == HasBit(y, 0);
    assert HasBit(x, 4) == HasBit(x / 2, 3) == HasBit(x / 2 / 2, 2) == HasBit(y, 1) == HasBit(y / 2, 0);
  }

  // ---------------------------------------------------------------- what a lookup finds

  /** The first `n` entries of a sector are neither the end nor the file. */
  ghost predicate PassesTo(s: Sector, key: Key, n: nat)
    requires n <= SLOTS
  {
    forall j: nat | j < n :: !Ends(Entry(s, j)) && !Matches(Entry(s, j), key)
  }

  /** Sector `t` of the directory, if it can be read. */
  function SectorAt(v: Volume, root: nat, t: nat): Option<Sector> {
    match Locate(v, root, t)
    case None => None
    case Some(lba) => if lba in v.disk then Some(v.disk[lba]) else None
  }

  /** The scan goes past sector `t`. */
  ghost predicate Passes(v: Volume, root: nat, key: Key, t: nat) {
    SectorAt(v, root, t).Some? && PassesTo(SectorAt(v, root, t).value, key, SLOTS)
  }

  ghost predicate Reaches(v: Volume, root: nat, key: Key, t: nat) {
    forall u: nat | u < t :: Passes(v, root, key, u)
  }

  /** Entry `j` of sector `t` is the first match before the end of the directory. */
  ghost predicate FirstMatch(v: Volume, root: nat, key: Key, t: nat, j: nat) {
    && j < SLOTS && Reaches(v, root, key, t) && SectorAt(v, root, t).Some?
    && var s := SectorAt(v, root, t).value; PassesTo(s, key, j) && Matches(Entry(s, j), key)
  }

  ghost predicate Finds(v: Volume, root: nat, key: Key, t: nat, j: nat, file: File) {
    FirstMatch(v, root, key, t, j) && Describes(Entry(SectorAt(v, root, t).value, j), file)
  }

  /** The directory is over in sector `t`: the chain ends, the sector cannot be read or an end entry stands there. */
  ghost predicate OverAt(v: Volume, root: nat, key: Key, t: nat) {
    && Reaches(v, root, key, t)
    && (SectorAt(v, root, t).Some? ==>
          var s := SectorAt(v, root, t).value; exists j: nat :: j < SLOTS && PassesTo(s, key, j) && Ends(Entry(s, j)))
  }

  lemma NotBoth(s: Sector, key: Key, i: nat, j: nat)
    requires i < SLOTS && j < SLOTS && PassesTo(s, key, i) && PassesTo(s, key, j)
    requires (Ends(Entry(s, i)) || Matches(Entry(s, i), key)) && (Ends(Entry(s, j)) || Matches(Entry(s, j), key))
    ensures i == j
  {
    hide Ends, Matches, Entry;
  }

  /** A sector that decides is not passed, so scans that decide do so in the same sector. */
  lemma SameSector(v: Volume, root: nat, key: Key, t: nat, u: nat)
    requires Reaches(v, root, key, t) && Reaches(v, root, key, u)
    requires !Passes(v, root, key, t) && !Passes(v, root, key, u)
    ensures t == u
  {
    hide Passes;
  }

  lemma Decides(v: Volume, root: nat, key: Key, t: nat)
    ensures OverAt(v, root, key, t) ==> !Passes(v, root, key, t)
    ensures forall j: nat :: FirstMatch(v, root, key, t, j) ==> !Passes(v, root, key, t)
  {
    hide SectorAt, Ends, Matches, Entry;
  }

  /** There is one first match at most, and none if the directory is over before one. */
  lemma MatchUnique(v: Volume, root: nat, key: Key, t: nat, j: nat, u: nat, i: nat)
    requires FirstMatch(v, root, key, t, j)
    ensures FirstMatch(v, root, key, u, i) ==> t == u && j == i
    ensures !OverAt(v, root, key, u)
  {
    hide SectorAt, Matches, Entry, Ends, Passes, Reaches;
    Decides(v, root, key, t);
    Decides(v, root, key, u);
    if FirstMatch(v, root, key, u, i) {
      SameSector(v, root, key, t, u);
      NotBoth(SectorAt(v, root, t).value, key, i, j);
    }
    if OverAt(v, root, key, u) {
      SameSector(v, root, key, t, u);
      var s := SectorAt(v, root, t).value;
      var k: nat :| k < SLOTS && PassesTo(s, key, k) && Ends(Entry(s, k));
      NotBoth(s, key, k, j);
      EndIsNoMatch(Entry(s, k), key);
    }
  }

  lemma EndIsNoMatch(d: seq<Byte>, key: Key)
    requires |d| == ENTRY
    ensures !(Ends(d) && Matches(d, key))
  {
  }

  // ---------------------------------------------------------------- the scan

  datatype Verdict = Hit | Over | More

  /** The byte-by-byte comparison of names. */
  method SameName(d: seq<Byte>, key: Key) returns (same: bool)
    requires |d| == ENTRY
    ensures same <==> d[..11] == key
  {
    var i := 0;
    while i < 11 && d[i] == key[i]
      invariant i <= 11 && d[..i] == key[..i]
    {
      i := i + 1;
    }
    same := i == 11;
    assert i < 11 ==> d[..11][i] != key[i];
  }

  /** The innermost loop of `scan_root`: the entries of one sector. */
  method ScanSector(s: Sector, key: Key) returns (verdict: Verdict, j: nat)
    ensures j <= SLOTS && PassesTo(s, key, j) && (verdict.More? <==> j == SLOTS)
    ensures verdict.Hit? ==> Matches(Entry(s, j), key)
    ensures verdict.Over? ==> Ends(Entry(s, j))
  {
    hide Entry;
    j := 0;
    while j < SLOTS
      invariant j <= SLOTS && PassesTo(s, key, j)
    {
      var d := Entry(s, j);
      if d[0] == 0 { return Over, j; }
      if !(d[0] == 0xe5 || d[11] == 0x0f || HasBit(d[11], 3)) && !HasBit(d[11], 4) {
        var same := SameName(d, key);
        if same { return Hit, j; }
      }
      j := j + 1;
    }
    verdict := More;
  }

  /** Sector `s` of cluster `q` is sector `q * spc + s` of the directory. */
  lemma SectorIs(v: Volume, root: nat, q: nat, s: nat)
    requires s < v.spc && ValidCluster(ClusterAt(v, root, q))
    ensures Locate(v, root, q * v.spc + s) == Some(SectorLba(v, ClusterAt(v, root, q), s))
  {
    hide SectorLba, ClusterAt, ValidCluster;
    DivModUnique(q * v.spc + s, v.spc, q, s);
  }

  /** The middle loop of `scan_root`: the sectors of one cluster. */
  method ScanCluster(v: Volume, ghost root: nat, cluster: nat, key: Key, ghost q: nat)
    returns (verdict: Verdict, file: File, ghost t: nat, ghost j: nat)
    requires ValidCluster(cluster) && cluster == ClusterAt(v, root, q) && Reaches(v, root, key, q * v.spc)
    ensures verdict.Hit? ==> Finds(v, root, key, t, j, file)
    ensures verdict.Over? ==> OverAt(v, root, key, t)
    ensures verdict.More? ==> Reaches(v, root, key, q * v.spc + v.spc)
  {
    hide ClusterAt, ValidCluster, Locate, SectorLba, FileAt, Describes, Entry, Matches, Ends, PassesTo;
    file := File(0, 0, 0, false);
    j := 0;
    var s: nat := 0;
    while s < v.spc
      invariant s <= v.spc && Reaches(v, root, key, q * v.spc + s)
    {
      t := q * v.spc + s;
      SectorIs(v, root, q, s);
      var lba := SectorLba(v, cluster, s);
      if lba !in v.disk { return Over, file, t, 0; }
      var sector := v.disk[lba];
      var slot;
      verdict, slot := ScanSector(sector, key);
      j := slot;
      match verdict
      case Hit =>
        FileDescribed(Entry(sector, slot));
        return Hit, FileAt(Entry(sector, slot)), t, j;
      case Over => return Over, file, t, j;
      case More =>
      s := s + 1;
    }
    verdict, t := More, 0;
  }

  /** `scan_root` in lookup mode.  It stops exactly when some sector of the directory is not passed. */
  method ScanRoot(v: Volume, root: nat, key: Key, ghost limit: nat)
    returns (found: bool, file: File, ghost t: nat, ghost j: nat)
    requires !Passes(v, root, key, limit)
    ensures found ==> Finds(v, root, key, t, j, file)
    ensures !found ==> OverAt(v, root, key, t)
    ensures found <==> exists u: nat, i: nat :: Finds(v, root, key, u, i, file)
  {
    hide ClusterAt, NextCluster, ValidCluster, Describes, Entry, Matches, Ends, PassesTo, Passes, FirstMatch, OverAt,
         SectorAt, Finds;
    var cluster := root;
    ghost var q: nat := 0;
    FirstCluster(v, root);
    while ValidCluster(cluster)
      invariant cluster == ClusterAt(v, root, q) && Reaches(v, root, key, q * v.spc)
      decreases limit + 1 - q * v.spc
    {
      var verdict;
      verdict, file, t, j := ScanCluster(v, root, cluster, key, q);
      match verdict
      case Hit => return true, file, t, j;
      case Over =>
        NoneFound(v, root, key, t);
        return false, file, t, j;
      case More =>
      ChainStep(v, root, q);
      assert (q + 1) * v.spc == q * v.spc + v.spc;
      cluster, q := NextCluster(v, cluster), q + 1;
    }
    ChainOver(v, root, key, q);
    NoneFound(v, root, key, q * v.spc);
    found, file, t, j := false, File(0, 0, 0, false), q * v.spc, 0;
  }

  lemma NoneFound(v: Volume, root: nat, key: Key, t: nat)
    requires OverAt(v, root, key, t)
    ensures forall u: nat, i: nat, f: File :: !Finds(v, root, key, u, i, f)
  {
    hide OverAt, SectorAt, Entry, Describes, PassesTo, Matches, Ends, Reaches;
    forall u: nat, i: nat, f: File ensures !Finds(v, root, key, u, i, f) {
      if Finds(v, root, key, u, i, f) { MatchUnique(v, root, key, u, i, t, 0); }
    }
  }

  lemma FirstCluster(v: Volume, root: nat)
    ensures ClusterAt(v, root, 0) == root
  {
  }

  lemma ChainOver(v: Volume, root: nat, key: Key, q: nat)
    requires !ValidCluster(ClusterAt(v, root, q)) && Reaches(v, root, key, q * v.spc)
    ensures OverAt(v, root, key, q * v.spc)
  {
    hide ClusterAt, ValidCluster, Passes;
    DivModUnique(q * v.spc, v.spc, q, 0);
  }

  // ---------------------------------------------------------------- opening

  /** The path without its leading slashes. */
  function Stripped(path: seq<Byte>): (p: seq<Byte>)
    ensures Names.At(p, 0) != Names.SLASH
  {
    if Names.At(path, 0) == Names.SLASH then Stripped(path[1..]) else path
  }

  function KeyOf(path: seq<Byte>): Key {
    Names.Entry83(Stripped(path))
  }

  /** The name given is empty. */
  predicate NoName(path: seq<Byte>) {
    Names.At(Stripped(path), 0) == 0
  }

  ghost predicate Opens(v: Volume, root: nat, path: seq<Byte>, file: File) {
    && !NoName(path)
    && exists t: nat, j: nat :: Finds(v, root, KeyOf(path), t, j, file)
  }

  /** `fat32_open` on a volume that may not be mounted. */
  method Open(mounted: Option<Volume>, root: nat, path: seq<Byte>, ghost limit: nat) returns (result: Option<File>)
    requires mounted.Some? && !NoName(path) ==> !Passes(mounted.value, root, KeyOf(path), limit)
    ensures result.Some? ==> mounted.Some? && Opens(mounted.value, root, path, result.value)
    ensures result.None? && mounted.Some? ==> forall f: File :: !Opens(mounted.value, root, path, f)
  {
    hide FirstMatch, OverAt, SectorAt, Passes, Entry, Describes, Finds;
    if mounted.None? { return None; }
    var v, p := mounted.value, path;
    while Names.At(p, 0) == Names.SLASH
      invariant Stripped(p) == Stripped(path)
      decreases |p|
    {
      p := p[1..];
    }
    if Names.At(p, 0) == 0 { return None; }
    var field := new Byte[11];
    Names.Make83(p, field);
    var key := field[..];
    var found, file, t, j := ScanRoot(v, root, key, limit);
    if found { return Some(file); }
    NoneFound(v, root, key, t);
    result := None;
  }

  function Slashes(n: nat): (r: seq<Byte>)
    ensures |r| == n
  {
    seq(n, _ => Names.SLASH)
  }

  /** Leading slashes do not count, and a path of nothing else has no name. */
  lemma {:induction false} SlashesDropped(n: nat, rest: seq<Byte>)
    requires Names.At(rest, 0) != Names.SLASH
    ensures Stripped(Slashes(n) + rest) == rest
    ensures NoName(Slashes(n) + rest) <==> rest == [] || rest[0] == 0
  {
    var path := Slashes(n) + rest;
    if n == 0 {
      assert path == rest;
    } else {
      assert path[1..] == Slashes(n - 1) + rest;
      SlashesDropped(n - 1, rest);
    }
  }

  /** The file that a path opens is that of a live entry with its name, no directory and no label. */
  lemma OpensEntry(v: Volume, root: nat, path: seq<Byte>, f: File)
    requires Opens(v, root, path, f)
    ensures exists t: nat, j: nat :: j < SLOTS && SectorAt(v, root, t).Some? &&
              var d := Entry(SectorAt(v, root, t).value, j);
              d[..11] == Names.Entry83(Stripped(path)) && d[0] != 0xe5 && d[11] % 32 < 8 && Describes(d, f)
  {
    hide Reaches, SectorAt, Describes, Entry, PassesTo, Stripped, PlainFile;
    var t: nat, j: nat :| Finds(v, root, KeyOf(path), t, j, f);
    PlainFileIff(Entry(SectorAt(v, root, t).value, j));
  }

  /** A path opens one file at most. */
  lemma OpensOne(v: Volume, root: nat, path: seq<Byte>, f: File, g: File)
    requires Opens(v, root, path, f) && Opens(v, root, path, g)
    ensures f == g
  {
    hide OverAt, SectorAt, Entry, Describes, PassesTo, Matches, Ends, Reaches, KeyOf, NoName;
    var key := KeyOf(path);
    var t: nat, j: nat :| Finds(v, root, key, t, j, f);
    var u: nat, i: nat :| Finds(v, root, key, u, i, g);
    MatchUnique(v, root, key, t, j, u, i);
    DescribedOnce(Entry(SectorAt(v, root, t).value, j), f, g);
  }

  /** The case of its letters does not matter. */
  lemma OpensAnyCase(v: Volume, root: nat, path: seq<Byte>, f: File)
    ensures Opens(v, root, Names.UpperAll(path), f) <==> Opens(v, root, path, f)
  {
    hide Finds, Stripped;
    SameKey(path);
    StrippedUpper(path);
    Names.UpperSlash(Names.At(Stripped(path), 0));
  }

  lemma {:induction false} StrippedUpper(path: seq<Byte>)
    ensures Stripped(Names.UpperAll(path)) == Names.UpperAll(Stripped(path))
    decreases |path|
  {
    hide Names.Upper;
    Names.UpperSlash(Names.At(path, 0));
    if Names.At(path, 0) != Names.SLASH {
    } else {
      assert Names.UpperAll(path)[1..] == Names.UpperAll(path[1..]);
      StrippedUpper(path[1..]);
    }
  }

  lemma SameKey(path: seq<Byte>)
    ensures KeyOf(Names.UpperAll(path)) == KeyOf(path)
  {
    hide Stripped;
    StrippedUpper(path);
    Names.CaseInsensitive(Stripped(path));
  }
}
