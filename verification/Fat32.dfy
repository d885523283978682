/**
  Reading files through a FAT32 cluster chain (fs/fat32/fat32.c).  A sector the device cannot
  read is one that is missing from `disk`.  `Content` says which byte of the chain lies where;
  `Transfer` is what one read moves, sector by sector; `OpenFile.Read` is the loops that do it.
 */
module Fat32 {
  import opened Numbers
  import opened Sectors

  const MAX_CLUSTER: nat := 0x0fff_fff6

  /** A mounted volume: where the table and the data area start, sectors per cluster, and the device. */
  datatype AnyVolume = Volume(fatLba: nat, dataLba: nat, spc: nat, disk: map<nat, Sector>)

  type Volume = v: AnyVolume | v.spc > 0 witness Volume(0, 0, 1, map[])

  predicate ValidCluster(c: nat) {
    2 <= c <= MAX_CLUSTER
  }

  /** Of the 28-bit numbers all but 0, 1 and the last nine, the bad mark and the end marks, are clusters. */
  lemma ValidClusterIff(c: nat)
    requires c < 0x1000_0000
    ensures !ValidCluster(c) <==> c == 0 || c == 1 || c >= 0x1000_0000 - 9
  {
  }

  function Le16(s: seq<Byte>, o: nat): nat
    requires o + 2 <= |s|
  {
    s[o] as nat + 256 * s[o + 1] as nat
  }

  function Le32(s: seq<Byte>, o: nat): nat
    requires o + 4 <= |s|
  {
    Le16(s, o) + 0x1_0000 * Le16(s, o + 2)
  }

  /** Where sector `s` of cluster `c` lies on the device. */
  function SectorLba(v: Volume, c: nat, s: nat): nat
    requires ValidCluster(c)
  {
    (v.dataLba + (c - 2) * v.spc + s) % WORD
  }

  /** `next_cluster`; 0 when the table cannot be read. */
  function NextCluster(v: Volume, c: nat): nat
    requires ValidCluster(c)
  {
    var l := (v.fatLba + c * 4 / SECTOR) % WORD;
    if l in v.disk then Le32(v.disk[l], c * 4 % SECTOR) % 0x1000_0000 else 0
  }

  /** Each sector of the table holds 128 entries of four bytes, the upper four bits of which do not count. */
  lemma NextClusterBytes(v: Volume, c: nat)
    requires ValidCluster(c)
    ensures var l, o := (v.fatLba + c / 128) % WORD, c % 128 * 4;
            NextCluster(v, c) ==
            if l !in v.disk then 0
            else var s := v.disk[l]; FourBytes(s[o], s[o + 1], s[o + 2], s[o + 3] % 16)
  {
    hide Le32;
    EntryPlace(c);
    var l := (v.fatLba + c / 128) % WORD;
    if l in v.disk { TopDropped(v.disk[l], c % 128 * 4); }
  }

  lemma EntryPlace(c: nat)
    ensures c * 4 / SECTOR == c / 128 && c * 4 % SECTOR == c % 128 * 4
  {
  }

  lemma TopDropped(s: seq<Byte>, o: nat)
    requires o + 4 <= |s|
    ensures Le32(s, o) % 0x1000_0000 == FourBytes(s[o], s[o + 1], s[o + 2], s[o + 3] % 16)
  {
    var low := s[o] as int + 0x100 * s[o + 1] as int + 0x1_0000 * s[o + 2] as int;
    var top := s[o + 3] as int;
    assert Le32(s, o) == low + 0x100_0000 * (top % 16) + 0x1000_0000 * (top / 16);
  }

  /** Cluster 2 is first in the data area, and the clusters lie end to end. */
  lemma ClustersInOrder(v: Volume, c: nat, s: nat)
    requires ValidCluster(c) && ValidCluster(c + 1)
    ensures SectorLba(v, 2, 0) == v.dataLba % WORD
    ensures SectorLba(v, c, s + 1) == (SectorLba(v, c, s) + 1) % WORD
    ensures SectorLba(v, c + 1, 0) == SectorLba(v, c, v.spc)
  {
    var base := (c - 2) * v.spc;
    assert (c + 1 - 2) * v.spc == base + v.spc;
    WrapNext(v.dataLba + base + s);
  }

  /** The place of sector `s` of cluster `c` in the data area. */
  function Place(v: Volume, c: nat, s: nat): nat
    requires ValidCluster(c)
  {
    (c - 2) * v.spc + s
  }

  lemma PlaceUnique(v: Volume, c: nat, s: nat, c': nat, s': nat)
    requires ValidCluster(c) && ValidCluster(c') && s < v.spc && s' < v.spc && Place(v, c, s) == Place(v, c', s')
    ensures c == c' && s == s'
  {
    DigitsUnique(v.spc, c - 2, s, c' - 2, s');
  }

  lemma PlaceIs(v: Volume, c: nat, s: nat)
    requires ValidCluster(c)
    ensures SectorLba(v, c, s) == (v.dataLba + Place(v, c, s)) % WORD
  {
  }

  /** On a device whose sectors are numbered without wrapping, no two clusters share a sector. */
  lemma ClustersApart(v: Volume, c: nat, s: nat, c': nat, s': nat)
    requires ValidCluster(c) && ValidCluster(c') && s < v.spc && s' < v.spc
    requires v.dataLba + Place(v, c, s) < WORD && v.dataLba + Place(v, c', s') < WORD
    ensures SectorLba(v, c, s) == SectorLba(v, c', s') ==> c == c' && s == s'
  {
    hide SectorLba, Place;
    PlaceIs(v, c, s);
    PlaceIs(v, c', s');
    if Place(v, c, s) == Place(v, c', s') { PlaceUnique(v, c, s, c', s'); }
  }

  /** The `n`-th cluster of the chain; once the chain stops it stays stopped.  The chain may be cyclic. */
  function ClusterAt(v: Volume, first: nat, n: nat): nat {
    if n == 0 then first
    else
      var c := ClusterAt(v, first, n - 1);
      if ValidCluster(c) then NextCluster(v, c) else c
  }

  // ---------------------------------------------------------------- what a file contains

  datatype Option<T> = None | Some(value: T)

  /** Which cluster of the chain holds position `x`. */
  function ClusterOf(v: Volume, x: nat): nat {
    SectorOf(x) / v.spc
  }

  /** The device sector holding sector `t` of the file. */
  function Locate(v: Volume, first: nat, t: nat): Option<nat> {
    var c := ClusterAt(v, first, t / v.spc);
    if ValidCluster(c) then Some(SectorLba(v, c, t % v.spc)) else None
  }

  /** Byte `x` of the chain, if it can be read. */
  function Content(v: Volume, first: nat, x: nat): Option<Byte> {
    match Locate(v, first, SectorOf(x))
    case None => None
    case Some(lba) => if lba in v.disk then Some(v.disk[lba][Offset(x)]) else None
  }

  // ---------------------------------------------------------------- the transfer

  /** The bytes delivered, and whether a sector failed. */
  datatype Outcome = Outcome(bytes: seq<Byte>, failed: bool)

  /** Sector by sector from `pos`, until `want` bytes are there, the chain ends or a sector fails. */
  function Transfer(v: Volume, first: nat, pos: nat, want: nat): Outcome
    decreases want
  {
    if want == 0 then Outcome([], false)
    else
      match Locate(v, first, SectorOf(pos))
      case None => Outcome([], false)
      case Some(lba) =>
        if lba !in v.disk then Outcome([], true)
        else
          var take := Take(pos, want);
          var rest := Transfer(v, first, pos + take, want - take);
          Outcome(v.disk[lba][Offset(pos)..Offset(pos) + take] + rest.bytes, rest.failed)
  }

  /** `got` are consecutive bytes of the chain from `pos`, and as many as can be had up to `want`. */
  ghost predicate IsSlice(v: Volume, first: nat, pos: nat, want: nat, got: seq<Byte>) {
    && |got| <= want
    && (forall x: nat | pos <= x < pos + |got| :: Content(v, first, x) == Some(got[x - pos]))
    && (|got| < want ==> Content(v, first, pos + |got|) == None)
  }

  /** Bytes of one sector are consecutive bytes of the chain. */
  lemma WithinSector(pos: nat, want: nat, j: nat)
    requires want > 0 && j < Take(pos, want)
    ensures SectorOf(pos + j) == SectorOf(pos) && Offset(pos + j) == Offset(pos) + j
  {
  }

  lemma SectorContent(v: Volume, first: nat, pos: nat, want: nat, x: nat)
    requires want > 0 && pos <= x < pos + Take(pos, want)
    ensures match Locate(v, first, SectorOf(pos))
            case None => Content(v, first, x) == None
            case Some(lba) =>
              Content(v, first, x) == if lba in v.disk then Some(v.disk[lba][Offset(pos) + (x - pos)]) else None
  {
    hide Locate;
    WithinSector(pos, want, x - pos);
  }

  /** The transfer delivers exactly the slice. */
  lemma {:induction false} TransferIsSlice(v: Volume, first: nat, pos: nat, want: nat)
    ensures IsSlice(v, first, pos, want, Transfer(v, first, pos, want).bytes)
    decreases want
  {
    hide Locate, Content, Take, SectorOf, Offset;
    if want == 0 {
    } else {
      var take := Take(pos, want);
      TransferIsSlice(v, first, pos + take, want - take);
      SectorContent(v, first, pos, want, pos);
      forall x: nat | pos <= x < pos + take
        ensures match Locate(v, first, SectorOf(pos))
                case None => true
                case Some(lba) => lba in v.disk ==> Content(v, first, x) == Some(v.disk[lba][Offset(pos) + (x - pos)])
      {
        SectorContent(v, first, pos, want, x);
      }
    }
  }

  lemma SliceUnique(v: Volume, first: nat, pos: nat, want: nat, a: seq<Byte>, b: seq<Byte>)
    requires IsSlice(v, first, pos, want, a) && IsSlice(v, first, pos, want, b)
    ensures a == b
  {
    hide Content;
    assert |a| == |b| by {
      assert Content(v, first, pos + |a|).Some? ==> |a| >= |b|;
      assert Content(v, first, pos + |b|).Some? ==> |b| >= |a|;
    }
    assert forall j: nat | j < |a| :: Some(a[j]) == Content(v, first, pos + j) == Some(b[j]);
  }

  /** A transfer fails exactly when it stops short at a sector of the chain that cannot be read. */
  lemma {:induction false} FailedIff(v: Volume, first: nat, pos: nat, want: nat)
    ensures var t := Transfer(v, first, pos, want);
            t.failed <==>
            && |t.bytes| < want
            && var place := Locate(v, first, SectorOf(pos + |t.bytes|));
               place.Some? && place.value !in v.disk
    decreases want
  {
    hide Locate, Take, SectorOf, Offset;
    if want == 0 {
    } else {
      var take := Take(pos, want);
      FailedIff(v, first, pos + take, want - take);
    }
  }

  /** A transfer is any shorter one followed by a transfer from where that one stopped. */
  lemma TransferSplits(v: Volume, first: nat, pos: nat, a: nat, want: nat)
    requires a <= want
    ensures var got := Transfer(v, first, pos, a).bytes;
            && |got| <= a
            && Transfer(v, first, pos, want).bytes == got + Transfer(v, first, pos + |got|, want - |got|).bytes
  {
    hide Transfer, Content;
    TransferIsSlice(v, first, pos, a);
    var x := Transfer(v, first, pos, a).bytes;
    TransferIsSlice(v, first, pos + |x|, want - |x|);
    TransferIsSlice(v, first, pos, want);
    var y := Transfer(v, first, pos + |x|, want - |x|).bytes;
    SliceUnique(v, first, pos, want, x + y, Transfer(v, first, pos, want).bytes);
  }

  /** Where the chain has no byte, nothing is delivered. */
  lemma NothingThere(v: Volume, first: nat, pos: nat, want: nat)
    requires Content(v, first, pos) == None
    ensures Transfer(v, first, pos, want).bytes == []
  {
    hide Transfer, Content;
    TransferIsSlice(v, first, pos, want);
  }

  // ---------------------------------------------------------------- sequences of reads

  datatype File = File(first: nat, size: nat, position: nat, directory: bool)

  /** How much a request for `length` bytes may deliver. */
  function Wanted(f: File, length: nat): nat {
    if f.directory || f.position >= f.size then 0
    else if length > f.size - f.position then f.size - f.position else length
  }

  function ReadBytes(v: Volume, f: File, length: nat): seq<Byte> {
    Transfer(v, f.first, f.position, Wanted(f, length)).bytes
  }

  function AfterRead(v: Volume, f: File, length: nat): File {
    f.(position := f.position + |ReadBytes(v, f, length)|)
  }

  /** Everything a sequence of requests delivers, end to end. */
  function ReadMany(v: Volume, f: File, lengths: seq<nat>): seq<Byte>
    decreases |lengths|
  {
    if lengths == [] then []
    else ReadBytes(v, f, lengths[0]) + ReadMany(v, AfterRead(v, f, lengths[0]), lengths[1..])
  }

  function Total(lengths: seq<nat>): nat {
    if lengths == [] then 0 else lengths[0] + Total(lengths[1..])
  }

  /** A read either delivers all it may or stops where the chain has no byte. */
  lemma ReadStops(v: Volume, f: File, length: nat)
    ensures |ReadBytes(v, f, length)| <= Wanted(f, length)
    ensures |ReadBytes(v, f, length)| < Wanted(f, length) ==>
              Content(v, f.first, AfterRead(v, f, length).position) == None
  {
    hide Transfer, Content;
    TransferIsSlice(v, f.first, f.position, Wanted(f, length));
  }

  /** Any sequence of reads of any lengths delivers consecutive pieces: what one read of the total would. */
  lemma {:induction false} ReadsAreConsecutive(v: Volume, f: File, lengths: seq<nat>)
    ensures ReadMany(v, f, lengths) == ReadBytes(v, f, Total(lengths))
    decreases |lengths|
  {
    if lengths == [] {
      EndsAt(v, f.first, f.position, 0);
    } else {
      ReadsAreConsecutive(v, AfterRead(v, f, lengths[0]), lengths[1..]);
      ReadTwice(v, f, lengths[0], Total(lengths[1..]));
    }
  }

  /** Reading `a` bytes and then `b` more is reading `a + b` bytes. */
  lemma ReadTwice(v: Volume, f: File, a: nat, b: nat)
    ensures ReadBytes(v, f, a) + ReadBytes(v, AfterRead(v, f, a), b) == ReadBytes(v, f, a + b)
  {
    hide Transfer, Content;
    var g := AfterRead(v, f, a);
    ReadStops(v, f, a);
    TransferSplits(v, f.first, f.position, Wanted(f, a), Wanted(f, a + b));
    if |ReadBytes(v, f, a)| < Wanted(f, a) {
      NothingThere(v, f.first, g.position, Wanted(g, b));
      NothingThere(v, f.first, g.position, Wanted(f, a + b) - |ReadBytes(v, f, a)|);
    }
  }

  // ---------------------------------------------------------------- the read loops

  /** After `got`, the transfer goes on as a fresh one from there. */
  ghost predicate Continues(v: Volume, first: nat, pos: nat, want: nat, got: seq<Byte>) {
    && |got| <= want
    && var rest := Transfer(v, first, pos + |got|, want - |got|);
       Transfer(v, first, pos, want) == Outcome(got + rest.bytes, rest.failed)
  }

  lemma ContinuesSector(v: Volume, first: nat, pos: nat, want: nat, lba: nat)
    requires want > 0 && Locate(v, first, SectorOf(pos)) == Some(lba) && lba in v.disk
    ensures Continues(v, first, pos, want, v.disk[lba][Offset(pos)..Offset(pos) + Take(pos, want)])
  {
    hide Locate, Take, Offset, SectorOf;
  }

  lemma ContinuesOn(v: Volume, first: nat, pos: nat, want: nat, got: seq<Byte>, more: seq<Byte>)
    requires Continues(v, first, pos, want, got)
    requires Continues(v, first, pos + |got|, want - |got|, more)
    ensures Continues(v, first, pos, want, got + more)
  {
    hide Transfer;
    var rest := Transfer(v, first, pos + |got| + |more|, want - |got| - |more|).bytes;
    assert got + (more + rest) == (got + more) + rest;
  }

  lemma ContinuesStops(v: Volume, first: nat, pos: nat, want: nat, got: seq<Byte>, failed: bool)
    requires Continues(v, first, pos, want, got)
    requires Transfer(v, first, pos + |got|, want - |got|) == Outcome([], failed)
    ensures Transfer(v, first, pos, want) == Outcome(got, failed)
  {
    hide Transfer;
  }

  /** Position `p` lies in sector `s` of cluster `q` of the file. */
  predicate LiesIn(p: nat, spc: nat, q: nat, s: nat)
    requires spc > 0
  {
    SectorOf(p) / spc == q && SectorOf(p) % spc == s
  }

  /** A transfer that leaves something wanted ends at the start of the next sector. */
  lemma NextSector(p: nat, want: nat, spc: nat, q: nat, s: nat)
    requires spc > 0 && LiesIn(p, spc, q, s) && Take(p, want) < want
    ensures if s + 1 == spc then LiesIn(p + Take(p, want), spc, q + 1, 0) else LiesIn(p + Take(p, want), spc, q, s + 1)
  {
    assert SectorOf(p + Take(p, want)) == SectorOf(p) + 1;
    DivModNext(SectorOf(p), spc);
  }

  lemma Start(v: Volume, first: nat, pos: nat, want: nat, q: nat, s: nat)
    requires q == ClusterOf(v, pos) && s == SectorOf(pos) % v.spc
    ensures s < v.spc && LiesIn(pos, v.spc, q, s) && Continues(v, first, pos, want, [])
  {
    ContinuesNothing(v, first, pos, want);
  }

  lemma LocateIn(v: Volume, first: nat, p: nat, q: nat, s: nat)
    requires LiesIn(p, v.spc, q, s) && ValidCluster(ClusterAt(v, first, q))
    ensures Locate(v, first, SectorOf(p)) == Some(SectorLba(v, ClusterAt(v, first, q), s))
  {
    hide SectorOf, ClusterAt, SectorLba;
  }

  /** The inner loop of `fat32_read_file`: the rest of one cluster, or what is wanted of it. */
  method ReadCluster(v: Volume, ghost first: nat, cluster: nat, pos: nat, want: nat)
    returns (got: seq<Byte>, failed: bool)
    requires ValidCluster(cluster) && cluster == ClusterAt(v, first, ClusterOf(v, pos)) && want > 0
    ensures |got| <= want && (!failed ==> |got| > 0)
    ensures failed ==> Transfer(v, first, pos, want) == Outcome(got, true)
    ensures !failed ==> Continues(v, first, pos, want, got)
    ensures !failed && |got| < want ==> ClusterOf(v, pos + |got|) == ClusterOf(v, pos) + 1
  {
    hide Continues, Transfer, Take, ClusterAt, NextCluster, SectorLba, ValidCluster, Locate, SectorOf, Offset;
    ghost var q := ClusterOf(v, pos);
    var s: nat := SectorOf(pos) % v.spc;
    Start(v, first, pos, want, q, s);
    got, failed := [], false;
    var p := pos;
    while s < v.spc && |got| < want
      invariant |got| <= want && p == pos + |got| && s <= v.spc && (got == [] ==> s < v.spc)
      invariant |got| < want ==> if s < v.spc then LiesIn(p, v.spc, q, s) else LiesIn(p, v.spc, q + 1, 0)
      invariant Continues(v, first, pos, want, got)
      decreases v.spc - s
    {
      var lba := SectorLba(v, cluster, s);
      LocateIn(v, first, p, q, s);
      if lba !in v.disk {
        FailsAt(v, first, p, want - |got|, lba);
        ContinuesStops(v, first, pos, want, got, true);
        return got, true;
      }
      var take := Take(p, want - |got|);
      var chunk := v.disk[lba][Offset(p)..Offset(p) + take];
      ContinuesSector(v, first, p, want - |got|, lba);
      ContinuesOn(v, first, pos, want, got, chunk);
      if take < want - |got| { NextSector(p, want - |got|, v.spc, q, s); }
      got, p, s := got + chunk, p + take, s + 1;
    }
  }

  lemma FailsAt(v: Volume, first: nat, pos: nat, want: nat, lba: nat)
    requires want > 0 && Locate(v, first, SectorOf(pos)) == Some(lba) && lba !in v.disk
    ensures Transfer(v, first, pos, want) == Outcome([], true)
  {
  }

  /** The skip loop: follow the chain to the cluster that holds the position. */
  method SkipClusters(v: Volume, first: nat, position: nat) returns (cluster: nat)
    ensures SameCluster(cluster, ClusterAt(v, first, ClusterOf(v, position)))
  {
    DivTwice(position, v.spc, SECTOR);
    var skip := position / (v.spc * SECTOR);
    cluster := first;
    var n := 0;
    while n < skip && ValidCluster(cluster)
      invariant n <= skip && cluster == ClusterAt(v, first, n)
    {
      cluster := NextCluster(v, cluster);
      n := n + 1;
    }
    StaysStopped(v, first, n, skip);
  }

  lemma {:induction false} StaysStopped(v: Volume, first: nat, m: nat, n: nat)
    requires m <= n
    ensures !ValidCluster(ClusterAt(v, first, m)) ==> !ValidCluster(ClusterAt(v, first, n))
  {
    if m == n {
    } else {
      StaysStopped(v, first, m, n - 1);
    }
  }

  /** An open file, whose position the reads move. */
  class OpenFile {
    var file: File

    /** `fat32_read_file`: the bytes put in the buffer, and the value returned. */
    method Read(v: Volume, length: nat) returns (got: seq<Byte>, result: int)
      modifies this
      ensures got == ReadBytes(v, old(file), length) && file == AfterRead(v, old(file), length)
      ensures var f := old(file);
              var failed := Transfer(v, f.first, f.position, Wanted(f, length)).failed;
              result == if got == [] && failed then -1 else |got|
    {
      hide Continues, Transfer, ClusterAt, ClusterOf, NextCluster, ValidCluster;
      var f := file;
      got := [];
      EndsAt(v, f.first, f.position, 0);
      if f.directory || f.position >= f.size { return [], 0; }
      var want := if length > f.size - f.position then f.size - f.position else length;
      var cluster := SkipClusters(v, f.first, f.position);
      ContinuesNothing(v, f.first, f.position, want);
      while |got| < want && ValidCluster(cluster)
        invariant |got| <= want && file == f.(position := f.position + |got|)
        invariant |got| < want ==> SameCluster(cluster, ClusterAt(v, f.first, ClusterOf(v, file.position)))
        invariant Continues(v, f.first, f.position, want, got)
        decreases want - |got|
      {
        ghost var q := ClusterOf(v, file.position);
        var chunk, failed := ReadCluster(v, f.first, cluster, file.position, want - |got|);
        if failed {
          FailsAfter(v, f.first, f.position, want, got, chunk);
        } else {
          ContinuesOn(v, f.first, f.position, want, got, chunk);
        }
        got := got + chunk;
        file := file.(position := file.position + |chunk|);
        if failed { return got, if got == [] then -1 else |got|; }
        cluster := NextCluster(v, cluster);
        ChainStep(v, f.first, q);
      }
      EndsAt(v, f.first, f.position + |got|, want - |got|);
      ContinuesStops(v, f.first, f.position, want, got, false);
      result := |got|;
    }
  }

  lemma ChainStep(v: Volume, first: nat, q: nat)
    requires ValidCluster(ClusterAt(v, first, q))
    ensures NextCluster(v, ClusterAt(v, first, q)) == ClusterAt(v, first, q + 1)
  {
    hide NextCluster;
  }

  lemma ContinuesNothing(v: Volume, first: nat, pos: nat, want: nat)
    ensures Continues(v, first, pos, want, [])
  {
    hide Transfer;
  }

  /** The chain walked so far agrees with the chain: the same cluster, or both past its end. */
  predicate SameCluster(a: nat, b: nat) {
    if ValidCluster(a) then a == b else !ValidCluster(b)
  }

  lemma EndsAt(v: Volume, first: nat, pos: nat, want: nat)
    requires want > 0 ==> !ValidCluster(ClusterAt(v, first, ClusterOf(v, pos)))
    ensures Transfer(v, first, pos, want) == Outcome([], false)
  {
  }

  lemma FailsAfter(v: Volume, first: nat, pos: nat, want: nat, got: seq<Byte>, more: seq<Byte>)
    requires Continues(v, first, pos, want, got)
    requires Transfer(v, first, pos + |got|, want - |got|) == Outcome(more, true)
    ensures Transfer(v, first, pos, want) == Outcome(got + more, true)
  {
    hide Transfer;
  }
}
