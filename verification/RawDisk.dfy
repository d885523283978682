/**
  The raw disk file (fs/vfs.c, descriptor 3): byte ranges read from and written to a device
  that moves whole sectors, at a position that is a 32-bit number.
 */
module RawDisk {
  import opened Numbers
  import opened Sectors

  type Address = a: nat | a < WORD

  /** A device, and the sectors that it fails to read or to write. */
  datatype Device = Device(sectors: map<nat, Sector>, unreadable: set<nat>, unwritable: set<nat>) {

    function Get(l: nat): Sector {
      if l in sectors then sectors[l] else seq(SECTOR, _ => 0)
    }

    function Put(l: nat, s: Sector): Device {
      this.(sectors := sectors[l := s])
    }
  }

  /** The device as one space of bytes. */
  function Content(d: Device, a: Address): Byte {
    d.Get(SectorOf(a))[Offset(a)]
  }

  /** `n` bytes after `a`, around the end of the space. */
  function After(a: Address, n: nat): Address
    requires n <= WORD
  {
    if a + n >= WORD then a + n - WORD else a + n
  }

  /** How far `a` comes after `from`. */
  function Distance(from: Address, a: Address): (n: nat)
    ensures n < WORD && After(from, n) == a
  {
    if a >= from then a - from else a + WORD - from
  }

  // ---------------------------------------------------------------- what a transfer does

  /** `got` are the bytes of the device from `p` on, all readable. */
  ghost predicate Fetched(d: Device, p: Address, got: seq<Byte>)
    requires |got| < WORD
  {
    forall a: Address | Distance(p, a) < |got| :: SectorOf(a) !in d.unreadable && got[Distance(p, a)] == Content(d, a)
  }

  /** `e` is `d` with `data` at `p`, all in writable sectors, and nothing else changed. */
  ghost predicate Wrote(d: Device, e: Device, p: Address, data: seq<Byte>)
    requires |data| < WORD
  {
    && e.unreadable == d.unreadable && e.unwritable == d.unwritable
    && (forall a: Address | Distance(p, a) < |data| :: SectorOf(a) !in d.unwritable)
    && forall a: Address :: Content(e, a) == if Distance(p, a) < |data| then data[Distance(p, a)] else Content(d, a)
  }

  /**
    A write of `want` more bytes at `p` is refused: the sector cannot be written, or only part of
    it is and it cannot be read.
   */
  predicate Blocked(d: Device, p: Address, want: nat) {
    SectorOf(p) in d.unwritable || (Take(p, want) < SECTOR && SectorOf(p) in d.unreadable)
  }

  /** Only a write of a whole sector can do without reading it first. */
  lemma BlockedIff(d: Device, p: Address, want: nat)
    requires want > 0
    ensures Blocked(d, p, want) <==>
            p / 512 in d.unwritable || (p / 512 in d.unreadable && !(p % 512 == 0 && want >= 512))
  {
  }

  /** What was written is what is read back. */
  lemma ReadsBack(d: Device, e: Device, p: Address, data: seq<Byte>, got: seq<Byte>)
    requires |data| < WORD && |got| < WORD && Wrote(d, e, p, data) && Fetched(e, p, got)
    ensures forall j: nat | j < |got| && j < |data| :: got[j] == data[j]
  {
    hide Content;
    forall j: nat | j < |got| && j < |data| ensures got[j] == data[j] {
      var a := After(p, j);
      assert Distance(p, a) == j;
      assert Content(e, a) == data[j];
    }
  }

  /** Reads of other bytes do not notice a write. */
  lemma OthersUnchanged(d: Device, e: Device, p: Address, data: seq<Byte>, q: Address, got: seq<Byte>)
    requires |data| < WORD && |got| < WORD && Wrote(d, e, p, data)
    requires forall a: Address :: !(Distance(p, a) < |data| && Distance(q, a) < |got|)
    ensures Fetched(d, q, got) <==> Fetched(e, q, got)
  {
    hide Content;
  }

  /** Two writes in turn, the second where the first stopped, are one write. */
  lemma WritesJoin(d: Device, e: Device, f: Device, p: Address, data: seq<Byte>, more: seq<Byte>)
    requires |data| + |more| < WORD && Wrote(d, e, p, data) && Wrote(e, f, After(p, |data|), more)
    ensures Wrote(d, f, p, data + more)
  {
    hide Content, Distance;
    var q := After(p, |data|);
    forall a: Address
      ensures Distance(p, a) < |data + more| ==> SectorOf(a) !in d.unwritable
      ensures Content(f, a) == if Distance(p, a) < |data + more| then (data + more)[Distance(p, a)] else Content(d, a)
    {
      DistanceFrom(p, |data|, a, |more|);
    }
  }

  lemma DistanceFrom(p: Address, n: nat, a: Address, m: nat)
    requires n + m < WORD
    ensures n <= Distance(p, a) < n + m <==> Distance(After(p, n), a) < m
    ensures Distance(After(p, n), a) < m ==> Distance(p, a) == n + Distance(After(p, n), a)
  {
  }

  lemma FetchesJoin(d: Device, p: Address, got: seq<Byte>, more: seq<Byte>)
    requires |got| + |more| < WORD && Fetched(d, p, got) && Fetched(d, After(p, |got|), more)
    ensures Fetched(d, p, got + more)
  {
    hide Content, Distance;
    forall a: Address | Distance(p, a) < |got + more|
      ensures SectorOf(a) !in d.unreadable && (got + more)[Distance(p, a)] == Content(d, a)
    {
      DistanceFrom(p, |got|, a, |more|);
    }
  }

  // ---------------------------------------------------------------- one sector

  /** The addresses that one sector's part of a transfer touches. */
  lemma WithinSector(p: Address, n: nat, a: Address)
    requires Offset(p) + n <= SECTOR
    ensures Distance(p, a) < n <==> SectorOf(a) == SectorOf(p) && Offset(p) <= Offset(a) < Offset(p) + n
    ensures Distance(p, a) < n ==> Offset(a) == Offset(p) + Distance(p, a)
  {
  }

  lemma SectorFetched(d: Device, p: Address, n: nat)
    requires Offset(p) + n <= SECTOR && SectorOf(p) !in d.unreadable
    ensures Fetched(d, p, d.Get(SectorOf(p))[Offset(p)..Offset(p) + n])
  {
    hide SectorOf, Offset, Distance;
    forall a: Address | Distance(p, a) < n
      ensures && SectorOf(a) == SectorOf(p)
              && d.Get(SectorOf(p))[Offset(p)..Offset(p) + n][Distance(p, a)] == Content(d, a)
    {
      WithinSector(p, n, a);
    }
  }

  function Patched(s: Sector, o: nat, data: seq<Byte>): Sector
    requires o + |data| <= SECTOR
  {
    s[..o] + data + s[o + |data|..]
  }

  lemma SectorWritten(d: Device, p: Address, data: seq<Byte>)
    requires Offset(p) + |data| <= SECTOR && SectorOf(p) !in d.unwritable
    ensures Wrote(d, d.Put(SectorOf(p), Patched(d.Get(SectorOf(p)), Offset(p), data)), p, data)
  {
    hide SectorOf, Offset, Distance;
    var e := d.Put(SectorOf(p), Patched(d.Get(SectorOf(p)), Offset(p), data));
    forall a: Address
      ensures Distance(p, a) < |data| ==> SectorOf(a) == SectorOf(p)
      ensures Content(e, a) == if Distance(p, a) < |data| then data[Distance(p, a)] else Content(d, a)
    {
      WithinSector(p, |data|, a);
    }
  }

  // ---------------------------------------------------------------- the loops

  /** The open raw disk: its position, over the device it moves. */
  class RawFile {
    var device: Device
    var position: Address

    constructor (d: Device)
      ensures device == d && position == 0
    {
      device, position := d, 0;
    }

    /** `vfs_read` on the raw disk. */
    method Read(n: nat) returns (got: seq<Byte>, result: int)
      requires n < WORD
      modifies this`position
      ensures |got| <= n && Fetched(device, old(position), got) && position == After(old(position), |got|)
      ensures |got| < n ==> SectorOf(position) in device.unreadable
      ensures result == if got == [] && n > 0 then -1 else |got|
    {
      hide Fetched, SectorOf, Offset, Take;
      got := [];
      FetchedNothing(device, position);
      while |got| < n
        invariant |got| <= n && position == After(old(position), |got|) && Fetched(device, old(position), got)
      {
        if SectorOf(position) in device.unreadable { return got, if got == [] then -1 else |got|; }
        var take := Take(position, n - |got|);
        var chunk := device.Get(SectorOf(position))[Offset(position)..Offset(position) + take];
        SectorFetched(device, position, take);
        FetchesJoin(device, old(position), got, chunk);
        got, position := got + chunk, After(position, take);
      }
      result := |got|;
    }

    /** `vfs_write` on the raw disk: `done` bytes reach it. */
    method Write(data: seq<Byte>) returns (done: nat, result: int)
      requires |data| < WORD
      modifies this
      ensures done <= |data| && Wrote(old(device), device, old(position), data[..done])
      ensures position == After(old(position), done)
      ensures done < |data| ==> Blocked(device, position, |data| - done)
      ensures result == if done == 0 && data != [] then -1 else done
    {
      hide Wrote, SectorOf, Offset, Take, Patched;
      done := 0;
      WroteNothing(device, position);
      while done < |data|
        invariant done <= |data| && position == After(old(position), done)
        invariant Wrote(old(device), device, old(position), data[..done])
      {
        var want := |data| - done;
        var take := Take(position, want);
        if Offset(position) > 0 || take < SECTOR {
          if SectorOf(position) in device.unreadable { return done, if done > 0 then done else -1; }
        }
        if SectorOf(position) in device.unwritable { return done, if done > 0 then done else -1; }
        var part := data[done..done + take];
        SectorWritten(device, position, part);
        ghost var was := device;
        device := device.Put(SectorOf(position), Patched(device.Get(SectorOf(position)), Offset(position), part));
        WritesJoin(old(device), was, device, old(position), data[..done], part);
        assert data[..done] + part == data[..done + take];
        position, done := After(position, take), done + take;
      }
      result := done;
    }
  }

  lemma FetchedNothing(d: Device, p: Address)
    ensures Fetched(d, p, [])
  {
  }

  lemma WroteNothing(d: Device, p: Address)
    ensures Wrote(d, d, p, [])
  {
  }
}
