/**
  The kernel heap itself (mm/heap.c): block headers and payloads in one byte arena,
  linked by addresses stored in the headers.  `blocks` is the list those bytes spell out.
  Growing past the arena is taken to fail.
 */
module KernelHeap {
  import opened Numbers
  import opened Blocks
  import opened Grants

  const MAGIC: nat := 0xc3b1a9e7

  /** Every block's header bytes and payload lie inside the arena, in list order. */
  ghost predicate Laid(blocks: seq<Block>) {
    && (forall i | 0 <= i < |blocks| :: End(blocks[i]) <= ARENA)
    && (forall i: nat, j: nat :: Before(blocks, i, j))
  }

  ghost predicate Before(blocks: seq<Block>, i: nat, j: nat) {
    i < j < |blocks| ==> End(blocks[i]) <= blocks[j].off
  }

  lemma LaidOut(blocks: seq<Block>)
    requires Tiles(blocks, 0, ARENA)
    ensures Laid(blocks)
  {
    forall i | 0 <= i < |blocks| ensures End(blocks[i]) <= ARENA { TilesAt(blocks, i, 0, ARENA); }
    forall i: nat, j: nat ensures Before(blocks, i, j) {
      if i < j < |blocks| { TilesDisjoint(blocks, i, j, 0, ARENA); }
    }
  }

  function Combine(a: Byte, b: Byte, c: Byte, d: Byte): nat {
    a + 0x100 * b + 0x1_0000 * c + 0x100_0000 * d
  }

  /** The `k`-th byte of a 32-bit word, least significant first. */
  function WordByte(v: nat, k: nat): Byte {
    if k == 0 then v % 256 else WordByte(v / 256, k - 1)
  }

  lemma BytesOfWord(v: nat)
    requires v < WORD
    ensures Combine(WordByte(v, 0), WordByte(v, 1), WordByte(v, 2), WordByte(v, 3)) == v
  {
    var a := v / 256;
    var b := a / 256;
    var c := b / 256;
    assert WordByte(v, 1) == WordByte(a, 0) == a % 256;
    assert WordByte(v, 2) == WordByte(a, 1) == WordByte(b, 0) == b % 256;
    assert WordByte(v, 3) == WordByte(a, 2) == WordByte(b, 1) == WordByte(c, 0) == c;
  }

  function WordAt(mem: seq<Byte>, o: nat): nat
    requires o + 4 <= |mem|
  {
    Combine(mem[o], mem[o + 1], mem[o + 2], mem[o + 3])
  }

  /** The four bytes at `o` are the word `v`. */
  predicate WordIs(mem: seq<Byte>, o: nat, v: nat) {
    && o + 4 <= |mem| && v < WORD
    && mem[o] == WordByte(v, 0) && mem[o + 1] == WordByte(v, 1)
    && mem[o + 2] == WordByte(v, 2) && mem[o + 3] == WordByte(v, 3)
  }

  lemma WordRead(mem: seq<Byte>, o: nat, v: nat)
    requires WordIs(mem, o, v)
    ensures WordAt(mem, o) == v
  {
    hide WordByte, Combine;
    BytesOfWord(v);
  }

  /** The sixteen bytes at `b.off` are the header of `b`, linked to `next`. */
  ghost predicate HeaderIs(mem: seq<Byte>, b: Block, next: nat) {
    && b.off + HEADER <= |mem|
    && WordIs(mem, b.off, b.size)
    && WordIs(mem, b.off + 4, if b.free then 1 else 0)
    && WordIs(mem, b.off + 8, MAGIC)
    && WordIs(mem, b.off + 12, next)
  }

  /** The `next` pointer block `i` must hold. */
  ghost function NextOf(area: nat, list: seq<Block>, i: nat): nat {
    if i + 1 < |list| then area + list[i + 1].off else 0
  }

  ghost predicate Headers(mem: seq<Byte>, area: nat, list: seq<Block>) {
    forall i: nat {:trigger NextOf(area, list, i)} | i < |list| :: HeaderIs(mem, list[i], NextOf(area, list, i))
  }

  /** What the words of a header read as. */
  lemma ReadBack(mem: seq<Byte>, area: nat, list: seq<Block>, i: nat)
    requires Headers(mem, area, list) && i < |list|
    ensures var o := list[i].off;
            && o + HEADER <= |mem| && WordAt(mem, o) == list[i].size
            && WordAt(mem, o + 4) == (if list[i].free then 1 else 0)
            && WordAt(mem, o + 8) == MAGIC && WordAt(mem, o + 12) == NextOf(area, list, i)
  {
    hide WordIs, WordAt, NextOf;
    var b, o := list[i], list[i].off;
    assert HeaderIs(mem, b, NextOf(area, list, i));
    WordRead(mem, o, b.size);
    WordRead(mem, o + 4, if b.free then 1 else 0);
    WordRead(mem, o + 8, MAGIC);
    WordRead(mem, o + 12, NextOf(area, list, i));
  }

  /** Nothing outside `lo..hi` has changed. */
  ghost predicate SameOutside(was: seq<Byte>, now: seq<Byte>, lo: nat, hi: nat) {
    |was| == |now| == ARENA && forall k | 0 <= k < ARENA && !(lo <= k < hi) :: now[k] == was[k]
  }

  lemma HeaderKept(was: seq<Byte>, now: seq<Byte>, lo: nat, hi: nat, b: Block, next: nat)
    requires HeaderIs(was, b, next) && SameOutside(was, now, lo, hi) && (b.off + HEADER <= lo || hi <= b.off)
    ensures HeaderIs(now, b, next)
  {
  }

  lemma FlagHeader(was: seq<Byte>, now: seq<Byte>, b: Block, next: nat, free: bool)
    requires HeaderIs(was, b, next) && SameOutside(was, now, b.off + 4, b.off + 8)
    requires WordIs(now, b.off + 4, if free then 1 else 0)
    ensures HeaderIs(now, b.(free := free), next)
  {
  }

  /** The header of `b` after its size and link were rewritten, in either order. */
  lemma SizeAndLink(was: seq<Byte>, mid: seq<Byte>, now: seq<Byte>, b: Block, next: nat, link: nat, size: nat)
    requires HeaderIs(was, b, next)
    requires SameOutside(was, mid, b.off + 12, b.off + 16) && WordIs(mid, b.off + 12, link)
    requires SameOutside(mid, now, b.off, b.off + 4) && WordIs(now, b.off, size)
    ensures HeaderIs(now, b.(size := size), link)
  {
  }

  lemma SplitHeaders(was: seq<Byte>, now: seq<Byte>, area: nat, list: seq<Block>, i: nat, n: nat)
    requires Laid(list) && Headers(was, area, list) && i < |list| && Splits(list[i], n)
    requires SameOutside(was, now, list[i].off, End(list[i]))
    requires HeaderIs(now, list[i].(size := n), area + list[i].off + HEADER + n)
    requires HeaderIs(now, Block(list[i].off + HEADER + n, list[i].size - n - HEADER, true), NextOf(area, list, i))
    ensures Headers(now, area, SplitAt(list, i, n))
  {
    hide HeaderIs, SameOutside;
    var r := SplitAt(list, i, n);
    forall j: nat | j < |r| ensures HeaderIs(now, r[j], NextOf(area, r, j)) {
      if j != i && j != i + 1 {
        var q := if j < i then j else j - 1;
        assert Before(list, q, i) && Before(list, i, q);
        HeaderKept(was, now, list[i].off, End(list[i]), list[q], NextOf(area, list, q));
      }
    }
  }

  /** The three writes of `split`: the new header, then the link and the size of the old one. */
  lemma SplitWrites(was: seq<Byte>, made: seq<Byte>, linked: seq<Byte>, now: seq<Byte>,
                    area: nat, list: seq<Block>, i: nat, n: nat)
    requires Laid(list) && Headers(was, area, list) && i < |list| && Splits(list[i], n)
    requires var (o, r) := (list[i].off, list[i].off + HEADER + n);
             && SameOutside(was, made, r, r + HEADER)
             && HeaderIs(made, Block(r, list[i].size - n - HEADER, true), NextOf(area, list, i))
             && SameOutside(made, linked, o + 12, o + 16) && WordIs(linked, o + 12, area + r)
             && SameOutside(linked, now, o, o + 4) && WordIs(now, o, n)
    ensures Headers(now, area, SplitAt(list, i, n))
  {
    hide HeaderIs, WordIs;
    var b := list[i];
    var o, r, next := b.off, b.off + HEADER + n, NextOf(area, list, i);
    var rest := Block(r, b.size - n - HEADER, true);
    HeaderKept(was, made, r, r + HEADER, b, next);
    SizeAndLink(made, linked, now, b, next, area + r, n);
    HeaderKept(made, linked, o + 12, o + 16, rest, next);
    HeaderKept(linked, now, o, o + 4, rest, next);
    SplitHeaders(was, now, area, list, i, n);
  }

  /** Apart from the headers of `split`, no byte changes. */
  ghost predicate SplitTouches(was: seq<Byte>, now: seq<Byte>, b: Block, n: nat) {
    && |was| == |now| == ARENA
    && forall k | 0 <= k < ARENA && !(b.off <= k < b.off + HEADER) &&
                  !(Splits(b, n) && b.off + HEADER + n <= k < b.off + HEADER + n + HEADER) :: now[k] == was[k]
  }

  lemma FlagHeaders(was: seq<Byte>, now: seq<Byte>, area: nat, list: seq<Block>, i: nat, free: bool)
    requires Laid(list) && Headers(was, area, list) && i < |list|
    requires SameOutside(was, now, list[i].off + 4, list[i].off + 8)
    requires WordIs(now, list[i].off + 4, if free then 1 else 0)
    ensures Headers(now, area, list[i := list[i].(free := free)])
  {
    hide HeaderIs, SameOutside, WordIs;
    var r := list[i := list[i].(free := free)];
    FlagHeader(was, now, list[i], NextOf(area, list, i), free);
    forall j: nat | j < |r| ensures HeaderIs(now, r[j], NextOf(area, r, j)) {
      if j != i {
        assert Before(list, j, i) && Before(list, i, j);
        HeaderKept(was, now, list[i].off + 4, list[i].off + 8, list[j], NextOf(area, list, j));
      }
    }
  }

  /** The payload bytes of `b` are the same in both memories. */
  ghost predicate PayloadKept(b: Block, was: seq<Byte>, now: seq<Byte>) {
    && |was| == |now| == ARENA
    && forall k | b.off + HEADER <= k < End(b) && k < ARENA :: now[k] == was[k]
  }

  /** So are those of all these blocks. */
  ghost predicate PayloadsKept(live: seq<Block>, was: seq<Byte>, now: seq<Byte>) {
    forall b | b in live :: PayloadKept(b, was, now)
  }

  /** Writes inside a free block disturb no live payload. */
  lemma FreeBlockKeeps(blocks: seq<Block>, i: nat, was: seq<Byte>, now: seq<Byte>)
    requires Laid(blocks) && i < |blocks| && blocks[i].free && SameOutside(was, now, blocks[i].off, End(blocks[i]))
    ensures PayloadsKept(Live(blocks), was, now)
  {
    hide Live;
    forall b | b in Live(blocks) ensures PayloadKept(b, was, now) {
      LiveHas(blocks, b);
      var j: nat :| j < |blocks| && blocks[j] == b;
      assert Before(blocks, j, i) && Before(blocks, i, j);
    }
  }

  /** Writes to a header disturb no live payload. */
  lemma HeaderKeeps(blocks: seq<Block>, i: nat, was: seq<Byte>, now: seq<Byte>)
    requires Laid(blocks) && i < |blocks| && SameOutside(was, now, blocks[i].off, blocks[i].off + HEADER)
    ensures PayloadsKept(Live(blocks), was, now)
  {
    hide Live;
    forall b | b in Live(blocks) ensures PayloadKept(b, was, now) {
      LiveHas(blocks, b);
      var j: nat :| j < |blocks| && blocks[j] == b;
      assert Before(blocks, j, i) && Before(blocks, i, j);
    }
  }

  /** Writes inside a payload disturb no header and no other live payload. */
  lemma PayloadWrites(blocks: seq<Block>, i: nat, area: nat, was: seq<Byte>, now: seq<Byte>)
    requires Laid(blocks) && i < |blocks| && Headers(was, area, blocks)
    requires SameOutside(was, now, blocks[i].off + HEADER, End(blocks[i]))
    ensures Headers(now, area, blocks)
    ensures forall b | b in Live(blocks) && b.off != blocks[i].off :: PayloadKept(b, was, now)
  {
    hide Live, HeaderIs;
    forall j: nat | j < |blocks| ensures HeaderIs(now, blocks[j], NextOf(area, blocks, j)) {
      assert Before(blocks, j, i) && Before(blocks, i, j);
      HeaderKept(was, now, blocks[i].off + HEADER, End(blocks[i]), blocks[j], NextOf(area, blocks, j));
    }
    forall b | b in Live(blocks) && b.off != blocks[i].off ensures PayloadKept(b, was, now) {
      LiveHas(blocks, b);
      var j: nat :| j < |blocks| && blocks[j] == b;
      assert Before(blocks, j, i) && Before(blocks, i, j);
    }
  }

  lemma KeptAlready(live: seq<Block>, mem: seq<Byte>)
    requires |mem| == ARENA
    ensures PayloadsKept(live, mem, mem)
  {
  }

  lemma KeptTwice(live: seq<Block>, was: seq<Byte>, mid: seq<Byte>, now: seq<Byte>)
    requires PayloadsKept(live, was, mid) && PayloadsKept(live, mid, now)
    ensures PayloadsKept(live, was, now)
  {
    forall b | b in live ensures PayloadKept(b, was, now) {
      assert PayloadKept(b, was, mid) && PayloadKept(b, mid, now);
    }
  }

  /** The two writes of `merge`: the size, then the link past the absorbed block. */
  lemma JoinWrites(was: seq<Byte>, sized: seq<Byte>, now: seq<Byte>, area: nat, list: seq<Block>, i: nat)
    requires Laid(list) && Headers(was, area, list) && i + 1 < |list|
    requires SameOutside(was, sized, list[i].off, list[i].off + 4)
    requires WordIs(sized, list[i].off, list[i].size + HEADER + list[i + 1].size)
    requires SameOutside(sized, now, list[i].off + 12, list[i].off + 16)
    requires WordIs(now, list[i].off + 12, NextOf(area, list, i + 1))
    ensures Headers(now, area, Join(list, i))
  {
    hide HeaderIs, WordIs, SameOutside;
    var r := Join(list, i);
    JoinHeader(was, sized, now, list[i], NextOf(area, list, i), r[i].size, NextOf(area, list, i + 1));
    OutsideTwice(was, sized, now, list[i].off);
    forall j: nat | j < |r| ensures HeaderIs(now, r[j], NextOf(area, r, j)) {
      if j != i {
        var q := if j < i then j else j + 1;
        assert Before(list, q, i) && Before(list, i, q);
        HeaderKept(was, now, list[i].off, list[i].off + HEADER, list[q], NextOf(area, list, q));
      }
    }
  }

  lemma OutsideTwice(was: seq<Byte>, mid: seq<Byte>, now: seq<Byte>, o: nat)
    requires SameOutside(was, mid, o, o + 4) && SameOutside(mid, now, o + 12, o + 16)
    ensures SameOutside(was, now, o, o + HEADER)
  {
  }

  lemma JoinHeader(was: seq<Byte>, mid: seq<Byte>, now: seq<Byte>, b: Block, next: nat, size: nat, link: nat)
    requires HeaderIs(was, b, next)
    requires SameOutside(was, mid, b.off, b.off + 4) && WordIs(mid, b.off, size)
    requires SameOutside(mid, now, b.off + 12, b.off + 16) && WordIs(now, b.off + 12, link)
    ensures HeaderIs(now, b.(size := size), link)
  {
  }

  /**
    The copy loop of `krealloc` from round `i` on, out of the block with its header at `o`.  The loop
    reads the size again in every round.  Memory beyond the arena is not modelled.
   */
  function Copying(mem: seq<Byte>, o: nat, to: nat, i: nat): (r: seq<Byte>)
    requires o + HEADER <= |mem|
    ensures |r| == |mem|
    decreases |mem| - i
  {
    if i < WordAt(mem, o) && o + HEADER + i < |mem| && to + i < |mem|
    then Copying(mem[to + i := mem[o + HEADER + i]], o, to, i + 1) else mem
  }

  /** Into room for all of it, apart from its source, the loop moves the payload and writes nothing else. */
  lemma {:induction false} CopyingFits(mem: seq<Byte>, o: nat, to: nat, i: nat, len: nat)
    requires |mem| == ARENA && o + HEADER + len <= ARENA && to + len <= ARENA && i <= len
    requires WordAt(mem, o) == len && (o + HEADER + len <= to || to + len <= o)
    ensures var r := Copying(mem, o, to, i);
            && SameOutside(mem, r, to + i, to + len)
            && r[to + i..to + len] == mem[o + HEADER + i..o + HEADER + len]
    decreases len - i
  {
    if i == len {
    } else {
      var next := mem[to + i := mem[o + HEADER + i]];
      CopyingFits(next, o, to, i + 1, len);
      var r := Copying(next, o, to, i + 1);
      assert r[to + i..to + len] == [r[to + i]] + r[to + i + 1..to + len];
      assert next[o + HEADER + i + 1..o + HEADER + len] == mem[o + HEADER + i + 1..o + HEADER + len];
    }
  }

  /** From one block into another with room for it, the loop moves the payload and disturbs nothing else. */
  lemma CopyingMoves(mem: seq<Byte>, area: nat, list: seq<Block>, i: nat, j: nat)
    requires Laid(list) && Headers(mem, area, list) && |mem| == ARENA
    requires i < |list| && j < |list| && i != j && list[i].size <= list[j].size
    ensures list[i].off + HEADER <= ARENA && list[j].off + HEADER + list[i].size <= ARENA
    ensures var now := Copying(mem, list[i].off, list[j].off + HEADER, 0);
            && Headers(now, area, list) && Moved(list[i], list[j].off + HEADER, list[i].size, mem, now)
            && forall c | c in Live(list) && c.off != list[j].off :: PayloadKept(c, mem, now)
  {
    hide Headers, Live, WordAt, Copying;
    var o, to := list[i].off, list[j].off + HEADER;
    assert Before(list, i, j) && Before(list, j, i);
    ReadBack(mem, area, list, i);
    CopyingFits(mem, o, to, 0, list[i].size);
    PayloadWrites(list, j, area, mem, Copying(mem, o, to, 0));
  }

  lemma NothingLive(was: seq<Byte>, now: seq<Byte>)
    ensures PayloadsKept(Live(Initial()), was, now)
  {
    assert Initial()[1..] == [];
  }

  class Arena {
    const area: nat
    const mem: array<Byte>
    var head: nat
    ghost var blocks: seq<Block>

    function Word(o: nat): (r: nat)
      requires o + 4 <= mem.Length
      reads mem
      ensures r == WordAt(mem[..], o)
    {
      Combine(mem[o], mem[o + 1], mem[o + 2], mem[o + 3])
    }

    /** A heap not yet initialised (static memory, all zero) stands for the initial heap. */
    ghost predicate Valid()
      reads this, mem
    {
      && mem.Length == ARENA && 0 < area && area + ARENA < WORD
      && Tiles(blocks, 0, ARENA) && Laid(blocks) && blocks != []
      && (if head == 0 then blocks == Initial() && (forall k | 0 <= k < ARENA :: mem[k] == 0)
          else head == area && Headers(mem[..], area, blocks))
    }

    constructor (area: nat)
      requires 0 < area && area + ARENA < WORD
      ensures Valid() && blocks == Initial() && fresh(mem) && this.area == area
    {
      this.area := area;
      mem := new Byte[ARENA](_ => 0);
      head := 0;
      blocks := Initial();
      assert Initial()[1..] == [];
    }

    method WriteWord(o: nat, v: nat)
      requires mem.Length == ARENA && o + 4 <= ARENA && v < WORD
      modifies mem
      ensures WordIs(mem[..], o, v)
      ensures SameOutside(old(mem[..]), mem[..], o, o + 4)
    {
      hide WordByte;
      mem[o] := WordByte(v, 0);
      mem[o + 1] := WordByte(v, 1);
      mem[o + 2] := WordByte(v, 2);
      mem[o + 3] := WordByte(v, 3);
    }

    method WriteHeader(b: Block, next: nat)
      requires mem.Length == ARENA && b.off + HEADER <= ARENA && b.size < WORD && next < WORD
      modifies mem
      ensures HeaderIs(mem[..], b, next)
      ensures SameOutside(old(mem[..]), mem[..], b.off, b.off + HEADER)
    {
      hide WordByte;
      WriteWord(b.off, b.size);
      WriteWord(b.off + 4, if b.free then 1 else 0);
      WriteWord(b.off + 8, MAGIC);
      WriteWord(b.off + 12, next);
    }

    /** `heap_init`. */
    method Init()
      requires Valid() && head == 0
      modifies this`head, mem
      ensures Valid() && head == area
    {
      WriteHeader(Block(0, ARENA - HEADER, true), 0);
      head := area;
    }

    /** The fields of the header at `o`. */
    method ReadHeader(o: nat, ghost i: nat) returns (size: nat, free: bool, magic: nat, next: nat)
      requires Valid() && head == area && i < |blocks| && blocks[i].off == o
      ensures size == blocks[i].size && free == blocks[i].free && magic == MAGIC && next == NextOf(area, blocks, i)
    {
      hide Tiles, WordIs, Laid, Headers, WordAt;
      ReadBack(mem[..], area, blocks, i);
      size, free, magic, next := Word(o), Word(o + 4) != 0, Word(o + 8), Word(o + 12);
    }

    /** `split`: only the header of block `i` and, if it splits, the new header are written. */
    method SplitBlock(o: nat, n: nat, ghost i: nat)
      requires Valid() && head == area && i < |blocks| && blocks[i].off == o && n <= blocks[i].size
      modifies this`blocks, mem
      ensures Valid() && blocks == SplitAt(old(blocks), i, n)
      ensures SplitTouches(old(mem[..]), mem[..], old(blocks)[i], n)
    {
      hide Tiles, HeaderIs, WordIs, Headers;
      var size, _, _, next := ReadHeader(o, i);
      if size >= n + HEADER + MIN_SPLIT {
        var r := o + HEADER + n;
        ghost var was := mem[..];
        SplitTiles(blocks, i, n, ARENA);
        LaidOut(SplitAt(blocks, i, n));
        WriteHeader(Block(r, size - n - HEADER, true), next);
        ghost var made := mem[..];
        WriteWord(o + 12, area + r);
        ghost var linked := mem[..];
        WriteWord(o, n);
        SplitWrites(was, made, linked, mem[..], area, blocks, i, n);
        blocks := SplitAt(blocks, i, n);
      }
    }

    method SetFree(o: nat, free: bool, ghost i: nat)
      requires Valid() && head == area && i < |blocks| && blocks[i].off == o
      modifies this`blocks, mem
      ensures Valid() && blocks == old(blocks)[i := old(blocks)[i].(free := free)]
      ensures SameOutside(old(mem[..]), mem[..], o + 4, o + 8)
    {
      hide Tiles, HeaderIs, WordIs, SameOutside, Headers;
      FlagTiles(blocks, i, free, 0, ARENA);
      LaidOut(blocks[i := blocks[i].(free := free)]);
      WriteWord(o + 4, if free then 1 else 0);
      FlagHeaders(old(mem[..]), mem[..], area, blocks, i, free);
      blocks := blocks[i := blocks[i].(free := free)];
    }

    /** The search loop of `kmalloc`. */
    method FindFit(size: nat) returns (b: nat, ghost i: nat)
      requires Valid() && head == area
      ensures i == FirstFit(blocks, size)
      ensures b == var k := FirstFit(blocks, size); if k < |blocks| then area + blocks[k].off else 0
    {
      assert blocks[0].off == 0;
      b, i := head, 0;
      while b != 0
        invariant i <= |blocks| && b == if i < |blocks| then area + blocks[i].off else 0
        invariant FirstFit(blocks, size) == i + FirstFit(blocks[i..], size)
        decreases |blocks| - i
      {
        var have, free, _, next := ReadHeader(b - area, i);
        if free && have >= size { return; }
        assert blocks[i..][1..] == blocks[i + 1..];
        b, i := next, i + 1;
      }
    }

    /** `kmalloc`: first fit, split, mark taken; null when nothing fits. */
    method Kmalloc(n: nat) returns (p: nat)
      requires Valid() && n < WORD
      modifies this`head, this`blocks, mem
      ensures Valid() && (n > 0 ==> head == area)
      ensures blocks == Malloc(old(blocks), n).0
      ensures p == if Malloc(old(blocks), n).1 == 0 then 0 else area + Malloc(old(blocks), n).1
      ensures PayloadsKept(Live(old(blocks)), old(mem[..]), mem[..])
    {
      hide Tiles, Laid, Headers, RoundUp, Take, PayloadsKept, Live;
      ghost var live := Live(blocks);
      KeptAlready(live, mem[..]);
      if head == 0 {
        Init();
        NothingLive(old(mem[..]), mem[..]);
      }
      if n == 0 { return 0; }
      ghost var start := mem[..];
      var b, i := FindFit(RoundUp(n));
      if b == 0 { return 0; }
      TakeBlock(b - area, RoundUp(n), i);
      KeptTwice(live, old(mem[..]), start, mem[..]);
      p := b + HEADER;
    }

    method TakeBlock(o: nat, size: nat, ghost i: nat)
      requires Valid() && head == area && i < |blocks| && blocks[i].off == o
      requires blocks[i].free && size <= blocks[i].size
      modifies this`blocks, mem
      ensures Valid() && blocks == Take(old(blocks), i, size)
      ensures PayloadsKept(Live(old(blocks)), old(mem[..]), mem[..])
    {
      hide Tiles, Headers;
      ghost var was, list := mem[..], blocks;
      SplitBlock(o, size, i);
      SetFree(o, false, i);
      assert SameOutside(was, mem[..], list[i].off, End(list[i]));
      FreeBlockKeeps(list, i, was, mem[..]);
    }

    /** `merge`: one pass that absorbs every free right neighbour. */
    method Merge()
      requires Valid() && head == area
      modifies this`blocks, mem
      ensures Valid() && blocks == Coalesce(old(blocks))
      ensures PayloadsKept(Live(old(blocks)), old(mem[..]), mem[..])
    {
      hide Tiles, Headers, Laid, Coalesce, PayloadsKept, Live;
      StartsAtZero(blocks);
      KeptAlready(Live(blocks), mem[..]);
      var b := head;
      ghost var i := 0;
      var size, free, _, next := ReadHeader(b - area, i);
      while next != 0
        invariant Valid() && i < |blocks| && b == area + blocks[i].off
        invariant size == blocks[i].size && free == blocks[i].free && next == NextOf(area, blocks, i)
        invariant blocks[..i] + Coalesce(blocks[i..]) == Coalesce(old(blocks))
        invariant Live(blocks) == Live(old(blocks))
        invariant PayloadsKept(Live(old(blocks)), old(mem[..]), mem[..])
        decreases |blocks| - i
      {
        CoalesceStep(blocks, i);
        ghost var before := mem[..];
        var size2, free2, _, next2 := ReadHeader(next - area, i + 1);
        if free && free2 {
          JoinBlock(b - area, size + HEADER + size2, next2, i);
          KeptTwice(Live(old(blocks)), old(mem[..]), before, mem[..]);
          size, next := size + HEADER + size2, next2;
        } else {
          b, i := next, i + 1;
          size, free, next := size2, free2, next2;
        }
      }
      OneLeft(blocks, i);
    }

    method JoinBlock(o: nat, size: nat, next: nat, ghost i: nat)
      requires Valid() && head == area && i + 1 < |blocks| && blocks[i].off == o && blocks[i].free && blocks[i + 1].free
      requires size == blocks[i].size + HEADER + blocks[i + 1].size && next == NextOf(area, blocks, i + 1)
      modifies this`blocks, mem
      ensures Valid() && blocks == Join(old(blocks), i) && Live(blocks) == Live(old(blocks))
      ensures PayloadsKept(Live(old(blocks)), old(mem[..]), mem[..])
    {
      hide Tiles, Headers, WordIs, Live;
      ghost var was, list := mem[..], blocks;
      JoinTiles(blocks, i, ARENA);
      JoinLive(blocks, i);
      LaidOut(Join(blocks, i));
      WriteWord(o, size);
      ghost var sized := mem[..];
      WriteWord(o + 12, next);
      JoinWrites(was, sized, mem[..], area, list, i);
      HeaderKeeps(list, i, was, mem[..]);
      blocks := Join(list, i);
    }

    /** `p` is null or the payload address of a block, live or free. */
    ghost predicate Known(p: nat)
      reads this
    {
      p == 0 || exists i: nat :: i < |blocks| && p == area + blocks[i].off + HEADER
    }

    function Offset(p: nat): Ptr {
      if p < area then 0 else p - area
    }

    /** The test `kfree` and `krealloc` make on the header before a payload. */
    method IsLive(o: nat, ghost i: nat) returns (r: bool)
      requires Valid() && i < |blocks| && blocks[i].off == o
      ensures r <==> !blocks[i].free
      ensures r ==> head == area
    {
      hide Tiles, WordIs, Laid, Headers, WordAt;
      StartsWithin(blocks, i);
      if head == 0 { ZeroMagic(mem[..], o); } else { ReadBack(mem[..], area, blocks, i); }
      r := Word(o + 8) == MAGIC && Word(o + 4) == 0;
    }

    method ReleaseBlock(o: nat, ghost i: nat)
      requires Valid() && head == area && i < |blocks| && blocks[i].off == o
      modifies this`blocks, mem
      ensures Valid() && blocks == Release(old(blocks), i)
      ensures PayloadsKept(Live(blocks), old(mem[..]), mem[..])
    {
      hide Tiles, Headers, PayloadsKept, Live, Coalesce, SameOutside;
      ghost var list := blocks;
      SetFree(o, true, i);
      ghost var marked := mem[..];
      FreedKeeps(list, i, old(mem[..]), marked);
      Merge();
      CoalesceLive(list[i := list[i].(free := true)]);
      KeptTwice(Live(blocks), old(mem[..]), marked, mem[..]);
    }

    /** `kfree`: mark free and merge; null and double frees do nothing. */
    method Kfree(p: nat)
      requires Valid() && Known(p)
      modifies this`blocks, mem
      ensures Valid() && blocks == Free(old(blocks), Offset(p))
      ensures PayloadsKept(Live(blocks), old(mem[..]), mem[..])
      ensures forall b | b in Live(old(blocks)) && p == area + b.off + HEADER ::
                Live(blocks) == Without(Live(old(blocks)), b)
    {
      hide Headers, PayloadsKept, Live, Release, Without;
      forall b | b in Live(blocks) && p == area + b.off + HEADER { FreeGivesUp(blocks, b); }
      KeptAlready(Live(blocks), mem[..]);
      if p == 0 { return; }
      ghost var i: nat :| i < |blocks| && p == area + blocks[i].off + HEADER;
      FoundAt(blocks, i, ARENA);
      var live := IsLive(p - area - HEADER, i);
      if live { ReleaseBlock(p - area - HEADER, i); }
    }

    /** The copy loop of `krealloc`, from the payload behind the header at `o`. */
    method CopyPayload(o: nat, to: nat)
      requires mem.Length == ARENA && o + HEADER <= ARENA
      modifies mem
      ensures mem[..] == Copying(old(mem[..]), o, to, 0)
    {
      var i := 0;
      while i < Word(o) && o + HEADER + i < ARENA && to + i < ARENA
        invariant Copying(mem[..], o, to, i) == Copying(old(mem[..]), o, to, 0)
        decreases ARENA - i
      {
        ghost var was := mem[..];
        mem[to + i] := mem[o + HEADER + i];
        assert mem[..] == was[to + i := was[o + HEADER + i]];
        i := i + 1;
      }
    }

    /**
      `krealloc`: grows by moving, shrinks in place, keeps the first `min(old, new)` bytes,
      and disturbs no other payload.  On failure the old payload stays as it was.
     */
    method Krealloc(p: nat, n: nat) returns (q: nat)
      requires Valid() && Known(p) && n < WORD && !Overruns(blocks, Offset(p), n)
      modifies this`head, this`blocks, mem
      ensures Valid()
      ensures (blocks, Offset(q)) == Realloc(old(blocks), Offset(p), n)
      ensures forall b | b in Live(old(blocks)) && b.off + HEADER != Offset(p) :: PayloadKept(b, old(mem[..]), mem[..])
      ensures p != 0 && n != 0 && q != 0 ==>
                var i := IndexOf(old(blocks), Offset(p) - HEADER);
                i < |old(blocks)| && Moved(old(blocks)[i], Offset(q), n, old(mem[..]), mem[..])
    {
      hide Headers, Live, Laid, SplitAt, Release, Malloc, PayloadKept, Moved, Tiles, Overruns, IndexOf;
      if p == 0 {
        q := Kmalloc(n);
        return;
      }
      ghost var i: nat :| i < |blocks| && p == area + blocks[i].off + HEADER;
      FoundAt(blocks, i, ARENA);
      if n == 0 {
        ghost var list, was := blocks, mem[..];
        Kfree(p);
        forall b | b in Live(list) && b.off + HEADER != Offset(p) ensures PayloadKept(b, was, mem[..]) {
          FreedOthers(list, Offset(p), b);
        }
        return 0;
      }
      q := Resize(p - area - HEADER, n, i);
    }

    method Resize(o: nat, n: nat, ghost i: nat) returns (q: nat)
      requires Valid() && i < |blocks| && blocks[i].off == o && IndexOf(blocks, o) == i
      requires 0 < n < WORD && !Overruns(blocks, o + HEADER, n)
      modifies this`head, this`blocks, mem
      ensures Valid()
      ensures if old(blocks)[i].free then q == 0 && blocks == old(blocks)
              else if old(blocks)[i].size >= n then q == area + o + HEADER && blocks == SplitAt(old(blocks), i, n)
              else var (grown, r) := Malloc(old(blocks), n);
                   Offset(q) == r && blocks == if r == 0 then old(blocks) else Free(grown, o + HEADER)
      ensures forall b | b in Live(old(blocks)) && b.off != o :: PayloadKept(b, old(mem[..]), mem[..])
      ensures q != 0 ==> Moved(old(blocks)[i], Offset(q), n, old(mem[..]), mem[..])
    {
      hide Headers, Live, Laid, SplitAt, Malloc, Tiles, PayloadKept, Moved;
      KeptAlready(Live(blocks), mem[..]);
      var live := IsLive(o, i);
      if !live { return 0; }
      var size, _, _, _ := ReadHeader(o, i);
      if size >= n {
        Shrink(o, n, i);
        return area + o + HEADER;
      }
      q := Grow(o, n, i);
    }

    method Shrink(o: nat, n: nat, ghost i: nat)
      requires Valid() && head == area && i < |blocks| && blocks[i].off == o && !blocks[i].free && blocks[i].size >= n
      modifies this`blocks, mem
      ensures Valid() && blocks == SplitAt(old(blocks), i, n)
      ensures forall b | b in Live(old(blocks)) && b.off != o :: PayloadKept(b, old(mem[..]), mem[..])
      ensures Moved(old(blocks)[i], o + HEADER, n, old(mem[..]), mem[..])
    {
      hide Headers, Tiles, SplitAt;
      ghost var was, list := mem[..], blocks;
      SplitBlock(o, n, i);
      InsideKeeps(list, i, was, mem[..]);
    }

    method Grow(o: nat, n: nat, ghost i: nat) returns (q: nat)
      requires Valid() && head == area && i < |blocks| && blocks[i].off == o && !blocks[i].free
      requires IndexOf(blocks, o) == i && blocks[i].size < n < WORD && !Overruns(blocks, o + HEADER, n)
      modifies this`head, this`blocks, mem
      ensures Valid()
      ensures var (grown, r) := Malloc(old(blocks), n);
              && Offset(q) == r
              && blocks == if r == 0 then old(blocks) else Free(grown, o + HEADER)
      ensures forall b | b in Live(old(blocks)) && b.off != o :: PayloadKept(b, old(mem[..]), mem[..])
      ensures q != 0 ==> Moved(old(blocks)[i], Offset(q), n, old(mem[..]), mem[..])
    {
      hide Tiles, Laid, Headers, Live, Coalesce, RoundUp, PayloadKept, Take, Moved, Release, SplitAt, FirstFit;
      ghost var list, was, a := blocks, mem[..], blocks[i];
      LiveHas(list, a);
      q := Kmalloc(n);
      if q == 0 { return; }
      ghost var held := mem[..];
      ghost var b := GrantedBlock(list, n);
      StillLive(list, n, a);
      MoveInto(o, q - area, a, b);
      ghost var copied, grown := mem[..], blocks;
      KnownBlock(grown, a);
      Kfree(area + o + HEADER);
      forall c | c in Live(list) && c.off != o ensures PayloadKept(c, was, mem[..]) {
        StillLive(list, n, c);
        FreedOthers(grown, o + HEADER, c);
        PayloadThrice(c, was, held, copied, mem[..]);
      }
      LiveHas(grown, b);
      FreedOthers(grown, o + HEADER, b);
      MovedThrice(a, b, n, was, held, copied, mem[..]);
    }

    /** Copy the payload of `a` into the larger payload of `b`. */
    method MoveInto(o: nat, to: nat, ghost a: Block, ghost b: Block)
      requires Valid() && head == area && a in Live(blocks) && b in blocks && a.off == o && b.off + HEADER == to
      requires a.off != b.off && a.size <= b.size
      modifies mem
      ensures Valid()
      ensures Moved(a, to, a.size, old(mem[..]), mem[..])
      ensures forall c | c in Live(blocks) && c.off != b.off :: PayloadKept(c, old(mem[..]), mem[..])
    {
      hide Tiles, Headers, Live, WordAt, Copying, Moved, PayloadKept;
      LiveHas(blocks, a);
      ghost var i: nat :| i < |blocks| && blocks[i] == a;
      ghost var j: nat :| j < |blocks| && blocks[j] == b;
      CopyingMoves(mem[..], area, blocks, i, j);
      CopyPayload(o, to);
    }
  }

  lemma KnownBlock(blocks: seq<Block>, a: Block)
    requires a in Live(blocks)
    ensures exists i: nat :: i < |blocks| && blocks[i].off == a.off
  {
    LiveHas(blocks, a);
  }

  lemma PayloadThrice(b: Block, was: seq<Byte>, one: seq<Byte>, two: seq<Byte>, now: seq<Byte>)
    requires PayloadKept(b, was, one) && PayloadKept(b, one, two) && PayloadKept(b, two, now)
    ensures PayloadKept(b, was, now)
  {
  }

  lemma MovedThrice(a: Block, b: Block, n: nat, was: seq<Byte>, held: seq<Byte>, copied: seq<Byte>, now: seq<Byte>)
    requires PayloadKept(a, was, held) && PayloadKept(b, copied, now) && a.size <= b.size
    requires Moved(a, b.off + HEADER, a.size, held, copied)
    ensures Moved(a, b.off + HEADER, n, was, now)
  {
    var m, from, to := Kept(a, n), a.off + HEADER, b.off + HEADER;
    assert Kept(a, a.size) == a.size;
    var after, before := now[to..to + m], was[from..from + m];
    forall k: nat | k < m ensures after[k] == before[k] {
      assert copied[to..to + a.size][k] == held[from..from + a.size][k];
    }
  }

  /** Writes inside block `i` disturb no other live payload. */
  lemma InsideKeeps(blocks: seq<Block>, i: nat, was: seq<Byte>, now: seq<Byte>)
    requires Laid(blocks) && i < |blocks| && SameOutside(was, now, blocks[i].off, End(blocks[i]))
    ensures forall b | b in Live(blocks) && b.off != blocks[i].off :: PayloadKept(b, was, now)
  {
    hide Live;
    forall b | b in Live(blocks) && b.off != blocks[i].off ensures PayloadKept(b, was, now) {
      LiveHas(blocks, b);
      var j: nat :| j < |blocks| && blocks[j] == b;
      assert Before(blocks, j, i) && Before(blocks, i, j);
    }
  }

  /** How many bytes survive a change of size to `n`. */
  function Kept(a: Block, n: nat): nat {
    if n < a.size then n else a.size
  }

  /** The first `n` bytes of the payload of `a` (or all of them, if fewer) are now at `to`. */
  ghost predicate Moved(a: Block, to: nat, n: nat, was: seq<Byte>, now: seq<Byte>) {
    var m := Kept(a, n);
    && |was| == |now| == ARENA && a.off + HEADER + m <= ARENA && to + m <= ARENA
    && now[to..to + m] == was[a.off + HEADER..a.off + HEADER + m]
  }

  /** Marking a block free disturbs none of the payloads that stay live. */
  lemma FreedKeeps(blocks: seq<Block>, i: nat, was: seq<Byte>, now: seq<Byte>)
    requires Laid(blocks) && i < |blocks| && SameOutside(was, now, blocks[i].off + 4, blocks[i].off + 8)
    requires Laid(blocks[i := blocks[i].(free := true)])
    ensures PayloadsKept(Live(blocks[i := blocks[i].(free := true)]), was, now)
  {
    HeaderKeeps(blocks[i := blocks[i].(free := true)], i, was, now);
  }

  /** In untouched memory no header carries the magic number. */
  lemma ZeroMagic(mem: seq<Byte>, o: nat)
    requires o + HEADER <= |mem| && forall k | 0 <= k < |mem| :: mem[k] == 0
    ensures WordAt(mem, o + 8) != MAGIC
  {
  }

  lemma StartsWithin(blocks: seq<Block>, i: nat)
    requires Laid(blocks) && i < |blocks|
    ensures blocks[i].off + HEADER <= ARENA
  {
  }

  lemma StartsAtZero(blocks: seq<Block>)
    requires blocks != [] && Tiles(blocks, 0, ARENA)
    ensures blocks[0].off == 0 && blocks[0..] == blocks && blocks[..0] == []
  {
  }

  /** The pass is done when the cursor is on the last block. */
  lemma OneLeft(blocks: seq<Block>, i: nat)
    requires i + 1 == |blocks|
    ensures blocks[..i] + Coalesce(blocks[i..]) == blocks
  {
  }
}
