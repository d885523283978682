/**
  The kernel heap's block list as a value (mm/heap.c): splitting, coalescing and
  first-fit over one arena that the blocks tile exactly.
 */
module Blocks {
  import opened Numbers

  const ARENA: nat := 1024 * 1024
  const HEADER: nat := 16
  const MIN_SPLIT: nat := 8

  /** A header at offset `off`, followed by `size` payload bytes. */
  datatype Block = Block(off: nat, size: nat, free: bool)

  function End(b: Block): nat {
    b.off + HEADER + b.size
  }

  /** The blocks lie end to end from `from` to `to`. */
  ghost predicate Tiles(blocks: seq<Block>, from: nat, to: nat) {
    if blocks == [] then from == to
    else blocks[0].off == from && Tiles(blocks[1..], End(blocks[0]), to)
  }

  /** The live payloads, in address order. */
  function Live(blocks: seq<Block>): seq<Block> {
    if blocks == [] then []
    else (if blocks[0].free then [] else [blocks[0]]) + Live(blocks[1..])
  }

  ghost predicate Coalesced(blocks: seq<Block>) {
    forall i | 0 <= i < |blocks| - 1 :: !(blocks[i].free && blocks[i + 1].free)
  }

  function Initial(): seq<Block> {
    [Block(0, ARENA - HEADER, true)]
  }

  // ---------------------------------------------------------------- operations

  predicate Splits(b: Block, n: nat) {
    b.size >= n + HEADER + MIN_SPLIT
  }

  /** `split`: keep `n` bytes, put the rest in a new free block. */
  function SplitAt(blocks: seq<Block>, i: nat, n: nat): (r: seq<Block>)
    requires i < |blocks|
    ensures i < |r|
  {
    var b := blocks[i];
    if Splits(b, n)
    then blocks[..i] + [b.(size := n), Block(b.off + HEADER + n, b.size - n - HEADER, true)] + blocks[i + 1..]
    else blocks
  }

  /** `merge`: one pass over the list, absorbing free neighbours. */
  function Coalesce(blocks: seq<Block>): (r: seq<Block>)
    decreases |blocks|
  {
    if |blocks| < 2 then blocks
    else if blocks[0].free && blocks[1].free then
      Coalesce([blocks[0].(size := blocks[0].size + HEADER + blocks[1].size)] + blocks[2..])
    else [blocks[0]] + Coalesce(blocks[1..])
  }

  /** Index of the first free block of at least `n` bytes, or `|blocks|`. */
  function FirstFit(blocks: seq<Block>, n: nat): (r: nat)
    ensures r <= |blocks|
    ensures r < |blocks| ==> blocks[r].free && blocks[r].size >= n
    ensures forall j | 0 <= j < r :: !(blocks[j].free && blocks[j].size >= n)
  {
    if blocks == [] || (blocks[0].free && blocks[0].size >= n) then 0 else 1 + FirstFit(blocks[1..], n)
  }

  /** `(n + 7) & ~7` in 32 bits. */
  function RoundUp(n: nat): nat {
    (n + 7) % WORD / 8 * 8
  }

  /** Taking block `i` for `n` bytes. */
  function Take(blocks: seq<Block>, i: nat, n: nat): (r: seq<Block>)
    requires i < |blocks|
    ensures i < |r|
  {
    var s := SplitAt(blocks, i, n);
    s[i := s[i].(free := false)]
  }

  function Release(blocks: seq<Block>, i: nat): (r: seq<Block>)
    requires i < |blocks|
  {
    Coalesce(blocks[i := blocks[i].(free := true)])
  }

  // ---------------------------------------------------------------- tiling

  lemma {:induction false} TilesAppend(a: seq<Block>, b: seq<Block>, from: nat, mid: nat, to: nat)
    requires Tiles(a, from, mid) && Tiles(b, mid, to)
    ensures Tiles(a + b, from, to)
  {
    if a == [] {
      assert a + b == b;
    } else {
      TilesAppend(a[1..], b, End(a[0]), mid, to);
      assert (a + b)[1..] == a[1..] + b;
    }
  }

  /** Cutting a tiling before block `i`. */
  lemma {:induction false} TilesCut(blocks: seq<Block>, i: nat, from: nat, to: nat)
    requires Tiles(blocks, from, to) && i <= |blocks|
    ensures var mid := if i < |blocks| then blocks[i].off else to;
            Tiles(blocks[..i], from, mid) && Tiles(blocks[i..], mid, to)
  {
    if i == 0 {
      assert blocks[0..] == blocks && blocks[..0] == [];
    } else {
      TilesCut(blocks[1..], i - 1, End(blocks[0]), to);
      assert blocks[1..][..i - 1] == blocks[..i][1..];
      assert blocks[1..][i - 1..] == blocks[i..];
    }
  }

  /** Each block ends where the next begins, inside the arena. */
  lemma {:induction false} TilesAt(blocks: seq<Block>, i: nat, from: nat, to: nat)
    requires Tiles(blocks, from, to) && i < |blocks|
    ensures from <= blocks[i].off && End(blocks[i]) <= to
    ensures End(blocks[i]) == if i + 1 < |blocks| then blocks[i + 1].off else to
  {
    if i > 0 {
      TilesAt(blocks[1..], i - 1, End(blocks[0]), to);
    } else if |blocks| > 1 {
      TilesAt(blocks[1..], 0, End(blocks[0]), to);
    }
  }

  /** Blocks, headers included, never overlap. */
  lemma {:induction false} TilesDisjoint(blocks: seq<Block>, i: nat, j: nat, from: nat, to: nat)
    requires Tiles(blocks, from, to) && i < j < |blocks|
    ensures End(blocks[i]) <= blocks[j].off
    decreases j - i
  {
    TilesAt(blocks, i, from, to);
    if i + 1 == j {
    } else {
      TilesDisjoint(blocks, i + 1, j, from, to);
    }
  }

  lemma {:induction false} TilesPositive(blocks: seq<Block>, from: nat, to: nat)
    requires Tiles(blocks, from, to)
    ensures from + HEADER * |blocks| <= to
  {
    if blocks == [] {
    } else {
      TilesPositive(blocks[1..], End(blocks[0]), to);
    }
  }

  lemma PairTiles(a: Block, b: Block)
    requires End(a) == b.off
    ensures Tiles([a, b], a.off, End(b))
  {
    assert [a, b][1..] == [b] && [b][1..] == [];
  }

  lemma SplitTiles(blocks: seq<Block>, i: nat, n: nat, to: nat)
    requires Tiles(blocks, 0, to) && i < |blocks|
    ensures Tiles(SplitAt(blocks, i, n), 0, to)
  {
    hide Tiles;
    var b := blocks[i];
    if Splits(b, n) {
      TilesCut(blocks, i, 0, to);
      TilesCut(blocks, i + 1, 0, to);
      TilesAt(blocks, i, 0, to);
      var two := [b.(size := n), Block(b.off + HEADER + n, b.size - n - HEADER, true)];
      PairTiles(two[0], two[1]);
      TilesAppend(two, blocks[i + 1..], b.off, End(b), to);
      TilesAppend(blocks[..i], two + blocks[i + 1..], 0, b.off, to);
      assert SplitAt(blocks, i, n) == blocks[..i] + (two + blocks[i + 1..]);
    }
  }

  /** Changing a flag moves nothing. */
  lemma {:induction false} FlagTiles(blocks: seq<Block>, i: nat, free: bool, from: nat, to: nat)
    requires Tiles(blocks, from, to) && i < |blocks|
    ensures Tiles(blocks[i := blocks[i].(free := free)], from, to)
  {
    var r := blocks[i := blocks[i].(free := free)];
    if i == 0 {
      assert r[1..] == blocks[1..];
    } else {
      FlagTiles(blocks[1..], i - 1, free, End(blocks[0]), to);
      assert r[1..] == blocks[1..][i - 1 := blocks[i].(free := free)];
    }
  }

  lemma {:induction false} CoalesceTiles(blocks: seq<Block>, from: nat, to: nat)
    requires Tiles(blocks, from, to)
    ensures Tiles(Coalesce(blocks), from, to)
    decreases |blocks|
  {
    if |blocks| < 2 {
    } else {
      var a, b := blocks[0], blocks[1];
      assert blocks[1..][1..] == blocks[2..];
      if a.free && b.free {
        var m := [a.(size := a.size + HEADER + b.size)] + blocks[2..];
        assert m[1..] == blocks[2..];
        CoalesceTiles(m, from, to);
      } else {
        CoalesceTiles(blocks[1..], End(a), to);
        assert ([a] + Coalesce(blocks[1..]))[1..] == Coalesce(blocks[1..]);
      }
    }
  }

  // ---------------------------------------------------------------- coalescing

  /** The first block after coalescing is free if and only if the first block was. */
  lemma {:induction false} CoalesceHead(blocks: seq<Block>)
    requires blocks != []
    ensures Coalesce(blocks) != [] && Coalesce(blocks)[0].free == blocks[0].free
    ensures Coalesce(blocks)[0].off == blocks[0].off
    decreases |blocks|
  {
    if |blocks| < 2 || !(blocks[0].free && blocks[1].free) {
    } else {
      CoalesceHead([blocks[0].(size := blocks[0].size + HEADER + blocks[1].size)] + blocks[2..]);
    }
  }

  /** One pass leaves no two adjacent free blocks. */
  lemma {:induction false} CoalesceCoalesced(blocks: seq<Block>)
    ensures Coalesced(Coalesce(blocks))
    decreases |blocks|
  {
    if |blocks| < 2 {
    } else {
      if blocks[0].free && blocks[1].free {
        CoalesceCoalesced([blocks[0].(size := blocks[0].size + HEADER + blocks[1].size)] + blocks[2..]);
      } else {
        var rest := Coalesce(blocks[1..]);
        CoalesceCoalesced(blocks[1..]);
        CoalesceHead(blocks[1..]);
        forall i | 0 <= i < |rest| ensures !(([blocks[0]] + rest)[i].free && ([blocks[0]] + rest)[i + 1].free) {
          if i > 0 { assert !(rest[i - 1].free && rest[i].free); }
        }
      }
    }
  }

  /** Coalescing never touches a live block. */
  lemma {:induction false} CoalesceLive(blocks: seq<Block>)
    ensures Live(Coalesce(blocks)) == Live(blocks)
    decreases |blocks|
  {
    if |blocks| < 2 {
    } else {
      var a, b := blocks[0], blocks[1];
      assert blocks[1..][1..] == blocks[2..];
      if a.free && b.free {
        var m := [a.(size := a.size + HEADER + b.size)] + blocks[2..];
        assert m[1..] == blocks[2..];
        CoalesceLive(m);
      } else {
        CoalesceLive(blocks[1..]);
        assert ([a] + Coalesce(blocks[1..]))[1..] == Coalesce(blocks[1..]);
      }
    }
  }

  lemma {:induction false} AllFree(blocks: seq<Block>, i: nat)
    requires Live(blocks) == [] && i < |blocks|
    ensures blocks[i].free
  {
    if i == 0 {
    } else {
      AllFree(blocks[1..], i - 1);
    }
  }

  /** Once nothing is live, one pass restores the single initial block. */
  lemma FreeingAllRestores(blocks: seq<Block>)
    requires Tiles(blocks, 0, ARENA) && Live(blocks) == []
    ensures Coalesce(blocks) == Initial()
  {
    var r := Coalesce(blocks);
    CoalesceTiles(blocks, 0, ARENA);
    CoalesceLive(blocks);
    CoalesceCoalesced(blocks);
    if |r| >= 2 {
      AllFree(r, 0);
      AllFree(r, 1);
    } else if |r| == 1 {
      AllFree(r, 0);
      assert r[1..] == [];
      assert r == [r[0]];
    }
  }

  // ---------------------------------------------------------------- the live payloads

  lemma {:induction false} LiveAppend(a: seq<Block>, b: seq<Block>)
    ensures Live(a + b) == Live(a) + Live(b)
  {
    hide Live;
    if a == [] {
      LiveFirst(a);
      assert a + b == b;
    } else {
      LiveAppend(a[1..], b);
      LiveFirst(a);
      assert (a + b)[1..] == a[1..] + b;
      LiveFirst(a + b);
    }
  }

  function LiveOne(b: Block): seq<Block> {
    if b.free then [] else [b]
  }

  lemma LiveFirst(blocks: seq<Block>)
    ensures Live(blocks) == if blocks == [] then [] else LiveOne(blocks[0]) + Live(blocks[1..])
  {
  }

  lemma {:induction false} LiveAround(blocks: seq<Block>, i: nat)
    requires i < |blocks|
    ensures Live(blocks) == Live(blocks[..i]) + (LiveOne(blocks[i]) + Live(blocks[i + 1..]))
  {
    var head, tail := blocks[..i], blocks[i..];
    assert blocks == head + tail;
    assert tail[1..] == blocks[i + 1..];
    LiveAppend(head, tail);
  }

  /** Taking a free block makes exactly one new payload live, and leaves the others alone. */
  lemma {:induction false} TakeLive(blocks: seq<Block>, i: nat, n: nat)
    requires i < |blocks| && blocks[i].free && blocks[i].size >= n
    ensures var r := Take(blocks, i, n);
            && n <= r[i].size <= blocks[i].size && r[i].off == blocks[i].off && !r[i].free
            && Live(blocks) == Live(blocks[..i]) + Live(blocks[i + 1..])
            && Live(r) == Live(blocks[..i]) + ([r[i]] + Live(blocks[i + 1..]))
  {
    var r := Take(blocks, i, n);
    LiveAround(blocks, i);
    LiveAround(r, i);
    assert r[..i] == blocks[..i];
    var rest := r[i + 1..];
    if Splits(blocks[i], n) {
      assert rest[1..] == blocks[i + 1..];
      assert Live(rest) == Live(blocks[i + 1..]);
    } else {
      assert rest == blocks[i + 1..];
    }
    assert [] + Live(blocks[i + 1..]) == Live(blocks[i + 1..]);
  }

  /** Releasing a live block removes exactly its payload. */
  lemma {:induction false} ReleaseLive(blocks: seq<Block>, i: nat)
    requires i < |blocks| && !blocks[i].free
    ensures Live(blocks) == Live(blocks[..i]) + ([blocks[i]] + Live(blocks[i + 1..]))
    ensures Live(Release(blocks, i)) == Live(blocks[..i]) + Live(blocks[i + 1..])
  {
    var r := blocks[i := blocks[i].(free := true)];
    LiveAround(blocks, i);
    LiveAround(r, i);
    assert r[..i] == blocks[..i] && r[i + 1..] == blocks[i + 1..];
    assert [] + Live(blocks[i + 1..]) == Live(blocks[i + 1..]);
    CoalesceLive(r);
  }

  /** Shrinking a live block in place only shortens its payload. */
  lemma {:induction false} SplitLive(blocks: seq<Block>, i: nat, n: nat)
    requires i < |blocks| && !blocks[i].free
    ensures var r := SplitAt(blocks, i, n);
            && i < |r| && r[i].off == blocks[i].off && !r[i].free && r[i].size <= blocks[i].size
            && (blocks[i].size >= n ==> r[i].size >= n)
            && Live(blocks) == Live(blocks[..i]) + ([blocks[i]] + Live(blocks[i + 1..]))
            && Live(r) == Live(blocks[..i]) + ([r[i]] + Live(blocks[i + 1..]))
  {
    var r := SplitAt(blocks, i, n);
    LiveAround(blocks, i);
    LiveAround(r, i);
    assert r[..i] == blocks[..i];
    var rest := r[i + 1..];
    if Splits(blocks[i], n) {
      assert rest[1..] == blocks[i + 1..];
      assert Live(rest) == Live(blocks[i + 1..]);
    } else {
      assert rest == blocks[i + 1..];
    }
    assert [] + Live(blocks[i + 1..]) == Live(blocks[i + 1..]);
  }

  // ---------------------------------------------------------------- requests

  /** Index of the block whose header is at `off`, or `|blocks|`. */
  function IndexOf(blocks: seq<Block>, off: int): (r: nat)
    ensures r <= |blocks|
    ensures r < |blocks| ==> blocks[r].off == off
    ensures forall j | 0 <= j < r :: blocks[j].off != off
  {
    if blocks == [] || blocks[0].off == off then 0 else 1 + IndexOf(blocks[1..], off)
  }

  /** A payload pointer is its offset in the arena; 0 stands for null (no payload starts there). */
  type Ptr = nat

  function Malloc(blocks: seq<Block>, n: nat): (r: (seq<Block>, Ptr)) {
    var i := FirstFit(blocks, RoundUp(n));
    if n == 0 || i == |blocks| then (blocks, 0) else (Take(blocks, i, RoundUp(n)), blocks[i].off + HEADER)
  }

  function Free(blocks: seq<Block>, p: Ptr): (r: seq<Block>) {
    var i := IndexOf(blocks, p - HEADER);
    if p == 0 || i == |blocks| || blocks[i].free then blocks else Release(blocks, i)
  }

  function Realloc(blocks: seq<Block>, p: Ptr, n: nat): (r: (seq<Block>, Ptr)) {
    if p == 0 then Malloc(blocks, n)
    else if n == 0 then (Free(blocks, p), 0)
    else
      var i := IndexOf(blocks, p - HEADER);
      if i == |blocks| || blocks[i].free then (blocks, 0)
      else if blocks[i].size >= n then (SplitAt(blocks, i, n), p)
      else
        var (grown, q) := Malloc(blocks, n);
        if q == 0 then (blocks, 0) else (Free(grown, p), q)
  }

  datatype Request = Kmalloc(n: nat) | Kfree(p: Ptr) | Krealloc(p: Ptr, n: nat)

  /** The block list, and what was asked for at each payload handed out. */
  datatype Heap = Heap(blocks: seq<Block>, asked: map<nat, nat>)

  function Grant(asked: map<nat, nat>, p: Ptr, n: nat): map<nat, nat> {
    if p == 0 then asked else asked[p := n]
  }

  function Serve(h: Heap, r: Request): Heap {
    match r
    case Kmalloc(n) =>
      var (b, q) := Malloc(h.blocks, n);
      Heap(b, Grant(h.asked, q, n))
    case Kfree(p) => h.(blocks := Free(h.blocks, p))
    case Krealloc(p, n) =>
      var (b, q) := Realloc(h.blocks, p, n);
      Heap(b, Grant(h.asked, q, n))
  }

  function Run(h: Heap, requests: seq<Request>): Heap {
    if requests == [] then h
    else Serve(Run(h, requests[..|requests| - 1]), requests[|requests| - 1])
  }

  /** The heap after the first `k` requests. */
  function After(requests: seq<Request>, k: nat): Heap
    requires k <= |requests|
  {
    Run(Heap(Initial(), map[]), requests[..k])
  }

  lemma AfterNext(requests: seq<Request>, k: nat)
    requires k < |requests|
    ensures After(requests, k + 1) == Serve(After(requests, k), requests[k])
  {
    assert requests[..k + 1][..k] == requests[..k];
  }

  /** The pointer passed is null or the payload address of a block, live or free. */
  predicate Named(blocks: seq<Block>, r: Request) {
    r.Kmalloc? || r.p == 0 || IndexOf(blocks, r.p - HEADER) < |blocks|
  }

  /** The size of the block that `kmalloc` takes for `n` bytes. */
  function GrantedSize(blocks: seq<Block>, n: nat): nat {
    var i := FirstFit(blocks, RoundUp(n));
    if i < |blocks| then Take(blocks, i, RoundUp(n))[i].size else 0
  }

  /** `krealloc` must move a live payload, and is granted a block for it. */
  predicate Moves(blocks: seq<Block>, p: Ptr, n: nat) {
    && p != 0 && Malloc(blocks, n).1 != 0
    && var i := IndexOf(blocks, p - HEADER);
       i < |blocks| && !blocks[i].free && blocks[i].size < n
  }

  /** The block granted is smaller than the payload copied into it. */
  predicate Overruns(blocks: seq<Block>, p: Ptr, n: nat) {
    Moves(blocks, p, n) && GrantedSize(blocks, n) < blocks[IndexOf(blocks, p - HEADER)].size
  }

  /** What the list alone can answer for: known pointers, and copies that stay in the block granted. */
  predicate Proper(blocks: seq<Block>, r: Request) {
    Named(blocks, r) && (r.Krealloc? ==> !Overruns(blocks, r.p, r.n))
  }

  ghost predicate ProperRun(requests: seq<Request>) {
    forall k: nat | k < |requests| :: Proper(After(requests, k).blocks, requests[k])
  }

  /** A 32-bit size that rounds up without wrapping. */
  predicate Reasonable(r: Request) {
    match r
    case Kmalloc(n) => n <= 0xffff_fff8
    case Kfree(_) => true
    case Krealloc(_, n) => n <= 0xffff_fff8
  }

  /** Every live payload is as large as what was asked for it. */
  ghost predicate Satisfied(live: seq<Block>, asked: map<nat, nat>) {
    forall b | b in live :: b.off + HEADER in asked && asked[b.off + HEADER] <= b.size
  }

  ghost predicate Sound(h: Heap) {
    Tiles(h.blocks, 0, ARENA) && Satisfied(Live(h.blocks), h.asked)
  }

  /** Rounding loses nothing exactly when it does not wrap. */
  lemma RoundUpEnough(n: nat)
    requires n < WORD
    ensures RoundUp(n) >= n <==> n <= 0xffff_fff8
  {
  }

  /** Only a size that wraps can overrun. */
  lemma ReasonableFits(blocks: seq<Block>, p: Ptr, n: nat)
    requires n <= 0xffff_fff8
    ensures !Overruns(blocks, p, n)
  {
    hide IndexOf;
    RoundUpEnough(n);
  }

  /** A request for `n` bytes fails exactly when no free block holds the rounded size. */
  lemma MallocFailsIff(blocks: seq<Block>, n: nat)
    requires n > 0
    ensures Malloc(blocks, n).1 == 0 <==>
            forall j | 0 <= j < |blocks| :: !(blocks[j].free && blocks[j].size >= RoundUp(n))
  {
  }

  lemma {:induction false} LiveHas(blocks: seq<Block>, b: Block)
    ensures b in Live(blocks) <==> !b.free && b in blocks
  {
    if blocks == [] {
    } else {
      LiveHas(blocks[1..], b);
    }
  }

  lemma {:induction false} OffsUnique(blocks: seq<Block>, i: nat, j: nat, to: nat)
    requires Tiles(blocks, 0, to) && i < |blocks| && j < |blocks| && blocks[i].off == blocks[j].off
    ensures i == j
  {
    if i < j { TilesDisjoint(blocks, i, j, 0, to); }
    if j < i { TilesDisjoint(blocks, j, i, 0, to); }
  }

  /** Live blocks other than the one at index `i` have other payload addresses. */
  lemma OthersElsewhere(blocks: seq<Block>, i: nat, b: Block, to: nat)
    requires Tiles(blocks, 0, to) && i < |blocks|
    requires b in Live(blocks[..i]) || b in Live(blocks[i + 1..])
    ensures b.off != blocks[i].off && b in blocks && !b.free
  {
    LiveHas(blocks[..i], b);
    LiveHas(blocks[i + 1..], b);
    if b in blocks[..i] {
      var j :| 0 <= j < i && blocks[j] == b;
      TilesDisjoint(blocks, j, i, 0, to);
    } else {
      var j :| 0 <= j < |blocks| - (i + 1) && blocks[i + 1..][j] == b;
      TilesDisjoint(blocks, i, i + 1 + j, 0, to);
    }
  }

  /** Payload `i` may change its block and its request; the other live payloads keep theirs. */
  lemma SatisfiedAt(blocks: seq<Block>, i: nat, x: Block, asked: map<nat, nat>, n: nat, to: nat)
    requires Tiles(blocks, 0, to) && i < |blocks|
    requires Satisfied(Live(blocks[..i]), asked) && Satisfied(Live(blocks[i + 1..]), asked)
    requires x.off == blocks[i].off && n <= x.size
    ensures Satisfied(Live(blocks[..i]) + ([x] + Live(blocks[i + 1..])), asked[x.off + HEADER := n])
  {
    var before, after := Live(blocks[..i]), Live(blocks[i + 1..]);
    var asked' := asked[x.off + HEADER := n];
    forall b | b in before + ([x] + after) ensures b.off + HEADER in asked' && asked'[b.off + HEADER] <= b.size {
      if b != x { OthersElsewhere(blocks, i, b, to); }
    }
  }

  lemma MallocSound(h: Heap, n: nat)
    requires Sound(h) && n <= 0xffff_fff8
    ensures var (b, q) := Malloc(h.blocks, n); Sound(Heap(b, Grant(h.asked, q, n)))
  {
    hide Sound, Take, RoundUp;
    var i := FirstFit(h.blocks, RoundUp(n));
    if n != 0 && i < |h.blocks| {
      RoundUpEnough(n);
      TakeSound(h, i, RoundUp(n), n);
    }
  }

  lemma TakeSound(h: Heap, i: nat, size: nat, n: nat)
    requires Sound(h) && i < |h.blocks| && h.blocks[i].free && h.blocks[i].size >= size >= n
    ensures Sound(Heap(Take(h.blocks, i, size), h.asked[h.blocks[i].off + HEADER := n]))
  {
    hide Live, Tiles, SplitAt;
    SplitTiles(h.blocks, i, size, ARENA);
    FlagTiles(SplitAt(h.blocks, i, size), i, false, 0, ARENA);
    TakeLive(h.blocks, i, size);
    SatisfiedAt(h.blocks, i, Take(h.blocks, i, size)[i], h.asked, n, ARENA);
  }

  lemma FreeSound(h: Heap, p: Ptr)
    requires Sound(h) && Named(h.blocks, Kfree(p))
    ensures Sound(h.(blocks := Free(h.blocks, p)))
  {
    var i := IndexOf(h.blocks, p - HEADER);
    if p != 0 && i < |h.blocks| && !h.blocks[i].free {
      FlagTiles(h.blocks, i, true, 0, ARENA);
      CoalesceTiles(h.blocks[i := h.blocks[i].(free := true)], 0, ARENA);
      ReleaseLive(h.blocks, i);
    }
  }

  /** A free that frees leaves no two adjacent free blocks, and the initial heap once nothing is live. */
  lemma FreeCoalesces(blocks: seq<Block>, p: Ptr)
    requires Tiles(blocks, 0, ARENA) && Free(blocks, p) != blocks
    ensures Coalesced(Free(blocks, p))
    ensures Live(Free(blocks, p)) == [] ==> Free(blocks, p) == Initial()
  {
    var i := IndexOf(blocks, p - HEADER);
    var r := blocks[i := blocks[i].(free := true)];
    CoalesceCoalesced(r);
    FlagTiles(blocks, i, true, 0, ARENA);
    CoalesceLive(r);
    if Live(Free(blocks, p)) == [] { FreeingAllRestores(r); }
  }

  lemma ShrinkSound(h: Heap, i: nat, n: nat)
    requires Sound(h) && i < |h.blocks| && !h.blocks[i].free && h.blocks[i].size >= n
    ensures Sound(Heap(SplitAt(h.blocks, i, n), h.asked[h.blocks[i].off + HEADER := n]))
  {
    hide Live, Tiles, SplitAt;
    SplitTiles(h.blocks, i, n, ARENA);
    SplitLive(h.blocks, i, n);
    SatisfiedAt(h.blocks, i, SplitAt(h.blocks, i, n)[i], h.asked, n, ARENA);
  }

  /** The block given up after the copy is still there. */
  lemma StillNamed(blocks: seq<Block>, p: Ptr, n: nat)
    requires Tiles(blocks, 0, ARENA) && Named(blocks, Kfree(p))
    ensures Named(Malloc(blocks, n).0, Kfree(p))
  {
    hide RoundUp, Tiles, Take, IndexOf;
    var k, i := FirstFit(blocks, RoundUp(n)), IndexOf(blocks, p - HEADER);
    if p != 0 && n != 0 && k < |blocks| {
      var j := TakeKeepsAt(blocks, k, RoundUp(n), i);
    }
  }

  lemma TakeKeepsAt(blocks: seq<Block>, k: nat, n: nat, i: nat) returns (j: nat)
    requires k < |blocks| && i < |blocks|
    ensures var r := Take(blocks, k, n); j < |r| && r[j].off == blocks[i].off
  {
    j := if i <= k || !Splits(blocks[k], n) then i else i + 1;
  }

  lemma ServeSound(h: Heap, r: Request)
    requires Sound(h) && Named(h.blocks, r) && Reasonable(r)
    ensures Sound(Serve(h, r))
  {
    hide Sound, SplitAt, Malloc, Free;
    match r
    case Kmalloc(n) => MallocSound(h, n);
    case Kfree(p) => FreeSound(h, p);
    case Krealloc(p, n) =>
      if p == 0 {
        MallocSound(h, n);
      } else if n == 0 {
        FreeSound(h, p);
      } else {
        var i := IndexOf(h.blocks, p - HEADER);
        if i < |h.blocks| && !h.blocks[i].free {
          if h.blocks[i].size >= n {
            ShrinkSound(h, i, n);
          } else {
            GrowSound(h, p, n);
          }
        }
      }
  }

  lemma GrowSound(h: Heap, p: Ptr, n: nat)
    requires Sound(h) && Named(h.blocks, Kfree(p)) && n <= 0xffff_fff8
    ensures var (grown, q) := Malloc(h.blocks, n); Sound(Heap(Free(grown, p), Grant(h.asked, q, n)))
  {
    hide Satisfied, Malloc, Free, Named;
    var (grown, q) := Malloc(h.blocks, n);
    MallocSound(h, n);
    StillNamed(h.blocks, p, n);
    FreeSound(Heap(grown, Grant(h.asked, q, n)), p);
  }

  lemma InitialSound()
    ensures Sound(Heap(Initial(), map[]))
  {
    assert Initial()[1..] == [];
  }

  lemma MallocTiles(blocks: seq<Block>, n: nat)
    requires Tiles(blocks, 0, ARENA)
    ensures Tiles(Malloc(blocks, n).0, 0, ARENA)
  {
    hide Tiles, SplitAt;
    var i := FirstFit(blocks, RoundUp(n));
    if i < |blocks| {
      SplitTiles(blocks, i, RoundUp(n), ARENA);
      FlagTiles(SplitAt(blocks, i, RoundUp(n)), i, false, 0, ARENA);
    }
  }

  lemma FreeTiles(blocks: seq<Block>, p: Ptr)
    requires Tiles(blocks, 0, ARENA)
    ensures Tiles(Free(blocks, p), 0, ARENA)
  {
    hide Tiles, Coalesce;
    var i := IndexOf(blocks, p - HEADER);
    if i < |blocks| {
      FlagTiles(blocks, i, true, 0, ARENA);
      CoalesceTiles(blocks[i := blocks[i].(free := true)], 0, ARENA);
    }
  }

  /** The blocks tile the arena after any request, whatever its size, whose copy stays in the block granted. */
  lemma ServeTiles(h: Heap, r: Request)
    requires Tiles(h.blocks, 0, ARENA) && Proper(h.blocks, r)
    ensures Tiles(Serve(h, r).blocks, 0, ARENA)
  {
    hide Tiles, SplitAt, Malloc, Free;
    match r
    case Kmalloc(n) => MallocTiles(h.blocks, n);
    case Kfree(p) => FreeTiles(h.blocks, p);
    case Krealloc(p, n) =>
      MallocTiles(h.blocks, n);
      FreeTiles(h.blocks, p);
      FreeTiles(Malloc(h.blocks, n).0, p);
      var i := IndexOf(h.blocks, p - HEADER);
      if i < |h.blocks| { SplitTiles(h.blocks, i, n, ARENA); }
  }

  lemma {:induction false} TilesAfter(requests: seq<Request>, n: nat)
    requires n <= |requests| && ProperRun(requests)
    ensures Tiles(After(requests, n).blocks, 0, ARENA)
  {
    hide Serve, Proper, Tiles;
    if n == 0 {
      InitialSound();
    } else {
      TilesAfter(requests, n - 1);
      AfterNext(requests, n - 1);
      ServeTiles(After(requests, n - 1), requests[n - 1]);
    }
  }

  /** Over every run of such requests the blocks tile the arena. */
  lemma RunTiles(requests: seq<Request>)
    requires ProperRun(requests)
    ensures Tiles(Run(Heap(Initial(), map[]), requests).blocks, 0, ARENA)
  {
    TilesAfter(requests, |requests|);
    assert requests[..|requests|] == requests;
  }

  /** The payload `r` returns: null for none. */
  function Answer(blocks: seq<Block>, r: Request): Ptr {
    match r
    case Kmalloc(n) => Malloc(blocks, n).1
    case Kfree(_) => 0
    case Krealloc(p, n) => Realloc(blocks, p, n).1
  }

  lemma TooSmall(h: Heap, n: nat)
    requires Tiles(h.blocks, 0, ARENA) && n > ARENA && Malloc(h.blocks, n).1 != 0
    ensures var (b, q) := Malloc(h.blocks, n); !Sound(Heap(b, Grant(h.asked, q, n)))
    ensures var (b, q) := Malloc(h.blocks, n); forall p: Ptr | p != q :: !Sound(Heap(Free(b, p), Grant(h.asked, q, n)))
  {
    hide Tiles, Malloc, Free, Live, RoundUp;
    var (r, q) := Malloc(h.blocks, n);
    var b := GrantedBlock(h.blocks, n);
    LiveHas(r, b);
    MallocTiles(h.blocks, n);
    BlockFits(r, b);
    forall p: Ptr | p != q ensures b in Live(Free(r, p)) { FreedOthers(r, p, b); }
  }

  lemma BlockFits(blocks: seq<Block>, b: Block)
    requires Tiles(blocks, 0, ARENA) && b in blocks
    ensures b.size <= ARENA
  {
    var i: nat :| i < |blocks| && blocks[i] == b;
    TilesAt(blocks, i, 0, ARENA);
  }

  /** A 32-bit request keeps the heap sound exactly when its size does not wrap or it is refused. */
  lemma ServeSoundIff(h: Heap, r: Request)
    requires Sound(h) && Named(h.blocks, r) && (r.Kfree? || r.n < WORD)
    ensures Sound(Serve(h, r)) <==> Reasonable(r) || Answer(h.blocks, r) == 0
  {
    hide Tiles, Malloc, Free, Live, SplitAt, Satisfied;
    if Reasonable(r) {
      ServeSound(h, r);
    } else {
      match r
      case Kmalloc(n) => if Malloc(h.blocks, n).1 != 0 { TooSmall(h, n); } else { Refused(h.blocks, n); }
      case Krealloc(p, n) => {
        Refused(h.blocks, n);
        var i := IndexOf(h.blocks, p - HEADER);
        if p != 0 && i < |h.blocks| {
          BlockFits(h.blocks, h.blocks[i]);
          if !h.blocks[i].free && Malloc(h.blocks, n).1 != 0 {
            var b := GrantedBlock(h.blocks, n);
            LiveHas(h.blocks, h.blocks[i]);
          }
        }
        if Malloc(h.blocks, n).1 != 0 { TooSmall(h, n); }
      }
    }
  }

  lemma Refused(blocks: seq<Block>, n: nat)
    ensures Malloc(blocks, n).1 == 0 ==> Malloc(blocks, n).0 == blocks
  {
  }

  /** The pointers of a run are known and its sizes fit in 32 bits. */
  ghost predicate NamedRun(requests: seq<Request>) {
    forall k: nat | k < |requests| ::
      Named(After(requests, k).blocks, requests[k]) && (requests[k].Kfree? || requests[k].n < WORD)
  }

  /** A size that wraps is granted a block. */
  predicate Undersized(blocks: seq<Block>, r: Request) {
    !Reasonable(r) && Answer(blocks, r) != 0
  }

  lemma {:induction false} SoundAfter(requests: seq<Request>, n: nat)
    requires n <= |requests| && NamedRun(requests)
    requires forall k: nat | k < n :: !Undersized(After(requests, k).blocks, requests[k])
    ensures Sound(After(requests, n))
  {
    hide Serve, Sound, Reasonable, Answer, Named;
    if n == 0 {
      InitialSound();
    } else {
      SoundAfter(requests, n - 1);
      AfterNext(requests, n - 1);
      ServeSoundIff(After(requests, n - 1), requests[n - 1]);
    }
  }

  /**
    Over every run: the blocks tile the arena and live payloads are in bounds, disjoint and large
    enough at every point, exactly when no size that wraps is granted a block.
   */
  lemma RunSoundIff(requests: seq<Request>)
    requires NamedRun(requests)
    ensures (forall k: nat | k <= |requests| :: Sound(After(requests, k))) <==>
            (forall k: nat | k < |requests| :: !Undersized(After(requests, k).blocks, requests[k]))
  {
    hide Serve, Sound, Reasonable, Answer, Named, After;
    if forall k: nat | k < |requests| :: !Undersized(After(requests, k).blocks, requests[k]) {
      forall k: nat | k <= |requests| ensures Sound(After(requests, k)) { SoundAfter(requests, k); }
    } else {
      var k: nat :| k < |requests| && Undersized(After(requests, k).blocks, requests[k]);
      if Sound(After(requests, k)) {
        AfterNext(requests, k);
        ServeSoundIff(After(requests, k), requests[k]);
        assert !Sound(After(requests, k + 1));
      }
    }
  }

  /** In particular when every size rounds up without wrapping. */
  lemma RunSound(requests: seq<Request>)
    requires NamedRun(requests) && forall k: nat | k < |requests| :: Reasonable(requests[k])
    ensures Sound(Run(Heap(Initial(), map[]), requests))
  {
    SoundAfter(requests, |requests|);
    assert requests[..|requests|] == requests;
  }

  // ---------------------------------------------------------------- one step of the merge pass

  /** Block `i` after absorbing its right neighbour. */
  function Join(blocks: seq<Block>, i: nat): (r: seq<Block>)
    requires i + 1 < |blocks|
    ensures |r| == |blocks| - 1
  {
    blocks[..i] + [blocks[i].(size := blocks[i].size + HEADER + blocks[i + 1].size)] + blocks[i + 2..]
  }

  lemma JoinTiles(blocks: seq<Block>, i: nat, to: nat)
    requires Tiles(blocks, 0, to) && i + 1 < |blocks|
    ensures Tiles(Join(blocks, i), 0, to)
  {
    TilesCut(blocks, i, 0, to);
    TilesCut(blocks, i + 2, 0, to);
    TilesAt(blocks, i, 0, to);
    TilesAt(blocks, i + 1, 0, to);
    var one := [blocks[i].(size := blocks[i].size + HEADER + blocks[i + 1].size)];
    assert one[1..] == [];
    TilesAppend(one, blocks[i + 2..], blocks[i].off, End(one[0]), to);
    TilesAppend(blocks[..i], one + blocks[i + 2..], 0, blocks[i].off, to);
    assert Join(blocks, i) == blocks[..i] + (one + blocks[i + 2..]);
  }

  lemma {:induction false} JoinLive(blocks: seq<Block>, i: nat)
    requires i + 1 < |blocks| && blocks[i].free && blocks[i + 1].free
    ensures Live(Join(blocks, i)) == Live(blocks)
  {
    var r := Join(blocks, i);
    LiveAround(blocks, i);
    LiveAround(r, i);
    assert r[..i] == blocks[..i];
    assert blocks[i + 1..][1..] == blocks[i + 2..] == r[i + 1..];
  }

  /** Absorbing at the cursor, or stepping over it, is what the pass does. */
  lemma {:induction false} CoalesceStep(blocks: seq<Block>, i: nat)
    requires i + 1 < |blocks|
    ensures if blocks[i].free && blocks[i + 1].free
            then blocks[..i] + Coalesce(blocks[i..]) == Join(blocks, i)[..i] + Coalesce(Join(blocks, i)[i..])
            else blocks[..i] + Coalesce(blocks[i..]) == blocks[..i + 1] + Coalesce(blocks[i + 1..])
  {
    var tail := blocks[i..];
    if blocks[i].free && blocks[i + 1].free {
      assert Join(blocks, i)[i..] == [tail[0].(size := tail[0].size + HEADER + tail[1].size)] + tail[2..];
    } else {
      assert tail[1..] == blocks[i + 1..];
    }
  }

  // ---------------------------------------------------------------- who stays live

  lemma StillLive(blocks: seq<Block>, n: nat, b: Block)
    requires b in Live(blocks)
    ensures b in Live(Malloc(blocks, n).0)
  {
    hide RoundUp, Take;
    var i := FirstFit(blocks, RoundUp(n));
    if n != 0 && i < |blocks| {
      TakeLive(blocks, i, RoundUp(n));
    }
  }

  lemma FreedOthers(blocks: seq<Block>, p: Ptr, b: Block)
    requires b in Live(blocks) && b.off + HEADER != p
    ensures b in Live(Free(blocks, p))
  {
    hide Release;
    var i := IndexOf(blocks, p - HEADER);
    if p != 0 && i < |blocks| && !blocks[i].free {
      ReleaseLive(blocks, i);
    }
  }

  /** The block a request is granted, and that nobody else is using it. */
  lemma GrantedBlock(blocks: seq<Block>, n: nat) returns (b: Block)
    requires Tiles(blocks, 0, ARENA) && Malloc(blocks, n).1 != 0
    ensures var (r, q) := Malloc(blocks, n); b in r && !b.free && b.off + HEADER == q && b.size >= RoundUp(n)
    ensures b.size == GrantedSize(blocks, n)
    ensures forall c | c in Live(blocks) :: c.off != b.off
  {
    var i := FirstFit(blocks, RoundUp(n));
    TakeLive(blocks, i, RoundUp(n));
    b := Take(blocks, i, RoundUp(n))[i];
    forall c | c in Live(blocks) ensures c.off != b.off {
      LiveHas(blocks, c);
      var j: nat :| j < |blocks| && blocks[j] == c;
      if c.off == blocks[i].off { OffsUnique(blocks, i, j, ARENA); }
    }
  }

  /** A block is found by its address. */
  lemma FoundAt(blocks: seq<Block>, i: nat, to: nat)
    requires Tiles(blocks, 0, to) && i < |blocks|
    ensures IndexOf(blocks, blocks[i].off) == i
  {
    var j := IndexOf(blocks, blocks[i].off);
    if j < |blocks| { OffsUnique(blocks, i, j, to); }
  }

  lemma FirstGrant()
    ensures Malloc(Initial(), 64) == ([Block(0, 64, false), Block(80, ARENA - 96, true)], HEADER)
  {
    assert FirstFit(Initial(), 64) == 0;
    assert SplitAt(Initial(), 0, 64) == [Block(0, 64, true), Block(80, ARENA - 96, true)];
    assert Take(Initial(), 0, 64) == [Block(0, 64, false), Block(80, ARENA - 96, true)];
  }
}
