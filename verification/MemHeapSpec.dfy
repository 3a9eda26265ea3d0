/** What rt_memheap_alloc, rt_memheap_realloc and rt_memheap_free do to a pool,
    stated on the list of blocks in address order and the list of free blocks
    in search order. */
module MemHeapSpec {
  import opened BlockList
  import opened RtDef
  import opened Lists

  const HDR: nat := 24         // RT_MEMHEAP_SIZE: six words
  const MINIALLOC: nat := 12   // RT_MEMHEAP_MINIALLOC

  datatype Pool = Pool(size: nat, blocks: seq<Block>, frees: seq<nat>, maxUsed: nat)

  /** The payload that is searched for when `size` bytes are asked for. */
  function Request(size: nat): (n: nat)
    ensures n % 4 == 0 && MINIALLOC <= n < WORD
  {
    if Align(size) < MINIALLOC then MINIALLOC else Align(size)
  }

  /** The rounded request covers what was asked for, unless rounding up wraps around. */
  lemma RequestCovers(size: nat)
    requires size < WORD
    ensures Request(size) >= size <==> size <= 0xFFFF_FFFC
    ensures size <= 0xFFFF_FFFC && size >= MINIALLOC ==> Request(size) < size + 4
    ensures size <= MINIALLOC ==> Request(size) == MINIALLOC
  {
  }

  lemma RequestStable(n: nat)
    requires n % 4 == 0 && MINIALLOC <= n < WORD
    ensures Request(n) == n
  {
  }

  /** `s` lists the set `f`, each element once. */
  ghost predicate Enumerates(s: seq<nat>, f: set<nat>) {
    Distinct(s) && forall o :: o in s <==> o in f
  }

  /** What every reachable pool satisfies. */
  ghost predicate Inv(p: Pool) {
    && 2 * HDR <= p.size < WORD && p.size % 4 == 0
    && Tiled(p.blocks, HDR, p.size - HDR)
    && NoTwoFree(p.blocks)
    && Aligned(p.blocks)
    && Enumerates(p.frees, FreeOffs(p.blocks))
    && p.size <= p.maxUsed + FreeBytes(p.blocks)
  }

  /** The pool right after rt_memheap_init. */
  function Init(size: nat): (p: Pool)
    requires 2 * HDR <= size
  {
    var s := size / 4 * 4;
    Pool(s, [Block(0, s - 2 * HDR, false), Block(s - HDR, 0, true)], [0], 2 * HDR)
  }

  lemma InitInv(size: nat)
    requires 2 * HDR <= size < WORD
    ensures Inv(Init(size)) && Roomy(Init(size)) && FreeBytes(Init(size).blocks) == Init(size).size - 2 * HDR
    ensures Init(size).maxUsed == Init(size).size - FreeBytes(Init(size).blocks)
    ensures size - 4 < Init(size).size <= size && Init(size).size % 4 == 0
  {
    var p := Init(size);
    assert p.blocks[1..] == [p.blocks[1]] && FreeBytes([p.blocks[1]]) == 0;
    assert FreeOffs(p.blocks) == {0} by { assert p.blocks[0] in p.blocks; }
  }

  // ---- rt_memheap_alloc ----

  /** The first block of the free list that is large enough. */
  function FirstFit(bs: seq<Block>, frees: seq<nat>, n: nat): (r: Option<nat>)
    requires forall o :: o in frees ==> HasOff(bs, o)
    ensures r.Some? ==> r.value in frees && bs[IndexOf(bs, r.value)].size >= n
    ensures r.None? ==> forall o :: o in frees ==> bs[IndexOf(bs, o)].size < n
  {
    if frees == [] then None
    else if bs[IndexOf(bs, frees[0])].size >= n then Some(frees[0])
    else FirstFit(bs, frees[1..], n)
  }

  /** The search looks at the address at position `k`, or has come to the end. */
  lemma FirstFitStep(bs: seq<Block>, frees: seq<nat>, k: nat, n: nat)
    requires k <= |frees| && forall o :: o in frees[k..] ==> HasOff(bs, o)
    ensures k == |frees| ==> FirstFit(bs, frees[k..], n) == None
    ensures k < |frees| ==> frees[k] in frees[k..] && forall o :: o in frees[k+1..] ==> HasOff(bs, o)
    ensures k < |frees| && HasOff(bs, frees[k]) ==>
      FirstFit(bs, frees[k..], n) == if bs[IndexOf(bs, frees[k])].size >= n then Some(frees[k]) else FirstFit(bs, frees[k+1..], n)
  {
    if k < |frees| {
      assert frees[k..] == [frees[k]] + frees[k+1..];
    }
  }

  lemma FreeHasOff(p: Pool)
    requires Inv(p)
    ensures forall o :: o in p.frees ==> HasOff(p.blocks, o)
    ensures forall o :: o in p.frees && HasOff(p.blocks, o) ==>
      var i := IndexOf(p.blocks, o); !p.blocks[i].used && i + 1 < |p.blocks|
  {
    OffsDistinct(p.blocks, HDR, p.size - HDR);
    forall o | o in p.frees
      ensures HasOff(p.blocks, o) && var i := IndexOf(p.blocks, o); !p.blocks[i].used && i + 1 < |p.blocks|
    {
      var i :| 0 <= i < |p.blocks| && p.blocks[i].off == o && !p.blocks[i].used;
      assert IndexOf(p.blocks, o) == i;
    }
  }

  function Min(a: nat, b: nat): nat { if a < b then a else b }

  /** max_used_size when `available` bytes of a pool are left. */
  function HighWater(size: nat, available: nat, former: nat): nat {
    if Wrap(size - available) > former then Wrap(size - available) else former
  }

  /** The pool with `bs` and `fs`, and the high-water mark brought up to date. */
  function Charged(p: Pool, bs: seq<Block>, fs: seq<nat>): Pool {
    Pool(p.size, bs, fs, HighWater(p.size, FreeBytes(bs), p.maxUsed))
  }

  /** Handing out the free block `i` to a request of `n` bytes. */
  function Take(p: Pool, i: nat, n: nat): Pool
    requires i < |p.blocks| && p.blocks[i].size >= n
  {
    var b := p.blocks[i];
    if b.size >= n + HDR + MINIALLOC then
      Charged(p, Split(p.blocks, HDR, i, n), [b.off + HDR + n] + Without(p.frees, b.off))
    else
      Charged(p, p.blocks[i := b.(used := true)], Without(p.frees, b.off))
  }

  function Alloc(p: Pool, size: nat): (r: (Pool, Option<nat>))
    requires Inv(p)
  {
    FreeHasOff(p);
    var n := Request(size);
    if n >= FreeBytes(p.blocks) then (p, None)
    else
      match FirstFit(p.blocks, p.frees, n)
      case None => (p, None)
      case Some(o) => (Take(p, IndexOf(p.blocks, o), n), Some(o + HDR))
  }

  // ---- rt_memheap_free ----

  /** `ptr` is a payload address the client holds. */
  ghost predicate Held(p: Pool, ptr: nat) {
    exists b :: b in p.blocks && b.used && b.off + HDR == ptr && ptr < p.size
  }

  function Find(p: Pool, ptr: nat): (i: nat)
    requires Inv(p) && Held(p, ptr)
    ensures i + 1 < |p.blocks| && p.blocks[i].used && p.blocks[i].off + HDR == ptr
    ensures HasOff(p.blocks, ptr - HDR) && i == IndexOf(p.blocks, ptr - HDR)
  {
    OffsDistinct(p.blocks, HDR, p.size - HDR);
    assert HasOff(p.blocks, ptr - HDR) by {
      var b :| b in p.blocks && b.used && b.off + HDR == ptr && ptr < p.size;
      var k :| 0 <= k < |p.blocks| && p.blocks[k] == b;
    }
    IndexOf(p.blocks, ptr - HDR)
  }

  /** The free list after block `i` is released: a right neighbour leaves it, a left one stays for the joint block. */
  function FreesAfter(bs: seq<Block>, frees: seq<nat>, i: nat): seq<nat>
    requires i + 1 < |bs|
  {
    var fs := if bs[i+1].used then frees else Without(frees, bs[i+1].off);
    if FreedLo(bs, i) == i then [bs[i].off] + fs else fs
  }

  function Free(p: Pool, ptr: nat): (r: Pool)
    requires Inv(p) && Held(p, ptr)
  {
    var i := Find(p, ptr);
    p.(blocks := Freed(p.blocks, HDR, i), frees := FreesAfter(p.blocks, p.frees, i))
  }

  // ---- rt_memheap_realloc ----

  /** Block `i` with `n` bytes, and the free block that follows it, in 32-bit arithmetic. */
  function GrownPair(p: Pool, i: nat, n: nat): (r: seq<Block>)
    requires i + 1 < |p.blocks|
    ensures |r| == 2
  {
    var b, c := p.blocks[i], p.blocks[i+1];
    [Block(b.off, n, true), Block(Wrap(b.off + HDR + n), Wrap(b.size + c.size - n), false)]
  }

  /** Block `i` takes what it lacks from the free block behind it. */
  function Grow(p: Pool, i: nat, n: nat): Pool
    requires i + 1 < |p.blocks|
  {
    var mid := GrownPair(p, i, n);
    Charged(p, Splice(p.blocks, i, i + 2, mid), [mid[1].off] + Without(p.frees, p.blocks[i+1].off))
  }

  /** Block `i` keeps `n` bytes; the rest is released. */
  function Shrink(p: Pool, i: nat, n: nat): Pool
    requires i + 1 < |p.blocks| && p.blocks[i].size >= n + HDR
  {
    var c := Cut(p.blocks, HDR, i, n);
    p.(blocks := Freed(c, HDR, i + 1), frees := FreesAfter(c, p.frees, i + 1))
  }

  /** The test that rt_memheap_realloc makes, in 32-bit arithmetic. */
  predicate CanGrow(p: Pool, i: nat, n: nat) {
    && i + 1 < |p.blocks|
    && !p.blocks[i+1].used
    && Wrap(p.blocks[i+1].size + p.blocks[i].size) > Wrap(n + MINIALLOC)
  }

  /** The test that is meant. */
  predicate HasRoom(p: Pool, i: nat, n: nat) {
    && i + 1 < |p.blocks|
    && !p.blocks[i+1].used
    && p.blocks[i+1].size + p.blocks[i].size > n + MINIALLOC
  }

  /** The call grows its block although there is no room for it. */
  ghost predicate Overruns(p: Pool, ptr: nat, newsize: nat)
    requires Inv(p) && Held(p, ptr)
  {
    var i, n := Find(p, ptr), Request(newsize);
    newsize > 0 && n > p.blocks[i].size && CanGrow(p, i, n) && !HasRoom(p, i, n)
  }

  /** Giving the held block `ptr` a payload of `n` bytes. */
  function Resized(p: Pool, ptr: nat, n: nat): (r: (Pool, Option<nat>))
    requires Inv(p) && Held(p, ptr)
  {
    var i := Find(p, ptr);
    if n > p.blocks[i].size then
      if CanGrow(p, i, n) then (Grow(p, i, n), Some(ptr))
      else
        var r := Alloc(p, n);
        if r.1.None? then r
        else
          AllocKeeps(p, n);
          (Free(r.0, ptr), r.1)
    else if n + HDR + MINIALLOC >= p.blocks[i].size then (p, Some(ptr))
    else (Shrink(p, i, n), Some(ptr))
  }

  function Realloc(p: Pool, ptr: Option<nat>, newsize: nat): (r: (Pool, Option<nat>))
    requires Inv(p) && (ptr.Some? ==> Held(p, ptr.value))
  {
    if newsize == 0 then (if ptr.None? then p else Free(p, ptr.value), None)
    else if ptr.None? then Alloc(p, Request(newsize))
    else Resized(p, ptr.value, Request(newsize))
  }

  // ---- the invariant is kept, and the client gets what it asked for ----

  lemma ChargedInv(p: Pool, bs: seq<Block>, fs: seq<nat>)
    requires Inv(p)
    requires Tiled(bs, HDR, p.size - HDR) && NoTwoFree(bs) && Aligned(bs)
    requires Enumerates(fs, FreeOffs(bs))
    ensures Inv(Charged(p, bs, fs))
  {
    Wraps(p.size - FreeBytes(bs));
  }

  lemma EnumeratesCons(s: seq<nat>, f: set<nat>, x: nat)
    requires Enumerates(s, f) && x !in f
    ensures Enumerates([x] + s, f + {x})
  {
  }

  lemma EnumeratesWithout(s: seq<nat>, f: set<nat>, x: nat)
    requires Enumerates(s, f)
    ensures Enumerates(Without(s, x), f - {x})
  {
    WithoutMembers(s, x);
  }

  lemma TakeSplitInv(p: Pool, i: nat, n: nat)
    requires Inv(p) && i + 1 < |p.blocks| && !p.blocks[i].used && p.blocks[i].size >= n + HDR + MINIALLOC && n % 4 == 0
    ensures Inv(Take(p, i, n))
  {
    hide Enumerates, NoTwoFree, Contiguous, FreeOffs, FreeBytes, Aligned;
    var b, end := p.blocks[i], p.size - HDR;
    var o: nat := b.off + HDR + n;
    JoinedAt(p.blocks, HDR, i);
    SplitTiled(p.blocks, HDR, end, i, n);
    SplitAccounts(p.blocks, HDR, end, i, n);
    SplitAligned(p.blocks, i, n);
    SwapEnumerates(p, b.off, o, i);
    hide Tiled;
    ChargedInv(p, Split(p.blocks, HDR, i, n), [o] + Without(p.frees, b.off));
  }

  lemma SplitAligned(bs: seq<Block>, i: nat, n: nat)
    requires Aligned(bs) && i < |bs| && bs[i].size >= n + HDR && n % 4 == 0
    ensures Aligned(Split(bs, HDR, i, n))
  {
    var b := bs[i];
    assert b in bs;
    AlignedSum(b.off, HDR, n);
    AlignedSplice(bs, i, i + 1, [Block(b.off, n, true), Block(b.off + HDR + n, b.size - n - HDR, false)]);
  }

  /** The free list when the address `x` leaves it and the new address `o`, inside of block `i`, enters. */
  lemma SwapEnumerates(p: Pool, x: nat, o: nat, i: nat)
    requires Inv(p) && i + 1 < |p.blocks| && p.blocks[i].off < o < p.blocks[i+1].off
    ensures Enumerates([o] + Without(p.frees, x), FreeOffs(p.blocks) - {x} + {o})
  {
    NewOffset(p, i, o);
    assert o !in FreeOffs(p.blocks);
    EnumeratesWithout(p.frees, FreeOffs(p.blocks), x);
    EnumeratesCons(Without(p.frees, x), FreeOffs(p.blocks) - {x}, o);
  }

  lemma TakeWholeInv(p: Pool, i: nat, n: nat)
    requires Inv(p) && i + 1 < |p.blocks| && !p.blocks[i].used && n <= p.blocks[i].size < n + HDR + MINIALLOC
    ensures Inv(Take(p, i, n))
  {
    hide Enumerates, NoTwoFree, Contiguous, FreeOffs, FreeBytes;
    var b := p.blocks[i];
    assert b in p.blocks;
    MarkUsedKeeps(p.blocks, HDR, p.size - HDR, i);
    EnumeratesWithout(p.frees, FreeOffs(p.blocks), b.off);
    ChargedInv(p, p.blocks[i := b.(used := true)], Without(p.frees, b.off));
  }

  lemma TakeKeeps(p: Pool, i: nat, n: nat)
    requires Inv(p) && i + 1 < |p.blocks| && !p.blocks[i].used && p.blocks[i].size >= n && n % 4 == 0
    ensures Inv(Take(p, i, n)) && i < |Take(p, i, n).blocks|
    ensures var g := Take(p, i, n).blocks[i];
      && g.off == p.blocks[i].off && g.used && n <= g.size < n + HDR + MINIALLOC
      && g !in Live(p.blocks) && Live(Take(p, i, n).blocks) == Live(p.blocks) + {g}
  {
    hide Enumerates, NoTwoFree, Contiguous, FreeOffs, FreeBytes, Live;
    var b, end := p.blocks[i], p.size - HDR;
    if b.size >= n + HDR + MINIALLOC {
      TakeSplitInv(p, i, n);
      SplitAccounts(p.blocks, HDR, end, i, n);
    } else {
      TakeWholeInv(p, i, n);
      MarkUsedKeeps(p.blocks, HDR, end, i);
    }
    LiveMember(p.blocks, b);
    NotLive(p.blocks, end, i, Take(p, i, n).blocks[i]);
  }

  /** A free block's address names no live block. */
  lemma NotLive(bs: seq<Block>, end: nat, i: nat, g: Block)
    requires Tiled(bs, HDR, end) && i < |bs| && !bs[i].used && g.off == bs[i].off && g.used
    ensures g !in Live(bs)
  {
    OffsDistinct(bs, HDR, end);
  }

  /** An address inside block `i` heads no block of the pool. */
  lemma NewOffset(p: Pool, i: nat, o: nat)
    requires Inv(p) && i + 1 < |p.blocks| && p.blocks[i].off < o < p.blocks[i+1].off
    ensures o !in p.frees && forall b :: b in p.blocks ==> b.off != o
  {
    OffsDistinct(p.blocks, HDR, p.size - HDR);
    forall b | b in p.blocks
      ensures b.off != o
    {
      var k :| 0 <= k < |p.blocks| && p.blocks[k] == b;
      assert k < i ==> p.blocks[k].off < p.blocks[i].off;
      assert k > i + 1 ==> p.blocks[i+1].off < p.blocks[k].off;
    }
  }

  /** rt_memheap_alloc keeps the pool sound; a block it returns is large enough and was in nobody's hands. */
  lemma AllocKeeps(p: Pool, size: nat)
    requires Inv(p)
    ensures Inv(Alloc(p, size).0)
    ensures Alloc(p, size).1.None? ==> Alloc(p, size).0 == p
    ensures Alloc(p, size).1.Some? ==> exists g ::
      && g !in Live(p.blocks) && g.used && g.off + HDR == Alloc(p, size).1.value
      && Request(size) <= g.size < Request(size) + HDR + MINIALLOC
      && Live(Alloc(p, size).0.blocks) == Live(p.blocks) + {g}
    ensures forall ptr: nat :: Held(p, ptr) ==> Held(Alloc(p, size).0, ptr)
  {
    FreeHasOff(p);
    var n := Request(size);
    var r := Alloc(p, size);
    if r.1.Some? {
      var i := IndexOf(p.blocks, r.1.value - HDR);
      TakeKeeps(p, i, n);
      forall ptr: nat | Held(p, ptr)
        ensures Held(r.0, ptr)
      {
        var b :| b in p.blocks && b.used && b.off + HDR == ptr && ptr < p.size;
        assert b in Live(p.blocks) && b in Live(r.0.blocks);
      }
    }
  }

  /** rt_memheap_alloc fails on a request that some free block could hold only
      if that block is the whole of the free memory and would be used up exactly. */
  lemma AllocMisses(p: Pool, size: nat, i: nat)
    requires Inv(p) && i < |p.blocks| && !p.blocks[i].used && p.blocks[i].size >= Request(size)
    ensures Alloc(p, size).1.None? <==> FreeBytes(p.blocks) == Request(size)
    ensures Alloc(p, size).1.None? ==> p.blocks[i].size == FreeBytes(p.blocks)
  {
    FreeHasOff(p);
    FreeBytesAtLeast(p.blocks, i);
    OffsDistinct(p.blocks, HDR, p.size - HDR);
    var o := p.blocks[i].off;
    assert p.blocks[i] in p.blocks && o in p.frees;
    assert IndexOf(p.blocks, o) == i;
  }

  /** A pool that refuses the exact size of its one free block. */
  lemma AllocMissExample()
    ensures Inv(Init(1024)) && Init(1024).blocks[0] == Block(0, 976, false) && Request(976) == 976
    ensures Alloc(Init(1024), 976).1 == None
  {
    InitInv(1024);
    AllocMisses(Init(1024), 976, 0);
  }

  lemma {:induction false} FreeBytesAtLeast(bs: seq<Block>, i: nat)
    requires i < |bs| && !bs[i].used
    ensures bs[i].size <= FreeBytes(bs)
  {
    if i > 0 {
      FreeBytesAtLeast(bs[1..], i - 1);
    }
  }

  lemma {:induction false} SpanCovers(bs: seq<Block>, h: nat, k: nat)
    requires Contiguous(bs, h) && k < |bs|
    ensures bs[0].off + FreeBytes(bs[..k]) <= bs[k].off
  {
    if k > 0 {
      SpanCovers(bs, h, k - 1);
      assert Joined(bs[k-1], bs[k], h);
      assert bs[..k] == bs[..k-1] + [bs[k-1]];
      FreeBytesConcat(bs[..k-1], [bs[k-1]]);
      assert FreeBytes([bs[k-1]]) <= bs[k-1].size;
    }
  }

  /** There is never more available than the pool holds. */
  lemma FreeBytesFit(p: Pool)
    requires Inv(p)
    ensures FreeBytes(p.blocks) <= p.size - HDR
  {
    var k := |p.blocks| - 1;
    SpanCovers(p.blocks, HDR, k);
    assert p.blocks == p.blocks[..k] + [p.blocks[k]];
    FreeBytesConcat(p.blocks[..k], [p.blocks[k]]);
    assert FreeBytes([p.blocks[k]]) == 0;
  }

  lemma SplitFacts(p: Pool, i: nat, o: nat)
    requires Inv(p) && i + 1 < |p.blocks| && !p.blocks[i].used && p.blocks[i].off < o < p.blocks[i].off + HDR + p.blocks[i].size
    ensures p.blocks[i].off in p.frees && p.blocks[i].off < p.size && o < p.size && o !in p.frees && o !in Without(p.frees, p.blocks[i].off)
    ensures forall k :: 0 <= k < |p.blocks| ==> p.blocks[k].off != o && (k != i ==> p.blocks[k].off != p.blocks[i].off)
    ensures p.blocks[i].size <= FreeBytes(p.blocks) <= p.size < WORD && Distinct(p.frees)
  {
    JoinedAt(p.blocks, HDR, i);
    WholeFacts(p, i);
    OffsDistinct(p.blocks, HDR, p.size - HDR);
    NewOffset(p, i, o);
    WithoutMembers(p.frees, p.blocks[i].off);
    forall k | 0 <= k < |p.blocks|
      ensures p.blocks[k].off != o
    {
      assert p.blocks[k] in p.blocks;
    }
  }

  lemma TakeSplitBytes(p: Pool, i: nat, n: nat)
    requires Inv(p) && i + 1 < |p.blocks| && !p.blocks[i].used && p.blocks[i].size >= n + HDR
    ensures FreeBytes(Split(p.blocks, HDR, i, n)) + n + HDR == FreeBytes(p.blocks)
  {
    SplitAccounts(p.blocks, HDR, p.size - HDR, i, n);
  }

  lemma WholeFacts(p: Pool, i: nat)
    requires Inv(p) && i + 1 < |p.blocks| && !p.blocks[i].used
    ensures p.blocks[i].off in p.frees && p.blocks[i].off < p.size && Distinct(p.frees)
    ensures forall k :: 0 <= k < |p.blocks| && k != i ==> p.blocks[k].off != p.blocks[i].off
    ensures p.blocks[i].size <= FreeBytes(p.blocks) <= p.size < WORD
    ensures FreeBytes(p.blocks[i := p.blocks[i].(used := true)]) + p.blocks[i].size == FreeBytes(p.blocks)
  {
    MarkUsedKeeps(p.blocks, HDR, p.size - HDR, i);
    OffsDistinct(p.blocks, HDR, p.size - HDR);
    assert p.blocks[i] in p.blocks;
    FreeBytesAtLeast(p.blocks, i);
    FreeBytesFit(p);
  }

  lemma ReleaseInv(p: Pool, bs: seq<Block>, i: nat)
    requires Inv(p) && Tiled(bs, HDR, p.size - HDR) && NoTwoFree(bs) && i + 1 < |bs| && bs[i].used
    requires FreeOffs(bs) == FreeOffs(p.blocks) && FreeBytes(bs) == FreeBytes(p.blocks)
    requires Aligned(bs)
    ensures Inv(p.(blocks := Freed(bs, HDR, i), frees := FreesAfter(bs, p.frees, i)))
  {
    hide Enumerates, NoTwoFree, Contiguous, FreeOffs, FreeBytes, Freed, FreesAfter;
    var end := p.size - HDR;
    FreedKeeps(bs, HDR, end, i);
    FreedBytes(bs, HDR, end, i);
    FreedAligned(bs, HDR, end, i);
    ReleaseEnumerates(p, bs, i);
  }

  lemma ReleaseEnumerates(p: Pool, bs: seq<Block>, i: nat)
    requires Inv(p) && Tiled(bs, HDR, p.size - HDR) && NoTwoFree(bs) && i + 1 < |bs| && bs[i].used
    requires FreeOffs(bs) == FreeOffs(p.blocks)
    ensures Enumerates(FreesAfter(bs, p.frees, i), FreeOffs(Freed(bs, HDR, i)))
  {
    hide Enumerates, NoTwoFree, Contiguous, FreeOffs, Freed;
    var end, lo := p.size - HDR, FreedLo(bs, i);
    FreedFreeOffs(bs, HDR, end, i);
    FreeOffsOther(bs, HDR, end, i);
    FreeOffsOther(bs, HDR, end, lo);
    OffsDistinct(bs, HDR, end);
    var x := bs[i+1].off;
    var f := FreeOffs(bs);
    if bs[i+1].used {
      assert f - {} == f;
      if lo == i { EnumeratesCons(p.frees, f, bs[i].off); } else { assert f + {bs[lo].off} == f; }
    } else {
      EnumeratesWithout(p.frees, f, x);
      if lo == i { EnumeratesCons(Without(p.frees, x), f - {x}, bs[i].off); } else { assert f - {x} + {bs[lo].off} == f - {x}; }
    }
  }

  /** rt_memheap_free keeps the pool sound and takes exactly the released block from the client. */
  lemma FreeKeeps(p: Pool, ptr: nat)
    requires Inv(p) && Held(p, ptr)
    ensures Inv(Free(p, ptr))
    ensures Live(Free(p, ptr).blocks) == Live(p.blocks) - {p.blocks[Find(p, ptr)]}
  {
    hide Enumerates, NoTwoFree, Contiguous, FreeOffs, FreeBytes, Freed, FreesAfter;
    var i := Find(p, ptr);
    ReleaseInv(p, p.blocks, i);
    FreedKeeps(p.blocks, HDR, p.size - HDR, i);
  }

  lemma ShrinkInv(p: Pool, i: nat, n: nat)
    requires Inv(p) && i + 1 < |p.blocks| && p.blocks[i].used && p.blocks[i].size >= n + HDR && n % 4 == 0
    ensures Inv(Shrink(p, i, n))
  {
    hide Enumerates, NoTwoFree, Contiguous, FreeOffs, FreeBytes, Freed, FreesAfter;
    var b, end := p.blocks[i], p.size - HDR;
    var mid := [Block(b.off, n, true), Block(b.off + HDR + n, b.size - n - HDR, true)];
    CutKeeps(p.blocks, HDR, end, i, n);
    CutAccounts(p.blocks, HDR, end, i, n);
    assert b in p.blocks;
    assert mid[1].off % 4 == 0 by { AlignedSum(b.off, HDR, n); }
    AlignedSplice(p.blocks, i, i + 1, mid);
    ReleaseInv(p, Cut(p.blocks, HDR, i, n), i + 1);
  }

  lemma ShrinkKeeps(p: Pool, i: nat, n: nat)
    requires Inv(p) && i + 1 < |p.blocks| && p.blocks[i].used && p.blocks[i].size >= n + HDR && n % 4 == 0
    ensures Inv(Shrink(p, i, n))
    ensures Live(Shrink(p, i, n).blocks) == Live(p.blocks) - {p.blocks[i]} + {Block(p.blocks[i].off, n, true)}
  {
    hide Enumerates, NoTwoFree, Contiguous, FreeOffs, FreeBytes, Freed, FreesAfter;
    var end := p.size - HDR;
    var c := Cut(p.blocks, HDR, i, n);
    ShrinkInv(p, i, n);
    CutKeeps(p.blocks, HDR, end, i, n);
    CutAccounts(p.blocks, HDR, end, i, n);
    FreedKeeps(c, HDR, end, i + 1);
    JoinedAt(p.blocks, HDR, i);
    NewOffset(p, i, c[i+1].off);
  }

  /** Where there is room, no sum wraps around. */
  lemma RoomPair(p: Pool, i: nat, n: nat)
    requires Inv(p) && HasRoom(p, i, n) && i + 1 < |p.blocks|
    ensures var b, c := p.blocks[i], p.blocks[i+1];
      && GrownPair(p, i, n) == [Block(b.off, n, true), Block(b.off + HDR + n, b.size + c.size - n, false)]
      && Grow(p, i, n) == Charged(p, Splice(p.blocks, i, i + 2, GrownPair(p, i, n)), [b.off + HDR + n] + Without(p.frees, c.off))
      && CanGrow(p, i, n)
  {
    hide Wrap, Splice, Charged, Without, Tiled;
    var b, c := p.blocks[i], p.blocks[i+1];
    ResizeFacts(p, i);
    ResizeFacts(p, i + 1);
    Wraps(b.off + HDR + n);
    Wraps(b.size + c.size - n);
    Wraps(b.size + c.size);
    Wraps(n + MINIALLOC);
  }

  lemma GrowInv(p: Pool, i: nat, n: nat)
    requires Inv(p) && HasRoom(p, i, n) && p.blocks[i].used && n >= p.blocks[i].size && n % 4 == 0
    ensures Inv(Grow(p, i, n))
  {
    hide Enumerates, NoTwoFree, Contiguous, FreeOffs, FreeBytes;
    var b, c, end := p.blocks[i], p.blocks[i+1], p.size - HDR;
    var mid := [Block(b.off, n, true), Block(b.off + HDR + n, b.size + c.size - n, false)];
    RoomPair(p, i, n);
    GrowTiled(p, i, n);
    assert b in p.blocks;
    assert mid[1].off % 4 == 0 by { AlignedSum(b.off, HDR, n); }
    AlignedSplice(p.blocks, i, i + 2, mid);
    GrowEnumerates(p, i, n);
    ChargedInv(p, Splice(p.blocks, i, i + 2, mid), [mid[1].off] + Without(p.frees, c.off));
  }

  lemma GrowTiled(p: Pool, i: nat, n: nat)
    requires Inv(p) && HasRoom(p, i, n) && p.blocks[i].used && n >= p.blocks[i].size
    ensures Tiled(Grow(p, i, n).blocks, HDR, p.size - HDR) && NoTwoFree(Grow(p, i, n).blocks)
  {
    hide Enumerates, FreeOffs, FreeBytes;
    var b, c, end := p.blocks[i], p.blocks[i+1], p.size - HDR;
    var mid := [Block(b.off, n, true), Block(b.off + HDR + n, b.size + c.size - n, false)];
    RoomPair(p, i, n);
    JoinedAt(p.blocks, HDR, i);
    JoinedAt(p.blocks, HDR, i + 1);
    SpliceTiled(p.blocks, HDR, end, i, i + 2, mid);
    SpliceNoTwoFree(p.blocks, i, i + 2, mid);
  }

  lemma GrowKeeps(p: Pool, i: nat, n: nat)
    requires Inv(p) && HasRoom(p, i, n) && p.blocks[i].used && n >= p.blocks[i].size && n % 4 == 0
    ensures Inv(Grow(p, i, n))
    ensures Live(Grow(p, i, n).blocks) == Live(p.blocks) - {p.blocks[i]} + {Block(p.blocks[i].off, n, true)}
    ensures FreeBytes(Grow(p, i, n).blocks) + n == FreeBytes(p.blocks) + p.blocks[i].size
  {
    hide Enumerates, NoTwoFree, Contiguous, FreeOffs, FreeBytes, Live;
    var b, c := p.blocks[i], p.blocks[i+1];
    var x, y := Block(b.off, n, true), Block(b.off + HDR + n, b.size + c.size - n, false);
    RoomPair(p, i, n);
    GrowInv(p, i, n);
    ReplaceTwo(p.blocks, HDR, p.size - HDR, i, [x, y]);
    TwoBlocks(x, y, c, HDR);
    OneBlock(x, c, HDR);
    OneBlock(y, c, HDR);
    LiveMember(p.blocks, c);
  }

  lemma GrowEnumerates(p: Pool, i: nat, n: nat)
    requires Inv(p) && HasRoom(p, i, n) && p.blocks[i].used && n >= p.blocks[i].size
    ensures Enumerates(Grow(p, i, n).frees, FreeOffs(Grow(p, i, n).blocks))
  {
    hide Enumerates, NoTwoFree, Contiguous, FreeOffs, FreeBytes;
    var b, c, end := p.blocks[i], p.blocks[i+1], p.size - HDR;
    var x, y := Block(b.off, n, true), Block(b.off + HDR + n, b.size + c.size - n, false);
    var f := FreeOffs(p.blocks);
    RoomPair(p, i, n);
    ReplaceTwo(p.blocks, HDR, end, i, [x, y]);
    TwoBlocks(x, y, c, HDR);
    OneBlock(x, c, HDR);
    OneBlock(y, c, HDR);
    OneBlock(b, c, HDR);
    OneBlock(c, c, HDR);
    assert FreeOffs(Grow(p, i, n).blocks) == f - {c.off} + {y.off};
    JoinedAt(p.blocks, HDR, i);
    JoinedAt(p.blocks, HDR, i + 1);
    if y.off == c.off {
      EnumeratesWithout(p.frees, f, c.off);
      EnumeratesCons(Without(p.frees, c.off), f - {c.off}, y.off);
    } else {
      SwapEnumerates(p, c.off, y.off, i + 1);
    }
  }

  // ---- rt_memheap_realloc as a whole ----

  /** What the client may assume after a request on its block `b` (or on none). */
  ghost predicate Answered(p: Pool, b: Option<Block>, n: nat, q: Pool, r: Option<nat>) {
    && Inv(q)
    && (r.None? ==> q == p)
    && (r.Some? ==> exists g: Block ::
          && g.used && g.off + HDR == r.value && n <= g.size
          && Live(q.blocks) == Live(p.blocks) - (if b.Some? then {b.value} else {}) + {g}
          && (b == None || g.off != b.value.off ==> g !in Live(p.blocks)))
  }

  lemma AllocAnswers(p: Pool, size: nat)
    requires Inv(p)
    ensures Answered(p, None, Request(size), Alloc(p, size).0, Alloc(p, size).1)
  {
    AllocKeeps(p, size);
  }

  /** Without a former block, rt_memheap_realloc answers if and only if an allocation of that size would, and with the
      same block. */
  lemma ReallocNew(p: Pool, newsize: nat)
    requires Inv(p) && newsize > 0
    ensures var (q, r) := Realloc(p, None, newsize);
      && Answered(p, None, Request(newsize), q, r)
      && (r.Some? <==> CanTake(p, Request(newsize)))
      && (r.Some? ==> exists k :: Took(p, Request(newsize), k, q, r.value))
  {
    hide Inv, Answered, Took, CanTake, Alloc, Request;
    RequestStable(Request(newsize));
    AllocAnswers(p, Request(newsize));
    AllocExact(p, Request(newsize));
  }

  /** Whatever path rt_memheap_realloc takes, unless it overruns, it answers with a block of the
      requested size that replaces the old one, or fails and changes nothing. */
  lemma ReallocAnswers(p: Pool, ptr: nat, newsize: nat)
    requires Inv(p) && Held(p, ptr) && newsize > 0 && !Overruns(p, ptr, newsize)
    ensures var (q, r) := Realloc(p, Some(ptr), newsize);
      Answered(p, Some(p.blocks[Find(p, ptr)]), Request(newsize), q, r)
  {
    hide Inv, Held;
    var n, i := Request(newsize), Find(p, ptr);
    var b := p.blocks[i];
    HeldLive(p, ptr);
    if n > b.size {
      if CanGrow(p, i, n) {
        RoomPair(p, i, n);
        GrowKeeps(p, i, n);
        AnsweredBy(p, b, n, Grow(p, i, n), Block(b.off, n, true));
      } else {
        MoveAnswers(p, ptr, n);
      }
    } else if n + HDR + MINIALLOC < b.size {
      ShrinkKeeps(p, i, n);
      AnsweredBy(p, b, n, Shrink(p, i, n), Block(b.off, n, true));
    } else {
      assert Live(p.blocks) == Live(p.blocks) - {b} + {b};
      AnsweredBy(p, b, n, p, b);
    }
  }

  lemma AnsweredBy(p: Pool, b: Block, n: nat, q: Pool, g: Block)
    requires Inv(q) && g.used && n <= g.size && g.off == b.off
    requires Live(q.blocks) == Live(p.blocks) - {b} + {g}
    ensures Answered(p, Some(b), n, q, Some(b.off + HDR))
  {
  }

  lemma HeldLive(p: Pool, ptr: nat)
    requires Inv(p) && Held(p, ptr)
    ensures p.blocks[Find(p, ptr)] in Live(p.blocks)
  {
  }

  lemma MoveAnswers(p: Pool, ptr: nat, n: nat)
    requires Inv(p) && Held(p, ptr) && n % 4 == 0 && MINIALLOC <= n < WORD
    requires n > p.blocks[Find(p, ptr)].size && !CanGrow(p, Find(p, ptr), n)
    ensures var (q, r) := Resized(p, ptr, n); Answered(p, Some(p.blocks[Find(p, ptr)]), n, q, r)
  {
    hide Inv, Held;
    var b := p.blocks[Find(p, ptr)];
    AllocKeeps(p, n);
    RequestStable(n);
    HeldLive(p, ptr);
    var q := Alloc(p, n);
    if q.1.Some? {
      FreeKeeps(q.0, ptr);
      var g: Block :| g !in Live(p.blocks) && g.used && g.off + HDR == q.1.value && n <= g.size && Live(q.0.blocks) == Live(p.blocks) + {g};
      HeldBlock(p, q.0, ptr);
      assert Live(Free(q.0, ptr).blocks) == Live(p.blocks) - {b} + {g};
    }
  }

  /** A pointer names the same block as long as the block stays live. */
  lemma HeldBlock(p: Pool, q: Pool, ptr: nat)
    requires Inv(p) && Inv(q) && Held(p, ptr) && Held(q, ptr) && Live(p.blocks) <= Live(q.blocks)
    ensures q.blocks[Find(q, ptr)] == p.blocks[Find(p, ptr)]
  {
    var b := p.blocks[Find(p, ptr)];
    assert b in Live(p.blocks);
    OffsDistinct(q.blocks, HDR, q.size - HDR);
    var k :| 0 <= k < |q.blocks| && q.blocks[k] == b;
  }

  // ---- what each call does to the blocks in use ----

  function Max(a: int, b: int): int { if a > b then a else b }

  /** The free block at place `k` of the search order. */
  function FreeAt(p: Pool, k: nat): Block
    requires Inv(p) && k < |p.frees|
  {
    FreeHasOff(p);
    assert p.frees[k] in p.frees;
    p.blocks[IndexOf(p.blocks, p.frees[k])]
  }

  /** The search stops at the block at place `k`. */
  ghost predicate StopsAt(p: Pool, n: nat, k: nat)
    requires Inv(p)
  {
    k < |p.frees| && FreeAt(p, k).size >= n && forall j :: 0 <= j < k ==> FreeAt(p, j).size < n
  }

  /** What is handed out of the free block `b`: a rest of less than a header and a smallest payload stays with it. */
  function Piece(b: Block, n: nat): Block {
    Block(b.off, if b.size >= n + HDR + MINIALLOC then n else b.size, true)
  }

  /** The search comes to place `k`. */
  lemma {:induction false} FirstFitStops(bs: seq<Block>, frees: seq<nat>, n: nat) returns (k: nat)
    requires forall o :: o in frees ==> HasOff(bs, o)
    requires FirstFit(bs, frees, n).Some?
    ensures k < |frees| && FirstFit(bs, frees, n).value == frees[k]
    ensures forall j :: 0 <= j <= k ==> HasOff(bs, frees[j]) && (bs[IndexOf(bs, frees[j])].size >= n <==> j == k)
    decreases |frees|
  {
    assert frees[0] in frees && forall o :: o in frees[1..] ==> o in frees;
    if bs[IndexOf(bs, frees[0])].size >= n {
      k := 0;
    } else {
      var j := FirstFitStops(bs, frees[1..], n);
      k := j + 1;
    }
  }

  lemma TakeLive(p: Pool, i: nat, n: nat)
    requires Inv(p) && i + 1 < |p.blocks| && !p.blocks[i].used && p.blocks[i].size >= n
    ensures Live(Take(p, i, n).blocks) == Live(p.blocks) + {Piece(p.blocks[i], n)}
    ensures Take(p, i, n).size == p.size
  {
    hide Tiled, NoTwoFree, FreeOffs, FreeBytes, Live;
    var b, end := p.blocks[i], p.size - HDR;
    LiveMember(p.blocks, b);
    if b.size >= n + HDR + MINIALLOC {
      SplitAccounts(p.blocks, HDR, end, i, n);
    } else {
      MarkUsedKeeps(p.blocks, HDR, end, i);
    }
  }

  /** The request takes the block at place `k` of the search order, which is the first that can hold it, and the
      mark of the most ever in use follows. */
  ghost predicate Took(p: Pool, n: nat, k: nat, q: Pool, r: nat)
    requires Inv(p)
  {
    && StopsAt(p, n, k) && r == FreeAt(p, k).off + HDR
    && Live(q.blocks) == Live(p.blocks) + {Piece(FreeAt(p, k), n)}
    && q.maxUsed == Max(p.maxUsed, p.size - FreeBytes(q.blocks))
  }

  /** Less is asked for than is available, and some free block can hold it. */
  ghost predicate CanTake(p: Pool, n: nat) {
    n < FreeBytes(p.blocks) && exists b :: b in p.blocks && !b.used && b.size >= n
  }

  /** rt_memheap_alloc answers if and only if it can, with the first block in search order that can hold the request. */
  lemma AllocExact(p: Pool, size: nat)
    requires Inv(p)
    ensures var (q, r) := Alloc(p, size);
      && Inv(q) && q.size == p.size
      && (r.Some? <==> CanTake(p, Request(size)))
      && (r.None? ==> q == p)
      && (r.Some? ==> exists k :: Took(p, Request(size), k, q, r.value))
  {
    hide Inv, Took, CanTake, StopsAt;
    AllocKeeps(p, size);
    AllocRefuses(p, size);
    if Alloc(p, size).1.Some? {
      var k := AllocStops(p, size);
    }
  }

  lemma AllocStops(p: Pool, size: nat) returns (k: nat)
    requires Inv(p) && Alloc(p, size).1.Some?
    ensures var (q, r) := Alloc(p, size); q.size == p.size && CanTake(p, Request(size)) && Took(p, Request(size), k, q, r.value)
  {
    hide Enumerates, NoTwoFree, Tiled, FreeOffs, FreeBytes, Live, Take, HighWater, Aligned;
    FreeHasOff(p);
    var n := Request(size);
    k := FirstFitStops(p.blocks, p.frees, n);
    var i := IndexOf(p.blocks, p.frees[k]);
    assert p.frees[k] in p.frees && p.blocks[i] in p.blocks;
    TakeLive(p, i, n);
    TakeMark(p, i, n);
  }

  lemma TakeMark(p: Pool, i: nat, n: nat)
    requires Inv(p) && i + 1 < |p.blocks| && !p.blocks[i].used && p.blocks[i].size >= n
    ensures Take(p, i, n).maxUsed == Max(p.maxUsed, p.size - FreeBytes(Take(p, i, n).blocks))
  {
    hide Enumerates, NoTwoFree, Tiled, FreeOffs, FreeBytes;
    FreeBytesFit(p);
    var q := Take(p, i, n);
    if p.blocks[i].size >= n + HDR + MINIALLOC {
      TakeSplitBytes(p, i, n);
    } else {
      MarkUsedKeeps(p.blocks, HDR, p.size - HDR, i);
    }
    Wraps(p.size - FreeBytes(q.blocks));
  }

  lemma AllocRefuses(p: Pool, size: nat)
    requires Inv(p)
    ensures var (q, r) := Alloc(p, size); (r.None? ==> q == p && !CanTake(p, Request(size))) && (r.Some? ==> q.size == p.size && CanTake(p, Request(size)))
  {
    FreeHasOff(p);
    hide Inv;
    if Alloc(p, size).1.Some? {
      var k := AllocStops(p, size);
    } else if Request(size) < FreeBytes(p.blocks) {
      NoneFits(p, Request(size));
    }
  }

  lemma NoneFits(p: Pool, n: nat)
    requires Inv(p) && (forall o :: o in p.frees ==> HasOff(p.blocks, o)) && FirstFit(p.blocks, p.frees, n).None?
    ensures !exists b :: b in p.blocks && !b.used && b.size >= n
  {
    forall b | b in p.blocks && !b.used
      ensures b.size < n
    {
      var i :| 0 <= i < |p.blocks| && p.blocks[i] == b;
      OffsDistinct(p.blocks, HDR, p.size - HDR);
      assert b.off in p.frees;
      assert IndexOf(p.blocks, b.off) == i;
    }
  }

  /** A resize to no bytes takes exactly the block from the client, answers NULL, and makes at least its payload
      available again; without a block it does nothing. */
  lemma ReallocReleases(p: Pool, ptr: nat)
    requires Inv(p) && Held(p, ptr)
    ensures var b, (q, r) := p.blocks[Find(p, ptr)], Realloc(p, Some(ptr), 0);
      && r == None && Inv(q) && q.size == p.size && q.maxUsed == p.maxUsed
      && b.off + HDR == ptr && b in Live(p.blocks) && Live(q.blocks) == Live(p.blocks) - {b}
      && FreeBytes(q.blocks) >= FreeBytes(p.blocks) + b.size
    ensures Realloc(p, None, 0) == (p, None)
  {
    FreeKeeps(p, ptr);
    HeldLive(p, ptr);
    var i := Find(p, ptr);
    FreedBytes(p.blocks, HDR, p.size - HDR, i);
  }

  /** A block of `b.size` bytes that is asked for `n` stays as it is. */
  predicate LeftAlone(b: Block, n: nat) {
    n <= b.size <= n + HDR + MINIALLOC
  }

  /** The block `b` now has `n` bytes, and nothing else has changed hands. */
  ghost predicate Refitted(p: Pool, b: Block, n: nat, q: Pool) {
    Inv(q) && q.size == p.size && Live(q.blocks) == Live(p.blocks) - {b} + {Block(b.off, n, true)}
  }

  /** A smaller size cuts the end off the block, unless what is cut off is no more than a header and a smallest
      payload; the block stays where it is. */
  lemma ReallocShrinks(p: Pool, ptr: nat, newsize: nat)
    requires Inv(p) && Held(p, ptr) && newsize > 0 && Request(newsize) <= p.blocks[Find(p, ptr)].size
    ensures var b, (q, r) := p.blocks[Find(p, ptr)], Realloc(p, Some(ptr), newsize);
      && r == Some(ptr) && b.off + HDR == ptr && q.maxUsed == p.maxUsed
      && if LeftAlone(b, Request(newsize)) then q == p else Refitted(p, b, Request(newsize), q)
  {
    hide Inv, Held;
    var n, i := Request(newsize), Find(p, ptr);
    if n + HDR + MINIALLOC < p.blocks[i].size {
      ShrinkKeeps(p, i, n);
    }
  }

  /** A larger size that finds room behind the block is given to it where it is. */
  lemma ReallocGrows(p: Pool, ptr: nat, newsize: nat)
    requires Inv(p) && Held(p, ptr) && newsize > 0
    requires Request(newsize) > p.blocks[Find(p, ptr)].size && HasRoom(p, Find(p, ptr), Request(newsize))
    ensures var b, (q, r) := p.blocks[Find(p, ptr)], Realloc(p, Some(ptr), newsize);
      && r == Some(ptr) && b.off + HDR == ptr && Refitted(p, b, Request(newsize), q)
      && q.maxUsed == Max(p.maxUsed, p.size - FreeBytes(q.blocks))
  {
    hide Inv, Held, HighWater, FreeBytes;
    var n, i := Request(newsize), Find(p, ptr);
    RoomPair(p, i, n);
    GrowKeeps(p, i, n);
    GrowMark(p, i, n);
  }

  lemma GrowMark(p: Pool, i: nat, n: nat)
    requires Inv(p) && i + 1 < |p.blocks| && Inv(Grow(p, i, n))
    ensures Grow(p, i, n).maxUsed == Max(p.maxUsed, p.size - FreeBytes(Grow(p, i, n).blocks)) && Grow(p, i, n).size == p.size
  {
    FreeBytesFit(Grow(p, i, n));
    hide Tiled, NoTwoFree, Enumerates, FreeBytes, GrownPair;
    Wraps(p.size - FreeBytes(Grow(p, i, n).blocks));
  }

  /** The block `b` gave way to a piece of the block at place `k` of the search order. */
  ghost predicate MovedTo(p: Pool, b: Block, n: nat, k: nat, q: Pool, r: nat)
    requires Inv(p)
  {
    && Inv(q) && StopsAt(p, n, k) && r == FreeAt(p, k).off + HDR && r != b.off + HDR
    && Live(q.blocks) == Live(p.blocks) - {b} + {Piece(FreeAt(p, k), n)}
  }

  /** A larger size without room behind moves the block, if an allocation of that size would be answered, and
      else fails and changes nothing. */
  lemma ReallocMoves(p: Pool, ptr: nat, newsize: nat)
    requires Inv(p) && Held(p, ptr) && newsize > 0 && !Overruns(p, ptr, newsize)
    requires Request(newsize) > p.blocks[Find(p, ptr)].size && !HasRoom(p, Find(p, ptr), Request(newsize))
    ensures var b, (q, r) := p.blocks[Find(p, ptr)], Realloc(p, Some(ptr), newsize);
      && (r.Some? <==> CanTake(p, Request(newsize)))
      && (r.None? ==> q == p)
      && (r.Some? ==> exists k :: MovedTo(p, b, Request(newsize), k, q, r.value))
  {
    hide Inv, Held, CanTake, StopsAt, Took, MovedTo;
    var n := Request(newsize);
    RequestStable(n);
    AllocExact(p, n);
    AllocKeeps(p, n);
    if Alloc(p, n).1.Some? {
      var k :| Took(p, n, k, Alloc(p, n).0, Alloc(p, n).1.value);
      MovedLive(p, ptr, n, k);
    }
  }

  lemma MovedLive(p: Pool, ptr: nat, n: nat, k: nat)
    requires Inv(p) && Held(p, ptr) && n % 4 == 0 && MINIALLOC <= n < WORD
    requires Alloc(p, n).1.Some? && Took(p, n, k, Alloc(p, n).0, Alloc(p, n).1.value)
    ensures var (a, r) := Alloc(p, n); Inv(a) && Held(a, ptr) && MovedTo(p, p.blocks[Find(p, ptr)], n, k, Free(a, ptr), r.value)
  {
    var (a, r) := Alloc(p, n);
    PieceNew(p, ptr, n, k);
    hide Held, Alloc, StopsAt, FreeAt, Piece;
    AllocKeeps(p, n);
    HeldLive(p, ptr);
    hide Inv;
    HeldBlock(p, a, ptr);
    FreeKeeps(a, ptr);
    var b, g := p.blocks[Find(p, ptr)], Piece(FreeAt(p, k), n);
    assert Live(p.blocks) + {g} - {b} == Live(p.blocks) - {b} + {g};
  }

  lemma PieceNew(p: Pool, ptr: nat, n: nat, k: nat)
    requires Inv(p) && Held(p, ptr) && StopsAt(p, n, k)
    ensures Piece(FreeAt(p, k), n) !in Live(p.blocks) && FreeAt(p, k).off + HDR != ptr
  {
    FreeHasOff(p);
    assert p.frees[k] in p.frees;
    var i, j := IndexOf(p.blocks, p.frees[k]), Find(p, ptr);
    OffsDistinct(p.blocks, HDR, p.size - HDR);
    NotLive(p.blocks, p.size - HDR, i, Piece(p.blocks[i], n));
  }

  /** What is released without joining a free block on its left is what the next search looks at first. */
  lemma ReleasedFirst(p: Pool, ptr: nat, size: nat)
    requires Inv(p) && Held(p, ptr) && (Find(p, ptr) > 0 ==> p.blocks[Find(p, ptr) - 1].used)
    requires Request(size) <= p.blocks[Find(p, ptr)].size && Request(size) < FreeBytes(Free(p, ptr).blocks)
    ensures Inv(Free(p, ptr)) && Alloc(Free(p, ptr), size).1 == Some(ptr)
  {
    hide Free, Inv, Held, Alloc;
    FreeKeeps(p, ptr);
    FreedHead(p, ptr);
    HeadTaken(Free(p, ptr), size);
  }

  /** After an allocation that leaves a rest of its block, the next request that the rest can hold is served from it. */
  lemma RestFirst(p: Pool, size: nat, b: Block, next: nat)
    requires Inv(p) && Alloc(p, size).1 == Some(b.off + HDR) && b in p.blocks && b.size >= Request(size) + HDR + Request(next)
    requires Request(next) < FreeBytes(Alloc(p, size).0.blocks)
    ensures Inv(Alloc(p, size).0) && Alloc(Alloc(p, size).0, next).1 == Some(b.off + HDR + Request(size) + HDR)
  {
    hide Alloc, Inv, FreeBytes, Take;
    AllocKeeps(p, size);
    RestHead(p, size, b);
    HeadTaken(Alloc(p, size).0, next);
  }

  lemma RestHead(p: Pool, size: nat, b: Block)
    requires Inv(p) && Alloc(p, size).1 == Some(b.off + HDR) && b in p.blocks && b.size >= Request(size) + HDR + MINIALLOC
    requires Inv(Alloc(p, size).0)
    ensures var q, o := Alloc(p, size).0, b.off + HDR + Request(size);
      q.frees != [] && q.frees[0] == o && HasOff(q.blocks, o) && q.blocks[IndexOf(q.blocks, o)].size == b.size - Request(size) - HDR
  {
    hide Enumerates, NoTwoFree, FreeOffs, FreeBytes, HighWater, Aligned, Request;
    FreeHasOff(p);
    OffsDistinct(p.blocks, HDR, p.size - HDR);
    var n, q := Request(size), Alloc(p, size).0;
    var i := IndexOf(p.blocks, b.off);
    assert p.blocks[i] == b;
    assert q.blocks[i+1] == Block(b.off + HDR + n, b.size - n - HDR, false);
    OffsDistinct(q.blocks, HDR, q.size - HDR);
  }

  lemma HeadTaken(p: Pool, size: nat)
    requires Inv(p) && p.frees != [] && HasOff(p.blocks, p.frees[0]) && p.blocks[IndexOf(p.blocks, p.frees[0])].size >= Request(size)
    requires Request(size) < FreeBytes(p.blocks)
    ensures Alloc(p, size).1 == Some(p.frees[0] + HDR)
  {
    hide Inv, Take, Request;
    FreeHasOff(p);
  }

  lemma FreedHead(p: Pool, ptr: nat)
    requires Inv(p) && Held(p, ptr) && (Find(p, ptr) > 0 ==> p.blocks[Find(p, ptr) - 1].used) && Inv(Free(p, ptr))
    ensures var q := Free(p, ptr);
      q.frees != [] && q.frees[0] == ptr - HDR && HasOff(q.blocks, ptr - HDR) && q.blocks[IndexOf(q.blocks, ptr - HDR)].size >= p.blocks[Find(p, ptr)].size
  {
    hide Freed;
    var i, q := Find(p, ptr), Free(p, ptr);
    FreedLocal(p.blocks, HDR, p.size - HDR, i);
    FreedSpan(p, i);
    OffsDistinct(q.blocks, HDR, q.size - HDR);
    assert q.blocks[i].off == ptr - HDR;
  }

  lemma FreedSpan(p: Pool, i: nat)
    requires Inv(p) && i + 1 < |p.blocks| && FreedLo(p.blocks, i) == i && FreedHi(p.blocks, i) < |p.blocks|
    ensures p.blocks[i].off + HDR + p.blocks[i].size <= p.blocks[FreedHi(p.blocks, i)].off
  {
    Ordered(p.blocks, HDR, i, FreedHi(p.blocks, i));
  }

  // ---- no block is too small ----

  lemma TakeAtLeast(p: Pool, i: nat, n: nat)
    requires Inv(p) && i + 1 < |p.blocks| && !p.blocks[i].used && p.blocks[i].size >= n >= MINIALLOC && AtLeast(p.blocks, MINIALLOC)
    ensures AtLeast(Take(p, i, n).blocks, MINIALLOC)
  {
    hide AtLeast, Inv;
    var b := p.blocks[i];
    if b.size >= n + HDR + MINIALLOC {
      AtLeastSplice(p.blocks, i, i + 1, [Block(b.off, n, true), Block(b.off + HDR + n, b.size - n - HDR, false)], MINIALLOC);
    } else {
      AtLeastSplice(p.blocks, i, i + 1, [b.(used := true)], MINIALLOC);
      assert Splice(p.blocks, i, i + 1, [b.(used := true)]) == p.blocks[i := b.(used := true)];
    }
  }

  lemma AllocAtLeast(p: Pool, size: nat)
    requires Inv(p) && AtLeast(p.blocks, MINIALLOC)
    ensures AtLeast(Alloc(p, size).0.blocks, MINIALLOC)
  {
    FreeHasOff(p);
    hide AtLeast, Take;
    if Alloc(p, size).1.Some? {
      TakeAtLeast(p, IndexOf(p.blocks, Alloc(p, size).1.value - HDR), Request(size));
    }
  }

  lemma FreeAtLeast(p: Pool, ptr: nat)
    requires Inv(p) && Held(p, ptr) && AtLeast(p.blocks, MINIALLOC)
    ensures AtLeast(Free(p, ptr).blocks, MINIALLOC)
  {
    hide AtLeast, Freed;
    FreedAtLeast(p.blocks, HDR, p.size - HDR, Find(p, ptr), MINIALLOC);
  }

  lemma GrowAtLeast(p: Pool, i: nat, n: nat)
    requires Inv(p) && HasRoom(p, i, n) && p.blocks[i].used && n >= MINIALLOC && AtLeast(p.blocks, MINIALLOC)
    ensures AtLeast(Grow(p, i, n).blocks, MINIALLOC)
  {
    RoomPair(p, i, n);
    ResizeFacts(p, i);
    ResizeFacts(p, i + 1);
    hide AtLeast, Inv, Splice;
    AtLeastSplice(p.blocks, i, i + 2, GrownPair(p, i, n), MINIALLOC);
  }

  lemma ShrinkAtLeast(p: Pool, i: nat, n: nat)
    requires Inv(p) && i + 1 < |p.blocks| && p.blocks[i].used && p.blocks[i].size > n + HDR + MINIALLOC && n >= MINIALLOC
    requires AtLeast(p.blocks, MINIALLOC)
    ensures AtLeast(Shrink(p, i, n).blocks, MINIALLOC)
  {
    hide AtLeast, Freed, Tiled, NoTwoFree;
    var b := p.blocks[i];
    AtLeastSplice(p.blocks, i, i + 1, [Block(b.off, n, true), Block(b.off + HDR + n, b.size - n - HDR, true)], MINIALLOC);
    CutKeeps(p.blocks, HDR, p.size - HDR, i, n);
    FreedAtLeast(Cut(p.blocks, HDR, i, n), HDR, p.size - HDR, i + 1, MINIALLOC);
  }

  lemma ReallocAtLeast(p: Pool, ptr: nat, newsize: nat)
    requires Inv(p) && Held(p, ptr) && AtLeast(p.blocks, MINIALLOC) && !Overruns(p, ptr, newsize)
    ensures AtLeast(Realloc(p, Some(ptr), newsize).0.blocks, MINIALLOC)
  {
    hide AtLeast, Inv, Held;
    var n, i := Request(newsize), Find(p, ptr);
    if newsize == 0 {
      FreeAtLeast(p, ptr);
    } else if n > p.blocks[i].size {
      if CanGrow(p, i, n) {
        GrowAtLeast(p, i, n);
      } else {
        AllocKeeps(p, n);
        AllocAtLeast(p, n);
        if Alloc(p, n).1.Some? {
          FreeAtLeast(Alloc(p, n).0, ptr);
        }
      }
    } else if n + HDR + MINIALLOC < p.blocks[i].size {
      ShrinkAtLeast(p, i, n);
    }
  }

  // ---- every run ----

  datatype Op = OpAlloc(size: nat) | OpRealloc(former: Option<nat>, newsize: nat) | OpFree(ptr: nat)

  /** One client call; calls with pointers the client does not hold are not made. */
  ghost function Step(p: Pool, op: Op): Pool {
    if !Inv(p) then p else
    match op
    case OpAlloc(size) => Alloc(p, size).0
    case OpRealloc(ptr, newsize) => if ptr.None? || Held(p, ptr.value) then Realloc(p, ptr, newsize).0 else p
    case OpFree(ptr) => if Held(p, ptr) then Free(p, ptr) else p
  }

  /** Sizes are words. */
  predicate Typed(op: Op) {
    op.OpRealloc? ==> op.newsize < WORD
  }

  /** The call resizes a held block with a free block behind it to a size within twelve bytes of 2^32. */
  ghost predicate Breaks(p: Pool, op: Op)
    requires Inv(p)
  {
    && op.OpRealloc? && op.former.Some? && Held(p, op.former.value)
    && 0xFFFF_FFF0 < op.newsize <= 0xFFFF_FFFC && !p.blocks[Find(p, op.former.value) + 1].used
  }

  lemma RoomyMore(p: Pool, q: Pool, gone: set<Block>, g: Block)
    requires Roomy(p) && Live(q.blocks) == Live(p.blocks) - gone + {g} && q.size == p.size && g.size >= MINIALLOC
    ensures Roomy(q)
  {
  }

  lemma StepInv(p: Pool, op: Op)
    requires Inv(p) && Roomy(p) && Typed(op)
    ensures Inv(Step(p, op)) <==> !Breaks(p, op)
    ensures Inv(Step(p, op)) ==> Roomy(Step(p, op))
  {
    hide Inv, Held, Roomy, Live, Alloc, Free, Resized;
    match op
    case OpAlloc(size) => AllocRoomy(p, size);
    case OpRealloc(former, newsize) =>
      if former.None? {
        AllocRoomy(p, Request(newsize));
      } else if Held(p, former.value) {
        OverrunsExactly(p, former.value, newsize);
        ReallocKeepsUnless(p, former.value, newsize);
        if newsize == 0 {
          FreeRoomy(p, former.value);
        } else if !Overruns(p, former.value, newsize) {
          ReallocRoomy(p, former.value, newsize);
        }
      }
    case OpFree(ptr) => if Held(p, ptr) { FreeRoomy(p, ptr); }
  }

  lemma AllocRoomy(p: Pool, size: nat)
    requires Inv(p) && Roomy(p)
    ensures Inv(Alloc(p, size).0) && Roomy(Alloc(p, size).0)
  {
    AllocKeeps(p, size);
    hide Inv, Roomy, Live;
    var q := Alloc(p, size);
    if q.1.Some? {
      var g: Block :| g.size >= Request(size) && Live(q.0.blocks) == Live(p.blocks) + {g};
      RoomyMore(p, q.0, {}, g);
    }
  }

  lemma FreeRoomy(p: Pool, ptr: nat)
    requires Inv(p) && Roomy(p) && Held(p, ptr)
    ensures Inv(Free(p, ptr)) && Roomy(Free(p, ptr))
  {
    FreeKeeps(p, ptr);
  }

  lemma ReallocRoomy(p: Pool, ptr: nat, newsize: nat)
    requires Inv(p) && Roomy(p) && Held(p, ptr) && newsize > 0 && !Overruns(p, ptr, newsize)
    ensures Roomy(Realloc(p, Some(ptr), newsize).0)
  {
    ReallocAnswers(p, ptr, newsize);
    SameSize(p, ptr, newsize);
    hide Inv, Held, Roomy, Live, Realloc;
    var (q, r) := Realloc(p, Some(ptr), newsize);
    if r.Some? {
      var b := p.blocks[Find(p, ptr)];
      var g: Block :| Request(newsize) <= g.size && Live(q.blocks) == Live(p.blocks) - {b} + {g};
      RoomyMore(p, q, {b}, g);
    }
  }

  lemma SameSize(p: Pool, ptr: nat, newsize: nat)
    requires Inv(p) && Held(p, ptr) && newsize > 0
    ensures Realloc(p, Some(ptr), newsize).0.size == p.size
  {
    hide Inv, Held;
    AllocKeeps(p, Request(newsize));
    RequestStable(Request(newsize));
  }

  /** The pool after a sequence of calls; nothing is said of a pool that a call has destroyed. */
  ghost function Run(p: Pool, ops: seq<Op>): Pool
    decreases |ops|
  {
    if ops == [] then p else Run(Step(p, ops[0]), ops[1..])
  }

  /** No call of the sequence overruns. */
  ghost predicate Clean(p: Pool, ops: seq<Op>)
    decreases |ops|
  {
    ops == [] || (Inv(p) && !Breaks(p, ops[0]) && Clean(Step(p, ops[0]), ops[1..]))
  }

  /** After a sequence of calls the blocks tile the pool, no two free blocks touch and the free list
      names each free block once, if and only if no call overran. */
  lemma {:induction false} RunInv(p: Pool, ops: seq<Op>)
    requires Inv(p) && Roomy(p) && forall op :: op in ops ==> Typed(op)
    ensures Inv(Run(p, ops)) <==> Clean(p, ops)
    decreases |ops|
  {
    hide Inv, Roomy, Typed, Breaks, Step;
    if ops != [] {
      assert ops[0] in ops;
      StepInv(p, ops[0]);
      if Breaks(p, ops[0]) {
        StaysBroken(Step(p, ops[0]), ops[1..]);
      } else {
        RunInv(Step(p, ops[0]), ops[1..]);
      }
    }
  }

  lemma {:induction false} StaysBroken(p: Pool, ops: seq<Op>)
    requires !Inv(p)
    ensures Run(p, ops) == p
    decreases |ops|
  {
    if ops != [] {
      StaysBroken(p, ops[1..]);
    }
  }

  /** Sizes that stay twelve bytes away from 2^32 overrun nothing. */
  lemma {:induction false} ModestRunInv(p: Pool, ops: seq<Op>)
    requires Inv(p) && Roomy(p) && forall op :: op in ops ==> op.OpRealloc? ==> op.newsize <= 0xFFFF_FFF0
    ensures Inv(Run(p, ops))
    decreases |ops|
  {
    hide Inv, Roomy;
    if ops != [] {
      assert ops[0] in ops;
      StepInv(p, ops[0]);
      ModestRunInv(Step(p, ops[0]), ops[1..]);
    }
  }

  /** In a pool that starts with room for a smallest payload, no run of calls that do not overrun ever makes a
      block with a smaller one. */
  lemma {:induction false} RunAtLeast(p: Pool, ops: seq<Op>)
    requires Inv(p) && Roomy(p) && (forall op :: op in ops ==> Typed(op)) && Clean(p, ops) && AtLeast(p.blocks, MINIALLOC)
    ensures AtLeast(Run(p, ops).blocks, MINIALLOC)
    decreases |ops|
  {
    hide Inv, Roomy, Typed, Breaks, Step, AtLeast;
    if ops != [] {
      assert ops[0] in ops;
      StepInv(p, ops[0]);
      StepAtLeast(p, ops[0]);
      RunAtLeast(Step(p, ops[0]), ops[1..]);
    }
  }

  lemma StepAtLeast(p: Pool, op: Op)
    requires Inv(p) && Roomy(p) && Typed(op) && !Breaks(p, op) && AtLeast(p.blocks, MINIALLOC)
    ensures AtLeast(Step(p, op).blocks, MINIALLOC)
  {
    hide Inv, Held, Roomy, AtLeast, Alloc, Free, Resized;
    match op
    case OpAlloc(size) => AllocAtLeast(p, size);
    case OpRealloc(former, newsize) =>
      if former.None? {
        AllocAtLeast(p, Request(newsize));
      } else if Held(p, former.value) {
        OverrunsExactly(p, former.value, newsize);
        ReallocAtLeast(p, former.value, newsize);
      }
    case OpFree(ptr) => if Held(p, ptr) { FreeAtLeast(p, ptr); }
  }

  /** Releasing what rt_memheap_alloc just returned gives back the block list it started from. */
  lemma FreeUndoesAlloc(p: Pool, size: nat)
    requires Inv(p) && Alloc(p, size).1.Some?
    ensures var (q, r) := Alloc(p, size); Inv(q) && Held(q, r.value) && Free(q, r.value).blocks == p.blocks
  {
    AllocKeeps(p, size);
    FreeHasOff(p);
    var n, ptr := Request(size), Alloc(p, size).1.value;
    var i := IndexOf(p.blocks, ptr - HDR);
    hide Inv, Held, Free, Take;
    FreeUndoesTake(p, i, n, ptr);
  }

  lemma FreeUndoesTake(p: Pool, i: nat, n: nat, ptr: nat)
    requires Inv(p) && i + 1 < |p.blocks| && !p.blocks[i].used && p.blocks[i].size >= n && n % 4 == 0 && n > 0
    requires p.blocks[i].off + HDR == ptr
    ensures var q := Take(p, i, n); Inv(q) && Held(q, ptr) && Free(q, ptr).blocks == p.blocks
  {
    hide Enumerates, NoTwoFree, Contiguous, FreeOffs, FreeBytes, Freed, FreesAfter;
    var q := Take(p, i, n);
    TakeKeeps(p, i, n);
    FindAt(q, i, ptr);
    if p.blocks[i].size >= n + HDR + MINIALLOC {
      FreedUndoesSplit(p.blocks, HDR, p.size - HDR, i, n);
    } else {
      FreedUndoesMark(p.blocks, HDR, p.size - HDR, i);
    }
  }

  lemma FindAt(p: Pool, i: nat, ptr: nat)
    requires Inv(p) && i + 1 < |p.blocks| && p.blocks[i].used && p.blocks[i].off + HDR == ptr
    ensures Held(p, ptr) && Find(p, ptr) == i
  {
    OffsDistinct(p.blocks, HDR, p.size - HDR);
    Ordered(p.blocks, HDR, i, |p.blocks| - 1);
    assert p.blocks[i] in p.blocks;
  }

  /** What rt_memheap_free relies on when it looks at the neighbours of block `i`. */
  lemma FreeFacts(p: Pool, i: nat)
    requires Inv(p) && i + 1 < |p.blocks| && p.blocks[i].used
    ensures var d, lo := JoinedLeft(p.blocks, HDR, i), FreedLo(p.blocks, i);
      && lo + 1 < |d| && d[lo+1] == p.blocks[i+1] && d[lo].off == p.blocks[lo].off
      && JoinedRight(d, HDR, lo) == Freed(p.blocks, HDR, i)
    ensures p.blocks[|p.blocks|-1].used && p.blocks[FreedLo(p.blocks, i)].off <= p.blocks[i].off < p.size && p.blocks[i].off !in p.frees
    ensures p.blocks[i+1].off == p.blocks[i].off + HDR + p.blocks[i].size <= p.size
    ensures Distinct(p.frees) && (!p.blocks[i+1].used ==> p.blocks[i+1].off in p.frees && p.blocks[i+1].off < p.size)
    ensures p.blocks[i].off !in Without(p.frees, p.blocks[i+1].off)
    ensures forall k :: 0 <= k < |p.blocks| && k != i ==> p.blocks[k].off != p.blocks[i].off
    ensures FreeBytes(Freed(p.blocks, HDR, i))
         == FreeBytes(p.blocks) + p.blocks[i].size + (if FreedLo(p.blocks, i) < i then HDR else 0) + (if p.blocks[i+1].used then 0 else HDR)
  {
    var end := p.size - HDR;
    FreedBySteps(p.blocks, HDR, end, i);
    FreedBytes(p.blocks, HDR, end, i);
    OffsDistinct(p.blocks, HDR, end);
    FreeOffsOther(p.blocks, HDR, end, i);
    FreeOffsOther(p.blocks, HDR, end, i + 1);
    WithoutMembers(p.frees, p.blocks[i+1].off);
    assert Joined(p.blocks[i], p.blocks[i+1], HDR);
  }

  /** A state with the blocks, the free list and the statistics of a grown block. */
  lemma GrowIs(p: Pool, i: nat, n: nat, q: Pool)
    requires i + 1 < |p.blocks| && q.size == p.size
    requires q.blocks == Splice(p.blocks, i, i + 2, GrownPair(p, i, n))
    requires q.frees == [GrownPair(p, i, n)[1].off] + Without(p.frees, p.blocks[i+1].off)
    requires q.maxUsed == HighWater(p.size, FreeBytes(q.blocks), p.maxUsed)
    ensures q == Grow(p, i, n)
  {
    hide Splice, FreeBytes, Without, GrownPair;
  }

  /** What rt_memheap_realloc relies on when it grows block `i`; that holds also of a block that overruns. */
  lemma GrowFacts(p: Pool, i: nat, n: nat)
    requires Inv(p) && CanGrow(p, i, n) && p.blocks[i].used && p.blocks[i].size <= n < WORD
    ensures var b, c, o := p.blocks[i], p.blocks[i+1], GrownPair(p, i, n)[1].off;
      && b.off + HDR + b.size == c.off && c.off in p.frees && c.off < p.size < WORD && o < p.size && Distinct(p.frees)
      && o !in Without(p.frees, c.off)
      && (forall k :: 0 <= k < |p.blocks| && k != i + 1 ==> p.blocks[k].off != o)
  {
    var c, o := p.blocks[i+1], GrownPair(p, i, n)[1].off;
    ResizeFacts(p, i);
    FreeOffsOther(p.blocks, HDR, p.size - HDR, i + 1);
    WithoutMembers(p.frees, c.off);
    if HasRoom(p, i, n) {
      RoomPair(p, i, n);
      ResizeFacts(p, i + 1);
      if o > c.off {
        NewOffset(p, i + 1, o);
      } else {
        PlaceApart(p, i + 1, o);
      }
    } else {
      OverrunPair(p, i, n);
      NewOffset(p, i, o);
    }
    forall k | 0 <= k < |p.blocks| && k != i + 1
      ensures p.blocks[k].off != o
    {
      assert p.blocks[k] in p.blocks;
    }
  }

  lemma PlaceApart(p: Pool, i: nat, o: nat)
    requires Inv(p) && i < |p.blocks| && p.blocks[i].off == o
    ensures forall k :: 0 <= k < |p.blocks| && k != i ==> p.blocks[k].off != o
  {
    OffsDistinct(p.blocks, HDR, p.size - HDR);
  }

  // ---- growing without room ----

  /** Without room the header of the free block is written into that of the block itself. */
  lemma OverrunPair(p: Pool, i: nat, n: nat)
    requires Inv(p) && CanGrow(p, i, n) && !HasRoom(p, i, n) && n < WORD
    ensures var b, c := p.blocks[i], p.blocks[i+1];
      && n + MINIALLOC >= WORD
      && b.off < GrownPair(p, i, n)[1].off < b.off + HDR <= c.off
      && GrownPair(p, i, n)[1].size == b.size + c.size + WORD - n
  {
    hide Wrap, Tiled;
    var b, c := p.blocks[i], p.blocks[i+1];
    ResizeFacts(p, i);
    ResizeFacts(p, i + 1);
    Wraps(b.off + HDR + n);
    Wraps(b.size + c.size - n);
    Wraps(b.size + c.size);
    Wraps(n + MINIALLOC);
  }

  lemma OverrunBreaks(p: Pool, i: nat, n: nat)
    requires Inv(p) && CanGrow(p, i, n) && !HasRoom(p, i, n) && n < WORD
    ensures !Inv(Grow(p, i, n))
  {
    OverrunPair(p, i, n);
    var bs, mid := Grow(p, i, n).blocks, GrownPair(p, i, n);
    assert bs[i] == mid[0] && bs[i+1] == mid[1];
    assert !Joined(bs[i], bs[i+1], HDR);
  }

  /** Every block in a client's hands has room for the smallest request. */
  ghost predicate Roomy(p: Pool) {
    forall b :: b in Live(p.blocks) && b.off + HDR < p.size ==> b.size >= MINIALLOC
  }

  /** A call overruns if and only if the block behind is free and the size, rounded up, comes within
      twelve bytes of 2^32. */
  lemma OverrunsExactly(p: Pool, ptr: nat, newsize: nat)
    requires Inv(p) && Roomy(p) && Held(p, ptr) && newsize < WORD
    ensures Overruns(p, ptr, newsize) <==> 0xFFFF_FFF0 < newsize <= 0xFFFF_FFFC && !p.blocks[Find(p, ptr) + 1].used
  {
    var i, n := Find(p, ptr), Request(newsize);
    ResizeFacts(p, i);
    assert p.blocks[i] in Live(p.blocks) && p.blocks[i].size >= MINIALLOC;
    hide Roomy, Live, Held;
    NearTheTop(newsize);
    if !p.blocks[i+1].used {
      ResizeFacts(p, i + 1);
      hide Inv, Request;
      TestsAgree(p.blocks[i].size + p.blocks[i+1].size, n);
    }
  }

  lemma NearTheTop(newsize: nat)
    requires newsize < WORD
    ensures Request(newsize) + MINIALLOC >= WORD <==> 0xFFFF_FFF0 < newsize <= 0xFFFF_FFFC
    ensures newsize == 0 ==> Request(newsize) == MINIALLOC
  {
  }

  /** The two comparisons of the room `sum` with the size `n` differ exactly when `n + MINIALLOC` wraps around. */
  lemma TestsAgree(sum: nat, n: nat)
    requires MINIALLOC <= sum < WORD && n < WORD
    ensures Wrap(sum) > Wrap(n + MINIALLOC) && !(sum > n + MINIALLOC) <==> n + MINIALLOC >= WORD
  {
    hide Wrap;
    Wraps(sum);
    Wraps(n + MINIALLOC);
  }

  /** rt_memheap_realloc leaves a sound pool if and only if it does not overrun; when it does, it
      reports success. */
  lemma ReallocKeepsUnless(p: Pool, ptr: nat, newsize: nat)
    requires Inv(p) && Held(p, ptr) && newsize < WORD
    ensures Inv(Realloc(p, Some(ptr), newsize).0) <==> !Overruns(p, ptr, newsize)
    ensures Overruns(p, ptr, newsize) ==> Realloc(p, Some(ptr), newsize).1 == Some(ptr)
  {
    hide Inv, Held;
    if newsize == 0 {
      FreeKeeps(p, ptr);
    } else if Overruns(p, ptr, newsize) {
      OverrunBreaks(p, Find(p, ptr), Request(newsize));
    } else {
      ReallocAnswers(p, ptr, newsize);
    }
  }

  /** A pool with one block in use and a free one behind it. */
  function OneTaken(): Pool {
    Pool(1024, [Block(0, 100, true), Block(124, 852, false), Block(1000, 0, true)], [124], 172)
  }

  lemma OneTakenReached()
    ensures Inv(Init(1024)) && Alloc(Init(1024), 100) == (OneTaken(), Some(24))
  {
    InitInv(1024);
    var p := Init(1024);
    assert FirstFit(p.blocks, p.frees, 100) == Some(0) && IndexOf(p.blocks, 0) == 0;
    assert p.frees[1..] == [];
    assert Without(p.frees, 0) == [];
    assert Split(p.blocks, HDR, 0, 100) == OneTaken().blocks;
    var bs := OneTaken().blocks;
    assert bs[1..] == [bs[1], bs[2]] && bs[1..][1..] == [bs[2]];
    assert FreeBytes([bs[2]]) == 0 && FreeBytes(bs[1..]) == 852 && FreeBytes(bs) == 852;
    assert Request(100) == 100;
    assert [124] + Without(p.frees, 0) == [124];
    assert Take(p, 0, 100) == OneTaken();
  }

  /** The header in use and the size it is resized to. */
  lemma OverrunCase()
    requires Inv(OneTaken()) && Held(OneTaken(), 24) && Find(OneTaken(), 24) == 0
    ensures Overruns(OneTaken(), 24, 0xFFFF_FFF1)
  {
    hide Inv, Held, Find;
    assert Request(0xFFFF_FFF1) == 0xFFFF_FFF4;
    Wraps(0xFFFF_FFF4 + MINIALLOC);
    Wraps(852 + 100);
  }

  lemma OneTakenSound()
    ensures Inv(Init(1024)) && Alloc(Init(1024), 100) == (OneTaken(), Some(24)) && Inv(OneTaken())
  {
    OneTakenReached();
    AllocKeeps(Init(1024), 100);
  }

  /** A request that destroys a pool with one block in use. */
  lemma OverrunExample()
    ensures Inv(Init(1024)) && Alloc(Init(1024), 100) == (OneTaken(), Some(24))
    ensures Inv(OneTaken()) && Held(OneTaken(), 24)
    ensures Realloc(OneTaken(), Some(24), 0xFFFF_FFF1).1 == Some(24)
    ensures !Inv(Realloc(OneTaken(), Some(24), 0xFFFF_FFF1).0)
  {
    OneTakenSound();
    hide Inv, Realloc, Alloc, Init, Held, Overruns;
    FindAt(OneTaken(), 0, 24);
    OverrunCase();
    ReallocKeepsUnless(OneTaken(), 24, 0xFFFF_FFF1);
  }

  /** The free bytes after growing, as rt_memheap_realloc keeps count of them. */
  lemma GrowBytes(p: Pool, i: nat, n: nat)
    requires Inv(p) && CanGrow(p, i, n) && p.blocks[i].used && p.blocks[i].size <= n < WORD
    ensures FreeBytes(Splice(p.blocks, i, i + 2, GrownPair(p, i, n))) == Wrap(FreeBytes(p.blocks) - (n - p.blocks[i].size))
  {
    hide FreeBytes, NoTwoFree, FreeOffs, Contiguous, Wrap;
    var b, c, mid := p.blocks[i], p.blocks[i+1], GrownPair(p, i, n);
    ResizeFacts(p, i);
    ResizeFacts(p, i + 1);
    ReplaceTwo(p.blocks, HDR, p.size - HDR, i, mid);
    assert mid == [mid[0], mid[1]];
    TwoBlocks(mid[0], mid[1], c, HDR);
    OneBlock(mid[0], c, HDR);
    OneBlock(mid[1], c, HDR);
    assert FreeBytes(Splice(p.blocks, i, i + 2, mid)) + c.size == FreeBytes(p.blocks) + mid[1].size;
    FreeBytesAtLeast(p.blocks, i + 1);
    UsedFits(p, i);
    if HasRoom(p, i, n) {
      RoomPair(p, i, n);
    } else {
      OverrunPair(p, i, n);
    }
    Wraps(FreeBytes(p.blocks) - (n - b.size));
    hide Inv, Splice;
  }

  /** A used block fits into the pool beside everything that is free. */
  lemma UsedFits(p: Pool, i: nat)
    requires Inv(p) && i + 1 < |p.blocks| && p.blocks[i].used
    ensures FreeBytes(p.blocks) + p.blocks[i].size <= p.size - HDR
  {
    hide FreeBytes, Enumerates, FreeOffs, Contiguous, Freed, FreesAfter;
    FreedBytes(p.blocks, HDR, p.size - HDR, i);
    ReleaseInv(p, p.blocks, i);
    FreeBytesFit(p.(blocks := Freed(p.blocks, HDR, i), frees := FreesAfter(p.blocks, p.frees, i)));
  }

  lemma ShrinkFacts(p: Pool, i: nat, n: nat)
    requires Inv(p) && i + 1 < |p.blocks| && p.blocks[i].used && p.blocks[i].size >= n + HDR
    ensures var b, o, s := p.blocks[i], p.blocks[i].off + HDR + n, Split(p.blocks, HDR, i, n);
      && o < p.size && o !in p.frees && Distinct(p.frees) && i + 2 < |s|
      && (forall k :: 0 <= k < |p.blocks| ==> p.blocks[k].off != o)
      && s[i+1] == Block(o, b.size - n - HDR, false) && s[i+2] == p.blocks[i+1]
      && o !in Without(p.frees, s[i+2].off)
    ensures var s := Split(p.blocks, HDR, i, n);
      !s[i+2].used ==>
        (s[i+2].off in p.frees && s[i+2].off < p.size && s[i+2].size <= FreeBytes(p.blocks)
          && i + 3 < |s| && Joined(s[i+2], s[i+3], HDR))
  {
    var b, o, end := p.blocks[i], p.blocks[i].off + HDR + n, p.size - HDR;
    assert Joined(b, p.blocks[i+1], HDR);
    NewOffset(p, i, o);
    WithoutMembers(p.frees, p.blocks[i+1].off);
    FreeOffsOther(p.blocks, HDR, end, i + 1);
    Ordered(p.blocks, HDR, i, |p.blocks| - 1);
    if !p.blocks[i+1].used {
      assert Joined(p.blocks[i+1], p.blocks[i+2], HDR);
      FreeBytesAtLeast(p.blocks, i + 1);
      Ordered(p.blocks, HDR, i + 1, |p.blocks| - 1);
    }
    forall k | 0 <= k < |p.blocks|
      ensures p.blocks[k].off != o
    {
      assert p.blocks[k] in p.blocks;
    }
  }

  lemma ShrinkResult(p: Pool, i: nat, n: nat)
    requires Inv(p) && i + 1 < |p.blocks| && p.blocks[i].used && p.blocks[i].size >= n + HDR
    ensures var s, q := Split(p.blocks, HDR, i, n), Shrink(p, i, n);
      && i + 2 < |s| && i + 2 < |q.blocks| && JoinedRight(s, HDR, i + 1) == q.blocks
      && q.blocks[i+1].off == s[i+1].off && s[i+1].off + HDR <= q.blocks[i+2].off
      && FreeBytes(q.blocks) + (if s[i+2].used then 0 else s[i+2].size)
         == FreeBytes(p.blocks) + q.blocks[i+2].off - s[i+1].off - HDR
      && q == p.(blocks := q.blocks, frees := [s[i+1].off] + (if s[i+2].used then p.frees else Without(p.frees, s[i+2].off)))
  {
    hide Enumerates, NoTwoFree, Contiguous, FreeOffs, FreeBytes, Freed, JoinedLeft;
    var s, end := Split(p.blocks, HDR, i, n), p.size - HDR;
    var c := Cut(p.blocks, HDR, i, n);
    CutKeeps(p.blocks, HDR, end, i, n);
    CutAccounts(p.blocks, HDR, end, i, n);
    FreedBySteps(c, HDR, end, i + 1);
    FreedBytes(c, HDR, end, i + 1);
    CutThenFreed(p.blocks, i, n);
    JoinedAt(c, HDR, i + 1);
    if !c[i+2].used {
      JoinedAt(c, HDR, i + 2);
    }
  }

  lemma CutThenFreed(bs: seq<Block>, i: nat, n: nat)
    requires i + 1 < |bs| && bs[i].size >= n + HDR
    ensures var c := Cut(bs, HDR, i, n); i + 2 < |c| && JoinedLeft(c, HDR, i + 1) == Split(bs, HDR, i, n)
  {
    var c := Cut(bs, HDR, i, n);
    assert c[i+1 := c[i+1].(used := false)] == Split(bs, HDR, i, n);
  }

  /** The outcome of rt_memheap_realloc where the block has to move. */
  ghost predicate Moved(p: Pool, ptr: nat, n: nat, q: Pool, r: Option<nat>)
    requires Inv(p)
  {
    var a := Alloc(p, n);
    r == a.1 && if r.None? then q == p else Inv(a.0) && Held(a.0, ptr) && q == Free(a.0, ptr)
  }

  lemma MovedBy(p: Pool, ptr: nat, n: nat, q: Pool, r: Option<nat>)
    requires Inv(p) && r == Alloc(p, n).1
    requires if r.None? then q == p else Inv(Alloc(p, n).0) && Held(Alloc(p, n).0, ptr) && q == Free(Alloc(p, n).0, ptr)
    ensures Moved(p, ptr, n, q, r)
  {
  }

  lemma LiveFits(p: Pool)
    requires Inv(p)
    ensures forall b :: b in Live(p.blocks) ==> b.off + HDR + b.size <= p.size
  {
    BlocksApart(p.blocks, HDR, p.size - HDR);
  }

  /** The block rt_memheap_alloc returns overlaps none that was live before. */
  lemma CopyTarget(p: Pool, n: nat, q: Pool, ptr: nat, b: Block)
    requires Inv(p) && Alloc(p, n) == (q, Some(ptr)) && Request(n) == n && b in Live(p.blocks)
    ensures Inv(q) && ptr + n <= q.size
    ensures forall c :: c in Live(p.blocks) ==> c.off + HDR + c.size <= ptr - HDR || (ptr + n <= c.off + HDR && ptr <= c.off)
    ensures HDR <= ptr
  {
    AllocKeeps(p, n);
    var g: Block :| g !in Live(p.blocks) && g.used && g.off + HDR == ptr && n <= g.size && Live(q.blocks) == Live(p.blocks) + {g};
    assert g in Live(q.blocks);
    BlocksApart(q.blocks, HDR, q.size - HDR);
    forall c | c in Live(p.blocks)
      ensures c.off + HDR + c.size <= ptr - HDR || (ptr + n <= c.off + HDR && ptr <= c.off)
    {
      assert c in Live(q.blocks) && c in q.blocks && g in q.blocks && c != g;
      assert Apart(c, g, HDR);
    }
    assert g.off + HDR + g.size <= q.size;
  }

  lemma ResizedByMove(p: Pool, ptr: nat, n: nat, q: Pool, r: Option<nat>)
    requires Inv(p) && Held(p, ptr) && Moved(p, ptr, n, q, r)
    requires n > p.blocks[Find(p, ptr)].size && !CanGrow(p, Find(p, ptr), n)
    ensures Resized(p, ptr, n) == (q, r)
  {
    AllocKeeps(p, n);
  }

  lemma ResizeFacts(p: Pool, i: nat)
    requires Inv(p) && i + 1 < |p.blocks|
    ensures Joined(p.blocks[i], p.blocks[i+1], HDR) && p.blocks[i+1].off + HDR <= p.size < WORD
    ensures !p.blocks[i+1].used ==> i + 2 < |p.blocks| && Joined(p.blocks[i+1], p.blocks[i+2], HDR)
  {
    OffsDistinct(p.blocks, HDR, p.size - HDR);
  }
}
