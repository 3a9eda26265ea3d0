/** What rt_malloc, rt_realloc and rt_free of mem.c do, stated on the list of
    blocks in address order, the lowest-free pointer and the byte counters. */
module SmallMemSpec {
  import opened BlockList
  import opened RtDef

  const HDR: nat := 12            // SIZEOF_STRUCT_MEM
  const MIN_SIZE: nat := 12       // MIN_SIZE, already aligned

  /** `size` is mem_size_aligned, `usedMem` and `maxMem` are used_mem and max_mem. */
  datatype Heap = Heap(size: nat, blocks: seq<Block>, lfree: nat, usedMem: nat, maxMem: nat)
  {
    function End(): nat { size + HDR }
  }

  /** The payload that is searched for; rounding up a size close to 2^32 wraps to zero. */
  function Request(size: nat): (n: nat)
    ensures n % 4 == 0 && MIN_SIZE <= n < WORD
  {
    if Align(size) < MIN_SIZE then MIN_SIZE else Align(size)
  }

  lemma RequestCovers(size: nat)
    requires size < WORD
    ensures Request(size) >= size <==> size <= 0xFFFF_FFFC
    ensures size <= 0xFFFF_FFFC && size >= MIN_SIZE ==> Request(size) < size + 4
    ensures size <= MIN_SIZE ==> Request(size) == MIN_SIZE
  {
  }

  /** What every reachable heap satisfies.  `lfree` is a free block or the end marker. */
  ghost predicate Inv(s: Heap) {
    && MIN_SIZE <= s.size && s.size % 4 == 0 && s.size + 2 * HDR <= WORD
    && Tiled(s.blocks, HDR, s.End())
    && NoTwoFree(s.blocks)
    && Aligned(s.blocks)
    && (s.lfree == s.End() || s.lfree in FreeOffs(s.blocks))
    && s.usedMem == UsedSpan(s.blocks, HDR) <= s.maxMem
  }

  /** The stronger reading of `lfree`: every block below it is used. */
  ghost predicate Lowest(s: Heap) {
    forall o :: o in FreeOffs(s.blocks) ==> s.lfree <= o
  }

  /** rt_system_heap_init on an aligned range that holds `size` bytes beside the two headers. */
  function Init(size: nat): Heap {
    Heap(size, [Block(0, size, false), Block(size + HDR, 0, true)], 0, 0, 0)
  }

  lemma InitInv(size: nat)
    requires MIN_SIZE <= size && size % 4 == 0 && size + 2 * HDR <= WORD
    ensures Inv(Init(size)) && Lowest(Init(size))
    ensures Init(size).size == size && Block(0, size, false) in Init(size).blocks && Init(size).usedMem == Init(size).maxMem == 0
  {
    var s := Init(size);
    OneBlock(s.blocks[0], s.blocks[1], HDR);
    assert s.blocks == [s.blocks[0]] + [s.blocks[1]];
    assert s.blocks[0] in s.blocks;
  }

  // ---- rt_malloc ----

  ghost predicate Fits(b: Block, n: nat, limit: int) {
    !b.used && b.size >= n && b.off < limit
  }

  /** The search loop: from block `k` on, while the header lies below `limit`. */
  function Search(bs: seq<Block>, k: nat, n: nat, limit: int): (r: Option<nat>)
    decreases |bs| - k
  {
    if k >= |bs| || bs[k].off >= limit then None
    else if !bs[k].used && bs[k].size >= n then Some(k)
    else Search(bs, k + 1, n, limit)
  }

  /** The search finds the first block that fits, in address order. */
  lemma {:induction false} SearchFirst(bs: seq<Block>, k: nat, n: nat, limit: int, end: nat)
    requires Tiled(bs, HDR, end)
    ensures Search(bs, k, n, limit).Some? ==>
      var j := Search(bs, k, n, limit).value; k <= j < |bs| && Fits(bs[j], n, limit)
    ensures forall i :: k <= i < (if Search(bs, k, n, limit).Some? then Search(bs, k, n, limit).value else |bs|) ==> !Fits(bs[i], n, limit)
    decreases |bs| - k
  {
    if k < |bs| {
      if bs[k].off >= limit {
        forall i | k <= i < |bs|
          ensures !Fits(bs[i], n, limit)
        {
          if k < i { Ordered(bs, HDR, k, i); }
        }
      } else {
        SearchFirst(bs, k + 1, n, limit, end);
      }
    }
  }

  /** The first free block from `k` on, or the end marker. */
  function NextFree(bs: seq<Block>, k: nat): (o: nat)
    requires k < |bs|
    decreases |bs| - k
  {
    if bs[k].used && k + 1 < |bs| then NextFree(bs, k + 1) else bs[k].off
  }

  /** Handing out the free block `j` to a request of `n` bytes. */
  function Take(s: Heap, j: nat, n: nat): Heap
    requires j < |s.blocks| && s.blocks[j].size >= n
  {
    var b := s.blocks[j];
    var split := b.size >= n + HDR + MIN_SIZE;
    var bs := if split then Split(s.blocks, HDR, j, n) else s.blocks[j := b.(used := true)];
    var u := s.usedMem + HDR + (if split then n else b.size);
    Heap(s.size, bs, if b.off == s.lfree then NextFree(bs, j) else s.lfree, u, if s.maxMem < u then u else s.maxMem)
  }

  lemma LfreeIndex(s: Heap)
    requires Inv(s)
    ensures HasOff(s.blocks, s.lfree)
    ensures var k := IndexOf(s.blocks, s.lfree); s.lfree == s.End() || (!s.blocks[k].used && k + 1 < |s.blocks|)
  {
    OffsDistinct(s.blocks, HDR, s.End());
    if s.lfree == s.End() {
      assert s.blocks[|s.blocks|-1].off == s.lfree;
    } else {
      var b :| b in s.blocks && !b.used && b.off == s.lfree;
      var k :| 0 <= k < |s.blocks| && s.blocks[k] == b;
      assert HasOff(s.blocks, s.lfree);
      assert IndexOf(s.blocks, s.lfree) == k;
    }
  }

  /** The block rt_malloc settles on: the search starts at `lfree`. */
  function Choose(s: Heap, n: nat): (r: Option<nat>)
    requires Inv(s)
  {
    LfreeIndex(s);
    Search(s.blocks, IndexOf(s.blocks, s.lfree), n, s.size - n)
  }

  /** The search passes block `i`. */
  ghost predicate Before(s: Heap, n: nat, i: nat)
    requires Inv(s) && i < |s.blocks|
  {
    s.lfree <= s.blocks[i].off && (Choose(s, n).Some? ==> i < Choose(s, n).value)
  }

  lemma ChooseFits(s: Heap, n: nat)
    requires Inv(s)
    ensures Choose(s, n).Some? ==>
      var j := Choose(s, n).value;
      j + 1 < |s.blocks| && Fits(s.blocks[j], n, s.size - n) && s.lfree <= s.blocks[j].off
    ensures forall i :: 0 <= i < |s.blocks| && Before(s, n, i) ==> !Fits(s.blocks[i], n, s.size - n)
  {
    LfreeIndex(s);
    var k := IndexOf(s.blocks, s.lfree);
    SearchFirst(s.blocks, k, n, s.size - n, s.End());
    OffsDistinct(s.blocks, HDR, s.End());
  }

  function Malloc(s: Heap, bytes: nat): (r: (Heap, Option<nat>))
    requires Inv(s)
  {
    if bytes == 0 || Align(bytes) > s.size then (s, None)
    else
      var n := Request(bytes);
      ChooseFits(s, n);
      match Choose(s, n)
      case None => (s, None)
      case Some(j) => (Take(s, j, n), Some(s.blocks[j].off + HDR))
  }

  // ---- rt_free ----

  /** `ptr` is a payload address the client holds. */
  ghost predicate Held(s: Heap, ptr: nat) {
    exists b :: b in s.blocks && b.used && b.off + HDR == ptr && ptr < s.End()
  }

  function Find(s: Heap, ptr: nat): (i: nat)
    requires Inv(s) && Held(s, ptr)
    ensures i + 1 < |s.blocks| && s.blocks[i].used && s.blocks[i].off + HDR == ptr
    ensures HasOff(s.blocks, ptr - HDR) && i == IndexOf(s.blocks, ptr - HDR)
  {
    OffsDistinct(s.blocks, HDR, s.End());
    assert HasOff(s.blocks, ptr - HDR) by {
      var b :| b in s.blocks && b.used && b.off + HDR == ptr && ptr < s.End();
      var k :| 0 <= k < |s.blocks| && s.blocks[k] == b;
    }
    IndexOf(s.blocks, ptr - HDR)
  }

  /** `lfree` after plug_holes joined the free block `i` of `bs` to its neighbours. */
  function Plugged(bs: seq<Block>, i: nat, lfree: nat): nat
    requires i + 1 < |bs|
  {
    var l := if !bs[i+1].used && lfree == bs[i+1].off then bs[i].off else lfree;
    if l == bs[i].off then bs[FreedLo(bs, i)].off else l
  }

  function Free(s: Heap, ptr: nat): Heap
    requires Inv(s) && Held(s, ptr)
  {
    var i := Find(s, ptr);
    var b := s.blocks[i];
    Heap(s.size, Freed(s.blocks, HDR, i),
         Plugged(s.blocks, i, if b.off < s.lfree then b.off else s.lfree),
         UsedSpan(Freed(s.blocks, HDR, i), HDR), s.maxMem)
  }

  // ---- rt_realloc ----

  /** Block `i` keeps `n` bytes; the rest is released. */
  function Shrink(s: Heap, i: nat, n: nat): Heap
    requires i + 1 < |s.blocks| && s.blocks[i].size >= n + HDR
  {
    var c := Cut(s.blocks, HDR, i, n);
    Heap(s.size, Freed(c, HDR, i + 1), Plugged(c, i + 1, s.lfree), UsedSpan(Freed(c, HDR, i + 1), HDR), s.maxMem)
  }

  /** rt_realloc of a held block to the rounded size `n`. */
  function Resized(s: Heap, ptr: nat, n: nat): (r: (Heap, Option<nat>))
    requires Inv(s) && Held(s, ptr)
  {
    var i := Find(s, ptr);
    if s.blocks[i].size == n then (s, Some(ptr))
    else if n + HDR + MIN_SIZE < s.blocks[i].size then (Shrink(s, i, n), Some(ptr))
    else
      var r := Malloc(s, n);
      if r.1.None? then r
      else
        MallocKeeps(s, n);
        (Free(r.0, ptr), r.1)
  }

  /** A pointer outside of the heap is handed back, as rt_realloc does. */
  function Realloc(s: Heap, ptr: Option<nat>, newsize: nat): (r: (Heap, Option<nat>))
    requires Inv(s) && (ptr.Some? ==> Held(s, ptr.value) || ptr.value >= s.End())
  {
    var n := Align(newsize);
    if n > s.size then (s, None)
    else if n == 0 then (if ptr.None? || ptr.value >= s.End() then s else Free(s, ptr.value), None)
    else if ptr.None? then Malloc(s, n)
    else if ptr.value >= s.End() then (s, ptr)
    else Resized(s, ptr.value, n)
  }

  // ---- the invariant ----

  lemma {:induction false} NextFreeIs(bs: seq<Block>, k: nat, end: nat)
    requires Tiled(bs, HDR, end) && k < |bs|
    ensures NextFree(bs, k) == end || NextFree(bs, k) in FreeOffs(bs)
    ensures forall i :: k <= i < |bs| && !bs[i].used ==> NextFree(bs, k) <= bs[i].off
    decreases |bs| - k
  {
    if bs[k].used && k + 1 < |bs| {
      NextFreeIs(bs, k + 1, end);
    } else {
      if !bs[k].used { assert bs[k] in bs; }
      forall i | k <= i < |bs|
        ensures bs[k].off <= bs[i].off
      {
        if k < i { Ordered(bs, HDR, k, i); }
      }
    }
  }

  /** What a list of blocks keeps when its free block `j` is handed out. */
  ghost predicate HandedOut(s: Heap, j: nat, n: nat, t: Heap)
    requires j < |s.blocks|
  {
    var b := s.blocks[j];
    && Tiled(t.blocks, HDR, s.End()) && NoTwoFree(t.blocks) && j < |t.blocks|
    && Aligned(t.blocks)
    && t.usedMem == UsedSpan(t.blocks, HDR)
    && (FreeOffs(t.blocks) == FreeOffs(s.blocks) - {b.off} || FreeOffs(t.blocks) == FreeOffs(s.blocks) - {b.off} + {b.off + HDR + n})
    && t.blocks[j].off == b.off && t.blocks[j].used && n <= t.blocks[j].size < n + HDR + MIN_SIZE
    && Live(t.blocks) == Live(s.blocks) + {t.blocks[j]}
  }

  lemma SplitOut(s: Heap, j: nat, n: nat)
    requires Inv(s) && j + 1 < |s.blocks| && !s.blocks[j].used && s.blocks[j].size >= n + HDR + MIN_SIZE && n % 4 == 0
    ensures HandedOut(s, j, n, Take(s, j, n))
  {
    hide NoTwoFree, Contiguous, FreeOffs, UsedSpan, Live, NextFree;
    var b, end := s.blocks[j], s.End();
    assert b in s.blocks;
    var mid := [Block(b.off, n, true), Block(b.off + HDR + n, b.size - n - HDR, false)];
    SplitTiled(s.blocks, HDR, end, j, n);
    SplitAccounts(s.blocks, HDR, end, j, n);
    assert mid[1].off % 4 == 0 by { AlignedSum(b.off, HDR, n); }
    AlignedSplice(s.blocks, j, j + 1, mid);
    LiveMember(s.blocks, b);
  }

  lemma WholeOut(s: Heap, j: nat, n: nat)
    requires Inv(s) && j + 1 < |s.blocks| && !s.blocks[j].used && n <= s.blocks[j].size < n + HDR + MIN_SIZE
    ensures HandedOut(s, j, n, Take(s, j, n))
  {
    hide NoTwoFree, Contiguous, FreeOffs, UsedSpan, Live, NextFree;
    assert s.blocks[j] in s.blocks;
    MarkUsedKeeps(s.blocks, HDR, s.End(), j);
  }

  lemma TakeBlocks(s: Heap, j: nat, n: nat)
    requires Inv(s) && j + 1 < |s.blocks| && !s.blocks[j].used && s.blocks[j].size >= n && n % 4 == 0
    ensures HandedOut(s, j, n, Take(s, j, n))
  {
    hide Inv, Take, HandedOut;
    if s.blocks[j].size >= n + HDR + MIN_SIZE {
      SplitOut(s, j, n);
    } else {
      WholeOut(s, j, n);
    }
  }

  lemma TakeInv(s: Heap, j: nat, n: nat)
    requires Inv(s) && j + 1 < |s.blocks| && !s.blocks[j].used && s.blocks[j].size >= n && n % 4 == 0
    ensures Inv(Take(s, j, n))
    ensures Lowest(s) ==> Lowest(Take(s, j, n))
  {
    hide NoTwoFree, Contiguous, FreeOffs;
    var t, b := Take(s, j, n), s.blocks[j];
    TakeBlocks(s, j, n);
    NextFreeIs(t.blocks, j, s.End());
    FreeOffsOther(s.blocks, HDR, s.End(), j);
    if Lowest(s) && b.off == s.lfree {
      forall o | o in FreeOffs(t.blocks)
        ensures t.lfree <= o
      {
        FreeAt(t.blocks, o);
        var k :| 0 <= k < |t.blocks| && t.blocks[k].off == o && !t.blocks[k].used;
        if k < j { Ordered(t.blocks, HDR, k, j); }
      }
    }
  }

  lemma FreeAt(bs: seq<Block>, o: nat)
    requires o in FreeOffs(bs)
    ensures exists k :: 0 <= k < |bs| && bs[k].off == o && !bs[k].used
  {
    var b :| b in bs && !b.used && b.off == o;
    var k :| 0 <= k < |bs| && bs[k] == b;
  }

  /** rt_malloc keeps the heap sound and hands out a block that is large enough and was in nobody's hands. */
  lemma MallocKeeps(s: Heap, bytes: nat)
    requires Inv(s)
    ensures Inv(Malloc(s, bytes).0) && (Lowest(s) ==> Lowest(Malloc(s, bytes).0))
    ensures Malloc(s, bytes).1.None? ==> Malloc(s, bytes).0 == s
    ensures Malloc(s, bytes).1.Some? ==> exists g: Block ::
      && g !in Live(s.blocks) && g.used && g.off + HDR == Malloc(s, bytes).1.value
      && Request(bytes) <= g.size < Request(bytes) + HDR + MIN_SIZE
      && Live(Malloc(s, bytes).0.blocks) == Live(s.blocks) + {g}
    ensures forall ptr: nat :: Held(s, ptr) ==> Held(Malloc(s, bytes).0, ptr)
  {
    hide Inv, Tiled;
    var r := Malloc(s, bytes);
    if r.1.Some? {
      ChooseFits(s, Request(bytes));
      var j := Choose(s, Request(bytes)).value;
      TakeInv(s, j, Request(bytes));
      TakeBlocks(s, j, Request(bytes));
      NotLive(s, j, r.0.blocks[j]);
      HeldKept(s, r.0);
    }
  }

  lemma NotLive(s: Heap, i: nat, g: Block)
    requires Inv(s) && i < |s.blocks| && !s.blocks[i].used && g.off == s.blocks[i].off && g.used
    ensures g !in Live(s.blocks)
  {
    OffsDistinct(s.blocks, HDR, s.End());
  }

  lemma HeldKept(s: Heap, t: Heap)
    requires s.size == t.size && Live(s.blocks) <= Live(t.blocks)
    ensures forall ptr: nat :: Held(s, ptr) ==> Held(t, ptr)
  {
    forall ptr: nat | Held(s, ptr)
      ensures Held(t, ptr)
    {
      var b :| b in s.blocks && b.used && b.off + HDR == ptr && ptr < s.End();
      assert b in Live(s.blocks) && b in Live(t.blocks);
    }
  }

  /** With nothing free below `lfree`, rt_malloc returns the lowest block that fits and
      whose header lies below mem_size_aligned - size, and NULL exactly when there is none. */
  lemma MallocLowest(s: Heap, bytes: nat)
    requires Inv(s) && Lowest(s) && bytes > 0
    ensures var n, r := Request(bytes), Malloc(s, bytes).1;
      && (r.None? <==> Align(bytes) > s.size || forall b :: b in s.blocks ==> !Fits(b, n, s.size - n))
      && (r.Some? ==> forall b :: b in s.blocks && Fits(b, n, s.size - n) ==> r.value <= b.off + HDR)
  {
    hide NoTwoFree, Contiguous, Choose;
    var n := Request(bytes);
    var r := Choose(s, n);
    ChooseFits(s, n);
    forall b | b in s.blocks && Fits(b, n, s.size - n)
      ensures r.Some? && s.blocks[r.value].off <= b.off
    {
      var i :| 0 <= i < |s.blocks| && s.blocks[i] == b;
      assert b.off in FreeOffs(s.blocks);
      if r.Some? && r.value < i { Ordered(s.blocks, HDR, r.value, i); }
    }
    if r.Some? { assert s.blocks[r.value] in s.blocks; }
  }

  // ---- whether the search ends ----

  /** The `next` field of the header at offset `o`; that of the end marker leads to itself. */
  function NextOff(bs: seq<Block>, o: nat): (n: nat)
    requires HasOff(bs, o)
    ensures HasOff(bs, n)
  {
    var i := IndexOf(bs, o);
    if i + 1 < |bs| then bs[i+1].off else o
  }

  /** The header that the search looks at after `k` turns. */
  function Visited(s: Heap, k: nat): (o: nat)
    requires HasOff(s.blocks, s.lfree)
    ensures HasOff(s.blocks, o)
  {
    if k == 0 then s.lfree else NextOff(s.blocks, Visited(s, k - 1))
  }

  /** The request is refused before any search. */
  predicate Refused(s: Heap, bytes: nat) {
    bytes == 0 || Align(bytes) > s.size
  }

  /** The search for `n` bytes takes another turn at the header at `o`: in 32-bit arithmetic it has not come to
      its bound, and the block there is not eligible. */
  predicate GoesOn(s: Heap, n: nat, o: nat)
    requires HasOff(s.blocks, o)
  {
    var b := s.blocks[IndexOf(s.blocks, o)];
    o < Wrap(s.size - n) && !(!b.used && b.size >= n)
  }

  ghost predicate Ends(s: Heap, n: nat)
    requires HasOff(s.blocks, s.lfree)
  {
    exists k: nat :: !GoesOn(s, n, Visited(s, k))
  }

  /** In a heap that holds the smallest block every search ends. */
  lemma SearchEnds(s: Heap, bytes: nat)
    requires Inv(s) && !Refused(s, bytes)
    ensures HasOff(s.blocks, s.lfree) && Ends(s, Request(bytes))
  {
    LfreeIndex(s);
    var n, i := Request(bytes), IndexOf(s.blocks, s.lfree);
    var k: nat := |s.blocks| - 1 - i;
    VisitedAt(s, i, k);
    OffsDistinct(s.blocks, HDR, s.End());
    Wraps(s.size - n);
    assert !GoesOn(s, n, Visited(s, k));
  }

  lemma {:induction false} VisitedAt(s: Heap, i: nat, k: nat)
    requires Inv(s) && HasOff(s.blocks, s.lfree) && i == IndexOf(s.blocks, s.lfree) && i + k < |s.blocks|
    ensures Visited(s, k) == s.blocks[i + k].off
  {
    if k > 0 {
      VisitedAt(s, i, k - 1);
      OffsDistinct(s.blocks, HDR, s.End());
    }
  }

  /** In a smaller heap the bound wraps around, and a request that is not refused is searched for without end. */
  lemma TinyNeverEnds(size: nat, bytes: nat, k: nat)
    requires size % 4 == 0 && size < MIN_SIZE && bytes < WORD && !Refused(Init(size), bytes)
    ensures HasOff(Init(size).blocks, 0) && GoesOn(Init(size), Request(bytes), Visited(Init(size), k))
  {
    var s := Init(size);
    assert s.blocks[0].off == 0;
    TinyVisited(size, k);
    Wraps(size - Request(bytes));
    assert IndexOf(s.blocks, 0) == 0 && IndexOf(s.blocks, size + HDR) == 1 by {
      assert s.blocks[1].off == size + HDR;
    }
  }

  lemma {:induction false} TinyVisited(size: nat, k: nat)
    ensures HasOff(Init(size).blocks, 0) && Visited(Init(size), k) == if k == 0 then 0 else size + HDR
  {
    var bs := Init(size).blocks;
    assert bs[0].off == 0 && bs[1].off == size + HDR;
    if k > 0 {
      TinyVisited(size, k - 1);
    }
  }

  /** The first rt_malloc on a heap that rt_system_heap_init has set up comes to an end if and only if it is
      refused before the search, or the heap holds the smallest block. */
  lemma FirstSearchEnds(size: nat, bytes: nat)
    requires size % 4 == 0 && size + 2 * HDR <= WORD && bytes < WORD
    ensures HasOff(Init(size).blocks, 0)
    ensures Refused(Init(size), bytes) || Ends(Init(size), Request(bytes)) <==> Refused(Init(size), bytes) || size >= MIN_SIZE
  {
    var s := Init(size);
    assert s.blocks[0].off == 0;
    if !Refused(s, bytes) {
      if size >= MIN_SIZE {
        InitInv(size);
        SearchEnds(s, bytes);
      } else if Ends(s, Request(bytes)) {
        var k: nat :| !GoesOn(s, Request(bytes), Visited(s, k));
        TinyNeverEnds(size, bytes, k);
      }
    }
  }

  /** A free block of the size asked for that the search passes over. */
  lemma LastExactExample()
    ensures Inv(Init(120)) && Init(120).blocks[0] == Block(0, 120, false) && Request(120) == 120
    ensures Malloc(Init(120), 120).1 == None
  {
    InitInv(120);
    FitsUnlessLastExact(Init(120), 0, 120);
    ChooseFits(Init(120), 120);
  }

  /** A free block that is large enough and still not eligible is the last one, filled exactly. */
  lemma FitsUnlessLastExact(s: Heap, i: nat, bytes: nat)
    requires Inv(s) && i < |s.blocks| && !s.blocks[i].used && s.blocks[i].size >= Request(bytes)
    ensures var n := Request(bytes);
      Fits(s.blocks[i], n, s.size - n) <==> !(s.blocks[i].size == n && i + 2 == |s.blocks|)
  {
    JoinedAt(s.blocks, HDR, i);
    if i + 2 < |s.blocks| {
      Ordered(s.blocks, HDR, i + 1, |s.blocks| - 1);
    }
  }

  // ---- releasing ----

  lemma PluggedInv(bs: seq<Block>, i: nat, l: nat, end: nat)
    requires Tiled(bs, HDR, end) && NoTwoFree(bs) && i + 1 < |bs| && bs[i].used
    requires l == end || l in FreeOffs(bs) || l == bs[i].off
    ensures Plugged(bs, i, l) == end || Plugged(bs, i, l) in FreeOffs(Freed(bs, HDR, i))
    ensures l <= bs[i].off && (forall o :: o in FreeOffs(bs) ==> l <= o) ==>
      forall o :: o in FreeOffs(Freed(bs, HDR, i)) ==> Plugged(bs, i, l) <= o
  {
    hide NoTwoFree, Contiguous, FreeOffs, Freed;
    FreedFreeOffs(bs, HDR, end, i);
    OffsDistinct(bs, HDR, end);
    FreeOffsOther(bs, HDR, end, FreedLo(bs, i));
  }

  lemma ReleaseInv(s: Heap, bs: seq<Block>, i: nat, l: nat)
    requires Inv(s) && Tiled(bs, HDR, s.End()) && NoTwoFree(bs) && i + 1 < |bs| && bs[i].used
    requires Aligned(bs) && UsedSpan(bs, HDR) == s.usedMem
    requires l == s.End() || l in FreeOffs(bs) || l == bs[i].off
    ensures Inv(Heap(s.size, Freed(bs, HDR, i), Plugged(bs, i, l), UsedSpan(Freed(bs, HDR, i), HDR), s.maxMem))
  {
    hide NoTwoFree, Contiguous, FreeOffs, Freed, UsedSpan;
    FreedKeeps(bs, HDR, s.End(), i);
    FreedAligned(bs, HDR, s.End(), i);
    PluggedInv(bs, i, l, s.End());
  }

  /** rt_free keeps the heap sound, takes exactly the released block from the client,
      and leaves nothing free below `lfree` if nothing was. */
  lemma FreeKeeps(s: Heap, ptr: nat)
    requires Inv(s) && Held(s, ptr)
    ensures Inv(Free(s, ptr)) && (Lowest(s) ==> Lowest(Free(s, ptr)))
    ensures Live(Free(s, ptr).blocks) == Live(s.blocks) - {s.blocks[Find(s, ptr)]}
    ensures Free(s, ptr).usedMem + HDR + s.blocks[Find(s, ptr)].size == s.usedMem
  {
    hide NoTwoFree, Contiguous, FreeOffs, Freed, UsedSpan, Plugged;
    var i := Find(s, ptr);
    var b := s.blocks[i];
    var l := if b.off < s.lfree then b.off else s.lfree;
    ReleaseInv(s, s.blocks, i, l);
    FreedKeeps(s.blocks, HDR, s.End(), i);
    PluggedInv(s.blocks, i, l, s.End());
  }

  lemma CutFacts(s: Heap, i: nat, n: nat)
    requires Inv(s) && i + 1 < |s.blocks| && s.blocks[i].used && s.blocks[i].size >= n + HDR && n % 4 == 0
    ensures var c := Cut(s.blocks, HDR, i, n);
      && Tiled(c, HDR, s.End()) && NoTwoFree(c) && Aligned(c)
      && UsedSpan(c, HDR) == s.usedMem && FreeOffs(c) == FreeOffs(s.blocks)
      && i + 2 < |c| && c[i] == Block(s.blocks[i].off, n, true) && c[i+2] == s.blocks[i+1]
      && c[i+1] == Block(s.blocks[i].off + HDR + n, s.blocks[i].size - n - HDR, true)
      && Live(c) == Live(s.blocks) - {s.blocks[i]} + {c[i], c[i+1]} && c[i+1] !in Live(s.blocks) && c[i] != c[i+1]
  {
    hide NoTwoFree, Contiguous, FreeOffs, UsedSpan;
    var b := s.blocks[i];
    CutKeeps(s.blocks, HDR, s.End(), i, n);
    CutAccounts(s.blocks, HDR, s.End(), i, n);
    assert b in s.blocks;
    assert (b.off + HDR + n) % 4 == 0 by { AlignedSum(b.off, HDR, n); }
    AlignedSplice(s.blocks, i, i + 1, [Block(b.off, n, true), Block(b.off + HDR + n, b.size - n - HDR, true)]);
    CutNew(s, i, n);
  }

  lemma CutNew(s: Heap, i: nat, n: nat)
    requires Inv(s) && i + 1 < |s.blocks| && s.blocks[i].size >= n + HDR
    ensures forall b :: b in s.blocks ==> b.off != s.blocks[i].off + HDR + n
  {
    JoinedAt(s.blocks, HDR, i);
    InsideBlock(s, i, s.blocks[i].off + HDR + n);
  }

  /** The shrink path keeps the heap sound. */
  lemma ShrinkKeeps(s: Heap, i: nat, n: nat)
    requires Inv(s) && i + 1 < |s.blocks| && s.blocks[i].used && s.blocks[i].size >= n + HDR && n % 4 == 0
    ensures Inv(Shrink(s, i, n))
    ensures Live(Shrink(s, i, n).blocks) == Live(s.blocks) - {s.blocks[i]} + {Block(s.blocks[i].off, n, true)}
    ensures Shrink(s, i, n).usedMem + s.blocks[i].size == s.usedMem + n
  {
    hide NoTwoFree, Contiguous, FreeOffs, Freed, UsedSpan, Plugged, Live;
    var c := Cut(s.blocks, HDR, i, n);
    CutFacts(s, i, n);
    ReleaseInv(s, c, i + 1, s.lfree);
    FreedKeeps(c, HDR, s.End(), i + 1);
  }

  /** rt_realloc forgets to lower `lfree`: after a shrink the lowest free block is still
      the cached one exactly when the cache was below the block, or the block's right
      neighbour was free and took the rest in. */
  lemma ShrinkLowest(s: Heap, i: nat, n: nat)
    requires Inv(s) && Lowest(s) && i + 1 < |s.blocks| && s.blocks[i].used && s.blocks[i].size >= n + HDR && n % 4 == 0
    ensures Lowest(Shrink(s, i, n)) <==> s.lfree < s.blocks[i].off || !s.blocks[i+1].used
  {
    hide NoTwoFree, Contiguous, FreeOffs, Freed, UsedSpan;
    var c, t := Cut(s.blocks, HDR, i, n), Shrink(s, i, n);
    CutFacts(s, i, n);
    FreedFreeOffs(c, HDR, s.End(), i + 1);
    FreeOffsOther(s.blocks, HDR, s.End(), i);
    FreeOffsOther(s.blocks, HDR, s.End(), i + 1);
    OffsDistinct(c, HDR, s.End());
    ShrinkCases(s, i, n);
    assert c[i+1].off in FreeOffs(t.blocks);
  }

  lemma ShrinkCases(s: Heap, i: nat, n: nat)
    requires Inv(s) && Lowest(s) && i + 1 < |s.blocks| && s.blocks[i].used
    ensures s.lfree != s.blocks[i].off
    ensures s.lfree > s.blocks[i].off ==> s.lfree >= s.blocks[i+1].off
    ensures s.lfree > s.blocks[i].off && !s.blocks[i+1].used ==> s.lfree == s.blocks[i+1].off
    ensures s.blocks[i+1].used && s.blocks[i+1].off != s.End() ==> s.lfree != s.blocks[i+1].off
  {
    hide NoTwoFree, FreeOffs, UsedSpan;
    OffsDistinct(s.blocks, HDR, s.End());
    FreeOffsOther(s.blocks, HDR, s.End(), i);
    FreeOffsOther(s.blocks, HDR, s.End(), i + 1);
    LfreeIndex(s);
    var k := IndexOf(s.blocks, s.lfree);
    if k > i + 1 { Ordered(s.blocks, HDR, i + 1, k); }
  }

  /** The cached pointer can go stale: once the only block of a full heap is shrunk, the search does
      not come to the free rest, and rt_malloc fails although a free block fits. */
  lemma ShrinkThenMallocFails()
    ensures Inv(Init(120)) && Malloc(Init(120), 100) == (Full(), Some(12))
    ensures Inv(Full()) && Lowest(Full())
    ensures var t := Shrink(Full(), 0, 12);
      && t.blocks == [Block(0, 12, true), Block(24, 96, false), Block(132, 0, true)] && t.lfree == 132
      && Inv(t) && !Lowest(t) && Fits(t.blocks[1], 12, 108) && Malloc(t, 12).1 == None
  {
    FullReached();
    FullShrunk();
    ShrinkKeeps(Full(), 0, 12);
    hide Init, Inv, Lowest, Shrink;
    SearchMisses(Shrink(Full(), 0, 12));
  }

  lemma SearchMisses(t: Heap)
    requires Inv(t) && t.size == 120
    requires t.blocks == [Block(0, 12, true), Block(24, 96, false), Block(132, 0, true)] && t.lfree == 132
    ensures !Lowest(t) && Malloc(t, 12).1 == None
  {
    assert t.blocks[1] in t.blocks && 24 in FreeOffs(t.blocks);
    ChooseFits(t, 12);
  }

  function Full(): Heap {
    Heap(120, [Block(0, 120, true), Block(132, 0, true)], 132, 132, 132)
  }

  lemma FullReached()
    ensures Inv(Init(120)) && Malloc(Init(120), 100) == (Full(), Some(12))
    ensures Inv(Full()) && Lowest(Full())
  {
    hide Inv, Lowest, Live, Init, Full, Malloc;
    InitInv(120);
    FullMalloc();
    MallocKeeps(Init(120), 100);
  }

  lemma FullMalloc()
    requires Inv(Init(120))
    ensures Malloc(Init(120), 100) == (Full(), Some(12))
  {
    hide Inv, Choose, Take, Full;
    ChosenFirst();
    TakeFull();
  }

  lemma ChosenFirst()
    requires Inv(Init(120))
    ensures Choose(Init(120), 100) == Some(0)
  {
    var s := Init(120);
    LfreeIndex(s);
    hide Inv;
    assert IndexOf(s.blocks, 0) == 0;
    assert Search(s.blocks, 0, 100, 20) == Some(0);
  }

  lemma TakeFull()
    ensures Take(Init(120), 0, 100) == Full()
  {
    var s := Init(120);
    assert s.blocks[0 := s.blocks[0].(used := true)] == Full().blocks;
  }

  lemma FullShrunk()
    ensures var t := Shrink(Full(), 0, 12);
      t.blocks == [Block(0, 12, true), Block(24, 96, false), Block(132, 0, true)] && t.lfree == 132 && t.size == 120
  {
    var c := Cut(Full().blocks, HDR, 0, 12);
    assert c == [Block(0, 12, true), Block(24, 96, true), Block(132, 0, true)];
    var d := c[1 := c[1].(used := false)];
    assert d == [Block(0, 12, true), Block(24, 96, false), Block(132, 0, true)];
    assert NoTwoFree(d);
    CoalesceFixed(d, HDR);
  }

  // ---- rt_realloc as a whole ----

  /** What the client may assume after a request on its block `b` (or on none). */
  ghost predicate Answered(s: Heap, b: Option<Block>, n: nat, t: Heap, r: Option<nat>) {
    && Inv(t)
    && (r.None? ==> t == s)
    && (r.Some? ==> exists g: Block ::
          && g.used && g.off + HDR == r.value && n <= g.size
          && Live(t.blocks) == Live(s.blocks) - (if b.Some? then {b.value} else {}) + {g}
          && (b == None || g.off != b.value.off ==> g !in Live(s.blocks)))
  }

  lemma AnsweredBy(s: Heap, b: Block, n: nat, t: Heap, g: Block)
    requires Inv(t) && g.used && n <= g.size && g.off == b.off
    requires Live(t.blocks) == Live(s.blocks) - {b} + {g}
    ensures Answered(s, Some(b), n, t, Some(b.off + HDR))
  {
  }

  /** Once the size is rounded, every path of rt_realloc on a held block answers with a block of
      that size that replaces the old one, or fails and changes nothing. */
  lemma ResizedAnswers(s: Heap, ptr: nat, n: nat)
    requires Inv(s) && Held(s, ptr) && n % 4 == 0 && 0 < n <= s.size
    ensures var (t, r) := Resized(s, ptr, n); Answered(s, Some(s.blocks[Find(s, ptr)]), n, t, r)
  {
    hide Inv, Held;
    var i := Find(s, ptr);
    var b := s.blocks[i];
    HeldLive(s, ptr);
    if b.size == n {
      assert Live(s.blocks) == Live(s.blocks) - {b} + {b};
      AnsweredBy(s, b, n, s, b);
    } else if n + HDR + MIN_SIZE < b.size {
      ShrinkKeeps(s, i, n);
      AnsweredBy(s, b, n, Shrink(s, i, n), Block(b.off, n, true));
    } else {
      MoveAnswers(s, ptr, n);
    }
  }

  /** rt_realloc answers a request that it can round up with a block that covers it, or fails and changes
      nothing; any larger request releases the block. */
  lemma ReallocAnswers(s: Heap, ptr: nat, newsize: nat)
    requires Inv(s) && Held(s, ptr) && 0 < newsize < WORD
    ensures var (t, r) := Realloc(s, Some(ptr), newsize);
      if newsize <= 0xFFFF_FFFC
      then Align(newsize) >= newsize && Answered(s, Some(s.blocks[Find(s, ptr)]), Align(newsize), t, r)
      else (t, r) == (Free(s, ptr), None)
  {
    AlignCovers(newsize);
    HeldBelow(s, ptr);
    if 0 < Align(newsize) <= s.size {
      ResizedAnswers(s, ptr, Align(newsize));
    }
  }

  /** A failed rt_realloc with a size other than zero leaves the block with the client if and only if the
      size could be rounded up. */
  lemma FailureKeeps(s: Heap, ptr: nat, newsize: nat)
    requires Inv(s) && Held(s, ptr) && 0 < newsize < WORD && Realloc(s, Some(ptr), newsize).1 == None
    ensures Realloc(s, Some(ptr), newsize).0 == s <==> newsize <= 0xFFFF_FFFC
    ensures s.blocks[Find(s, ptr)] in Live(Realloc(s, Some(ptr), newsize).0.blocks) <==> newsize <= 0xFFFF_FFFC
  {
    hide Inv, Held;
    ReallocAnswers(s, ptr, newsize);
    FreeKeeps(s, ptr);
    HeldLive(s, ptr);
  }

  /** A failing call that takes the client's block away. */
  lemma FailureLoses()
    ensures Inv(Full()) && Held(Full(), 12) && Realloc(Full(), Some(12), 0xFFFF_FFFD).1 == None
    ensures Realloc(Full(), Some(12), 0xFFFF_FFFD).0 == Free(Full(), 12) != Full()
  {
    FullReached();
    assert Full().blocks[0] in Full().blocks;
    ReallocAnswers(Full(), 12, 0xFFFF_FFFD);
    FailureKeeps(Full(), 12, 0xFFFF_FFFD);
  }

  lemma HeldLive(s: Heap, ptr: nat)
    requires Inv(s) && Held(s, ptr)
    ensures s.blocks[Find(s, ptr)] in Live(s.blocks)
  {
  }

  lemma RequestStable(s: Heap, n: nat)
    requires Inv(s) && n % 4 == 0 && n <= s.size
    ensures Align(n) == n && Request(n) >= n
  {
    assert n < WORD;
    hide Inv;
    AlignFixed(n);
  }

  lemma MoveAnswers(s: Heap, ptr: nat, n: nat)
    requires Inv(s) && Held(s, ptr) && n % 4 == 0 && 0 < n <= s.size
    requires s.blocks[Find(s, ptr)].size != n && n + HDR + MIN_SIZE >= s.blocks[Find(s, ptr)].size
    ensures var (t, r) := Resized(s, ptr, n); Answered(s, Some(s.blocks[Find(s, ptr)]), n, t, r)
  {
    hide Inv, Held;
    var b := s.blocks[Find(s, ptr)];
    MallocKeeps(s, n);
    RequestStable(s, n);
    HeldLive(s, ptr);
    var q := Malloc(s, n);
    if q.1.Some? {
      FreeKeeps(q.0, ptr);
      var g: Block :| g !in Live(s.blocks) && g.used && g.off + HDR == q.1.value && Request(n) <= g.size && Live(q.0.blocks) == Live(s.blocks) + {g};
      HeldBlock(s, q.0, ptr);
      assert Live(Free(q.0, ptr).blocks) == Live(s.blocks) - {b} + {g};
    }
  }

  /** A pointer names the same block as long as the block stays live. */
  lemma HeldBlock(s: Heap, t: Heap, ptr: nat)
    requires Inv(s) && Inv(t) && Held(s, ptr) && Held(t, ptr) && Live(s.blocks) <= Live(t.blocks)
    ensures t.blocks[Find(t, ptr)] == s.blocks[Find(s, ptr)]
  {
    var b := s.blocks[Find(s, ptr)];
    assert b in Live(s.blocks);
    OffsDistinct(t.blocks, HDR, t.End());
    var k :| 0 <= k < |t.blocks| && t.blocks[k] == b;
  }

  // ---- what each call does to the blocks in use ----

  function Max(a: int, b: int): int { if a > b then a else b }

  /** A block that the search may settle on. */
  ghost predicate Eligible(s: Heap, n: nat, b: Block) {
    b in s.blocks && Fits(b, n, s.size - n) && s.lfree <= b.off
  }

  /** What is handed out of the free block `b`: a rest of less than a header and a smallest payload stays with it. */
  function Piece(b: Block, n: nat): Block {
    Block(b.off, if b.size >= n + HDR + MIN_SIZE then n else b.size, true)
  }

  /** The lowest eligible block is handed out. */
  ghost predicate Took(s: Heap, n: nat, b: Block, t: Heap, r: nat) {
    && Eligible(s, n, b) && (forall c :: Eligible(s, n, c) ==> b.off <= c.off)
    && r == b.off + HDR && Live(t.blocks) == Live(s.blocks) + {Piece(b, n)}
    && t.size == s.size && t.maxMem == Max(s.maxMem, t.usedMem)
  }

  ghost predicate Answerable(s: Heap, bytes: nat) {
    !Refused(s, bytes) && exists b :: Eligible(s, Request(bytes), b)
  }

  /** rt_malloc answers if and only if the request passes the size tests and some block is eligible, with the lowest
      such block; max_mem follows. */
  lemma MallocExact(s: Heap, bytes: nat)
    requires Inv(s)
    ensures var (t, r) := Malloc(s, bytes);
      && Inv(t)
      && (r.Some? <==> Answerable(s, bytes))
      && (r.None? ==> t == s)
      && (r.Some? ==> exists b :: Took(s, Request(bytes), b, t, r.value))
  {
    MallocKeeps(s, bytes);
    hide Inv, Took, Eligible;
    if !Refused(s, bytes) {
      if Malloc(s, bytes).1.Some? {
        var b := MallocTakes(s, bytes);
      } else {
        NoneEligible(s, bytes);
      }
    }
  }

  lemma MallocTakes(s: Heap, bytes: nat) returns (b: Block)
    requires Inv(s) && Malloc(s, bytes).1.Some?
    ensures var (t, r) := Malloc(s, bytes); Eligible(s, Request(bytes), b) && Took(s, Request(bytes), b, t, r.value)
  {
    hide Tiled, NoTwoFree, Aligned, FreeOffs, UsedSpan, Choose, Live, NextFree;
    var n := Request(bytes);
    ChooseFits(s, n);
    var j := Choose(s, n).value;
    b := s.blocks[j];
    assert b in s.blocks;
    TakeBlocks(s, j, n);
    TakePiece(s, j, n);
    forall c | Eligible(s, n, c)
      ensures b.off <= c.off
    {
      ChosenLowest(s, n, c);
    }
  }

  lemma TakePiece(s: Heap, j: nat, n: nat)
    requires Inv(s) && j + 1 < |s.blocks| && !s.blocks[j].used && s.blocks[j].size >= n
    ensures Live(Take(s, j, n).blocks) == Live(s.blocks) + {Piece(s.blocks[j], n)}
    ensures Take(s, j, n).maxMem == Max(s.maxMem, Take(s, j, n).usedMem) && Take(s, j, n).size == s.size
  {
    hide Tiled, NoTwoFree, FreeOffs, UsedSpan, Live, NextFree;
    var b := s.blocks[j];
    LiveMember(s.blocks, b);
    if b.size >= n + HDR + MIN_SIZE {
      SplitAccounts(s.blocks, HDR, s.End(), j, n);
    } else {
      MarkUsedKeeps(s.blocks, HDR, s.End(), j);
    }
  }

  lemma ChosenLowest(s: Heap, n: nat, c: Block)
    requires Inv(s) && Eligible(s, n, c)
    ensures Choose(s, n).Some? && Choose(s, n).value < |s.blocks| && s.blocks[Choose(s, n).value].off <= c.off
  {
    hide NoTwoFree, FreeOffs, UsedSpan, Choose;
    ChooseFits(s, n);
    var i :| 0 <= i < |s.blocks| && s.blocks[i] == c;
    var r := Choose(s, n);
    assert !Before(s, n, i);
    if r.value < i { Ordered(s.blocks, HDR, r.value, i); }
  }

  lemma NoneEligible(s: Heap, bytes: nat)
    requires Inv(s) && !Refused(s, bytes) && Malloc(s, bytes).1.None?
    ensures forall b :: !Eligible(s, Request(bytes), b)
  {
    hide Tiled, NoTwoFree, FreeOffs, UsedSpan, Choose;
    forall b | Eligible(s, Request(bytes), b)
      ensures false
    {
      ChosenLowest(s, Request(bytes), b);
    }
  }

  /** Rounding twice changes nothing; the size zero and the sizes above the limit round to zero. */
  lemma Rounded(newsize: nat)
    requires newsize < WORD
    ensures Align(Align(newsize)) == Align(newsize) && Request(Align(newsize)) == Request(newsize)
    ensures 0 < newsize <= 0xFFFF_FFFC <==> Align(newsize) > 0
    ensures newsize <= 0xFFFF_FFFC ==> newsize <= Request(newsize)
  {
    AlignCovers(newsize);
    AlignFixed(Align(newsize));
    RequestCovers(newsize);
  }

  /** rt_realloc without a former block: rounded to zero it does nothing, else it answers as rt_malloc does. */
  lemma ReallocNew(s: Heap, newsize: nat)
    requires Inv(s) && newsize < WORD
    ensures var (t, r) := Realloc(s, None, newsize);
      && Inv(t)
      && (r.Some? <==> 0 < newsize <= 0xFFFF_FFFC && Align(newsize) <= s.size && exists b :: Eligible(s, Request(newsize), b))
      && (r.None? ==> t == s)
      && (r.Some? ==> (exists b :: Took(s, Request(newsize), b, t, r.value)) && Request(newsize) >= newsize)
  {
    hide Inv, Took, Eligible, Malloc, Align, Request;
    Rounded(newsize);
    MallocExact(s, Align(newsize));
  }

  /** A pointer from outside of the heap changes nothing and comes back, unless the size rounds to zero or exceeds the heap. */
  lemma ReallocOutside(s: Heap, ptr: nat, newsize: nat)
    requires Inv(s) && ptr >= s.End() && newsize < WORD
    ensures Realloc(s, Some(ptr), newsize) == (s, if 0 < newsize <= 0xFFFF_FFFC && Align(newsize) <= s.size then Some(ptr) else None)
  {
    hide Inv, Align;
    Rounded(newsize);
  }

  /** A size that rounds to zero takes exactly the block from the client and answers NULL. */
  lemma ReallocReleases(s: Heap, ptr: nat, newsize: nat)
    requires Inv(s) && Held(s, ptr) && newsize < WORD && (newsize == 0 || newsize > 0xFFFF_FFFC)
    ensures var b, (t, r) := s.blocks[Find(s, ptr)], Realloc(s, Some(ptr), newsize);
      && r == None && Inv(t) && t.size == s.size && t.maxMem == s.maxMem && b.off + HDR == ptr && b in Live(s.blocks)
      && Live(t.blocks) == Live(s.blocks) - {b} && t.usedMem + HDR + b.size == s.usedMem
      && (Lowest(s) ==> Lowest(t))
  {
    hide Inv, Held, Align, Freed, Plugged, UsedSpan, Live;
    Rounded(newsize);
    HeldBelow(s, ptr);
    HeldLive(s, ptr);
    FreeKeeps(s, ptr);
  }

  /** The block `b` now has `n` bytes, and nothing else has changed hands. */
  ghost predicate Refitted(s: Heap, b: Block, n: nat, t: Heap) {
    && Inv(t) && t.size == s.size && t.maxMem == s.maxMem && t.usedMem + b.size == s.usedMem + n
    && Live(t.blocks) == Live(s.blocks) - {b} + {Block(b.off, n, true)}
  }

  /** The same size changes nothing; a size that leaves room for a header and more than a smallest payload cuts the
      end off; one that exceeds the heap fails. */
  lemma ReallocInPlace(s: Heap, ptr: nat, newsize: nat)
    requires Inv(s) && Held(s, ptr) && 0 < newsize <= 0xFFFF_FFFC
    ensures var b, n, (t, r) := s.blocks[Find(s, ptr)], Align(newsize), Realloc(s, Some(ptr), newsize);
      && b.off + HDR == ptr
      && (n > s.size ==> (t, r) == (s, None))
      && (n == b.size ==> (t, r) == (s, Some(ptr)))
      && (n + HDR + MIN_SIZE < b.size ==> r == Some(ptr) && Refitted(s, b, n, t))
  {
    AlignCovers(newsize);
    HeldBelow(s, ptr);
    SizeBelow(s, Find(s, ptr));
    hide Inv, Held;
    var i, n := Find(s, ptr), Align(newsize);
    if n + HDR + MIN_SIZE < s.blocks[i].size {
      ShrinkKeeps(s, i, n);
    }
  }

  lemma SizeBelow(s: Heap, i: nat)
    requires Inv(s) && i + 1 < |s.blocks|
    ensures s.blocks[i].size <= s.size
  {
    Follows(s.blocks, HDR, s.End(), i);
  }

  /** The block `b` gave way to a piece of the lowest eligible block. */
  ghost predicate MovedTo(s: Heap, b: Block, n: nat, c: Block, t: Heap, r: nat) {
    && Inv(t) && Eligible(s, n, c) && (forall d :: Eligible(s, n, d) ==> c.off <= d.off)
    && r == c.off + HDR && r != b.off + HDR && t.size == s.size && t.maxMem == Max(s.maxMem, t.usedMem + HDR + b.size)
    && Live(t.blocks) == Live(s.blocks) - {b} + {Piece(c, n)}
  }

  /** Every other size moves the block, if an allocation of that size would be answered, and else fails and changes
      nothing: also one that is smaller than the block by no more than a header and a smallest payload. */
  lemma ReallocMoves(s: Heap, ptr: nat, newsize: nat)
    requires Inv(s) && Held(s, ptr) && 0 < newsize <= 0xFFFF_FFFC && Align(newsize) <= s.size
    requires var b, n := s.blocks[Find(s, ptr)], Align(newsize); n != b.size && n + HDR + MIN_SIZE >= b.size
    ensures var b, (t, r) := s.blocks[Find(s, ptr)], Realloc(s, Some(ptr), newsize);
      && (r.Some? <==> exists c :: Eligible(s, Request(newsize), c))
      && (r.None? ==> t == s)
      && (r.Some? ==> exists c :: MovedTo(s, b, Request(newsize), c, t, r.value))
  {
    hide Inv, Held, Took, Eligible, MovedTo, Align, Request, Malloc, Free, Shrink;
    Rounded(newsize);
    HeldBelow(s, ptr);
    var n := Align(newsize);
    MallocExact(s, n);
    MallocKeeps(s, n);
    if Malloc(s, n).1.Some? {
      var c :| Took(s, Request(n), c, Malloc(s, n).0, Malloc(s, n).1.value);
      MovedLive(s, ptr, n, c);
    }
  }

  lemma MovedLive(s: Heap, ptr: nat, n: nat, c: Block)
    requires Inv(s) && Held(s, ptr) && Malloc(s, n).1.Some? && Took(s, Request(n), c, Malloc(s, n).0, Malloc(s, n).1.value)
    ensures var (t, r) := Malloc(s, n); Inv(t) && Held(t, ptr) && MovedTo(s, s.blocks[Find(s, ptr)], Request(n), c, Free(t, ptr), r.value)
  {
    var (t, r) := Malloc(s, n);
    PieceNew(s, ptr, Request(n), c);
    hide Held, Malloc, Eligible, Piece, Freed, Plugged, UsedSpan;
    MallocKeeps(s, n);
    HeldLive(s, ptr);
    hide Inv;
    HeldBlock(s, t, ptr);
    FreeKeeps(t, ptr);
    var b, g := s.blocks[Find(s, ptr)], Piece(c, Request(n));
    assert Live(s.blocks) + {g} - {b} == Live(s.blocks) - {b} + {g};
  }

  lemma PieceNew(s: Heap, ptr: nat, n: nat, c: Block)
    requires Inv(s) && Held(s, ptr) && Eligible(s, n, c)
    ensures Piece(c, n) !in Live(s.blocks) && c.off + HDR != ptr
  {
    var i :| 0 <= i < |s.blocks| && s.blocks[i] == c;
    var j := Find(s, ptr);
    OffsDistinct(s.blocks, HDR, s.End());
    NotLive(s, i, Piece(c, n));
  }

  // ---- no block is too small ----

  lemma TakeAtLeast(s: Heap, j: nat, n: nat, m: nat)
    requires Inv(s) && j + 1 < |s.blocks| && s.blocks[j].size >= n >= m && m <= MIN_SIZE && AtLeast(s.blocks, m)
    ensures AtLeast(Take(s, j, n).blocks, m)
  {
    hide AtLeast, Inv, NextFree;
    var b := s.blocks[j];
    if b.size >= n + HDR + MIN_SIZE {
      AtLeastSplice(s.blocks, j, j + 1, [Block(b.off, n, true), Block(b.off + HDR + n, b.size - n - HDR, false)], m);
    } else {
      AtLeastSplice(s.blocks, j, j + 1, [b.(used := true)], m);
      assert Splice(s.blocks, j, j + 1, [b.(used := true)]) == s.blocks[j := b.(used := true)];
    }
  }

  lemma MallocAtLeast(s: Heap, bytes: nat, m: nat)
    requires Inv(s) && m <= MIN_SIZE && AtLeast(s.blocks, m)
    ensures AtLeast(Malloc(s, bytes).0.blocks, m)
  {
    hide AtLeast, Take, Inv, Choose;
    if !Refused(s, bytes) {
      ChooseFits(s, Request(bytes));
      if Choose(s, Request(bytes)).Some? {
        TakeAtLeast(s, Choose(s, Request(bytes)).value, Request(bytes), m);
      }
    }
  }

  lemma FreeAtLeast(s: Heap, ptr: nat, m: nat)
    requires Inv(s) && Held(s, ptr) && AtLeast(s.blocks, m)
    ensures AtLeast(Free(s, ptr).blocks, m)
  {
    hide AtLeast, Freed;
    FreedAtLeast(s.blocks, HDR, s.End(), Find(s, ptr), m);
  }

  lemma ShrinkAtLeast(s: Heap, i: nat, n: nat)
    requires Inv(s) && i + 1 < |s.blocks| && s.blocks[i].used && s.blocks[i].size > n + HDR + MIN_SIZE && n >= 4
    requires AtLeast(s.blocks, 4)
    ensures AtLeast(Shrink(s, i, n).blocks, 4)
  {
    hide AtLeast, Freed, Tiled, NoTwoFree;
    var b := s.blocks[i];
    AtLeastSplice(s.blocks, i, i + 1, [Block(b.off, n, true), Block(b.off + HDR + n, b.size - n - HDR, true)], 4);
    CutKeeps(s.blocks, HDR, s.End(), i, n);
    FreedAtLeast(Cut(s.blocks, HDR, i, n), HDR, s.End(), i + 1, 4);
  }

  lemma ReallocAtLeast(s: Heap, ptr: nat, newsize: nat)
    requires Inv(s) && Held(s, ptr) && AtLeast(s.blocks, 4)
    ensures AtLeast(Realloc(s, Some(ptr), newsize).0.blocks, 4)
  {
    HeldBelow(s, ptr);
    hide AtLeast, Inv, Held;
    var n, i := Align(newsize), Find(s, ptr);
    if n == 0 {
      FreeAtLeast(s, ptr, 4);
    } else if n <= s.size && n != s.blocks[i].size {
      if n + HDR + MIN_SIZE < s.blocks[i].size {
        ShrinkAtLeast(s, i, n);
      } else {
        MallocKeeps(s, n);
        MallocAtLeast(s, n, 4);
        if Malloc(s, n).1.Some? {
          FreeAtLeast(Malloc(s, n).0, ptr, 4);
        }
      }
    }
  }

  // ---- every run ----

  datatype Op = OpMalloc(bytes: nat) | OpFree(ptr: nat) | OpRealloc(former: Option<nat>, newsize: nat)

  /** One client call; calls with pointers the client does not hold are not made. */
  ghost function Step(s: Heap, op: Op): Heap {
    if !Inv(s) then s else
    match op
    case OpMalloc(bytes) => Malloc(s, bytes).0
    case OpFree(ptr) => if Held(s, ptr) then Free(s, ptr) else s
    case OpRealloc(ptr, newsize) => if ptr.None? || Held(s, ptr.value) then Realloc(s, ptr, newsize).0 else s
  }

  lemma StepInv(s: Heap, op: Op)
    requires Inv(s)
    ensures Inv(Step(s, op))
    ensures !op.OpRealloc? && Lowest(s) ==> Lowest(Step(s, op))
  {
    hide Inv, Held;
    match op
    case OpMalloc(bytes) => MallocKeeps(s, bytes);
    case OpFree(ptr) => if Held(s, ptr) { FreeKeeps(s, ptr); }
    case OpRealloc(ptr, newsize) =>
      var n := Align(newsize);
      if ptr.None? {
        MallocKeeps(s, n);
      } else if Held(s, ptr.value) {
        FreeKeeps(s, ptr.value);
        HeldBelow(s, ptr.value);
        if 0 < n <= s.size { ResizedAnswers(s, ptr.value, n); }
      }
  }

  lemma HeldBelow(s: Heap, ptr: nat)
    requires Held(s, ptr)
    ensures ptr < s.End()
  {
  }

  ghost function Run(s: Heap, ops: seq<Op>): Heap
    decreases |ops|
  {
    if ops == [] then s else Run(Step(s, ops[0]), ops[1..])
  }

  /** Every reachable heap: tiled by blocks, no two free blocks touch, `lfree` names a free block or the
      end, used_mem is the span of the used blocks; without rt_realloc nothing free lies below `lfree`. */
  lemma {:induction false} RunInv(s: Heap, ops: seq<Op>)
    requires Inv(s)
    ensures Inv(Run(s, ops))
    ensures Lowest(s) && (forall op :: op in ops ==> !op.OpRealloc?) ==> Lowest(Run(s, ops))
    decreases |ops|
  {
    if ops != [] {
      StepInv(s, ops[0]);
      assert ops[0] in ops && forall op :: op in ops[1..] ==> op in ops;
      RunInv(Step(s, ops[0]), ops[1..]);
    }
  }

  /** No run of calls ever makes a block with a payload of less than four bytes, and without rt_realloc none with
      less than the smallest payload. */
  lemma {:induction false} RunAtLeast(s: Heap, ops: seq<Op>)
    requires Inv(s)
    ensures AtLeast(s.blocks, 4) ==> AtLeast(Run(s, ops).blocks, 4)
    ensures AtLeast(s.blocks, MIN_SIZE) && (forall op :: op in ops ==> !op.OpRealloc?) ==> AtLeast(Run(s, ops).blocks, MIN_SIZE)
    decreases |ops|
  {
    hide Inv, Step, AtLeast;
    if ops != [] {
      StepInv(s, ops[0]);
      StepAtLeast(s, ops[0]);
      assert ops[0] in ops && forall op :: op in ops[1..] ==> op in ops;
      RunAtLeast(Step(s, ops[0]), ops[1..]);
    }
  }

  lemma StepAtLeast(s: Heap, op: Op)
    requires Inv(s)
    ensures AtLeast(s.blocks, 4) ==> AtLeast(Step(s, op).blocks, 4)
    ensures AtLeast(s.blocks, MIN_SIZE) && !op.OpRealloc? ==> AtLeast(Step(s, op).blocks, MIN_SIZE)
  {
    hide Inv, Held, AtLeast, Malloc, Free, Resized;
    match op
    case OpMalloc(bytes) =>
      if AtLeast(s.blocks, 4) { MallocAtLeast(s, bytes, 4); }
      if AtLeast(s.blocks, MIN_SIZE) { MallocAtLeast(s, bytes, MIN_SIZE); }
    case OpFree(ptr) =>
      if Held(s, ptr) {
        if AtLeast(s.blocks, 4) { FreeAtLeast(s, ptr, 4); }
        if AtLeast(s.blocks, MIN_SIZE) { FreeAtLeast(s, ptr, MIN_SIZE); }
      }
    case OpRealloc(former, newsize) =>
      if AtLeast(s.blocks, 4) {
        if former.None? {
          MallocAtLeast(s, Align(newsize), 4);
        } else if Held(s, former.value) {
          ReallocAtLeast(s, former.value, newsize);
        }
      }
  }

  /** Releasing what rt_malloc just returned gives back the block list and the byte count it started from. */
  lemma FreeUndoesMalloc(s: Heap, bytes: nat)
    requires Inv(s) && Malloc(s, bytes).1.Some?
    ensures var (t, r) := Malloc(s, bytes);
      Inv(t) && Held(t, r.value) && Free(t, r.value).blocks == s.blocks && Free(t, r.value).usedMem == s.usedMem
  {
    hide Inv, Held;
    MallocKeeps(s, bytes);
    var n := Request(bytes);
    ChooseFits(s, n);
    var j, t := Choose(s, n).value, Malloc(s, bytes).0;
    TakeBlocks(s, j, n);
    FindAt(t, j);
    UndoTake(s, j, n);
    SpanIs(s);
  }

  lemma SpanIs(s: Heap)
    requires Inv(s)
    ensures s.usedMem == UsedSpan(s.blocks, HDR)
  {
  }

  lemma UndoTake(s: Heap, j: nat, n: nat)
    requires Inv(s) && j + 1 < |s.blocks| && !s.blocks[j].used && s.blocks[j].size >= n && j < |Take(s, j, n).blocks|
    ensures Freed(Take(s, j, n).blocks, HDR, j) == s.blocks
  {
    hide NoTwoFree, Contiguous, Freed;
    if s.blocks[j].size >= n + HDR + MIN_SIZE {
      FreedUndoesSplit(s.blocks, HDR, s.End(), j, n);
    } else {
      FreedUndoesMark(s.blocks, HDR, s.End(), j);
    }
  }

  lemma FindAt(t: Heap, j: nat)
    requires Inv(t) && j < |t.blocks| && t.blocks[j].used && t.blocks[j].off < t.End() && t.blocks[j].size > 0
    ensures Held(t, t.blocks[j].off + HDR) && Find(t, t.blocks[j].off + HDR) == j
  {
    OffsDistinct(t.blocks, HDR, t.End());
    if j + 1 < |t.blocks| { Ordered(t.blocks, HDR, j, |t.blocks| - 1); }
    assert t.blocks[j] in t.blocks;
  }

  // ---- facts the code relies on ----

  lemma AtLeastMin(s: Heap)
    requires Inv(s)
    ensures MIN_SIZE <= s.size
  {
  }

  lemma SearchFacts(s: Heap)
    requires Inv(s)
    ensures HasOff(s.blocks, s.lfree)
    ensures forall k :: 0 <= k < |s.blocks| && s.blocks[k].off < s.size ==>
      k + 1 < |s.blocks| && s.blocks[k].off + HDR + s.blocks[k].size == s.blocks[k+1].off
    ensures forall n :: Choose(s, n) == Search(s.blocks, IndexOf(s.blocks, s.lfree), n, s.size - n)
  {
    hide NoTwoFree;
    LfreeIndex(s);
    forall k | 0 <= k < |s.blocks| && s.blocks[k].off < s.size
      ensures k + 1 < |s.blocks| && s.blocks[k].off + HDR + s.blocks[k].size == s.blocks[k+1].off
    {
      JoinedAt(s.blocks, HDR, k);
    }
  }

  lemma TakeFacts(s: Heap, j: nat, n: nat)
    requires Inv(s) && j + 1 < |s.blocks| && !s.blocks[j].used && s.blocks[j].size >= n && n % 4 == 0
    ensures OffsApart(s.blocks) && OffsApart(Take(s, j, n).blocks) && j < |Take(s, j, n).blocks|
    ensures s.blocks[|s.blocks|-1].off == s.End() && Take(s, j, n).blocks[|Take(s, j, n).blocks|-1].off == s.End()
    ensures s.blocks[j].off + HDR + s.blocks[j].size == s.blocks[j+1].off <= s.End()
    ensures n < s.blocks[j].size ==> forall k :: 0 <= k < |s.blocks| ==> s.blocks[k].off != s.blocks[j].off + HDR + n
  {
    TakenApart(s, j, n);
    NextOffset(s, j);
    if n < s.blocks[j].size {
      InsideBlock(s, j, s.blocks[j].off + HDR + n);
    }
    hide Inv, Take, OffsApart;
  }

  lemma NextOffset(s: Heap, j: nat)
    requires Inv(s) && j + 1 < |s.blocks|
    ensures OffsApart(s.blocks) && s.blocks[|s.blocks|-1].off == s.End()
    ensures s.blocks[j].off + HDR + s.blocks[j].size == s.blocks[j+1].off <= s.End()
  {
    hide NoTwoFree, Contiguous;
    OffsDistinct(s.blocks, HDR, s.End());
    JoinedAt(s.blocks, HDR, j);
  }

  lemma TakenApart(s: Heap, j: nat, n: nat)
    requires Inv(s) && j + 1 < |s.blocks| && !s.blocks[j].used && s.blocks[j].size >= n && n % 4 == 0
    ensures var t := Take(s, j, n).blocks; OffsApart(t) && j < |t| && t[|t|-1].off == s.End()
  {
    hide NoTwoFree, Contiguous;
    TakeBlocks(s, j, n);
    OffsDistinct(Take(s, j, n).blocks, HDR, s.End());
  }

  /** An address inside block `i` heads no block. */
  lemma InsideBlock(s: Heap, i: nat, o: nat)
    requires Inv(s) && i + 1 < |s.blocks| && s.blocks[i].off < o < s.blocks[i+1].off
    ensures forall k :: 0 <= k < |s.blocks| ==> s.blocks[k].off != o
  {
    hide NoTwoFree;
    OffsDistinct(s.blocks, HDR, s.End());
    forall k | 0 <= k < |s.blocks|
      ensures s.blocks[k].off != o
    {
      assert k < i ==> s.blocks[k].off < s.blocks[i].off;
      assert k > i + 1 ==> s.blocks[i+1].off < s.blocks[k].off;
    }
  }

  lemma FreeFacts(s: Heap, i: nat)
    requires Inv(s) && i + 1 < |s.blocks| && s.blocks[i].used
    ensures OffsApart(s.blocks) && Tiled(s.blocks, HDR, s.End()) && NoTwoFree(s.blocks)
    ensures s.blocks[i].off + HDR + s.blocks[i].size == s.blocks[i+1].off <= s.End()
    ensures UsedSpan(Freed(s.blocks, HDR, i), HDR) + HDR + s.blocks[i].size == s.usedMem
  {
    JoinedAt(s.blocks, HDR, i);
    OffsDistinct(s.blocks, HDR, s.End());
    FreedKeeps(s.blocks, HDR, s.End(), i);
  }

  lemma ShrinkFacts(s: Heap, i: nat, n: nat)
    requires Inv(s) && i + 1 < |s.blocks| && s.blocks[i].used && s.blocks[i].size >= n + HDR && n % 4 == 0
    ensures var c := Cut(s.blocks, HDR, i, n);
      && OffsApart(s.blocks) && s.blocks[|s.blocks|-1].off == s.End() && s.blocks[i].off + HDR + n <= s.End()
      && (forall k :: 0 <= k < |s.blocks| ==> s.blocks[k].off != s.blocks[i].off + HDR + n)
      && Tiled(c, HDR, s.End()) && NoTwoFree(c) && i + 2 < |c| && c[i+1].off == s.blocks[i].off + HDR + n
      && c[i+1 := c[i+1].(used := false)]
         == Splice(s.blocks, i, i + 1, [Block(s.blocks[i].off, n, true), Block(s.blocks[i].off + HDR + n, s.blocks[i].size - n - HDR, false)])
    ensures s.usedMem + n >= s.blocks[i].size
  {
    hide NoTwoFree, Contiguous;
    CutFacts(s, i, n);
    NextOffset(s, i);
    InsideBlock(s, i, s.blocks[i].off + HDR + n);
    SpanCounted(s, i);
    hide OffsApart, Cut, Splice;
  }

  lemma SpanCounted(s: Heap, i: nat)
    requires Inv(s) && i + 1 < |s.blocks| && s.blocks[i].used
    ensures s.usedMem >= s.blocks[i].size
  {
    hide NoTwoFree, Contiguous;
    FreedKeeps(s.blocks, HDR, s.End(), i);
  }

  function Min(a: nat, b: nat): nat { if a < b then a else b }

  /** The outcome of rt_realloc where the block has to move. */
  ghost predicate Moved(s: Heap, ptr: nat, n: nat, t: Heap, r: Option<nat>)
    requires Inv(s)
  {
    var a := Malloc(s, n);
    r == a.1 && if r.None? then t == s else Inv(a.0) && Held(a.0, ptr) && t == Free(a.0, ptr)
  }

  lemma MovedBy(s: Heap, ptr: nat, n: nat, t: Heap, r: Option<nat>)
    requires Inv(s) && r == Malloc(s, n).1
    requires if r.None? then t == s else Inv(Malloc(s, n).0) && Held(Malloc(s, n).0, ptr) && t == Free(Malloc(s, n).0, ptr)
    ensures Moved(s, ptr, n, t, r)
  {
  }

  lemma ResizedByMove(s: Heap, ptr: nat, n: nat, t: Heap, r: Option<nat>)
    requires Inv(s) && Held(s, ptr) && Moved(s, ptr, n, t, r)
    requires s.blocks[Find(s, ptr)].size != n && n + HDR + MIN_SIZE >= s.blocks[Find(s, ptr)].size
    ensures Resized(s, ptr, n) == (t, r)
  {
    MallocKeeps(s, n);
  }

  /** The block rt_malloc returns overlaps none that was live before. */
  lemma CopyTarget(s: Heap, n: nat, t: Heap, ptr: nat, b: Block)
    requires Inv(s) && Malloc(s, n) == (t, Some(ptr)) && Request(n) >= n && b in Live(s.blocks)
    ensures Inv(t) && HDR <= ptr && ptr + n <= t.End()
    ensures forall c :: c in Live(s.blocks) ==> c.off + HDR + c.size <= ptr || ptr + n <= c.off + HDR
  {
    MallocKeeps(s, n);
    var g: Block :| g !in Live(s.blocks) && g.used && g.off + HDR == ptr && Request(n) <= g.size && Live(t.blocks) == Live(s.blocks) + {g};
    assert g in Live(t.blocks);
    BlocksApart(t.blocks, HDR, t.End());
    forall c | c in Live(s.blocks)
      ensures c.off + HDR + c.size <= ptr || ptr + n <= c.off + HDR
    {
      assert c in Live(t.blocks) && c in t.blocks && g in t.blocks && c != g;
      assert Apart(c, g, HDR);
    }
  }
}
