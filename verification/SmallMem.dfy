/** mem.c: the system heap with headers linked by offsets, updated in place.

    Header fields live in arrays indexed by the offset of the header from
    heap_ptr; payload bytes are kept in a separate array under the same
    offsets.  Every method is proved against the functions of SmallMemSpec. */
module SmallMem {
  import opened BlockList
  import opened SmallMemSpec
  import opened RtDef
  import opened Memory

  /** The header of block `i`.  The `prev` field of the end marker is not maintained. */
  ghost predicate HeaderAt(next: seq<nat>, prev: seq<nat>, used: seq<bool>, bs: seq<Block>, i: nat)
    requires i < |bs|
  {
    && bs[i].off < |next| == |prev| == |used|
    && used[bs[i].off] == bs[i].used
    && next[bs[i].off] == bs[if i + 1 < |bs| then i + 1 else i].off
    && (i + 1 < |bs| ==> prev[bs[i].off] == bs[if i > 0 then i - 1 else 0].off)
  }

  /** Following `next` from offset 0 meets exactly the blocks; `prev` is its inverse. */
  ghost predicate Chain(next: seq<nat>, prev: seq<nat>, used: seq<bool>, bs: seq<Block>) {
    forall i :: 0 <= i < |bs| ==> HeaderAt(next, prev, used, bs, i)
  }

  /** The writes that cut block `i` at the new header `mid[1].off`. */
  lemma CutChain(next: seq<nat>, prev: seq<nat>, used: seq<bool>, bs: seq<Block>, i: nat, mid: seq<Block>,
                 next': seq<nat>, prev': seq<nat>, used': seq<bool>)
    requires Chain(next, prev, used, bs) && OffsApart(bs) && i + 1 < |bs| && |mid| == 2 && mid[0].off == bs[i].off
    requires |next'| == |prev'| == |used'| == |next| == |prev| == |used| && mid[1].off < |next|
    requires forall k :: 0 <= k < |bs| ==> bs[k].off != mid[1].off && bs[k].off < |next|
    requires next' == next[mid[1].off := next[bs[i].off]][bs[i].off := mid[1].off]
    requires used'[mid[0].off] == mid[0].used && used'[mid[1].off] == mid[1].used
    requires forall k :: 0 <= k < |bs| && k != i ==> used'[bs[k].off] == used[bs[k].off]
    requires prev'[mid[1].off] == bs[i].off && (i + 2 < |bs| ==> prev'[bs[i+1].off] == mid[1].off)
    requires forall k :: 0 <= k < |bs| && k != i + 1 ==> prev'[bs[k].off] == prev[bs[k].off]
    ensures Chain(next', prev', used', Splice(bs, i, i + 1, mid))
  {
    var c := Splice(bs, i, i + 1, mid);
    forall k | 0 <= k < |c|
      ensures HeaderAt(next', prev', used', c, k)
    {
      assert HeaderAt(next, prev, used, bs, i);
      if k < i {
        assert HeaderAt(next, prev, used, bs, k) && c[k] == bs[k] && c[k+1].off == bs[k+1].off;
        assert bs[k].off != bs[i].off;
      } else if k == i {
        assert c[k] == mid[0] && c[k+1] == mid[1];
        assert k > 0 ==> c[k-1] == bs[k-1];
      } else if k == i + 1 {
        assert c[k] == mid[1] && c[k+1] == bs[i+1] && c[k-1] == mid[0];
      } else {
        assert HeaderAt(next, prev, used, bs, k - 1) && c[k] == bs[k-1] && bs[k-1].off != bs[i].off;
        assert k + 1 < |c| ==> c[k+1] == bs[k];
        assert c[k-1].off == if k == i + 2 then mid[1].off else bs[k-2].off;
      }
    }
  }

  /** What joining block `k + 1` to block `k` writes. */
  ghost predicate JoinWrites(next: seq<nat>, prev: seq<nat>, bs: seq<Block>, k: nat, m: Block, next': seq<nat>, prev': seq<nat>)
    requires k + 2 < |bs|
  {
    && m.off == bs[k].off && m.used == bs[k].used
    && |next'| == |prev'| == |next| == |prev|
    && (forall j :: 0 <= j < |bs| ==> bs[j].off < |next|)
    && next' == next[bs[k].off := bs[k+2].off]
    && (k + 3 < |bs| ==> prev'[bs[k+2].off] == bs[k].off)
    && (forall j :: 0 <= j < |bs| && j != k + 2 ==> prev'[bs[j].off] == prev[bs[j].off])
  }

  lemma JoinHeader(next: seq<nat>, prev: seq<nat>, used: seq<bool>, bs: seq<Block>, k: nat, m: Block, next': seq<nat>, prev': seq<nat>, j: nat)
    requires Chain(next, prev, used, bs) && OffsApart(bs) && k + 2 < |bs| && j < |Splice(bs, k, k + 2, [m])|
    requires JoinWrites(next, prev, bs, k, m, next', prev')
    ensures HeaderAt(next', prev', used, Splice(bs, k, k + 2, [m]), j)
  {
    var c, o := Splice(bs, k, k + 2, [m]), if j <= k then j else j + 1;
    assert HeaderAt(next, prev, used, bs, o) && c[j].off == bs[o].off && c[j].used == bs[o].used;
    assert o != k ==> bs[o].off != bs[k].off;
    if j + 1 < |c| {
      assert c[j+1].off == bs[if j + 1 <= k then j + 1 else j + 2].off;
    }
    if j > 0 {
      assert c[j-1].off == bs[if j - 1 <= k then j - 1 else j].off;
    }
  }

  lemma JoinChain(next: seq<nat>, prev: seq<nat>, used: seq<bool>, bs: seq<Block>, k: nat, m: Block, next': seq<nat>, prev': seq<nat>)
    requires Chain(next, prev, used, bs) && OffsApart(bs) && k + 2 < |bs|
    requires JoinWrites(next, prev, bs, k, m, next', prev')
    ensures Chain(next', prev', used, Splice(bs, k, k + 2, [m]))
  {
    hide JoinWrites, HeaderAt, Splice;
    var c := Splice(bs, k, k + 2, [m]);
    forall j | 0 <= j < |c|
      ensures HeaderAt(next', prev', used, c, j)
    {
      JoinHeader(next, prev, used, bs, k, m, next', prev', j);
    }
  }

  lemma MarkChain(next: seq<nat>, prev: seq<nat>, used: seq<bool>, bs: seq<Block>, i: nat, u: bool)
    requires Chain(next, prev, used, bs) && OffsApart(bs) && i < |bs| && bs[i].off < |used|
    ensures Chain(next, prev, used[bs[i].off := u], bs[i := bs[i].(used := u)])
  {
    var c, v := bs[i := bs[i].(used := u)], used[bs[i].off := u];
    forall k | 0 <= k < |c|
      ensures HeaderAt(next, prev, v, c, k)
    {
      assert HeaderAt(next, prev, used, bs, k);
      assert k != i ==> bs[k].off != bs[i].off;
    }
  }

  class SmallHeap {
    const size: nat          // mem_size_aligned
    const next: array<nat>
    const prev: array<nat>
    const used: array<bool>
    const data: array<bv8>
    var lfree: nat
    var usedMem: nat
    var maxMem: nat
    ghost var blocks: seq<Block>

    ghost function State(): Heap
      reads this
    {
      Heap(size, blocks, lfree, usedMem, maxMem)
    }

    function End(): nat { size + HDR }

    ghost predicate Shape() {
      && next != prev && (data as object) != next && (data as object) != prev && (data as object) != used
      && next.Length == prev.Length == used.Length == End() + 1
      && data.Length == End()
    }

    ghost predicate Links()
      reads this`blocks, next, prev, used
    {
      Shape() && Chain(next[..], prev[..], used[..], blocks)
    }

    ghost predicate Valid()
      reads this, next, prev, used
    {
      Shape() && Links() && Inv(State())
    }

    /** rt_system_heap_init between two addresses whose aligned distance leaves room for two headers;
        rt_malloc needs room for the smallest block as well. */
    constructor (begin: nat, end: nat)
      requires Align(begin) + 2 * HDR <= end / 4 * 4 && end < WORD
      ensures Links() && State() == Init(end / 4 * 4 - Align(begin) - 2 * HDR) && Lowest(State())
      ensures Valid() <==> Align(begin) + 2 * HDR + MIN_SIZE <= end / 4 * 4
      ensures fresh(next) && fresh(prev) && fresh(used) && fresh(data)
    {
      var n := end / 4 * 4 - Align(begin) - 2 * HDR;
      size := n;
      next := new nat[n + HDR + 1];
      prev := new nat[n + HDR + 1];
      used := new bool[n + HDR + 1];
      data := new bv8[n + HDR];
      lfree, usedMem, maxMem := 0, 0, 0;
      blocks := Init(n).blocks;
      new;
      if n >= MIN_SIZE {
        InitInv(n);
      }
      next[0], prev[0], used[0] := n + HDR, 0, false;
      next[n + HDR], prev[n + HDR], used[n + HDR] := n + HDR, n + HDR, true;
      forall i | 0 <= i < |blocks|
        ensures HeaderAt(next[..], prev[..], used[..], blocks, i)
      {
      }
    }

    /** The header of block `i` leads to the headers around it. */
    lemma BlockAt(i: nat)
      requires Links() && i < |blocks|
      ensures Shape() && blocks[i].off <= End() && used[blocks[i].off] == blocks[i].used
      ensures i + 1 < |blocks| ==> next[blocks[i].off] == blocks[i+1].off
      ensures i + 1 == |blocks| ==> next[blocks[i].off] == blocks[i].off
      ensures i + 1 < |blocks| ==> prev[blocks[i].off] == blocks[if i > 0 then i - 1 else 0].off
    {
      assert HeaderAt(next[..], prev[..], used[..], blocks, i);
    }

    // ---- the header writes that the calls below share ----

    /** Creates the header `mid[1]` inside block `i`; the link back into it is skipped in front of heap_end. */
    method CutBlock(ptr: nat, ptr2: nat, mark: bool, ghost i: nat, ghost mid: seq<Block>)
      requires Links() && OffsApart(blocks) && i + 1 < |blocks| && blocks[i].off == ptr && blocks[|blocks|-1].off == End()
      requires |mid| == 2 && mid[0].off == ptr && mid[0].used == mark && mid[1].off == ptr2 <= End() && !mid[1].used
      requires forall k :: 0 <= k < |blocks| ==> blocks[k].off != ptr2
      modifies this`blocks, next, prev, used
      ensures Links() && blocks == Splice(old(blocks), i, i + 1, mid)
    {
      BlockAt(i);
      BlockAt(i + 1);
      forall k | 0 <= k < |blocks|
        ensures blocks[k].off <= End()
      {
        BlockAt(k);
      }
      used[ptr2] := false;
      next[ptr2] := next[ptr];
      prev[ptr2] := ptr;
      next[ptr] := ptr2;
      used[ptr] := mark;
      if next[ptr2] != size + HDR {
        prev[next[ptr2]] := ptr2;
      }
      CutChain(old(next[..]), old(prev[..]), old(used[..]), blocks, i, mid, next[..], prev[..], used[..]);
      blocks := Splice(blocks, i, i + 1, mid);
    }

    method MarkBlock(ptr: nat, u: bool, ghost i: nat)
      requires Links() && OffsApart(blocks) && i < |blocks| && blocks[i].off == ptr <= End()
      modifies this`blocks, used
      ensures Links() && blocks == old(blocks)[i := old(blocks)[i].(used := u)]
    {
      MarkChain(next[..], prev[..], used[..], blocks, i, u);
      used[ptr] := u;
      blocks := blocks[i := blocks[i].(used := u)];
    }

    /** Block `k`, whose header is at `mem`, swallows the block behind it. */
    method JoinBlock(mem: nat, nmem: nat, ghost k: nat)
      requires Links() && OffsApart(blocks) && k + 2 < |blocks| && blocks[k].off == mem && blocks[k+1].off == nmem
      modifies this`blocks, next, prev
      ensures Links() && blocks == Splice(old(blocks), k, k + 2, [Merge(old(blocks)[k], old(blocks)[k+1], HDR)])
    {
      BlockAt(k);
      BlockAt(k + 1);
      BlockAt(k + 2);
      ghost var m := Merge(blocks[k], blocks[k+1], HDR);
      forall j | 0 <= j < |blocks|
        ensures blocks[j].off <= End()
      {
        BlockAt(j);
      }
      next[mem] := next[nmem];
      prev[next[nmem]] := mem;
      JoinChain(old(next[..]), old(prev[..]), used[..], blocks, k, m, next[..], prev[..]);
      blocks := Splice(blocks, k, k + 2, [m]);
    }

    /** plug_holes on the free block `i`. */
    method PlugHoles(mem: nat, ghost bs: seq<Block>, ghost i: nat)
      requires i + 1 < |bs| && bs[i].off == mem && Tiled(bs, HDR, End()) && NoTwoFree(bs)
      requires Links() && blocks == bs[i := bs[i].(used := false)]
      modifies this`blocks, this`lfree, next, prev
      ensures Links() && blocks == Freed(bs, HDR, i)
      ensures lfree == Plugged(bs, i, old(lfree))
    {
      hide Links, NoTwoFree, Contiguous, Freed;
      FreedForwardFirst(bs, HDR, End(), i);
      OffsDistinct(bs, HDR, End());
      JoinForward(mem, blocks, i);
      JoinBackward(mem, blocks, i) by {
        JoinApart(bs[i := bs[i].(used := false)], i);
      }
    }

    lemma JoinApart(bs: seq<Block>, i: nat)
      requires OffsApart(bs) && i + 1 < |bs|
      ensures OffsApart(JoinedRight(bs, HDR, i))
    {
      var d := JoinedRight(bs, HDR, i);
      forall a, b | 0 <= a < b < |d|
        ensures d[a].off != d[b].off
      {
        assert d[a].off == bs[if a <= i || bs[i+1].used then a else a + 1].off;
        assert d[b].off == bs[if b <= i || bs[i+1].used then b else b + 1].off;
      }
    }

    /** Plug hole forward. */
    method JoinForward(mem: nat, ghost bs: seq<Block>, ghost i: nat)
      requires Links() && OffsApart(bs) && blocks == bs && i + 1 < |bs| && bs[i].off == mem
      requires (!bs[i+1].used ==> i + 2 < |bs|) && bs[|bs|-1] == Block(End(), 0, true)
      modifies this`blocks, this`lfree, next, prev
      ensures Links() && blocks == JoinedRight(bs, HDR, i)
      ensures lfree == if !bs[i+1].used && old(lfree) == bs[i+1].off then mem else old(lfree)
    {
      hide Links;
      BlockAt(i);
      BlockAt(i + 1);
      var nmem := next[mem];
      if mem != nmem && !used[nmem] && nmem != End() {
        if lfree == nmem {
          lfree := mem;
        }
        JoinBlock(mem, nmem, i);
      }
    }

    /** Plug hole backward. */
    method JoinBackward(mem: nat, ghost bs: seq<Block>, ghost i: nat)
      requires Links() && OffsApart(bs) && blocks == bs && i + 1 < |bs| && bs[i].off == mem
      modifies this`blocks, this`lfree, next, prev
      ensures Links() && blocks == JoinedBack(bs, HDR, i)
      ensures lfree == if i > 0 && !bs[i-1].used && old(lfree) == mem then bs[i-1].off else old(lfree)
    {
      hide Links;
      BlockAt(i);
      BlockAt(if i > 0 then i - 1 else 0);
      var pmem := prev[mem];
      if pmem != mem && !used[pmem] {
        if lfree == mem {
          lfree := pmem;
        }
        JoinBlock(pmem, mem, i - 1);
      }
    }

    // ---- rt_malloc ----

    /** The search loop of rt_malloc. */
    method FindFit(n: nat) returns (found: bool, ptr: nat)
      requires Valid() && n <= size
      ensures found <==> Choose(State(), n).Some?
      ensures found ==> var j := Choose(State(), n).value; j < |blocks| && ptr == blocks[j].off
    {
      hide Inv, Links;
      ghost var s := State();
      SearchFacts(s);
      ghost var k := IndexOf(blocks, lfree);
      ptr := lfree;
      found := false;
      while ptr < size - n && !found
        invariant k < |blocks| && ptr == blocks[k].off
        invariant !found ==> Choose(s, n) == Search(blocks, k, n, size - n)
        invariant found ==> Choose(s, n) == Some(k)
        decreases |blocks| - k, !found
      {
        BlockAt(k);
        if !used[ptr] && next[ptr] - (ptr + HDR) >= n {
          found := true;
        } else {
          ptr := next[ptr];
          k := k + 1;
        }
      }
    }

    /** Moves `lfree` up to the next free block. */
    method AdvanceLfree(ghost j: nat)
      requires Links() && OffsApart(blocks) && j < |blocks| && lfree == blocks[j].off && blocks[|blocks|-1].off == End()
      modifies this`lfree
      ensures lfree == NextFree(blocks, j)
    {
      hide Links;
      ghost var k := j;
      BlockAt(k);
      while used[lfree] && lfree != End()
        invariant k < |blocks| && lfree == blocks[k].off <= End() && used[lfree] == blocks[k].used
        invariant NextFree(blocks, j) == NextFree(blocks, k)
        decreases |blocks| - k
      {
        BlockAt(k);
        lfree := next[lfree];
        k := k + 1;
        BlockAt(k);
      }
    }

    /** The counters of RT_MEM_STATS. */
    method Count(n: nat)
      modifies this`usedMem, this`maxMem
      ensures usedMem == old(usedMem) + n
      ensures maxMem == if old(maxMem) < usedMem then usedMem else old(maxMem)
    {
      usedMem := usedMem + n;
      if maxMem < usedMem {
        maxMem := usedMem;
      }
    }

    /** Hands out the free block `j`, splitting it when the rest can hold a block of its own. */
    method TakeBlock(mem: nat, n: nat, ghost j: nat)
      requires Valid() && j + 1 < |blocks| && !blocks[j].used && blocks[j].size >= n && n % 4 == 0 && blocks[j].off == mem
      modifies this, next, prev, used
      ensures Valid() && State() == Take(old(State()), j, n)
    {
      hide Inv, Links, OffsApart, NextFree;
      ghost var s := State();
      ghost var b := blocks[j];
      TakeFacts(s, j, n);
      TakeInv(s, j, n);
      BlockAt(j);
      if next[mem] - (mem + HDR) >= n + HDR + MIN_SIZE {
        var ptr2 := mem + HDR + n;
        CutBlock(mem, ptr2, true, j, [Block(b.off, n, true), Block(b.off + HDR + n, b.size - n - HDR, false)]);
        Count(n + HDR);
      } else {
        MarkBlock(mem, true, j);
        Count(next[mem] - mem);
      }
      if mem == lfree {
        AdvanceLfree(j);
      }
      assert State() == Take(s, j, n);
    }

    /** The calls on a heap without room for the smallest block that are left out here are those that do not
        come to an end. */
    method RtMalloc(bytes: nat) returns (r: Option<nat>)
      requires Valid() || (Links() && Refused(State(), bytes))
      requires bytes < WORD
      modifies this, next, prev, used
      ensures old(Valid()) ==> Valid() && (State(), r) == Malloc(old(State()), bytes)
      ensures Refused(old(State()), bytes) ==> r == None && State() == old(State()) && Links()
    {
      hide Inv, Links, Choose;
      r := None;
      if bytes != 0 {
        var n := Align(bytes);
        if n <= size {
          if n < MIN_SIZE {
            n := MIN_SIZE;
          }
          r := MallocSearch(bytes, n);
        }
      }
    }

    /** rt_malloc past the size tests. */
    method MallocSearch(ghost bytes: nat, n: nat) returns (r: Option<nat>)
      requires Valid() && !Refused(State(), bytes) && n == Request(bytes)
      modifies this, next, prev, used
      ensures Valid() && (State(), r) == Malloc(old(State()), bytes)
    {
      hide Inv, Links, Choose;
      ghost var s := State();
      r := None;
      AtLeastMin(s);
      ChooseFits(s, n);
      var found, mem := FindFit(n);
      if found {
        TakeBlock(mem, n, Choose(s, n).value);
        r := Some(mem + HDR);
      }
    }

    // ---- rt_free ----

    /** rt_free on a pointer into the heap. */
    method Release(ptr: nat)
      requires Valid() && Held(State(), ptr)
      modifies this, next, prev, used
      ensures Valid() && State() == Free(old(State()), ptr)
    {
      hide Inv, Links, Held, Freed;
      ghost var s := State();
      ghost var i := Find(s, ptr);
      FreeFacts(s, i);
      FreeKeeps(s, ptr);
      var mem := ptr - HDR;
      BlockAt(i);
      MarkBlock(mem, false, i);
      if mem < lfree {
        lfree := mem;
      }
      usedMem := usedMem - (next[mem] - mem);
      PlugHoles(mem, s.blocks, i);
      assert State() == Free(s, ptr);
    }

    method RtFree(ptr: Option<nat>)
      requires Valid() && (ptr.Some? ==> Held(State(), ptr.value) || ptr.value >= End())
      modifies this, next, prev, used
      ensures Valid()
      ensures State() == if ptr.None? || ptr.value >= End() then old(State()) else Free(old(State()), ptr.value)
    {
      hide Inv, Links, Held;
      if ptr.Some? && ptr.value < End() {
        Release(ptr.value);
      }
    }

    // ---- rt_realloc ----

    /** Cutting the end off block `i`. */
    method ShrinkInPlace(ptr: nat, size0: nat, newsize: nat, ghost i: nat)
      requires Valid() && i + 1 < |blocks| && blocks[i].used && blocks[i].size == size0 >= newsize + HDR + MIN_SIZE && newsize % 4 == 0
      requires ptr == blocks[i].off
      modifies this, next, prev, used
      ensures Valid() && State() == Shrink(old(State()), i, newsize)
    {
      hide Inv, Links, Freed, Plugged;
      ghost var s := State();
      ghost var b := blocks[i];
      ghost var c := Cut(blocks, HDR, i, newsize);
      ShrinkFacts(s, i, newsize);
      ShrinkKeeps(s, i, newsize);
      usedMem := usedMem - (size0 - newsize);
      var ptr2 := ptr + HDR + newsize;
      CutBlock(ptr, ptr2, true, i, [Block(b.off, newsize, true), Block(b.off + HDR + newsize, b.size - newsize - HDR, false)]);
      assert blocks == c[i+1 := c[i+1].(used := false)];
      PlugHoles(ptr2, c, i + 1);
      assert State() == Shrink(s, i, newsize);
    }

    /** Moving block `i` to a new place: allocate, copy, release. */
    method MoveBlock(ptr: nat, size0: nat, newsize: nat, ghost i: nat) returns (r: Option<nat>)
      requires Valid() && Held(State(), ptr) && i == Find(State(), ptr) && blocks[i].size == size0
      requires newsize % 4 == 0 && 0 < newsize <= size
      modifies this, next, prev, used, data
      ensures Valid() && Moved(old(State()), ptr, newsize, State(), r)
      ensures r.None? ==> data[..] == old(data[..])
      ensures r.Some? ==> Copied(old(data[..]), data[..], ptr, r.value, Min(size0, newsize))
      ensures Kept(old(data[..]), data[..], old(blocks), HDR, ptr)
    {
      hide Inv, Links, Held, Moved, Kept, Copied;
      ghost var s := State();
      ghost var bytes := data[..];
      MallocKeeps(s, newsize);
      RequestStable(s, newsize);
      FreeFacts(s, i);
      HeldLive(s, ptr);
      r := RtMalloc(newsize);
      assert data[..] == bytes;
      if r.Some? {
        CopyTarget(s, newsize, State(), r.value, s.blocks[i]);
        RtMemcpy(data, r.value, ptr, Min(size0, newsize));
        KeptApart(bytes, data[..], s.blocks, HDR, ptr, r.value, Min(size0, newsize));
        ghost var copy := data[..];
        Release(ptr);
        assert data[..] == copy;
      } else {
        KeptSame(bytes, s.blocks, HDR, ptr);
      }
      MovedBy(s, ptr, newsize, State(), r);
    }

    /** rt_realloc on a held block and a rounded size. */
    method Resize(ptr: nat, newsize: nat, ghost i: nat) returns (r: Option<nat>)
      requires Valid() && Held(State(), ptr) && i == Find(State(), ptr)
      requires newsize % 4 == 0 && 0 < newsize <= size
      modifies this, next, prev, used, data
      ensures Valid() && (State(), r) == Resized(old(State()), ptr, newsize)
      ensures r.None? ==> data[..] == old(data[..])
      ensures r.Some? ==> Copied(old(data[..]), data[..], ptr, r.value, Min(old(blocks)[i].size, newsize))
      ensures Kept(old(data[..]), data[..], old(blocks), HDR, ptr)
    {
      hide Inv, Links, Held, Kept;
      ghost var s := State();
      FreeFacts(s, i);
      BlockAt(i);
      KeptSame(data[..], blocks, HDR, ptr);
      var mem := ptr - HDR;
      var size0 := next[mem] - mem - HDR;
      r := Some(ptr);
      if size0 != newsize {
        if newsize + HDR + MIN_SIZE < size0 {
          ShrinkInPlace(mem, size0, newsize, i);
        } else {
          r := MoveBlock(ptr, size0, newsize, i);
          ResizedByMove(s, ptr, newsize, State(), r);
        }
      }
    }

    method RtRealloc(rmem: Option<nat>, bytes: nat) returns (r: Option<nat>)
      requires Valid() && bytes < WORD && (rmem.Some? ==> Held(State(), rmem.value) || rmem.value >= End())
      modifies this, next, prev, used, data
      ensures Valid() && (State(), r) == Realloc(old(State()), rmem, bytes)
      ensures r.None? ==> data[..] == old(data[..])
      ensures r.None? && bytes > 0 && rmem.Some? && rmem.value < End() ==> (State() == old(State()) <==> bytes <= 0xFFFF_FFFC)
      ensures rmem.Some? && rmem.value < End() && r.Some? ==>
        Copied(old(data[..]), data[..], rmem.value, r.value, Min(old(blocks)[Find(old(State()), rmem.value)].size, Align(bytes)))
      ensures rmem.Some? && rmem.value < End() ==> Kept(old(data[..]), data[..], old(blocks), HDR, rmem.value)
    {
      hide Inv, Links, Held, Kept;
      KeptSame(data[..], blocks, HDR, if rmem.Some? then rmem.value else 0);
      if bytes > 0 && rmem.Some? && rmem.value < End() && Realloc(State(), rmem, bytes).1.None? {
        FailureKeeps(State(), rmem.value, bytes);
      }
      var newsize := Align(bytes);
      r := None;
      if newsize <= size {
        if newsize == 0 {
          RtFree(rmem);
        } else if rmem.None? {
          r := RtMalloc(newsize);
        } else if rmem.value >= End() {
          r := rmem;
        } else {
          r := Resize(rmem.value, newsize, Find(State(), rmem.value));
        }
      }
    }
  }
}
