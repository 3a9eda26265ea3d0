/** memheap.c: the pool with its two rings, updated in place.

    Header fields live in arrays indexed by the address of the header inside
    the pool; the free-list header, which lies outside of the pool, has the
    index `size`.  Payload bytes are kept in a separate array under the same
    addresses.  Every method is proved against the functions of MemHeapSpec. */
module MemHeap {
  import opened BlockList
  import opened MemHeapSpec
  import opened RtDef
  import opened Lists
  import opened Memory
  import L = RtList

  /** The used bit of every header. */
  ghost predicate Flags(used: seq<bool>, bs: seq<Block>) {
    forall i :: 0 <= i < |bs| ==> bs[i].off < |used| && used[bs[i].off] == bs[i].used
  }

  lemma FlagsSplice(used: seq<bool>, bs: seq<Block>, i: nat, j: nat, mid: seq<Block>, used': seq<bool>)
    requires Flags(used, bs) && i <= j <= |bs| && Flags(used', mid) && |used'| == |used|
    requires forall k :: (0 <= k < i || j <= k < |bs|) ==> bs[k].off < |used| && used'[bs[k].off] == used[bs[k].off]
    ensures Flags(used', Splice(bs, i, j, mid))
  {
    var c := Splice(bs, i, j, mid);
    forall k | 0 <= k < |c|
      ensures c[k].off < |used'| && used'[c[k].off] == c[k].used
    {
      if k < i {
        assert c[k] == bs[k];
      } else if k < i + |mid| {
        assert c[k] == mid[k-i];
      } else {
        assert c[k] == bs[k - i - |mid| + j];
      }
    }
  }

  /** Cutting a block in two adds one address behind its own. */
  lemma OffsInsert(bs: seq<Block>, i: nat, mid: seq<Block>)
    requires i < |bs| && |mid| == 2 && mid[0].off == bs[i].off
    ensures Offs(Splice(bs, i, i + 1, mid)) == Inserted(Offs(bs), i + 1, mid[1].off)
  {
  }

  class Heap {
    const size: nat
    const next: array<nat>
    const prev: array<nat>
    const nextFree: array<nat>
    const prevFree: array<nat>
    const used: array<bool>
    const data: array<bv8>
    var available: nat
    var maxUsed: nat
    ghost var blocks: seq<Block>
    ghost var frees: seq<nat>

    ghost function State(): Pool
      reads this`blocks, this`frees, this`maxUsed
    {
      Pool(size, blocks, frees, maxUsed)
    }

    ghost const Repr: set<object> := {this, next, prev, nextFree, prevFree, used}

    ghost predicate Shape() {
      && next != prev && next != nextFree && next != prevFree
      && prev != nextFree && prev != prevFree && nextFree != prevFree
      && next.Length == prev.Length == nextFree.Length == prevFree.Length == used.Length == size + 1
    }

    /** Payload bytes are kept apart from every header. */
    ghost predicate DataApart() {
      && data.Length == size
      && (data as object) != next && (data as object) != prev && (data as object) != nextFree
      && (data as object) != prevFree && (data as object) != used
    }

    ghost predicate Links()
      reads this`blocks, this`frees, next, prev, nextFree, prevFree, used
    {
      && Shape()
      && L.Linked(next[..], prev[..], Offs(blocks))
      && L.Linked(nextFree[..], prevFree[..], [size] + frees)
      && Flags(used[..], blocks)
    }

    /** The fields and links say what State() says. */
    ghost predicate Wired()
      reads this, next, prev, nextFree, prevFree, used
    {
      DataApart() && Links() && available == FreeBytes(blocks)
    }

    ghost predicate Valid()
      reads this, next, prev, nextFree, prevFree, used
    {
      Wired() && Inv(State())
    }

    /** rt_memheap_init: one free block and the used tailer. */
    constructor (poolSize: nat)
      requires 2 * HDR <= poolSize < WORD
      ensures Valid() && State() == Init(poolSize)
      ensures fresh(next) && fresh(prev) && fresh(nextFree) && fresh(prevFree) && fresh(used) && fresh(data)
    {
      var s := poolSize / 4 * 4;
      size := s;
      next := new nat[s + 1];
      prev := new nat[s + 1];
      nextFree := new nat[s + 1];
      prevFree := new nat[s + 1];
      used := new bool[s + 1];
      data := new bv8[s];
      available := s - 2 * HDR;
      maxUsed := 2 * HDR;
      blocks := Init(poolSize).blocks;
      frees := [0];
      new;
      InitRings();
      InitInv(poolSize);
    }

    /** The header writes of rt_memheap_init. */
    method InitRings()
      requires Shape() && size >= 2 * HDR && available == size - 2 * HDR
      requires blocks == [Block(0, size - 2 * HDR, false), Block(size - HDR, 0, true)] && frees == [0]
      modifies next, prev, nextFree, prevFree, used
      ensures Links()
    {
      nextFree[size], prevFree[size] := size, size;
      used[0] := false;
      next[0] := available + HDR;
      prev[0] := next[0];
      nextFree[0] := nextFree[size];
      prevFree[0] := size;
      prevFree[nextFree[size]] := 0;
      nextFree[size] := 0;
      var tail := next[0];
      used[tail] := true;
      next[tail], prev[tail] := 0, 0;
      InitLinks();
    }

    ghost method InitLinks()
      requires Shape() && size >= 2 * HDR && blocks == [Block(0, size - 2 * HDR, false), Block(size - HDR, 0, true)] && frees == [0]
      requires next[0] == prev[0] == size - HDR && next[size - HDR] == prev[size - HDR] == 0
      requires nextFree[0] == prevFree[0] == size && nextFree[size] == prevFree[size] == 0
      requires !used[0] && used[size - HDR]
      ensures Links()
    {
      var r, f := Offs(blocks), [size] + frees;
      forall i | 0 <= i < 2
        ensures L.LinkAt(next[..], prev[..], r, i) && L.LinkAt(nextFree[..], prevFree[..], f, i)
      {
      }
    }

    // ---- the link writes that the calls below share ----

    /** Puts `n` at the front of the free list. */
    method LinkFree(n: nat, ghost fs: seq<nat>)
      requires Shape() && L.Linked(nextFree[..], prevFree[..], [size] + fs) && n !in fs && n < size
      modifies nextFree, prevFree
      ensures L.Linked(nextFree[..], prevFree[..], [size] + ([n] + fs))
    {
      ghost var r := [size] + fs;
      L.RtListInsertAfter(nextFree, prevFree, size, n, r, 0);
      assert Inserted(r, 1, n) == [size] + ([n] + fs);
    }

    /** Takes `x` out of the free list. */
    method UnlinkFree(x: nat, ghost fs: seq<nat>)
      requires Shape() && L.Linked(nextFree[..], prevFree[..], [size] + fs) && x in fs && Distinct(fs)
      modifies nextFree, prevFree
      ensures L.Linked(nextFree[..], prevFree[..], [size] + Without(fs, x))
    {
      ghost var r := [size] + fs;
      ghost var k :| 0 <= k < |fs| && fs[k] == x;
      L.Unlink(nextFree, prevFree, x, r, k + 1);
      WithoutAt(fs, k);
      assert Removed(r, k + 1) == [size] + Without(fs, x);
    }

    /** The header of block `i` leads to the headers around it. */
    lemma BlockAt(i: nat)
      requires Links() && i < |blocks|
      ensures Shape() && blocks[i].off <= size && used[blocks[i].off] == blocks[i].used
      ensures next[blocks[i].off] == blocks[if i + 1 == |blocks| then 0 else i + 1].off
      ensures prev[blocks[i].off] == blocks[if i == 0 then |blocks| - 1 else i - 1].off
    {
      var r := Offs(blocks);
      assert L.LinkAt(next[..], prev[..], r, i);
      assert r[i] == blocks[i].off;
    }

    /** MEMITEM_SIZE of a free block, computed from its header. */
    ghost predicate Sized(o: nat)
      reads this, next
    {
      o < size < next.Length && HasOff(blocks, o) && next[o] == o + HDR + blocks[IndexOf(blocks, o)].size
    }

    lemma FreesSized()
      requires Valid()
      ensures forall o :: o in frees ==> Sized(o)
    {
      FreeHasOff(State());
      forall o | o in frees
        ensures Sized(o)
      {
        BlockAt(IndexOf(blocks, o));
        assert Joined(blocks[IndexOf(blocks, o)], blocks[IndexOf(blocks, o) + 1], HDR);
        Ordered(blocks, HDR, IndexOf(blocks, o), |blocks| - 1);
      }
    }

    /** The search of rt_memheap_alloc along the free list. */
    method FindFree(n: nat) returns (header: nat, freeSize: nat)
      requires Links() && n > 0
      requires forall o :: o in frees ==> HasOff(blocks, o)
      requires forall o :: o in frees ==> Sized(o)
      ensures FirstFit(blocks, frees, n) == (if freeSize >= n then Some(header) else None)
      ensures freeSize >= n ==> header in frees && freeSize == blocks[IndexOf(blocks, header)].size
    {
      hide Links, FirstFit, IndexOf, HasOff;
      freeSize := 0;
      ghost var k := 0;
      NextFree(0);
      header := nextFree[size];
      assert frees[0..] == frees;
      while header != size && freeSize < n
        invariant k <= |frees| && header == (if k < |frees| then frees[k] else size)
        invariant forall o :: o in frees[k..] ==> HasOff(blocks, o)
        invariant FirstFit(blocks, frees, n) == FirstFit(blocks, frees[k..], n)
        invariant freeSize >= n ==> k < |frees| && freeSize == blocks[IndexOf(blocks, frees[k])].size
        decreases |frees| - k, n - freeSize
      {
        assert header in frees && Sized(header);
        FirstFitStep(blocks, frees, k, n);
        freeSize := next[header] - header - HDR;
        if freeSize < n {
          NextFree(k + 1);
          header := nextFree[header];
          k := k + 1;
        }
      }
      if k < |frees| {
        NextFree(k + 1);
        assert frees[k] in frees && Sized(frees[k]);
      }
      FirstFitStep(blocks, frees, k, n);
    }

    /** Where the free list leads from its head, or from its `k`th block. */
    lemma NextFree(k: nat)
      requires Links() && k <= |frees|
      ensures size < nextFree.Length && (0 < k ==> frees[k-1] < nextFree.Length)
      ensures nextFree[if k == 0 then size else frees[k-1]] == if k < |frees| then frees[k] else size
    {
      ghost var r := [size] + frees;
      assert L.LinkAt(nextFree[..], prevFree[..], r, k);
      assert L.LinkAt(nextFree[..], prevFree[..], r, 0);
    }

    /** The bookkeeping of available_size and max_used_size when bytes are handed out. */
    method Charge(n: nat)
      modifies this`available, this`maxUsed
      ensures available == Wrap(old(available) - n)
      ensures n <= old(available) < WORD ==> available == old(available) - n
      ensures maxUsed == HighWater(size, available, old(maxUsed))
    {
      Wraps(available - n);
      available := Wrap(available - n);
      if Wrap(size - available) > maxUsed {
        maxUsed := Wrap(size - available);
      }
    }

    /** The link writes that cut block `i` at `newPtr` and swap the two in the free list. */
    method WriteSplit(header: nat, newPtr: nat, ghost i: nat, ghost mid: seq<Block>)
      requires Links() && Distinct(frees) && i < |blocks| && blocks[i].off == header
      requires |mid| == 2 && mid[0].off == header && mid[0].used && mid[1].off == newPtr && !mid[1].used
      requires header in frees && header < size && newPtr < size && newPtr !in Without(frees, header)
      requires forall k :: 0 <= k < |blocks| ==> blocks[k].off != newPtr && (k != i ==> blocks[k].off != header)
      modifies this`blocks, this`frees, next, prev, nextFree, prevFree, used
      ensures Links()
      ensures blocks == Splice(old(blocks), i, i + 1, mid) && frees == [newPtr] + Without(old(frees), header)
    {
      used[newPtr] := false;
      L.RtListInsertAfter(next, prev, header, newPtr, Offs(blocks), i);
      UnlinkFree(header, frees);
      LinkFree(newPtr, Without(frees, header));
      used[header] := true;
      OffsInsert(blocks, i, mid);
      FlagsSplice(old(used[..]), blocks, i, i + 1, mid, used[..]);
      blocks := Splice(blocks, i, i + 1, mid);
      frees := [newPtr] + Without(frees, header);
    }

    /** rt_memheap_alloc on a block with room for a second one. */
    method TakeSplit(header: nat, n: nat, ghost i: nat)
      requires Valid() && i + 1 < |blocks| && !blocks[i].used && blocks[i].off == header
      requires blocks[i].size >= n + HDR + MINIALLOC && n % 4 == 0
      modifies this`available, this`maxUsed, this`blocks, this`frees, next, prev, nextFree, prevFree, used
      ensures Valid() && State() == Take(old(State()), i, n)
    {
      hide Inv, Links, HighWater;
      ghost var p := State();
      ghost var b := blocks[i];
      SplitFacts(p, i, header + n + HDR);
      TakeSplitInv(p, i, n);
      TakeSplitBytes(p, i, n);
      var newPtr := header + n + HDR;
      WriteSplit(header, newPtr, i, [Block(b.off, n, true), Block(b.off + HDR + n, b.size - n - HDR, false)]);
      Charge(n + HDR);
      assert State() == Take(p, i, n);
    }

    /** The writes that hand out block `i` whole. */
    method WriteWhole(header: nat, ghost i: nat)
      requires Links() && Distinct(frees) && i < |blocks| && blocks[i].off == header && header in frees && header < size
      requires forall k :: 0 <= k < |blocks| && k != i ==> blocks[k].off != header
      modifies this`blocks, this`frees, nextFree, prevFree, used
      ensures Links()
      ensures blocks == old(blocks)[i := old(blocks)[i].(used := true)] && frees == Without(old(frees), header)
    {
      ghost var b := blocks[i];
      UnlinkFree(header, frees);
      used[header] := true;
      FlagsSplice(old(used[..]), blocks, i, i + 1, [b.(used := true)], used[..]);
      blocks := blocks[i := b.(used := true)];
      frees := Without(frees, header);
      assert blocks == Splice(old(blocks), i, i + 1, [b.(used := true)]);
      assert Offs(blocks) == Offs(old(blocks));
    }

    /** rt_memheap_alloc on a block that is handed out whole. */
    method TakeWhole(header: nat, freeSize: nat, ghost n: nat, ghost i: nat)
      requires Valid() && i + 1 < |blocks| && !blocks[i].used && blocks[i].off == header && blocks[i].size == freeSize
      requires n <= freeSize < n + HDR + MINIALLOC
      modifies this`available, this`maxUsed, this`blocks, this`frees, nextFree, prevFree, used
      ensures Valid() && State() == Take(old(State()), i, n)
    {
      hide Inv, Links, HighWater;
      ghost var p := State();
      WholeFacts(p, i);
      TakeWholeInv(p, i, n);
      Charge(freeSize);
      WriteWhole(header, i);
      assert State() == Take(p, i, n);
    }

    /** rt_memheap_alloc */
    method RtMemheapAlloc(bytes: nat) returns (r: Option<nat>)
      requires Valid() && bytes < WORD
      modifies this`available, this`maxUsed, this`blocks, this`frees, next, prev, nextFree, prevFree, used
      ensures Valid() && (State(), r) == Alloc(old(State()), bytes)
    {
      hide Inv, Links, HighWater;
      ghost var p := State();
      FreeHasOff(p);
      FreesSized();
      var n := Request(bytes);
      if n < available {
        var header, freeSize := FindFree(n);
        if freeSize >= n {
          ghost var i := IndexOf(blocks, header);
          if freeSize >= n + HDR + MINIALLOC {
            TakeSplit(header, n, i);
          } else {
            TakeWhole(header, freeSize, n, i);
          }
          return Some(header + HDR);
        }
      }
      r := None;
    }

    // ---- rt_memheap_free ----

    /** Drops the header of block `k + 1`, which block `k` swallows. */
    method JoinBlock(x: nat, ghost k: nat)
      requires Links() && k + 1 < |blocks| && blocks[k+1].off == x && x <= size
      modifies this`blocks, next, prev
      ensures Links() && blocks == Splice(old(blocks), k, k + 2, [Merge(old(blocks)[k], old(blocks)[k+1], HDR)])
    {
      ghost var bs := blocks;
      ghost var m := Merge(bs[k], bs[k+1], HDR);
      L.Unlink(next, prev, x, Offs(bs), k + 1);
      blocks := Splice(bs, k, k + 2, [m]);
      FlagsSplice(used[..], bs, k, k + 2, [m], used[..]);
      assert Offs(blocks) == Removed(Offs(bs), k + 1);
    }

    method MarkFree(header: nat, ghost i: nat)
      requires Links() && i < |blocks| && blocks[i].off == header && header <= size
      requires forall k :: 0 <= k < |blocks| && k != i ==> blocks[k].off != header
      modifies this`blocks, used
      ensures Links() && blocks == old(blocks)[i := old(blocks)[i].(used := false)]
    {
      ghost var b := blocks[i].(used := false);
      used[header] := false;
      FlagsSplice(old(used[..]), blocks, i, i + 1, [b], used[..]);
      blocks := blocks[i := b];
      assert blocks == Splice(old(blocks), i, i + 1, [b]);
      assert Offs(blocks) == Offs(old(blocks));
    }

    /** Joins the freed block `i` to a free left neighbour. */
    method MergeLeft(header: nat, ghost bs: seq<Block>, ghost i: nat) returns (h: nat, insertHeader: bool)
      requires Links() && i < |bs| && blocks == bs[i := bs[i].(used := false)]
      requires header == bs[i].off && bs[|bs|-1].used && i + 1 < |bs|
      modifies this`available, this`blocks, next, prev
      ensures Links() && blocks == JoinedLeft(bs, HDR, i)
      ensures h == bs[FreedLo(bs, i)].off && (insertHeader <==> FreedLo(bs, i) == i)
      ensures available == old(available) + if FreedLo(bs, i) < i then HDR else 0
    {
      hide Links;
      h, insertHeader := header, true;
      BlockAt(i);
      BlockAt(if i == 0 then |bs| - 1 else i - 1);
      if !used[prev[header]] {
        available := available + HDR;
        h := prev[header];
        JoinBlock(header, i - 1);
        insertHeader := false;
      }
    }

    /** Joins the free block `k` to a free right neighbour, which leaves the free list. */
    method MergeRight(header: nat, ghost bs: seq<Block>, ghost k: nat)
      requires Links() && blocks == bs && k + 1 < |bs| && bs[k].off == header && Distinct(frees)
      requires !bs[k+1].used ==> bs[k+1].off in frees && bs[k+1].off < size
      modifies this`available, this`blocks, this`frees, next, prev, nextFree, prevFree
      ensures Links() && blocks == JoinedRight(bs, HDR, k)
      ensures frees == if bs[k+1].used then old(frees) else Without(old(frees), bs[k+1].off)
      ensures available == old(available) + if bs[k+1].used then 0 else HDR
    {
      BlockAt(k);
      BlockAt(k + 1);
      if !used[next[header]] {
        available := available + HDR;
        var newPtr := next[header];
        JoinBlock(newPtr, k);
        UnlinkFree(newPtr, frees);
        frees := Without(frees, newPtr);
      }
    }

    method InsertFree(header: nat, insertHeader: bool)
      requires Links() && header < size && (insertHeader ==> header !in frees)
      modifies this`frees, nextFree, prevFree
      ensures Links() && frees == if insertHeader then [header] + old(frees) else old(frees)
    {
      if insertHeader {
        LinkFree(header, frees);
        frees := [header] + frees;
      }
    }

    /** rt_memheap_free past its NULL check. */
    method Release(ptr: nat)
      requires Valid() && Held(State(), ptr)
      modifies this`available, this`blocks, this`frees, next, prev, nextFree, prevFree, used
      ensures Valid() && State() == Free(old(State()), ptr)
    {
      hide Inv, Links, Held, JoinedLeft, JoinedRight, Freed, FreedLo;
      ghost var p := State();
      ghost var i := Find(p, ptr);
      FreeFacts(p, i);
      FreeKeeps(p, ptr);
      var header := ptr - HDR;
      MarkFree(header, i);
      BlockAt(i);
      available := available + (next[header] - header - HDR);
      var insertHeader;
      header, insertHeader := MergeLeft(header, p.blocks, i);
      ghost var d := blocks;
      MergeRight(header, d, FreedLo(p.blocks, i));
      assert frees == if p.blocks[i+1].used then p.frees else Without(p.frees, p.blocks[i+1].off);
      InsertFree(header, insertHeader);
      assert State() == Free(p, ptr);
    }

    method RtMemheapFree(ptr: Option<nat>)
      requires Valid() && (ptr.Some? ==> Held(State(), ptr.value))
      modifies this`available, this`blocks, this`frees, next, prev, nextFree, prevFree, used
      ensures Valid()
      ensures State() == if ptr.None? then old(State()) else Free(old(State()), ptr.value)
    {
      hide Inv, Links, Held;
      if ptr.Some? {
        Release(ptr.value);
      }
    }

    // ---- rt_memheap_realloc ----

    /** Writes a free header at `newPtr` inside block `i` and links it behind that block. */
    method CutBlock(header: nat, newPtr: nat, ghost i: nat, ghost mid: seq<Block>)
      requires Links() && i < |blocks| && blocks[i].off == header && header <= size && newPtr < size
      requires |mid| == 2 && mid[0].off == header && mid[0].used == blocks[i].used && mid[1].off == newPtr && !mid[1].used
      requires forall k :: 0 <= k < |blocks| ==> blocks[k].off != newPtr
      modifies this`blocks, next, prev, used
      ensures Links() && blocks == Splice(old(blocks), i, i + 1, mid)
    {
      used[newPtr] := false;
      L.RtListInsertAfter(next, prev, header, newPtr, Offs(blocks), i);
      OffsInsert(blocks, i, mid);
      FlagsSplice(old(used[..]), blocks, i, i + 1, mid, used[..]);
      blocks := Splice(blocks, i, i + 1, mid);
    }

    /** Growing block `i` into the free block behind it. */
    method GrowInPlace(header: nat, nextPtr: nat, oldsize: nat, newsize: nat, ghost i: nat)
      requires Valid() && CanGrow(State(), i, newsize) && blocks[i].used && WORD > newsize >= blocks[i].size == oldsize
      requires header == blocks[i].off && nextPtr == blocks[i+1].off
      modifies this`available, this`maxUsed, this`blocks, this`frees, next, prev, nextFree, prevFree, used
      ensures Wired() && State() == Grow(old(State()), i, newsize)
    {
      hide Inv, Links, Splice, Grow, FreeBytes, HighWater;
      ghost var p := State();
      ghost var mid := GrownPair(p, i, newsize);
      GrowFacts(p, i, newsize);
      GrowBytes(p, i, newsize);
      SpliceTwice(blocks, i, Merge(blocks[i], blocks[i+1], HDR), mid, mid[1].off);
      Charge(newsize - oldsize);
      DropFree(nextPtr);
      JoinBlock(nextPtr, i);
      var newPtr := Wrap(header + HDR + newsize);
      CutBlock(header, newPtr, i, mid);
      InsertFree(newPtr, true);
      assert blocks == Splice(p.blocks, i, i + 2, mid);
      assert frees == [mid[1].off] + Without(p.frees, nextPtr);
      GrowIs(p, i, newsize, State());
    }

    method DropFree(x: nat)
      requires Links() && x in frees && Distinct(frees) && x < size
      modifies this`frees, nextFree, prevFree
      ensures Links() && frees == Without(old(frees), x)
    {
      UnlinkFree(x, frees);
      frees := Without(frees, x);
    }

    /** Cutting the end off block `i`. */
    method ShrinkInPlace(header: nat, newsize: nat, ghost i: nat)
      requires Valid() && i + 1 < |blocks| && blocks[i].used && blocks[i].size >= newsize + HDR + MINIALLOC && newsize % 4 == 0
      requires header == blocks[i].off
      modifies this`available, this`blocks, this`frees, next, prev, nextFree, prevFree, used
      ensures Valid() && State() == Shrink(old(State()), i, newsize)
    {
      hide Inv, Links, JoinedRight, Shrink;
      ghost var p := State();
      ghost var b := blocks[i];
      ShrinkInv(p, i, newsize);
      ShrinkFacts(p, i, newsize);
      ShrinkResult(p, i, newsize);
      var newPtr := header + newsize + HDR;
      CutBlock(header, newPtr, i, [Block(b.off, newsize, true), Block(b.off + HDR + newsize, b.size - newsize - HDR, false)]);
      ghost var s := blocks;
      MergeRightShrink(newPtr, s, i + 1);
      assert blocks == Shrink(p, i, newsize).blocks;
      InsertFree(newPtr, true);
      BlockAt(i + 1);
      available := available + (next[newPtr] - newPtr - HDR);
      assert State() == Shrink(p, i, newsize);
    }

    /** As MergeRight, with the bookkeeping rt_memheap_realloc does. */
    method MergeRightShrink(header: nat, ghost bs: seq<Block>, ghost k: nat)
      requires Links() && blocks == bs && k + 1 < |bs| && bs[k].off == header && Distinct(frees)
      requires !bs[k+1].used ==>
        (bs[k+1].off in frees && bs[k+1].off < size && bs[k+1].size <= available && k + 2 < |bs| && Joined(bs[k+1], bs[k+2], HDR))
      modifies this`available, this`blocks, this`frees, next, prev, nextFree, prevFree
      ensures Links() && blocks == JoinedRight(bs, HDR, k)
      ensures frees == if bs[k+1].used then old(frees) else Without(old(frees), bs[k+1].off)
      ensures available == old(available) - if bs[k+1].used then 0 else bs[k+1].size
    {
      hide Links;
      BlockAt(k);
      BlockAt(k + 1);
      if !used[next[header]] {
        var freePtr := next[header];
        available := available - (next[freePtr] - freePtr - HDR);
        JoinBlock(freePtr, k);
        DropFree(freePtr);
      }
    }

    /** Moving block `i` to a new place: allocate, copy, release. */
    method MoveBlock(ptr: nat, oldsize: nat, newsize: nat, ghost i: nat) returns (r: Option<nat>)
      requires Valid() && Held(State(), ptr) && i == Find(State(), ptr) && blocks[i].size == oldsize < newsize
      requires newsize % 4 == 0 && MINIALLOC <= newsize < WORD
      modifies this`available, this`maxUsed, this`blocks, this`frees, next, prev, nextFree, prevFree, used, data
      ensures Valid() && Moved(old(State()), ptr, newsize, State(), r)
      ensures r.None? ==> data[..] == old(data[..])
      ensures r.Some? ==> Copied(old(data[..]), data[..], ptr, r.value, oldsize)
      ensures Kept(old(data[..]), data[..], old(blocks), HDR, ptr)
    {
      hide Inv, Links, Held, Moved, Kept, Copied;
      ghost var p := State();
      ghost var bytes := data[..];
      AllocKeeps(p, newsize);
      RequestStable(newsize);
      LiveFits(p);
      assert blocks[i] in Live(blocks);
      r := RtMemheapAlloc(newsize);
      assert data[..] == bytes;
      if r.Some? {
        CopyTarget(p, newsize, State(), r.value, p.blocks[i]);
        RtMemcpy(data, r.value, ptr, oldsize);
        KeptApart(bytes, data[..], p.blocks, HDR, ptr, r.value, oldsize);
        ghost var copy := data[..];
        Release(ptr);
        assert data[..] == copy;
      } else {
        KeptSame(bytes, p.blocks, HDR, ptr);
      }
      MovedBy(p, ptr, newsize, State(), r);
    }

    /** Checks whether the following free space is enough to expand, and if so takes it. */
    method TryGrow(header: nat, oldsize: nat, newsize: nat, ghost i: nat) returns (grown: bool)
      requires Valid() && i + 1 < |blocks| && blocks[i].used && blocks[i].off == header
      requires blocks[i].size == oldsize < newsize < WORD
      modifies this`available, this`maxUsed, this`blocks, this`frees, next, prev, nextFree, prevFree, used
      ensures Wired() && (grown <==> CanGrow(old(State()), i, newsize))
      ensures State() == if grown then Grow(old(State()), i, newsize) else old(State())
    {
      hide Inv, Links;
      ResizeFacts(State(), i);
      BlockAt(i);
      BlockAt(i + 1);
      var nextPtr := next[header];
      grown := false;
      if !used[nextPtr] {
        var nextsize := next[nextPtr] - nextPtr - HDR;
        if Wrap(nextsize + oldsize) > Wrap(newsize + MINIALLOC) {
          GrowInPlace(header, nextPtr, oldsize, newsize, i);
          grown := true;
        }
      }
    }

    /** rt_memheap_realloc on a held block and a rounded size. */
    method Resize(ptr: nat, newsize: nat, ghost i: nat) returns (r: Option<nat>)
      requires Valid() && Held(State(), ptr) && i == Find(State(), ptr)
      requires newsize % 4 == 0 && MINIALLOC <= newsize < WORD
      modifies this`available, this`maxUsed, this`blocks, this`frees, next, prev, nextFree, prevFree, used, data
      ensures Wired() && (State(), r) == Resized(old(State()), ptr, newsize)
      ensures r.None? ==> data[..] == old(data[..])
      ensures r.Some? ==> Copied(old(data[..]), data[..], ptr, r.value, Min(old(blocks)[i].size, newsize))
      ensures Kept(old(data[..]), data[..], old(blocks), HDR, ptr)
    {
      hide Inv, Links, Held;
      ghost var p := State();
      LiveFits(p);
      assert blocks[i] in Live(blocks);
      var header := ptr - HDR;
      ResizeFacts(p, i);
      BlockAt(i);
      var oldsize := next[header] - header - HDR;
      r := Some(ptr);
      if newsize > oldsize {
        var grown := TryGrow(header, oldsize, newsize, i);
        if !grown {
          r := MoveBlock(ptr, oldsize, newsize, i);
          ResizedByMove(p, ptr, newsize, State(), r);
        }
      } else if newsize + HDR + MINIALLOC < oldsize {
        ShrinkInPlace(header, newsize, i);
      }
    }

    /** Where the call overruns, the links are those of a list of blocks that is none: the header of
        the free block lies inside of that of the block that was to grow. */
    method RtMemheapRealloc(ptr: Option<nat>, newsize: nat) returns (r: Option<nat>)
      requires Valid() && newsize < WORD && (ptr.Some? ==> Held(State(), ptr.value))
      modifies this`available, this`maxUsed, this`blocks, this`frees, next, prev, nextFree, prevFree, used, data
      ensures Wired() && (State(), r) == Realloc(old(State()), ptr, newsize)
      ensures Valid() <==> ptr.None? || !Overruns(old(State()), ptr.value, newsize)
      ensures Valid() && (r.None? || ptr.None?) ==> data[..] == old(data[..])
      ensures Valid() && ptr.Some? && r.Some? ==>
        Copied(old(data[..]), data[..], ptr.value, r.value, Min(old(blocks)[Find(old(State()), ptr.value)].size, Request(newsize)))
      ensures Valid() && ptr.Some? ==> Kept(old(data[..]), data[..], old(blocks), HDR, ptr.value)
    {
      hide Inv, Links, Held;
      LiveFits(State());
      if ptr.Some? {
        ReallocKeepsUnless(State(), ptr.value, newsize);
      }
      if newsize == 0 {
        RtMemheapFree(ptr);
        r := None;
      } else if ptr.None? {
        r := RtMemheapAlloc(Request(newsize));
      } else {
        r := Resize(ptr.value, Request(newsize), Find(State(), ptr.value));
      }
    }
  }
}
