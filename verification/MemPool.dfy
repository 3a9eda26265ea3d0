/** rt_mp_alloc and rt_mp_free as atomic steps on the list of free blocks and
    the sleeping threads.  A block is named by its number. */
module MemPoolSpec {
  import opened IpcList
  import opened Lists
  import opened RtDef
  import opened Waiters

  datatype Outcome = Block(number: nat) | Null | Asleep

  /** `free` lists the free blocks in list order. */
  datatype Pool = Pool(count: nat, free: seq<nat>, waiters: Side)

  ghost predicate Within(s: seq<nat>, n: nat) {
    forall x :: x in s ==> x < n
  }

  ghost predicate Inv(p: Pool) {
    Distinct(p.free) && Within(p.free, p.count) && Sound(p.waiters, |p.free|)
  }

  /** rt_mp_init: all blocks, in address order. */
  function Init(count: nat): (p: Pool)
    ensures Inv(p)
  {
    Pool(count, seq(count, i => i), NOBODY)
  }

  /** The step of an allocating thread, at its call or when it runs again after a resume.
      Sleepers are queued at the front. */
  function Alloc(p: Pool, t: Tid, wait: bool): (r: (Pool, Outcome)) {
    var p := p.(waiters := Ran(p.waiters, t));
    if p.free == [] then
      if wait then (p.(waiters := p.waiters.(asleep := [t] + p.waiters.asleep)), Asleep) else (p, Null)
    else (p.(free := p.free[1..]), Block(p.free[0]))
  }

  /** The step that gives block `a` back. */
  function Free(p: Pool, a: nat): Pool {
    p.(free := [a] + p.free, waiters := Wake(p.waiters))
  }

  function Timeout(p: Pool, t: Tid): Pool {
    p.(waiters := TimedOut(p.waiters, t))
  }

  datatype Event = EvAlloc(t: Tid, wait: bool) | EvFree(block: nat) | EvTimeout(t: Tid)

  /** Sleeping threads run nothing, and only blocks that are handed out come back. */
  predicate Enabled(p: Pool, e: Event) {
    match e
    case EvAlloc(t, _) => t !in p.waiters.asleep
    case EvFree(a) => a < p.count && a !in p.free
    case EvTimeout(t) => t in p.waiters.asleep
  }

  function Step(p: Pool, e: Event): Pool {
    if !Enabled(p, e) then p else
    match e
    case EvAlloc(t, wait) => Alloc(p, t, wait).0
    case EvFree(a) => Free(p, a)
    case EvTimeout(t) => Timeout(p, t)
  }

  function Run(p: Pool, es: seq<Event>): Pool
    decreases |es|
  {
    if es == [] then p else Run(Step(p, es[0]), es[1..])
  }

  lemma StepInv(p: Pool, e: Event)
    requires Inv(p)
    ensures Inv(Step(p, e))
  {
    if Enabled(p, e) {
      match e
      case EvAlloc(t, wait) => AllocInv(p, t, wait);
      case EvFree(a) => FreeInv(p, a);
      case EvTimeout(t) => TimedOutKeeps(p.waiters, t, |p.free|);
    }
  }

  lemma AllocInv(p: Pool, t: Tid, wait: bool)
    requires Inv(p) && t !in p.waiters.asleep
    ensures Inv(Alloc(p, t, wait).0)
  {
    RanKeeps(p.waiters, t, |p.free|);
    if p.free != [] {
      assert forall x :: x in p.free[1..] ==> x in p.free;
    }
  }

  lemma FreeDistinct(p: Pool)
    requires Inv(p)
    ensures Distinct(p.free)
  {
  }

  lemma FreeInv(p: Pool, a: nat)
    requires Inv(p) && a < p.count && a !in p.free
    ensures Inv(Free(p, a))
  {
    WakeKeeps(p.waiters, |p.free|);
  }

  /** In every interleaving: the free blocks are blocks of the pool, each once, and while a thread
      sleeps every free block has a resumed thread coming for it. */
  lemma {:induction false} RunInv(p: Pool, es: seq<Event>)
    requires Inv(p)
    ensures Inv(Run(p, es))
    decreases |es|
  {
    if es != [] {
      StepInv(p, es[0]);
      RunInv(Step(p, es[0]), es[1..]);
    }
  }

  lemma NobodyStranded(count: nat, es: seq<Event>)
    ensures var p := Run(Init(count), es); p.waiters.woken == {} && p.waiters.asleep != [] ==> p.free == []
  {
    RunInv(Init(count), es);
  }

  /** A block that is handed out was free and is so no longer, and giving it back restores the free list. */
  lemma AllocExclusive(p: Pool, t: Tid, wait: bool)
    requires Inv(p) && Alloc(p, t, wait).1.Block?
    ensures var (q, r) := Alloc(p, t, wait);
      r.number < p.count && r.number in p.free && r.number !in q.free && Free(q, r.number).free == p.free
  {
    assert p.free[0] in p.free;
    assert [p.free[0]] + p.free[1..] == p.free;
  }

  // ---- addresses ----

  /** The offset of the link word of block `i`; its payload of `blockSize` bytes follows. */
  function Address(i: nat, blockSize: nat): (a: nat) {
    i * (blockSize + 4)
  }

  /** Link words and payloads of different blocks never overlap, and the blocks that rt_mp_init counts fit the area. */
  lemma BlocksApart(size: nat, blockSize: nat, i: nat, j: nat)
    requires i < j < size / (blockSize + 4)
    ensures Address(i, blockSize) + 4 + blockSize <= Address(j, blockSize)
    ensures Address(j, blockSize) + 4 + blockSize <= size
  {
    var n, m := blockSize + 4, size / (blockSize + 4);
    assert m * n <= size;
    ScaleStep(i, j, n);
    ScaleStep(j, m, n);
  }

  /** An allocation gets a block if and only if one is free, and goes to sleep, in front of the others, if and only if
      none is and it waits. */
  lemma AllocOutcome(p: Pool, t: Tid, wait: bool)
    requires Inv(p) && Enabled(p, EvAlloc(t, wait))
    ensures var (q, r) := Alloc(p, t, wait);
      && (r.Block? <==> p.free != []) && p.free == (if r.Block? then [r.number] else []) + q.free
      && (r.Asleep? <==> p.free == [] && wait) && (r.Asleep? <==> t in q.waiters.asleep)
      && q.waiters.asleep == (if r.Asleep? then [t] else []) + p.waiters.asleep && q.waiters.woken == p.waiters.woken - {t}
  {
  }

  /** A block that comes back is the next one handed out, and the thread that went to sleep last is resumed; a timeout
      takes one thread off the list. */
  lemma OtherOutcome(p: Pool, a: nat, t: Tid)
    requires Inv(p)
    ensures Free(p, a).free == [a] + p.free && Resumed(p.waiters, Free(p, a).waiters)
    ensures Timeout(p, t).free == p.free && Leaves(p.waiters.asleep, t, Timeout(p, t).waiters.asleep)
    ensures Timeout(p, t).waiters.woken == p.waiters.woken
  {
    WakesFirst(p.waiters);
    WithoutLeaves(p.waiters.asleep, t);
    hide Resumed, Leaves, Without;
  }
}

/** mempool.c: the fixed-block pool, with its free list threaded through the blocks. */
module MemPool {
  import opened Chains
  import opened IpcList
  import opened Lists
  import opened MemPoolSpec
  import opened RtDef
  import opened Waiters
  import opened WaitList

  class RtMemPool {
    const link: array<Word>       // the word in front of each block
    var blockList: Word
    var blockFreeCount: nat
    const suspendThread: RtIpcList
    ghost var free: seq<nat>
    ghost var woken: set<Tid>

    ghost function State(): Pool
      reads this, suspendThread
    {
      Pool(link.Length, free, Side(suspendThread.queue, woken))
    }

    /** The free list and the owner tags. */
    ghost predicate Links()
      reads this`blockList, this`free, link
    {
      && Chain(link[..], blockList, free)
      && (forall a :: 0 <= a < link.Length && a !in free ==> link[a] == Owner)
    }

    ghost predicate Valid()
      reads this, link, suspendThread, suspendThread.next, suspendThread.prev
    {
      Inv(State()) && Links() && blockFreeCount == |free| && suspendThread.Valid()
    }

    /** rt_mp_init on an area that holds at least one block; `next` and `prev` hold the links of all threads,
        `head` is the node of the pool. */
    constructor (size: nat, bytes: nat, next: array<nat>, prev: array<nat>, head: nat)
      requires next != prev && next.Length == prev.Length && head < next.Length
      requires size < WORD && 0 < bytes <= 0xFFFF_FFFC && Align(bytes) + 4 <= size / 4 * 4
      modifies next, prev
      ensures Valid() && State() == Init(size / 4 * 4 / (Align(bytes) + 4)) && fresh(link)
      ensures fresh(suspendThread) && suspendThread.next == next && suspendThread.prev == prev && suspendThread.head == head
    {
      AtLeastOne(size / 4 * 4, Align(bytes) + 4);
      var n := size / 4 * 4 / (Align(bytes) + 4);
      link := new Word[n];
      blockFreeCount := n;
      var list := new RtIpcList(next, prev, head);
      suspendThread := list;
      woken := {};
      blockList := Next(0);
      free := Init(n).free;
      new;
      var offset := 0;
      while offset < n
        modifies link
        invariant offset <= n
        invariant forall i :: 0 <= i < offset ==> link[i] == Next(i + 1)
      {
        link[offset] := Next(offset + 1);
        offset := offset + 1;
      }
      link[offset - 1] := End;
      InitChain(link[..], 0);
      assert free[0..] == free;
      forall a | 0 <= a < n
        ensures a in free
      {
        assert free[a] == a;
      }
      assert State() == Init(n);
    }

    /** Takes the first block of the list. */
    method PopBlock() returns (block: nat)
      requires Links() && free != [] && Distinct(free)
      modifies this`blockList, this`free, link
      ensures Links() && [block] + free == old(free)
    {
      block := blockList.number;
      blockList := link[block];
      link[block] := Owner;
      ghost var rest := free[1..];
      assert forall a :: a in rest ==> a in free && a != block;
      assert free == [block] + rest;
      ChainFrame(old(link[..]), blockList, rest, link[..]);
      free := rest;
    }

    /** Puts a block in front of the list. */
    method PushBlock(block: nat)
      requires Links() && block < link.Length && block !in free
      modifies this`blockList, this`free, link
      ensures Links() && free == [block] + old(free)
    {
      link[block] := blockList;
      ChainFrame(old(link[..]), blockList, free, link[..]);
      blockList := Next(block);
      free := [block] + free;
      assert free[1..] == old(free);
    }

    /** One step of rt_mp_alloc. */
    method AllocStep(thread: Tid, time: int) returns (r: Outcome)
      requires Valid() && suspendThread.Idle(thread)
      modifies this, link, suspendThread, suspendThread.next, suspendThread.prev
      ensures Valid() && (State(), r) == Alloc(old(State()), thread, time != 0)
    {
      hide Links, Inv;
      StepInv(State(), EvAlloc(thread, time != 0));
      FreeDistinct(State());
      woken := woken - {thread};
      if blockFreeCount == 0 {
        r := Null;
        if time != 0 {
          suspendThread.InsertFirst(thread);
          r := Asleep;
        }
      } else {
        blockFreeCount := blockFreeCount - 1;
        var block := PopBlock();
        assert free == old(free)[1..];
        r := Block(block);
      }
    }

    /** rt_mp_free of a block that is handed out. */
    method FreeStep(block: nat)
      requires Valid() && block < link.Length && block !in free
      modifies this, link, suspendThread, suspendThread.next, suspendThread.prev
      ensures Valid() && State() == Free(old(State()), block)
    {
      hide Links, Inv;
      FreeInv(State(), block);
      blockFreeCount := blockFreeCount + 1;
      PushBlock(block);
      var empty := suspendThread.IsEmpty();
      if !empty {
        ghost var q := suspendThread.queue;
        var thread := suspendThread.RtIpcListResume();
        assert thread == q[0] && suspendThread.queue == q[1..];
        woken := woken + {thread};
      }
    }
  }

  lemma AtLeastOne(total: nat, stride: nat)
    requires 0 < stride <= total
    ensures 1 <= total / stride
  {
  }

  lemma {:induction false} InitChain(link: seq<Word>, k: nat)
    requires k < |link|
    requires forall i :: 0 <= i < |link| - 1 ==> link[i] == Next(i + 1)
    requires link[|link|-1] == End
    ensures Chain(link, Next(k), Init(|link|).free[k..])
    decreases |link| - k
  {
    var f := Init(|link|).free;
    assert f[k..][0] == k && f[k..][1..] == f[k+1..];
    if k + 1 < |link| {
      InitChain(link, k + 1);
    } else {
      assert f[k+1..] == [];
    }
  }
}
