/** ipc.c: the list of threads that wait for an object, a ring of thread nodes with the list head. */
module WaitList {
  import opened IpcList
  import opened Lists
  import L = RtList

  /** A thread's node has the number of the thread; `head` is the node of the object. */
  class RtIpcList {
    const next: array<nat>
    const prev: array<nat>
    const head: nat
    ghost var queue: seq<Tid>

    /** The ring of the list; no other list has a node in it. */
    ghost function Ring(): seq<nat>
      reads this
    {
      [head] + queue
    }

    ghost predicate Valid()
      reads this, next, prev
    {
      next != prev && L.Linked(next[..], prev[..], Ring())
    }

    /** Only the nodes of the ring and that of `thread` have been written. */
    twostate predicate OthersKept(thread: Tid)
      reads this, next, prev
    {
      && next.Length == prev.Length
      && forall x :: 0 <= x < next.Length && x !in old(Ring()) && x != thread ==> next[x] == old(next[x]) && prev[x] == old(prev[x])
    }

    /** Where the ring leads from its head, or from its `k`th thread. */
    lemma NextAt(k: nat)
      requires Valid() && k <= |queue|
      ensures head < next.Length && (0 < k ==> queue[k-1] < next.Length)
      ensures next[if k == 0 then head else queue[k-1]] == if k < |queue| then queue[k] else head
    {
      assert L.LinkAt(next[..], prev[..], Ring(), k) && L.LinkAt(next[..], prev[..], Ring(), 0);
    }

    /** rt_ipc_object_init */
    constructor (next: array<nat>, prev: array<nat>, head: nat)
      requires next != prev && next.Length == prev.Length && head < next.Length
      modifies next, prev
      ensures Valid() && queue == [] && this.next == next && this.prev == prev && this.head == head
      ensures forall x :: 0 <= x < next.Length && x != head ==> next[x] == old(next[x]) && prev[x] == old(prev[x])
    {
      this.next, this.prev, this.head, queue := next, prev, head, [];
      new;
      L.RtListInit(next, prev, head);
      assert Ring() == [head];
    }

    /** A thread of the table that does not wait here. */
    ghost predicate Idle(thread: Tid)
      reads this
    {
      thread < next.Length && thread !in Ring()
    }

    method IsEmpty() returns (empty: bool)
      requires Valid()
      ensures empty <==> queue == []
    {
      empty := L.RtListIsEmpty(next, prev, head, Ring());
    }

    lemma HeadApart()
      requires Valid()
      ensures head !in queue && Distinct(queue)
    {
      TailDistinct(Ring());
      assert Ring()[1..] == queue;
    }

    /** The scan for the first thread that `thread` outranks, or the head of the list. */
    method FindPlace(thread: Tid, prio: Priorities) returns (n: nat, ghost k: nat)
      requires Valid()
      ensures k == Place(queue, thread, prio) && n == if k < |queue| then queue[k] else head
    {
      k := 0;
      NextAt(0);
      n := next[head];
      HeadApart();
      assert queue[0..] == queue;
      while n != head && !(prio(thread) < prio(n))
        invariant k <= |queue| && n == if k < |queue| then queue[k] else head
        invariant Place(queue, thread, prio) == k + Place(queue[k..], thread, prio)
        decreases |queue| - k
      {
        NextAt(k + 1);
        assert queue[k..][1..] == queue[k+1..];
        n, k := next[n], k + 1;
      }
    }

    /** rt_ipc_list_suspend, past the suspension of the thread. */
    method RtIpcListSuspend(thread: Tid, flag: Flag, prio: Priorities)
      requires Valid() && Idle(thread)
      modifies this`queue, next, prev
      ensures Valid() && queue == Suspend(old(queue), thread, flag, prio)
      ensures OthersKept(thread)
    {
      hide L.Linked, Place;
      ghost var r, k := Ring(), |queue|;
      var n := head;
      if flag == PRIO {
        n, k := FindPlace(thread, prio);
      }
      InsertAt(n, thread, k);
      assert queue == Suspend(old(queue), thread, flag, prio);
    }

    /** rt_list_insert_before on the `k`th thread, or on the head. */
    method InsertAt(n: nat, thread: Tid, ghost k: nat)
      requires Valid() && Idle(thread)
      requires k <= |queue| && n == if k < |queue| then queue[k] else head
      modifies this`queue, next, prev
      ensures Valid() && queue == Inserted(old(queue), k, thread)
      ensures OthersKept(thread)
    {
      ghost var r := Ring();
      L.RtListInsertBefore(next, prev, n, thread, r, k + 1);
      queue := Inserted(queue, k, thread);
      InsertedBehind(head, old(queue), k, thread);
    }

    /** rt_list_insert_after on the head: the newcomer goes first. */
    method InsertFirst(thread: Tid)
      requires Valid() && Idle(thread)
      modifies this`queue, next, prev
      ensures Valid() && queue == [thread] + old(queue)
      ensures OthersKept(thread)
    {
      ghost var r := Ring();
      L.RtListInsertAfter(next, prev, head, thread, r, 0);
      queue := [thread] + queue;
      assert Ring() == Inserted(r, 1, thread);
    }

    /** Takes the `k`th thread out. */
    method TakeOut(thread: Tid, ghost k: nat)
      requires Valid() && k < |queue| && queue[k] == thread
      modifies this`queue, next, prev
      ensures Valid() && queue == Removed(old(queue), k) && L.Linked(next[..], prev[..], [thread])
      ensures OthersKept(thread)
    {
      ghost var r := Ring();
      L.RtListRemove(next, prev, thread, r, k + 1);
      queue := Removed(queue, k);
      assert Ring() == Removed(r, k + 1);
    }

    /** rt_ipc_list_resume: rt_thread_resume takes the thread out of the list. */
    method RtIpcListResume() returns (thread: Tid)
      requires Valid() && queue != []
      modifies this`queue, next, prev
      ensures Valid() && [thread] + queue == old(queue) && L.Linked(next[..], prev[..], [thread])
      ensures OthersKept(thread)
    {
      NextAt(0);
      thread := next[head];
      TakeOut(thread, 0);
    }

    /** rt_thread_timeout takes the thread out, wherever it stands. */
    method Leave(thread: Tid)
      requires Valid() && thread in queue
      modifies this`queue, next, prev
      ensures Valid() && queue == Without(old(queue), thread) && L.Linked(next[..], prev[..], [thread])
      ensures OthersKept(thread)
    {
      ghost var k :| 0 <= k < |queue| && queue[k] == thread;
      HeadApart();
      WithoutAt(queue, k);
      TakeOut(thread, k);
    }

    /** rt_ipc_list_resume_all: the threads come out in the order of the list. */
    method RtIpcListResumeAll() returns (ghost resumed: seq<Tid>)
      requires Valid()
      modifies this`queue, next, prev
      ensures Valid() && queue == [] && resumed == old(queue)
      ensures OthersKept(head)
    {
      resumed := [];
      var empty := IsEmpty();
      while !empty
        invariant Valid() && resumed + queue == old(queue) && (empty <==> queue == [])
        invariant forall x :: x in Ring() ==> x in old(Ring())
        invariant OthersKept(head)
        decreases |queue|
      {
        ghost var q := queue;
        var thread := RtIpcListResume();
        assert q == [thread] + queue;
        resumed := resumed + [thread];
        empty := IsEmpty();
      }
    }
  }

  /** The two lists of a mailbox or a message queue: the receivers and the senders that wait. */
  class RtIpcLists {
    const receivers: RtIpcList
    const senders: RtIpcList

    ghost predicate Valid()
      reads receivers, senders, receivers.next, receivers.prev, senders.next, senders.prev
    {
      && receivers.Valid() && senders.Valid() && receivers != senders
      && receivers.next == senders.next && receivers.prev == senders.prev
      && forall x :: x in receivers.Ring() ==> x !in senders.Ring()
    }

    ghost predicate Idle(thread: Tid)
      reads receivers, senders
    {
      receivers.Idle(thread) && senders.Idle(thread)
    }

    constructor (next: array<nat>, prev: array<nat>, head: nat, senderHead: nat)
      requires next != prev && next.Length == prev.Length && head < next.Length && senderHead < next.Length && head != senderHead
      modifies next, prev
      ensures Valid() && receivers.queue == [] && senders.queue == [] && fresh(receivers) && fresh(senders)
      ensures receivers.next == next && receivers.prev == prev && receivers.head == head && senders.head == senderHead
    {
      var a := new RtIpcList(next, prev, head);
      ghost var next0, prev0 := next[..], prev[..];
      var b := new RtIpcList(next, prev, senderHead);
      receivers, senders := a, b;
      new;
      assert receivers.Ring() == [head] && senders.Ring() == [senderHead];
      L.LinkedFrame(next0, prev0, next[..], prev[..], receivers.Ring());
    }

    method SuspendReceiver(thread: Tid, c: Config)
      requires Valid() && Idle(thread)
      modifies receivers`queue, receivers.next, receivers.prev
      ensures Valid() && receivers.queue == Suspend(old(receivers.queue), thread, c.flag, c.prio)
    {
      hide L.Linked, Suspend;
      ghost var next0, prev0, ring := receivers.next[..], receivers.prev[..], receivers.Ring();
      SuspendMembers(receivers, thread, c);
      receivers.RtIpcListSuspend(thread, c.flag, c.prio);
      L.LinkedFrame(next0, prev0, receivers.next[..], receivers.prev[..], senders.Ring());
    }

    method SuspendSender(thread: Tid, c: Config)
      requires Valid() && Idle(thread)
      modifies senders`queue, senders.next, senders.prev
      ensures Valid() && senders.queue == Suspend(old(senders.queue), thread, c.flag, c.prio)
    {
      hide L.Linked, Suspend;
      ghost var next0, prev0, ring := senders.next[..], senders.prev[..], senders.Ring();
      SuspendMembers(senders, thread, c);
      senders.RtIpcListSuspend(thread, c.flag, c.prio);
      L.LinkedFrame(next0, prev0, senders.next[..], senders.prev[..], receivers.Ring());
    }

    lemma SuspendMembers(l: RtIpcList, thread: Tid, c: Config)
      requires l.Valid() && l.Idle(thread)
      ensures forall x :: x in Suspend(l.queue, thread, c.flag, c.prio) <==> x in l.queue || x == thread
    {
      l.HeadApart();
      assert l.Ring() == [l.head] + l.queue;
      SuspendKeeps(l.queue, thread, c.flag, c.prio);
    }

    method ResumeReceiver() returns (thread: Tid)
      requires Valid() && receivers.queue != []
      modifies receivers`queue, receivers.next, receivers.prev
      ensures Valid() && [thread] + receivers.queue == old(receivers.queue)
    {
      hide L.Linked;
      ghost var next0, prev0, ring := receivers.next[..], receivers.prev[..], receivers.Ring();
      thread := receivers.RtIpcListResume();
      assert ring == [receivers.head] + ([thread] + receivers.queue);
      L.LinkedFrame(next0, prev0, receivers.next[..], receivers.prev[..], senders.Ring());
    }

    method ResumeSender() returns (thread: Tid)
      requires Valid() && senders.queue != []
      modifies senders`queue, senders.next, senders.prev
      ensures Valid() && [thread] + senders.queue == old(senders.queue)
    {
      hide L.Linked;
      ghost var next0, prev0, ring := senders.next[..], senders.prev[..], senders.Ring();
      thread := senders.RtIpcListResume();
      assert ring == [senders.head] + ([thread] + senders.queue);
      L.LinkedFrame(next0, prev0, senders.next[..], senders.prev[..], receivers.Ring());
    }

    method ResumeAll()
      requires Valid()
      modifies receivers`queue, senders`queue, receivers.next, receivers.prev
      ensures Valid() && receivers.queue == [] && senders.queue == []
    {
      hide L.Linked;
      ghost var next0, prev0 := receivers.next[..], receivers.prev[..];
      assert receivers.head in receivers.Ring() && senders.head in senders.Ring();
      ghost var a := receivers.RtIpcListResumeAll();
      L.LinkedFrame(next0, prev0, receivers.next[..], receivers.prev[..], senders.Ring());
      next0, prev0 := receivers.next[..], receivers.prev[..];
      ghost var b := senders.RtIpcListResumeAll();
      assert receivers.Ring() == [receivers.head] && senders.Ring() == [senders.head];
      L.LinkedFrame(next0, prev0, receivers.next[..], receivers.prev[..], receivers.Ring());
    }

    /** rt_thread_timeout on a thread that waits in one of the lists. */
    method Leave(thread: Tid)
      requires Valid() && (thread in receivers.queue || thread in senders.queue)
      modifies receivers`queue, senders`queue, receivers.next, receivers.prev
      ensures Valid() && receivers.queue == Without(old(receivers.queue), thread) && senders.queue == Without(old(senders.queue), thread)
    {
      hide L.Linked;
      ghost var next0, prev0 := receivers.next[..], receivers.prev[..];
      ghost var ring, other, i := Where(thread);
      L.RtListRemove(receivers.next, receivers.prev, thread, ring, i);
      L.LinkedFrame(next0, prev0, receivers.next[..], receivers.prev[..], other);
      hide Distinct, Without;
      if thread in receivers.queue {
        LeftRing(receivers.head, receivers.queue, thread, i);
        StillApart(receivers.head, receivers.queue, senders.head, senders.queue, thread);
        receivers.queue := Without(receivers.queue, thread);
      } else {
        LeftRing(senders.head, senders.queue, thread, i);
        StillApart(senders.head, senders.queue, receivers.head, receivers.queue, thread);
        senders.queue := Without(senders.queue, thread);
      }
    }

    /** The ring that a waiting thread is in, the other one, and the place of its node. */
    ghost method Where(thread: Tid) returns (ring: seq<nat>, other: seq<nat>, i: nat)
      requires Valid() && (thread in receivers.queue || thread in senders.queue)
      ensures i < |ring| && |ring| > 1 && ring[i] == thread
      ensures if thread in receivers.queue then ring == receivers.Ring() && other == senders.Ring() && Distinct(receivers.queue) && receivers.head !in receivers.queue
              else ring == senders.Ring() && other == receivers.Ring() && Distinct(senders.queue) && senders.head !in senders.queue
    {
      receivers.HeadApart();
      senders.HeadApart();
      var l := if thread in receivers.queue then receivers else senders;
      var k :| 0 <= k < |l.queue| && l.queue[k] == thread;
      ring, other, i := l.Ring(), if thread in receivers.queue then senders.Ring() else receivers.Ring(), k + 1;
    }
  }

  lemma LeftRing(head: nat, queue: seq<nat>, thread: Tid, i: nat)
    requires Distinct(queue) && head !in queue && i < |[head] + queue| && ([head] + queue)[i] == thread && thread in queue
    ensures Removed([head] + queue, i) == [head] + Without(queue, thread)
  {
    assert i > 0 && queue[i-1] == thread;
    WithoutAt(queue, i - 1);
    assert ([head] + queue)[..i] == [head] + queue[..i-1];
  }

  lemma StillApart(head: nat, queue: seq<nat>, otherHead: nat, other: seq<nat>, thread: Tid)
    requires Distinct(queue) && thread in queue
    requires forall x :: x in [head] + queue ==> x !in [otherHead] + other
    ensures Without(other, thread) == other
    ensures forall x :: x in [head] + Without(queue, thread) ==> x in [head] + queue
  {
    WithoutMembers(queue, thread);
    assert thread in [head] + queue;
    WithoutAbsent(other, thread);
  }

  lemma InsertedBehind(head: nat, queue: seq<nat>, k: nat, x: nat)
    requires k <= |queue|
    ensures [head] + Inserted(queue, k, x) == Inserted([head] + queue, k + 1, x)
  {
    assert ([head] + queue)[..k+1] == [head] + queue[..k];
  }
}
