/** The circular doubly linked list of rtservice.h.

    A list node is named by a number, its index into the two arrays that hold
    the `next` and `prev` fields of every node.  A ring is the sequence of the
    nodes met when following `next`, starting from any one of them; the list
    heads of the kernel are ordinary members of their ring.  The heaps, the
    scheduler and the wait queues all keep their lists in this form. */
module RtList {
  import opened Lists

  function Succ(i: nat, n: nat): (k: nat)
    requires i < n
  {
    if i + 1 == n then 0 else i + 1
  }

  function Pred(i: nat, n: nat): (k: nat)
    requires i < n
  {
    if i == 0 then n - 1 else i - 1
  }

  /** The links of node `i` of the ring. */
  ghost predicate LinkAt(next: seq<nat>, prev: seq<nat>, r: seq<nat>, i: nat)
    requires i < |r|
  {
    && r[i] < |next| == |prev|
    && next[r[i]] == r[Succ(i, |r|)]
    && prev[r[i]] == r[Pred(i, |r|)]
  }

  /** `r` lists the nodes of one ring, and both links agree with it. */
  ghost predicate Linked(next: seq<nat>, prev: seq<nat>, r: seq<nat>) {
    && |next| == |prev|
    && |r| > 0
    && Distinct(r)
    && (forall i :: 0 <= i < |r| ==> LinkAt(next, prev, r, i))
  }

  /** A ring depends on the links of its own nodes only. */
  lemma LinkedFrame(next: seq<nat>, prev: seq<nat>, next': seq<nat>, prev': seq<nat>, r: seq<nat>)
    requires Linked(next, prev, r)
    requires |next'| == |prev'| == |next|
    requires forall x :: x in r && x < |next| ==> next'[x] == next[x] && prev'[x] == prev[x]
    ensures Linked(next', prev', r)
  {
    forall i | 0 <= i < |r|
      ensures LinkAt(next', prev', r, i)
    {
      assert LinkAt(next, prev, r, i) && r[i] in r;
    }
  }

  /** Four link writes put a node into a ring. */
  lemma InsertLinks(next: seq<nat>, prev: seq<nat>, r: seq<nat>, i: nat, n: nat, next': seq<nat>, prev': seq<nat>)
    requires Linked(next, prev, r)
    requires 1 <= i <= |r| && n !in r && n < |next|
    requires r[i-1] < |next| && r[Succ(i - 1, |r|)] < |next|
    requires next' == next[n := r[Succ(i - 1, |r|)]][r[i-1] := n]
    requires prev' == prev[n := r[i-1]][r[Succ(i - 1, |r|)] := n]
    ensures Linked(next', prev', Inserted(r, i, n))
  {
    var q := Inserted(r, i, n);
    InsertedDistinct(r, i, n);
    forall k | 0 <= k < |q|
      ensures LinkAt(next', prev', q, k)
    {
      var m := |r|;
      assert |q| == m + 1;
      if k == i {
        assert q[k] == n && q[Pred(k, m + 1)] == r[i-1];
        assert q[Succ(k, m + 1)] == r[Succ(i - 1, m)];
      } else {
        var j := if k < i then k else k - 1;
        assert q[k] == r[j] && LinkAt(next, prev, r, j);
        assert r[j] in r;
        assert r[j] == r[i-1] ==> j == i - 1;
        assert j != i - 1 ==> q[Succ(k, m + 1)] == r[Succ(j, m)];
        assert j != Succ(i - 1, m) ==> q[Pred(k, m + 1)] == r[Pred(j, m)] && r[j] != r[Succ(i - 1, m)];
      }
    }
  }

  /** Two link writes take a node out of a ring, whatever its own links become. */
  lemma RemoveLinks(next: seq<nat>, prev: seq<nat>, r: seq<nat>, i: nat, next': seq<nat>, prev': seq<nat>)
    requires Linked(next, prev, r)
    requires i < |r| && |r| >= 2
    requires |next'| == |prev'| == |next|
    requires r[Pred(i, |r|)] < |next| && r[Succ(i, |r|)] < |next| && r[i] < |next|
    requires next'[r[Pred(i, |r|)]] == next[r[i]] && prev'[r[Succ(i, |r|)]] == prev[r[i]]
    requires forall x :: x in r && x < |next| && x != r[i] && x != r[Pred(i, |r|)] ==> next'[x] == next[x]
    requires forall x :: x in r && x < |next| && x != r[i] && x != r[Succ(i, |r|)] ==> prev'[x] == prev[x]
    ensures Linked(next', prev', Removed(r, i)) && r[i] !in Removed(r, i)
  {
    var q := Removed(r, i);
    RemovedDistinct(r, i);
    assert LinkAt(next, prev, r, i);
    forall k | 0 <= k < |q|
      ensures LinkAt(next', prev', q, k)
    {
      var m := |r|;
      assert |q| == m - 1;
      var j := if k < i then k else k + 1;
      assert q[k] == r[j] && LinkAt(next, prev, r, j);
      assert r[j] in r && r[j] != r[i];
      assert j == Pred(i, m) ==> q[Succ(k, m - 1)] == r[Succ(i, m)];
      assert j != Pred(i, m) ==> q[Succ(k, m - 1)] == r[Succ(j, m)] && r[j] != r[Pred(i, m)];
      assert j == Succ(i, m) ==> q[Pred(k, m - 1)] == r[Pred(i, m)];
      assert j != Succ(i, m) ==> q[Pred(k, m - 1)] == r[Pred(j, m)] && r[j] != r[Succ(i, m)];
    }
  }

  /** Following both directions one step returns to the start: the links are inverse. */
  lemma LinksInverse(next: seq<nat>, prev: seq<nat>, r: seq<nat>, i: nat)
    requires Linked(next, prev, r) && i < |r| && r[i] < |next|
    ensures next[r[i]] < |prev| && prev[next[r[i]]] == r[i]
    ensures prev[r[i]] < |next| && next[prev[r[i]]] == r[i]
  {
    var s, p := Succ(i, |r|), Pred(i, |r|);
    assert LinkAt(next, prev, r, i) && LinkAt(next, prev, r, s) && LinkAt(next, prev, r, p);
  }

  method RtListInit(next: array<nat>, prev: array<nat>, l: nat)
    requires next != prev && next.Length == prev.Length && l < next.Length
    modifies next, prev
    ensures Linked(next[..], prev[..], [l])
    ensures forall x :: 0 <= x < next.Length && x != l ==> next[x] == old(next[x]) && prev[x] == old(prev[x])
  {
    next[l] := l;
    prev[l] := l;
  }

  /** Links `n` behind `l`, which is node `i` of the ring. */
  method RtListInsertAfter(next: array<nat>, prev: array<nat>, l: nat, n: nat, ghost r: seq<nat>, ghost i: nat)
    requires next != prev && Linked(next[..], prev[..], r)
    requires i < |r| && l == r[i] && n !in r && n < next.Length
    modifies next, prev
    ensures Linked(next[..], prev[..], Inserted(r, i + 1, n))
    ensures forall x :: 0 <= x < next.Length && x !in r && x != n ==> next[x] == old(next[x]) && prev[x] == old(prev[x])
  {
    ghost var s := r[Succ(i, |r|)];
    assert s in r && LinkAt(next[..], prev[..], r, i) && LinkAt(next[..], prev[..], r, Succ(i, |r|));
    prev[next[l]] := n;
    next[n] := next[l];
    next[l] := n;
    prev[n] := l;
    InsertLinks(old(next[..]), old(prev[..]), r, i + 1, n, next[..], prev[..]);
  }

  /** Links `n` in front of `l`: with `l` the list head (`i == |r|`) this appends. */
  method RtListInsertBefore(next: array<nat>, prev: array<nat>, l: nat, n: nat, ghost r: seq<nat>, ghost i: nat)
    requires next != prev && Linked(next[..], prev[..], r)
    requires 1 <= i <= |r| && l == (if i == |r| then r[0] else r[i]) && n !in r && n < next.Length
    modifies next, prev
    ensures Linked(next[..], prev[..], Inserted(r, i, n))
    ensures forall x :: 0 <= x < next.Length && x !in r && x != n ==> next[x] == old(next[x]) && prev[x] == old(prev[x])
  {
    assert l == r[Succ(i - 1, |r|)];
    assert LinkAt(next[..], prev[..], r, Succ(i - 1, |r|)) && LinkAt(next[..], prev[..], r, i - 1);
    next[prev[l]] := n;
    prev[n] := prev[l];
    prev[l] := n;
    next[n] := l;
    InsertLinks(old(next[..]), old(prev[..]), r, i, n, next[..], prev[..]);
  }

  /** The two writes that take `n` out of its ring. */
  method Unlink(next: array<nat>, prev: array<nat>, n: nat, ghost r: seq<nat>, ghost i: nat)
    requires next != prev && Linked(next[..], prev[..], r)
    requires i < |r| && n == r[i]
    modifies next, prev
    ensures |r| >= 2 ==> Linked(next[..], prev[..], Removed(r, i)) && n !in Removed(r, i)
    ensures n < next.Length
    ensures forall x :: 0 <= x < next.Length && x !in r ==> next[x] == old(next[x]) && prev[x] == old(prev[x])
  {
    ghost var s, p := r[Succ(i, |r|)], r[Pred(i, |r|)];
    assert s in r && p in r && LinkAt(next[..], prev[..], r, i);
    assert LinkAt(next[..], prev[..], r, Succ(i, |r|)) && LinkAt(next[..], prev[..], r, Pred(i, |r|));
    prev[next[n]] := prev[n];
    next[prev[n]] := next[n];
    if |r| >= 2 {
      RemoveLinks(old(next[..]), old(prev[..]), r, i, next[..], prev[..]);
    }
  }

  /** Unlinks `n` and leaves it as a ring of its own. */
  method RtListRemove(next: array<nat>, prev: array<nat>, n: nat, ghost r: seq<nat>, ghost i: nat)
    requires next != prev && Linked(next[..], prev[..], r)
    requires i < |r| && n == r[i]
    modifies next, prev
    ensures |r| >= 2 ==> Linked(next[..], prev[..], Removed(r, i))
    ensures Linked(next[..], prev[..], [n])
    ensures forall x :: 0 <= x < next.Length && x !in r ==> next[x] == old(next[x]) && prev[x] == old(prev[x])
  {
    assert n in r;
    Unlink(next, prev, n, r, i);
    label unlinked:
    next[n] := n;
    prev[n] := n;
    if |r| >= 2 {
      LinkedFrame(old@unlinked(next[..]), old@unlinked(prev[..]), next[..], prev[..], Removed(r, i));
    }
  }

  /** A list with head `r[0]` is empty exactly when the head points to itself. */
  method RtListIsEmpty(next: array<nat>, prev: array<nat>, l: nat, ghost r: seq<nat>) returns (empty: bool)
    requires Linked(next[..], prev[..], r) && l == r[0]
    ensures empty <==> |r| == 1
  {
    assert LinkAt(next[..], prev[..], r, 0);
    empty := next[l] == l;
  }

  /** Counts the members behind the head. */
  method RtListLen(next: array<nat>, prev: array<nat>, l: nat, ghost r: seq<nat>) returns (len: nat)
    requires Linked(next[..], prev[..], r) && l == r[0]
    ensures len == |r| - 1
  {
    len := 0;
    var p := l;
    assert LinkAt(next[..], prev[..], r, 0);
    while next[p] != l
      invariant len < |r| && p == r[len] && LinkAt(next[..], prev[..], r, len)
      decreases |r| - len
    {
      assert LinkAt(next[..], prev[..], r, len + 1);
      p := next[p];
      len := len + 1;
    }
  }
}
