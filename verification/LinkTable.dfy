/** Singly linked lists that share the link words of their nodes: zone_array and zone_free of slab.c. */
module LinkTable {
  import opened Chains
  import opened Lists

  /** No other list than `i` has the node `x`. */
  ghost predicate OnlyIn(lists: seq<seq<nat>>, x: nat, i: nat) {
    forall j :: 0 <= j < |lists| && j != i ==> x !in lists[j]
  }

  ghost predicate Unlisted(lists: seq<seq<nat>>, x: nat) {
    forall j :: 0 <= j < |lists| ==> x !in lists[j]
  }

  /** Every head leads along its list, and no node is in two places. */
  ghost predicate Threaded(heads: seq<Word>, next: seq<Word>, lists: seq<seq<nat>>) {
    && |lists| == |heads|
    && (forall i :: 0 <= i < |lists| ==> Chain(next, heads[i], lists[i]) && Distinct(lists[i]))
    && (forall i, x :: 0 <= i < |lists| && x in lists[i] ==> OnlyIn(lists, x, i))
  }

  /** List `i` becomes `q`, which has lost nodes and may have gained the node `x`. */
  lemma ThreadedChange(heads: seq<Word>, next: seq<Word>, lists: seq<seq<nat>>, i: nat, q: seq<nat>, head: Word, next': seq<Word>, x: nat)
    requires Threaded(heads, next, lists) && i < |lists| && |next'| == |next| && OnlyIn(lists, x, i)
    requires forall y :: y in q ==> y in lists[i] || y == x
    requires forall y :: 0 <= y < |next| && y !in lists[i] && y != x ==> next'[y] == next[y]
    requires Chain(next', head, q) && Distinct(q)
    ensures Threaded(heads[i := head], next', lists[i := q])
  {
    hide Chain, Distinct;
    var lists' := lists[i := q];
    forall j | 0 <= j < |lists|
      ensures Chain(next', heads[i := head][j], lists'[j]) && Distinct(lists'[j])
    {
      if j != i {
        Elsewhere(heads, next, lists, i, next', x, j);
      }
    }
    forall j, y | 0 <= j < |lists| && y in lists'[j]
      ensures OnlyIn(lists', y, j)
    {
      assert y == x || (y in lists[j] && OnlyIn(lists, y, j));
    }
  }

  lemma Elsewhere(heads: seq<Word>, next: seq<Word>, lists: seq<seq<nat>>, i: nat, next': seq<Word>, x: nat, j: nat)
    requires Threaded(heads, next, lists) && i < |lists| && j < |lists| && j != i && |next'| == |next| && OnlyIn(lists, x, i)
    requires forall y :: 0 <= y < |next| && y !in lists[i] && y != x ==> next'[y] == next[y]
    ensures Chain(next', heads[j], lists[j])
  {
    hide Chain, Distinct;
    forall y | y in lists[j] && y < |next|
      ensures next'[y] == next[y]
    {
      assert OnlyIn(lists, y, j);
    }
    ChainFrame(next, heads[j], lists[j], next');
  }

  class RtLinkTable {
    const heads: array<Word>
    const next: array<Word>
    ghost var lists: seq<seq<nat>>

    ghost predicate Valid()
      reads this, heads, next
    {
      heads != next && Threaded(heads[..], next[..], lists)
    }

    constructor (n: nat, nodes: nat)
      ensures Valid() && fresh(heads) && fresh(next) && heads.Length == n && next.Length == nodes
      ensures lists == seq(n, _ => [])
    {
      heads := new Word[n](_ => End);
      next := new Word[nodes](_ => End);
      lists := seq(n, _ => []);
    }

    method IsEmpty(i: nat) returns (empty: bool)
      requires Valid() && i < heads.Length
      ensures |lists| == heads.Length && (empty <==> lists[i] == [])
    {
      assert Chain(next[..], heads[i], lists[i]);
      empty := heads[i] == End;
    }

    method First(i: nat) returns (x: nat)
      requires Valid() && i < heads.Length && (i < |lists| ==> lists[i] != [])
      ensures |lists| == heads.Length && x == lists[i][0]
    {
      assert Chain(next[..], heads[i], lists[i]);
      x := heads[i].number;
    }

    /** Links `x` in front of list `i`. */
    method Push(i: nat, x: nat)
      requires Valid() && i < heads.Length && x < next.Length && Unlisted(lists, x)
      modifies this`lists, heads, next
      ensures Valid() && i < |lists| == |old(lists)| && lists == old(lists)[i := [x] + old(lists)[i]]
    {
      ghost var heads0, next0, q := heads[..], next[..], lists[i];
      assert Chain(next0, heads0[i], q);
      next[x] := heads[i];
      heads[i] := Next(x);
      ChainFrame(next0, heads0[i], q, next[..]);
      assert ([x] + q)[1..] == q;
      ThreadedChange(heads0, next0, lists, i, [x] + q, Next(x), next[..], x);
      lists := lists[i := [x] + q];
    }

    /** Unlinks the first node of list `i`. */
    method Pop(i: nat) returns (x: nat)
      requires Valid() && i < heads.Length && (i < |lists| ==> lists[i] != [])
      modifies this`lists, heads
      ensures Valid() && i < |lists| == |old(lists)| && [x] + lists[i] == old(lists)[i] && lists == old(lists)[i := lists[i]]
    {
      ghost var heads0, q := heads[..], lists[i];
      assert Chain(next[..], heads0[i], q);
      x := heads[i].number;
      heads[i] := next[x];
      TailDistinct(q);
      assert x in q;
      ThreadedChange(heads0, next[..], lists, i, q[1..], heads[i], next[..], x);
      lists := lists[i := q[1..]];
    }

    /** Whether list `i`, which has the node `x`, has another one: `x` has a successor or is not the first. */
    method HasOther(i: nat, x: nat) returns (other: bool)
      requires Valid() && i < heads.Length && (i < |lists| ==> x in lists[i])
      ensures |lists| == heads.Length && (other <==> |lists[i]| > 1)
    {
      ghost var q := lists[i];
      ghost var k :| 0 <= k < |q| && q[k] == x;
      SegmentAt(next[..], heads[i], q, k, End);
      SegmentAt(next[..], heads[i], q, 0, End);
      other := next[x] != End || heads[i] != Next(x);
    }

    /** The scan for the place that points to `x`: the head for End, else the link word of a node. */
    method FindLink(i: nat, x: nat) returns (pz: Word, ghost k: nat)
      requires Valid() && i < heads.Length && (i < |lists| ==> x in lists[i])
      ensures i < |lists| && k < |lists[i]| && lists[i][k] == x
      ensures pz == if k == 0 then End else Next(lists[i][k-1])
    {
      ghost var q := lists[i];
      assert Chain(next[..], heads[i], q);
      k := 0;
      var z := heads[i];
      pz := End;
      SegmentAt(next[..], heads[i], q, 0, End);
      while z != Next(x)
        invariant k < |q| && x in q[k..] && z == Next(q[k]) && pz == if k == 0 then End else Next(q[k-1])
        decreases |q| - k
      {
        SegmentAt(next[..], heads[i], q, k, End);
        assert q[k..] == [q[k]] + q[k+1..];
        pz, z := z, next[z.number];
        k := k + 1;
      }
    }

    /** Unlinks `x`, wherever it stands in list `i`. */
    method Remove(i: nat, x: nat)
      requires Valid() && i < heads.Length && (i < |lists| ==> x in lists[i])
      modifies this`lists, heads, next
      ensures Valid() && i < |lists| == |old(lists)| && lists == old(lists)[i := Without(old(lists)[i], x)]
    {
      hide Segment, Without;
      ghost var heads0, next0, q := heads[..], next[..], lists[i];
      var pz, k := FindLink(i, x);
      assert Chain(next0, heads0[i], q) && Distinct(q);
      SegmentAt(next0, heads0[i], q, k, End);
      if pz == End {
        heads[i] := next[x];
      } else {
        SegmentAt(next0, heads0[i], q, k - 1, End);
        next[pz.number] := next[x];
      }
      WithoutAt(q, k);
      RemovedChain(next0, heads0[i], q, k, next[..], heads[i]);
      WithoutMembers(q, x);
      hide Chain, Threaded;
      ThreadedChange(heads0, next0, lists, i, Without(q, x), heads[i], next[..], x);
      assert heads[..] == heads0[i := heads[i]];
      lists := lists[i := Without(q, x)];
    }
  }

  /** The chain once the link word that led to its node `k` leads past it. */
  lemma RemovedChain(next: seq<Word>, head: Word, q: seq<nat>, k: nat, next': seq<Word>, head': Word)
    requires Chain(next, head, q) && Distinct(q) && k < |q| && q[k] < |next| && |next'| == |next|
    requires head' == if k == 0 then next[q[0]] else head
    requires k > 0 ==> q[k-1] < |next| && next' == next[q[k-1] := next[q[k]]]
    requires k == 0 ==> next' == next
    ensures Chain(next', head', Removed(q, k))
  {
    SegmentAt(next, head, q, k, End);
    if k == 0 {
      assert Removed(q, 0) == q[1..];
    } else {
      var a, b := q[..k], q[k+1..];
      SegmentRetarget(next, head, a, Next(q[k]), next');
      assert forall y :: y in b ==> y != q[k-1];
      SegmentFrame(next, next[q[k]], b, End, next');
      SegmentJoin(next', head, a, next[q[k]], b, End);
    }
  }
}
