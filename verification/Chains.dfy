/** Singly linked lists threaded through numbered nodes. */
module Chains {
  import opened Lists

  /** A link word: the end of the list, the next node, or the owner of a node that is handed out. */
  datatype Word = End | Next(number: nat) | Owner

  /** `head` leads through the link words along `nodes` to `tail`. */
  ghost predicate Segment(link: seq<Word>, head: Word, nodes: seq<nat>, tail: Word)
    decreases |nodes|
  {
    if nodes == [] then head == tail
    else head == Next(nodes[0]) && nodes[0] < |link| && Segment(link, link[nodes[0]], nodes[1..], tail)
  }

  /** `head` leads through the link words along `nodes` and ends. */
  ghost predicate Chain(link: seq<Word>, head: Word, nodes: seq<nat>) {
    Segment(link, head, nodes, End)
  }

  /** A chain depends on its own link words only. */
  lemma {:induction false} SegmentFrame(link: seq<Word>, head: Word, nodes: seq<nat>, tail: Word, link': seq<Word>)
    requires Segment(link, head, nodes, tail) && |link'| == |link|
    requires forall a :: a in nodes && a < |link| ==> link'[a] == link[a]
    ensures Segment(link', head, nodes, tail)
    decreases |nodes|
  {
    if nodes != [] {
      assert nodes[0] in nodes;
      assert forall a :: a in nodes[1..] ==> a in nodes;
      SegmentFrame(link, link[nodes[0]], nodes[1..], tail, link');
    }
  }

  lemma ChainFrame(link: seq<Word>, head: Word, nodes: seq<nat>, link': seq<Word>)
    requires Chain(link, head, nodes) && |link'| == |link|
    requires forall a :: a in nodes && a < |link| ==> link'[a] == link[a]
    ensures Chain(link', head, nodes)
  {
    SegmentFrame(link, head, nodes, End, link');
  }

  lemma {:induction false} InBounds(link: seq<Word>, head: Word, nodes: seq<nat>, tail: Word)
    requires Segment(link, head, nodes, tail)
    ensures forall x :: x in nodes ==> x < |link|
    decreases |nodes|
  {
    if nodes != [] {
      InBounds(link, link[nodes[0]], nodes[1..], tail);
      assert nodes == [nodes[0]] + nodes[1..];
    }
  }

  lemma {:induction false} SegmentJoin(link: seq<Word>, head: Word, a: seq<nat>, mid: Word, b: seq<nat>, tail: Word)
    requires Segment(link, head, a, mid) && Segment(link, mid, b, tail)
    ensures Segment(link, head, a + b, tail)
    decreases |a|
  {
    if a == [] {
      assert a + b == b;
    } else {
      SegmentJoin(link, link[a[0]], a[1..], mid, b, tail);
      assert (a + b)[1..] == a[1..] + b;
    }
  }

  /** A segment falls into the part in front of its node `k`, the node, and the part behind. */
  lemma {:induction false} SegmentAt(link: seq<Word>, head: Word, nodes: seq<nat>, k: nat, tail: Word)
    requires Segment(link, head, nodes, tail) && k < |nodes|
    ensures nodes[k] < |link| && Segment(link, head, nodes[..k], Next(nodes[k])) && Segment(link, link[nodes[k]], nodes[k+1..], tail)
    ensures link[nodes[k]] == if k + 1 < |nodes| then Next(nodes[k+1]) else tail
    ensures k == 0 ==> head == Next(nodes[0])
    decreases k
  {
    if k > 0 {
      SegmentAt(link, link[nodes[0]], nodes[1..], k - 1, tail);
      assert nodes[1..][k..] == nodes[k+1..] && nodes[..k][1..] == nodes[1..][..k-1];
    }
  }

  /** Writing the last link word sends the segment somewhere else. */
  lemma {:induction false} SegmentRetarget(link: seq<Word>, head: Word, nodes: seq<nat>, tail: Word, link': seq<Word>)
    requires Segment(link, head, nodes, tail) && Distinct(nodes) && nodes != [] && |link'| == |link|
    requires forall a :: a in nodes && a != nodes[|nodes|-1] && a < |link| ==> link'[a] == link[a]
    ensures nodes[|nodes|-1] < |link| && Segment(link', head, nodes, link'[nodes[|nodes|-1]])
    decreases |nodes|
  {
    var rest := nodes[1..];
    assert nodes[0] in nodes;
    assert forall a :: a in rest ==> a in nodes;
    if rest != [] {
      SegmentRetarget(link, link[nodes[0]], rest, tail, link');
    }
  }

  /** Linking a new last node behind the old one. */
  lemma ChainAppend(link: seq<Word>, head: Word, nodes: seq<nat>, x: nat, link': seq<Word>)
    requires Chain(link, head, nodes) && Distinct(nodes) && nodes != [] && x !in nodes && x < |link| && |link'| == |link|
    requires link'[x] == End && (nodes[|nodes|-1] < |link| ==> link'[nodes[|nodes|-1]] == Next(x))
    requires forall a :: a in nodes && a != nodes[|nodes|-1] && a < |link| ==> link'[a] == link[a]
    ensures Chain(link', head, nodes + [x])
  {
    SegmentRetarget(link, head, nodes, End, link');
    SegmentJoin(link', head, nodes, Next(x), [x], End);
  }
}
