/** The address-ordered list of blocks that mem.c and memheap.c both keep.

    A block is a header of `h` bytes followed by `size` payload bytes.  The
    last block is the used, empty end marker.  The allocators edit this list
    only by replacing a run of neighbouring blocks (`Splice`) and by joining
    free neighbours (`Coalesce`), so what those two keep is kept by every
    operation. */
module BlockList {

  datatype Block = Block(off: nat, size: nat, used: bool)

  ghost predicate Joined(b: Block, c: Block, h: nat) {
    b.off + h + b.size == c.off
  }

  /** Every block ends where the next one starts. */
  ghost predicate Contiguous(bs: seq<Block>, h: nat) {
    forall i, j :: 0 <= i && j == i + 1 < |bs| ==> Joined(bs[i], bs[j], h)
  }

  /** The blocks cover the heap from address 0 to the end marker at `end`. */
  ghost predicate Tiled(bs: seq<Block>, h: nat, end: nat) {
    && |bs| > 0
    && bs[0].off == 0
    && bs[|bs|-1] == Block(end, 0, true)
    && Contiguous(bs, h)
  }

  ghost predicate NoTwoFree(bs: seq<Block>) {
    forall i, j :: 0 <= i && j == i + 1 < |bs| ==> bs[i].used || bs[j].used
  }

  function FreeBytes(bs: seq<Block>): (n: nat) {
    if bs == [] then 0 else (if bs[0].used then 0 else bs[0].size) + FreeBytes(bs[1..])
  }

  /** Headers and payloads of the used blocks, the end marker excepted. */
  function UsedSpan(bs: seq<Block>, h: nat): (n: nat) {
    if |bs| <= 1 then 0 else (if bs[0].used then h + bs[0].size else 0) + UsedSpan(bs[1..], h)
  }

  /** The blocks a client may hold (and the end marker). */
  function Live(bs: seq<Block>): set<Block> {
    set b | b in bs && b.used
  }

  function Offs(bs: seq<Block>): (r: seq<nat>)
    ensures |r| == |bs| && forall i :: 0 <= i < |r| ==> r[i] == bs[i].off
  {
    seq(|bs|, i requires 0 <= i < |bs| => bs[i].off)
  }

  ghost predicate HasOff(bs: seq<Block>, o: nat) {
    exists i :: 0 <= i < |bs| && bs[i].off == o
  }

  /** The position of the block whose header is at `o`. */
  function IndexOf(bs: seq<Block>, o: nat): (i: nat)
    requires HasOff(bs, o)
    ensures i < |bs| && bs[i].off == o
  {
    if bs[0].off == o then 0
    else
      assert exists i :: 0 <= i < |bs[1..]| && bs[1..][i].off == o by {
        var i :| 0 <= i < |bs| && bs[i].off == o;
        assert bs[1..][i-1].off == o;
      }
      1 + IndexOf(bs[1..], o)
  }

  function Splice(bs: seq<Block>, i: nat, j: nat, mid: seq<Block>): seq<Block>
    requires i <= j <= |bs|
  {
    bs[..i] + mid + bs[j..]
  }

  lemma SpliceTwice(bs: seq<Block>, i: nat, m: Block, mid: seq<Block>, o: nat)
    requires i + 2 <= |bs| && m.off == bs[i].off
    requires forall k :: 0 <= k < |bs| && k != i + 1 ==> bs[k].off != o
    ensures var c := Splice(bs, i, i + 2, [m]);
      && |c| == |bs| - 1 && c[i] == m
      && Splice(c, i, i + 1, mid) == Splice(bs, i, i + 2, mid)
      && forall k :: 0 <= k < |c| ==> c[k].off != o
  {
    var c := Splice(bs, i, i + 2, [m]);
    forall k | 0 <= k < |c|
      ensures c[k].off != o
    {
      assert c[k].off == bs[if k <= i then k else k + 1].off;
    }
  }

  // ---- consequences of tiling ----

  lemma {:induction false} Ordered(bs: seq<Block>, h: nat, i: nat, j: nat)
    requires Contiguous(bs, h) && i < j < |bs|
    ensures bs[i].off + h + bs[i].size <= bs[j].off
    decreases j - i
  {
    assert Joined(bs[i], bs[i+1], h);
    if i + 1 < j {
      Ordered(bs, h, i + 1, j);
    }
  }

  ghost predicate Apart(b: Block, c: Block, h: nat) {
    b.off + h + b.size <= c.off || c.off + h + c.size <= b.off
  }

  /** Headers and payloads of different blocks never share an address, and none leaves the heap. */
  lemma BlocksApart(bs: seq<Block>, h: nat, end: nat)
    requires Tiled(bs, h, end)
    ensures forall b, c :: b in bs && c in bs && b != c ==> Apart(b, c, h)
    ensures forall b :: b in bs && b != Block(end, 0, true) ==> b.off + h + b.size <= end
  {
    forall b, c | b in bs && c in bs && b != c
      ensures Apart(b, c, h)
    {
      var i :| 0 <= i < |bs| && bs[i] == b;
      var j :| 0 <= j < |bs| && bs[j] == c;
      if i < j { Ordered(bs, h, i, j); } else { Ordered(bs, h, j, i); }
    }
    forall b | b in bs && b != Block(end, 0, true)
      ensures b.off + h + b.size <= end
    {
      var i :| 0 <= i < |bs| && bs[i] == b;
      Ordered(bs, h, i, |bs| - 1);
    }
  }

  ghost predicate OffsApart(bs: seq<Block>) {
    forall i, j :: 0 <= i < j < |bs| ==> bs[i].off != bs[j].off
  }

  /** With headers of positive size an address names at most one block. */
  lemma OffsDistinct(bs: seq<Block>, h: nat, end: nat)
    requires Tiled(bs, h, end) && h > 0
    ensures forall i, j :: 0 <= i < j < |bs| ==> bs[i].off < bs[j].off
    ensures forall i :: 0 <= i < |bs| ==> bs[i].off <= end
    ensures OffsApart(bs)
  {
    forall i, j | 0 <= i < j < |bs|
      ensures bs[i].off < bs[j].off
    {
      Ordered(bs, h, i, j);
    }
  }

  // ---- replacing a run of neighbours ----

  /** `mid` covers exactly the addresses from `from` up to `to`. */
  ghost predicate Covers(mid: seq<Block>, h: nat, from: nat, to: nat) {
    && |mid| > 0
    && mid[0].off == from
    && mid[|mid|-1].off + h + mid[|mid|-1].size == to
    && Contiguous(mid, h)
  }

  lemma SpliceTiled(bs: seq<Block>, h: nat, end: nat, i: nat, j: nat, mid: seq<Block>)
    requires Tiled(bs, h, end) && i < j < |bs|
    requires Covers(mid, h, bs[i].off, bs[j].off)
    ensures Tiled(Splice(bs, i, j, mid), h, end)
  {
    var s := Splice(bs, i, j, mid);
    var d := i + |mid|;
    assert s[|s|-1] == bs[|bs|-1];
    forall k, l | 0 <= k && l == k + 1 < |s|
      ensures Joined(s[k], s[l], h)
    {
      if l < i {
        assert s[k] == bs[k] && s[l] == bs[l];
      } else if l == i {
        assert s[k] == bs[k] && s[l] == mid[0] && Joined(bs[k], bs[i], h);
      } else if l < d {
        assert s[k] == mid[k-i] && s[l] == mid[l-i];
      } else if l == d {
        assert s[k] == mid[|mid|-1] && s[l] == bs[j];
      } else {
        assert s[k] == bs[k-d+j] && s[l] == bs[l-d+j];
      }
    }
  }

  lemma SpliceNoTwoFree(bs: seq<Block>, i: nat, j: nat, mid: seq<Block>)
    requires NoTwoFree(bs) && NoTwoFree(mid) && i < j < |bs| && |mid| > 0
    requires i > 0 ==> bs[i-1].used || mid[0].used
    requires mid[|mid|-1].used || bs[j].used
    ensures NoTwoFree(Splice(bs, i, j, mid))
  {
    var s := Splice(bs, i, j, mid);
    var d := i + |mid|;
    forall k, l | 0 <= k && l == k + 1 < |s|
      ensures s[k].used || s[l].used
    {
      if l < i {
        assert s[k] == bs[k] && s[l] == bs[l];
      } else if l == i {
        assert s[k] == bs[k] && s[l] == mid[0];
      } else if l < d {
        assert s[k] == mid[k-i] && s[l] == mid[l-i];
      } else if l == d {
        assert s[k] == mid[|mid|-1] && s[l] == bs[j];
      } else {
        assert s[k] == bs[k-d+j] && s[l] == bs[l-d+j];
      }
    }
  }

  lemma {:induction false} FreeBytesConcat(a: seq<Block>, b: seq<Block>)
    ensures FreeBytes(a + b) == FreeBytes(a) + FreeBytes(b)
  {
    if a == [] {
      assert a + b == b;
    } else {
      assert (a + b)[1..] == a[1..] + b;
      FreeBytesConcat(a[1..], b);
    }
  }

  lemma {:induction false} UsedSpanConcat(a: seq<Block>, b: seq<Block>, h: nat)
    requires b != []
    ensures UsedSpan(a + b, h) == UsedSpan(a + [b[0]], h) + UsedSpan(b, h)
  {
    if a == [] {
      assert a + b == b && a + [b[0]] == [b[0]];
    } else {
      assert (a + b)[1..] == a[1..] + b;
      assert (a + [b[0]])[1..] == a[1..] + [b[0]];
      UsedSpanConcat(a[1..], b, h);
    }
  }

  /** The end of a list counts for nothing in its span. */
  lemma {:induction false} UsedSpanLast(a: seq<Block>, x: Block, y: Block, h: nat)
    ensures UsedSpan(a + [x], h) == UsedSpan(a + [y], h)
  {
    if a == [] {
      assert a + [x] == [x] && a + [y] == [y];
    } else {
      assert (a + [x])[1..] == a[1..] + [x];
      assert (a + [y])[1..] == a[1..] + [y];
      UsedSpanLast(a[1..], x, y, h);
    }
  }

  /** A splice changes both sums by what it takes out and puts in. */
  lemma SpliceSums(bs: seq<Block>, h: nat, i: nat, j: nat, mid: seq<Block>)
    requires i < j < |bs| && |mid| > 0
    ensures FreeBytes(Splice(bs, i, j, mid)) + FreeBytes(bs[i..j]) == FreeBytes(bs) + FreeBytes(mid)
    ensures UsedSpan(Splice(bs, i, j, mid), h) + UsedSpan(bs[i..j] + [bs[j]], h)
         == UsedSpan(bs, h) + UsedSpan(mid + [bs[j]], h)
  {
    var a, b := bs[..i], bs[j..];
    assert bs == a + (bs[i..j] + b) && Splice(bs, i, j, mid) == a + (mid + b);
    FreeBytesConcat(a, bs[i..j] + b);
    FreeBytesConcat(bs[i..j], b);
    FreeBytesConcat(a, mid + b);
    FreeBytesConcat(mid, b);
    UsedSpanConcat(a, bs[i..j] + b, h);
    UsedSpanConcat(bs[i..j], b, h);
    UsedSpanConcat(a, mid + b, h);
    UsedSpanConcat(mid, b, h);
    UsedSpanLast(a, bs[i], mid[0], h);
  }

  // ---- joining free neighbours ----

  function Merge(b: Block, c: Block, h: nat): Block {
    Block(b.off, b.size + h + c.size, b.used)
  }

  /** The list with every run of free neighbours joined into one block. */
  function Coalesce(bs: seq<Block>, h: nat): (r: seq<Block>)
    ensures bs != [] ==> r != [] && r[0].off == bs[0].off && r[0].used == bs[0].used
    decreases |bs|
  {
    if |bs| < 2 then bs
    else if !bs[0].used && !bs[1].used then
      Coalesce([Merge(bs[0], bs[1], h)] + bs[2..], h)
    else [bs[0]] + Coalesce(bs[1..], h)
  }

  lemma {:induction false} CoalesceNoTwoFree(bs: seq<Block>, h: nat)
    ensures NoTwoFree(Coalesce(bs, h))
    decreases |bs|
  {
    if |bs| >= 2 {
      if !bs[0].used && !bs[1].used {
        CoalesceNoTwoFree([Merge(bs[0], bs[1], h)] + bs[2..], h);
      } else {
        CoalesceNoTwoFree(bs[1..], h);
      }
    }
  }

  lemma ContiguousCons(b: Block, c: seq<Block>, h: nat)
    requires c != []
    ensures Contiguous([b] + c, h) <==> Joined(b, c[0], h) && Contiguous(c, h)
  {
    var r := [b] + c;
    assert r[0] == b && r[1] == c[0];
    if Contiguous(r, h) {
      forall k, l | 0 <= k && l == k + 1 < |c|
        ensures Joined(c[k], c[l], h)
      {
        assert c[k] == r[k+1] && c[l] == r[l+1];
      }
    }
    if Joined(b, c[0], h) && Contiguous(c, h) {
      forall k, l | 0 <= k && l == k + 1 < |r|
        ensures Joined(r[k], r[l], h)
      {
        if k > 0 {
          assert r[k] == c[k-1] && r[l] == c[l-1];
        }
      }
    }
  }

  lemma LiveCons(b: Block, bs: seq<Block>)
    ensures Live([b] + bs) == Live(bs) + (if b.used then {b} else {})
  {
  }

  /** Joining keeps the cover and the end marker. */
  lemma {:induction false} CoalesceContiguous(bs: seq<Block>, h: nat)
    requires Contiguous(bs, h) && bs != [] && bs[|bs|-1].used
    ensures Contiguous(Coalesce(bs, h), h)
    ensures Coalesce(bs, h)[|Coalesce(bs, h)|-1] == bs[|bs|-1]
    decreases |bs|
  {
    if |bs| >= 2 {
      assert bs == [bs[0]] + bs[1..];
      ContiguousCons(bs[0], bs[1..], h);
      if !bs[0].used && !bs[1].used {
        var m := Merge(bs[0], bs[1], h);
        assert bs[1..] == [bs[1]] + bs[2..];
        ContiguousCons(bs[1], bs[2..], h);
        ContiguousCons(m, bs[2..], h);
        var c := [m] + bs[2..];
        assert c[|c|-1] == bs[|bs|-1];
        hide Contiguous, Merge;
        CoalesceContiguous(c, h);
      } else {
        CoalesceContiguous(bs[1..], h);
        ContiguousCons(bs[0], Coalesce(bs[1..], h), h);
      }
    }
  }

  /** Joining touches no used block. */
  lemma {:induction false} CoalesceLive(bs: seq<Block>, h: nat)
    requires bs != [] && bs[|bs|-1].used
    ensures Live(Coalesce(bs, h)) == Live(bs)
    ensures UsedSpan(Coalesce(bs, h), h) == UsedSpan(bs, h)
    decreases |bs|
  {
    if |bs| >= 2 {
      assert bs == [bs[0]] + bs[1..];
      LiveCons(bs[0], bs[1..]);
      if !bs[0].used && !bs[1].used {
        var m := Merge(bs[0], bs[1], h);
        assert bs[1..] == [bs[1]] + bs[2..];
        LiveCons(bs[1], bs[2..]);
        LiveCons(m, bs[2..]);
        assert ([m] + bs[2..])[1..] == bs[2..];
        CoalesceLive([m] + bs[2..], h);
      } else {
        CoalesceLive(bs[1..], h);
        LiveCons(bs[0], Coalesce(bs[1..], h));
        assert ([bs[0]] + Coalesce(bs[1..], h))[1..] == Coalesce(bs[1..], h);
      }
    }
  }

  lemma CoalesceTiled(bs: seq<Block>, h: nat, end: nat)
    requires Tiled(bs, h, end)
    ensures Tiled(Coalesce(bs, h), h, end)
  {
    CoalesceContiguous(bs, h);
  }

  lemma {:induction false} CoalesceFixed(bs: seq<Block>, h: nat)
    requires NoTwoFree(bs)
    ensures Coalesce(bs, h) == bs
    decreases |bs|
  {
    if |bs| >= 2 {
      assert bs[0].used || bs[1].used;
      assert forall k, l :: 0 <= k && l == k + 1 < |bs[1..]| ==> bs[1..][k] == bs[k+1] && bs[1..][l] == bs[l+1];
      CoalesceFixed(bs[1..], h);
    }
  }

  /** Joining starts at the first free pair: what lies before it is kept. */
  lemma {:induction false} CoalesceSkip(a: seq<Block>, b: seq<Block>, h: nat)
    requires b != [] && NoTwoFree(a + [b[0]])
    ensures Coalesce(a + b, h) == a + Coalesce(b, h)
    decreases |a|
  {
    hide NoTwoFree;
    if a == [] {
      assert a + b == b;
    } else {
      TailSettled(a, b[0]);
      CoalesceSkip(a[1..], b, h);
      var c := a + b;
      assert c[1..] == a[1..] + b && c[1] == (a + [b[0]])[1];
      assert [a[0]] + (a[1..] + Coalesce(b, h)) == a + Coalesce(b, h);
    }
  }

  lemma TailSettled(a: seq<Block>, x: Block)
    requires a != [] && NoTwoFree(a + [x])
    ensures NoTwoFree(a[1..] + [x]) && (a[0].used || (a + [x])[1].used)
  {
    var r, t := a + [x], a[1..] + [x];
    assert r[0].used || r[1].used;
    forall k, l | 0 <= k && l == k + 1 < |t|
      ensures t[k].used || t[l].used
    {
      assert t[k] == r[k+1] && t[l] == r[l+1];
    }
  }

  /** One join inside the list does not change what full joining gives. */
  lemma CoalesceMerge(bs: seq<Block>, h: nat, i: nat)
    requires i + 1 < |bs| && NoTwoFree(bs[..i+1])
    requires !bs[i].used && !bs[i+1].used
    ensures Coalesce(Splice(bs, i, i + 2, [Merge(bs[i], bs[i+1], h)]), h) == Coalesce(bs, h)
  {
    var a, m := bs[..i], [Merge(bs[i], bs[i+1], h)] + bs[i+2..];
    assert bs == a + bs[i..] && a + [bs[i]] == bs[..i+1];
    assert Splice(bs, i, i + 2, [Merge(bs[i], bs[i+1], h)]) == a + m;
    assert forall k, l :: 0 <= k && l == k + 1 < |a + [m[0]]| ==>
      bs[..i+1][k].used == (a + [m[0]])[k].used && bs[..i+1][l].used == (a + [m[0]])[l].used;
    CoalesceSkip(a, bs[i..], h);
    CoalesceSkip(a, m, h);
    assert bs[i..][2..] == bs[i+2..];
  }

  /** A splice takes the replaced blocks from the client and adds the new ones. */
  lemma LiveSplice(bs: seq<Block>, h: nat, end: nat, i: nat, j: nat, mid: seq<Block>)
    requires Tiled(bs, h, end) && h > 0 && i < j < |bs|
    ensures Live(Splice(bs, i, j, mid)) == Live(bs) - Live(bs[i..j]) + Live(mid)
  {
    var a, m, b := bs[..i], bs[i..j], bs[j..];
    assert bs == a + m + b;
    LiveConcat(a + m, b);
    LiveConcat(a, m);
    LiveConcat(a + mid, b);
    LiveConcat(a, mid);
    PartsDistinct(bs, h, end, i, j);
  }

  lemma LiveConcat(a: seq<Block>, b: seq<Block>)
    ensures Live(a + b) == Live(a) + Live(b)
  {
  }

  /** Different blocks have different addresses. */
  lemma PartsDistinct(bs: seq<Block>, h: nat, end: nat, i: nat, j: nat)
    requires Tiled(bs, h, end) && h > 0 && i < j < |bs|
    ensures forall b, c :: b in bs[i..j] && (c in bs[..i] || c in bs[j..]) ==> b.off != c.off
  {
    forall b, c | b in bs[i..j] && (c in bs[..i] || c in bs[j..])
      ensures b.off != c.off
    {
      var k :| i <= k < j && bs[k] == b;
      var l :| 0 <= l < |bs| && (l < i || l >= j) && bs[l] == c;
      if l < k { Ordered(bs, h, l, k); } else { Ordered(bs, h, k, l); }
    }
  }

  /** The addresses of the free blocks. */
  function FreeOffs(bs: seq<Block>): set<nat> {
    set b | b in bs && !b.used :: b.off
  }

  lemma FreeOffsSplice(bs: seq<Block>, h: nat, end: nat, i: nat, j: nat, mid: seq<Block>)
    requires Tiled(bs, h, end) && h > 0 && i < j < |bs|
    ensures FreeOffs(Splice(bs, i, j, mid)) == FreeOffs(bs) - FreeOffs(bs[i..j]) + FreeOffs(mid)
  {
    var a, m, b := bs[..i], bs[i..j], bs[j..];
    assert bs == a + m + b;
    FreeOffsConcat(a + m, b);
    FreeOffsConcat(a, m);
    FreeOffsConcat(a + mid, b);
    FreeOffsConcat(a, mid);
    PartsDistinct(bs, h, end, i, j);
  }

  lemma FreeOffsConcat(a: seq<Block>, b: seq<Block>)
    ensures FreeOffs(a + b) == FreeOffs(a) + FreeOffs(b)
  {
  }

  function FreeOf(b: Block): nat { if b.used then 0 else b.size }

  function SpanOf(b: Block, h: nat): nat { if b.used then h + b.size else 0 }

  lemma OneBlock(x: Block, y: Block, h: nat)
    ensures FreeBytes([x]) == FreeOf(x) && UsedSpan([x] + [y], h) == SpanOf(x, h)
    ensures Live([x]) == (if x.used then {x} else {}) && FreeOffs([x]) == (if x.used then {} else {x.off})
  {
    assert ([x] + [y])[1..] == [y];
    assert x in [x];
  }

  lemma TwoBlocks(x: Block, y: Block, z: Block, h: nat)
    ensures FreeBytes([x, y]) == FreeOf(x) + FreeOf(y) && UsedSpan([x, y] + [z], h) == SpanOf(x, h) + SpanOf(y, h)
    ensures Live([x, y]) == Live([x]) + Live([y]) && FreeOffs([x, y]) == FreeOffs([x]) + FreeOffs([y])
  {
    OneBlock(y, z, h);
    assert [x, y][1..] == [y];
    assert ([x, y] + [z])[1..] == [y] + [z];
    assert forall b :: b in [x, y] <==> b in [x] || b in [y];
  }

  /** The accounts after block `i` is replaced by `mid`. */
  lemma ReplaceOne(bs: seq<Block>, h: nat, end: nat, i: nat, mid: seq<Block>)
    requires Tiled(bs, h, end) && h > 0 && i + 1 < |bs| && |mid| > 0
    ensures var c := Splice(bs, i, i + 1, mid);
      && FreeBytes(c) + FreeOf(bs[i]) == FreeBytes(bs) + FreeBytes(mid)
      && UsedSpan(c, h) + SpanOf(bs[i], h) == UsedSpan(bs, h) + UsedSpan(mid + [bs[i+1]], h)
      && Live(c) == Live(bs) - {bs[i]} + Live(mid)
      && FreeOffs(c) == FreeOffs(bs) - {bs[i].off} + FreeOffs(mid)
  {
    assert bs[i..i+1] == [bs[i]];
    OneBlock(bs[i], bs[i+1], h);
    SpliceSums(bs, h, i, i + 1, mid);
    LiveSplice(bs, h, end, i, i + 1, mid);
    FreeOffsSplice(bs, h, end, i, i + 1, mid);
    FreeOffsOther(bs, h, end, i);
  }

  /** The accounts after blocks `i` and `i + 1` are replaced by `mid`. */
  lemma ReplaceTwo(bs: seq<Block>, h: nat, end: nat, i: nat, mid: seq<Block>)
    requires Tiled(bs, h, end) && h > 0 && i + 2 < |bs| && |mid| > 0
    ensures var c := Splice(bs, i, i + 2, mid);
      && FreeBytes(c) + FreeOf(bs[i]) + FreeOf(bs[i+1]) == FreeBytes(bs) + FreeBytes(mid)
      && Live(c) == Live(bs) - {bs[i], bs[i+1]} + Live(mid)
      && FreeOffs(c) == FreeOffs(bs) - FreeOffs([bs[i]]) - FreeOffs([bs[i+1]]) + FreeOffs(mid)
  {
    assert bs[i..i+2] == [bs[i], bs[i+1]];
    TwoBlocks(bs[i], bs[i+1], bs[i+2], h);
    OneBlock(bs[i], bs[i+1], h);
    OneBlock(bs[i+1], bs[i+2], h);
    SpliceSums(bs, h, i, i + 2, mid);
    LiveSplice(bs, h, end, i, i + 2, mid);
    FreeOffsSplice(bs, h, end, i, i + 2, mid);
  }

  /** Only block `i` contributes its address to the free ones. */
  lemma FreeOffsOther(bs: seq<Block>, h: nat, end: nat, i: nat)
    requires Tiled(bs, h, end) && h > 0 && i < |bs|
    ensures bs[i].off in FreeOffs(bs) <==> !bs[i].used
  {
    OffsDistinct(bs, h, end);
    assert bs[i] in bs;
  }

  /** Every header is aligned. */
  ghost predicate Aligned(bs: seq<Block>) {
    forall b :: b in bs ==> b.off % 4 == 0
  }

  lemma AlignedSum(off: nat, h: nat, n: nat)
    requires off % 4 == 0 && h % 4 == 0 && n % 4 == 0
    ensures (off + h + n) % 4 == 0
  {
  }

  lemma AlignedSplice(bs: seq<Block>, i: nat, j: nat, mid: seq<Block>)
    requires i <= j <= |bs| && Aligned(bs)
    requires forall k :: 0 <= k < |mid| ==> mid[k].off % 4 == 0
    ensures Aligned(Splice(bs, i, j, mid))
  {
    SpliceMembers(bs, i, j, mid);
  }

  lemma SpliceMembers(bs: seq<Block>, i: nat, j: nat, mid: seq<Block>)
    requires i <= j <= |bs|
    ensures forall b :: b in Splice(bs, i, j, mid) ==> b in bs || b in mid
  {
  }

  /** Marking block `i` free and joining: what releasing it must give. */
  function Freed(bs: seq<Block>, h: nat, i: nat): seq<Block>
    requires i < |bs|
  {
    Coalesce(bs[i := bs[i].(used := false)], h)
  }

  lemma MarkTiled(bs: seq<Block>, h: nat, end: nat, i: nat, u: bool)
    requires Tiled(bs, h, end) && i + 1 < |bs|
    ensures Tiled(bs[i := bs[i].(used := u)], h, end)
  {
    var c := bs[i := bs[i].(used := u)];
    forall k, l | 0 <= k && l == k + 1 < |c|
      ensures Joined(c[k], c[l], h)
    {
      assert Joined(bs[k], bs[l], h);
    }
  }

  /** Releasing a live block keeps the cover, leaves no free neighbours and takes exactly that block from the client. */
  lemma FreedKeeps(bs: seq<Block>, h: nat, end: nat, i: nat)
    requires Tiled(bs, h, end) && h > 0 && i + 1 < |bs| && bs[i].used
    ensures Tiled(Freed(bs, h, i), h, end) && NoTwoFree(Freed(bs, h, i))
    ensures Live(Freed(bs, h, i)) == Live(bs) - {bs[i]}
    ensures UsedSpan(Freed(bs, h, i), h) + h + bs[i].size == UsedSpan(bs, h)
  {
    hide Contiguous, NoTwoFree, Coalesce, Live, UsedSpan, FreeBytes, FreeOffs;
    var c := bs[i := bs[i].(used := false)];
    MarkTiled(bs, h, end, i, false);
    CoalesceTiled(c, h, end);
    CoalesceNoTwoFree(c, h);
    CoalesceLive(c, h);
    assert c == Splice(bs, i, i + 1, [c[i]]);
    ReplaceOne(bs, h, end, i, [c[i]]);
    OneBlock(c[i], bs[i+1], h);
  }

  /** The neighbours a released block `i` joins: `FreedLo` to `FreedHi`, exclusive. */
  function FreedLo(bs: seq<Block>, i: nat): (lo: nat)
    requires i < |bs|
  {
    if i > 0 && !bs[i-1].used then i - 1 else i
  }

  function FreedHi(bs: seq<Block>, i: nat): (hi: nat)
    requires i + 1 < |bs|
  {
    if bs[i+1].used then i + 1 else i + 2
  }

  function Joint(bs: seq<Block>, h: nat, lo: nat, hi: nat): Block
    requires lo < |bs| && hi < |bs| && bs[lo].off + h <= bs[hi].off
  {
    Block(bs[lo].off, bs[hi].off - h - bs[lo].off, false)
  }

  lemma PrefixNoTwoFree(bs: seq<Block>, i: nat)
    requires NoTwoFree(bs) && i <= |bs|
    ensures NoTwoFree(bs[..i])
  {
    var c := bs[..i];
    forall k, l | 0 <= k && l == k + 1 < |c|
      ensures c[k].used || c[l].used
    {
      assert c[k] == bs[k] && c[l] == bs[l];
    }
  }

  /** Joining to the right of a free block `i` all of whose predecessors are settled. */
  lemma CoalesceRight(c: seq<Block>, h: nat, i: nat)
    requires i + 1 < |c| && NoTwoFree(c[..i+1]) && !c[i].used
    requires !c[i+1].used && Joined(c[i], c[i+1], h) && i + 2 < |c| && Joined(c[i+1], c[i+2], h)
    ensures c[i].off + h <= c[i+2].off
    ensures Coalesce(c, h) == Coalesce(Splice(c, i, i + 2, [Joint(c, h, i, i + 2)]), h)
  {
    CoalesceMerge(c, h, i);
    assert Joint(c, h, i, i + 2) == Merge(c[i], c[i+1], h);
  }

  lemma JoinedAt(bs: seq<Block>, h: nat, i: nat)
    requires Contiguous(bs, h) && i + 1 < |bs|
    ensures bs[i].off + h + bs[i].size == bs[i+1].off
  {
    assert Joined(bs[i], bs[i+1], h);
  }

  lemma FreedJoinsLeft(bs: seq<Block>, h: nat, i: nat)
    requires Contiguous(bs, h) && NoTwoFree(bs) && i + 1 < |bs|
    ensures var lo := FreedLo(bs, i);
      && bs[lo].off + h <= bs[i+1].off
      && Freed(bs, h, i) == Coalesce(Splice(bs, lo, i + 1, [Joint(bs, h, lo, i + 1)]), h)
  {
    hide Coalesce, NoTwoFree, Contiguous;
    var c := bs[i := bs[i].(used := false)];
    var lo := FreedLo(bs, i);
    JoinedAt(bs, h, i);
    if lo < i {
      JoinedAt(bs, h, lo);
      PrefixNoTwoFree(bs, i);
      assert c[..i] == bs[..i];
      CoalesceRight(c, h, lo);
      assert Splice(c, lo, i + 1, [Joint(c, h, lo, i + 1)]) == Splice(bs, lo, i + 1, [Joint(bs, h, lo, i + 1)]);
    } else {
      assert c == Splice(bs, lo, i + 1, [Joint(bs, h, lo, i + 1)]);
    }
  }

  /** When no free blocks touch, looking at the two neighbours joins as much as scanning the whole list. */
  lemma FreedLocal(bs: seq<Block>, h: nat, end: nat, i: nat)
    requires Tiled(bs, h, end) && NoTwoFree(bs) && i + 1 < |bs|
    ensures var lo, hi := FreedLo(bs, i), FreedHi(bs, i);
      && hi < |bs| && bs[lo].off + h <= bs[hi].off && (lo > 0 ==> bs[lo-1].used) && bs[hi].used
      && Freed(bs, h, i) == Splice(bs, lo, hi, [Joint(bs, h, lo, hi)])
  {
    hide Coalesce, NoTwoFree, Contiguous, Freed;
    var lo, hi := FreedLo(bs, i), FreedHi(bs, i);
    FreedEdges(bs, i);
    FreedJoinsLeft(bs, h, i);
    if hi == i + 2 {
      JoinedAt(bs, h, i + 1);
      FreedJoinsRight(bs, h, lo, i + 1);
    }
    SpliceNoTwoFree(bs, lo, hi, [Joint(bs, h, lo, hi)]) by { SingleNoTwoFree(Joint(bs, h, lo, hi)); }
    CoalesceFixed(Splice(bs, lo, hi, [Joint(bs, h, lo, hi)]), h);
  }

  lemma SingleNoTwoFree(b: Block)
    ensures NoTwoFree([b])
  {
  }

  /** The blocks around a joined run are used. */
  lemma FreedEdges(bs: seq<Block>, i: nat)
    requires NoTwoFree(bs) && i + 1 < |bs| && bs[|bs|-1].used
    ensures var lo, hi := FreedLo(bs, i), FreedHi(bs, i);
      hi < |bs| && (lo > 0 ==> bs[lo-1].used) && bs[hi].used
  {
    var lo, hi := FreedLo(bs, i), FreedHi(bs, i);
    if lo < i && lo > 0 {
      assert bs[lo-1].used;
    }
  }

  lemma FreedJoinsRight(bs: seq<Block>, h: nat, lo: nat, j: nat)
    requires lo < j && j + 1 < |bs| && NoTwoFree(bs) && (lo > 0 ==> bs[lo-1].used) && !bs[j].used
    requires bs[lo].off + h <= bs[j].off && Joined(bs[j], bs[j+1], h)
    ensures Coalesce(Splice(bs, lo, j, [Joint(bs, h, lo, j)]), h)
         == Coalesce(Splice(bs, lo, j + 1, [Joint(bs, h, lo, j + 1)]), h)
  {
    hide Coalesce, NoTwoFree;
    var x := Joint(bs, h, lo, j);
    var m := Splice(bs, lo, j, [x]);
    assert m[lo] == x && m[lo+1] == bs[j] && m[lo+2] == bs[j+1];
    SettledPrefix(bs, lo, x);
    assert m[..lo+1] == bs[..lo] + [x];
    CoalesceRight(m, h, lo);
    assert Splice(m, lo, lo + 2, [Joint(m, h, lo, lo + 2)]) == Splice(bs, lo, j + 1, [Joint(bs, h, lo, j + 1)]);
  }

  lemma SettledPrefix(bs: seq<Block>, lo: nat, x: Block)
    requires NoTwoFree(bs) && lo < |bs| && (lo > 0 ==> bs[lo-1].used)
    ensures NoTwoFree(bs[..lo] + [x])
  {
    var c := bs[..lo] + [x];
    forall k, l | 0 <= k && l == k + 1 < |c|
      ensures c[k].used || c[l].used
    {
      assert c[k] == bs[k] && (l < lo ==> c[l] == bs[l]);
    }
  }

  /** Releasing makes available the block's payload and the headers that the joins give up. */
  lemma FreedBytes(bs: seq<Block>, h: nat, end: nat, i: nat)
    requires Tiled(bs, h, end) && NoTwoFree(bs) && i + 1 < |bs| && bs[i].used
    ensures FreeBytes(Freed(bs, h, i))
         == FreeBytes(bs) + bs[i].size + (if FreedLo(bs, i) < i then h else 0) + (if bs[i+1].used then 0 else h)
  {
    hide NoTwoFree, Contiguous, Freed, FreeBytes, Splice;
    var lo, hi := FreedLo(bs, i), FreedHi(bs, i);
    FreedLocal(bs, h, end, i);
    var x := Joint(bs, h, lo, hi);
    SpliceSums(bs, h, lo, hi, [x]);
    JoinedAt(bs, h, i);
    if lo < i { JoinedAt(bs, h, lo); }
    if hi == i + 2 { JoinedAt(bs, h, i + 1); }
    RunFreeBytes(bs, i, lo, hi);
    OneBlock(x, x, h);
  }

  lemma RunFreeBytes(bs: seq<Block>, i: nat, lo: nat, hi: nat)
    requires i + 1 < |bs| && bs[i].used && lo == FreedLo(bs, i) && hi == FreedHi(bs, i) && hi <= |bs|
    ensures FreeBytes(bs[lo..hi]) == (if lo < i then bs[lo].size else 0) + (if bs[i+1].used then 0 else bs[i+1].size)
  {
    assert bs[lo..hi] == bs[lo..i] + (bs[i..i+1] + bs[i+1..hi]);
    FreeBytesConcat(bs[lo..i], bs[i..i+1] + bs[i+1..hi]);
    FreeBytesConcat(bs[i..i+1], bs[i+1..hi]);
    assert bs[i..i+1] == [bs[i]] && bs[lo..i] == (if lo < i then [bs[lo]] else []) && bs[i+1..hi] == (if bs[i+1].used then [] else [bs[i+1]]);
    OneBlock(bs[i], bs[i], 0);
    OneBlock(bs[lo], bs[lo], 0);
    OneBlock(bs[i+1], bs[i+1], 0);
  }

  /** Cutting a free block in two and handing out the lower part. */
  function Split(bs: seq<Block>, h: nat, i: nat, n: nat): seq<Block>
    requires i < |bs| && bs[i].size >= n + h
  {
    Splice(bs, i, i + 1, [Block(bs[i].off, n, true), Block(bs[i].off + h + n, bs[i].size - n - h, false)])
  }

  lemma SplitTiled(bs: seq<Block>, h: nat, end: nat, i: nat, n: nat)
    requires Tiled(bs, h, end) && i + 1 < |bs| && bs[i].size >= n + h
    ensures Tiled(Split(bs, h, i, n), h, end)
    ensures NoTwoFree(bs) && !bs[i].used ==> NoTwoFree(Split(bs, h, i, n))
  {
    var mid := [Block(bs[i].off, n, true), Block(bs[i].off + h + n, bs[i].size - n - h, false)];
    JoinedAt(bs, h, i);
    SpliceTiled(bs, h, end, i, i + 1, mid);
    if NoTwoFree(bs) && !bs[i].used {
      assert bs[i].used || bs[i+1].used;
      SpliceNoTwoFree(bs, i, i + 1, mid);
    }
  }

  lemma SplitAccounts(bs: seq<Block>, h: nat, end: nat, i: nat, n: nat)
    requires Tiled(bs, h, end) && h > 0 && i + 1 < |bs| && bs[i].size >= n + h
    ensures var c := Split(bs, h, i, n);
      && Live(c) == Live(bs) - {bs[i]} + {Block(bs[i].off, n, true)}
      && FreeOffs(c) == FreeOffs(bs) - {bs[i].off} + {bs[i].off + h + n}
      && FreeBytes(c) + FreeOf(bs[i]) + n + h == FreeBytes(bs) + bs[i].size
      && UsedSpan(c, h) + SpanOf(bs[i], h) == UsedSpan(bs, h) + h + n
  {
    hide Tiled, FreeBytes, UsedSpan, Live, FreeOffs;
    var x, y := Block(bs[i].off, n, true), Block(bs[i].off + h + n, bs[i].size - n - h, false);
    ReplaceOne(bs, h, end, i, [x, y]);
    TwoBlocks(x, y, bs[i+1], h);
    OneBlock(x, y, h);
    OneBlock(y, x, h);
  }

  /** Cutting a used block in two used ones, the first of `n` bytes. */
  function Cut(bs: seq<Block>, h: nat, i: nat, n: nat): seq<Block>
    requires i < |bs| && bs[i].size >= n + h
  {
    Splice(bs, i, i + 1, [Block(bs[i].off, n, true), Block(bs[i].off + h + n, bs[i].size - n - h, true)])
  }

  lemma CutKeeps(bs: seq<Block>, h: nat, end: nat, i: nat, n: nat)
    requires Tiled(bs, h, end) && NoTwoFree(bs) && i + 1 < |bs| && bs[i].used && bs[i].size >= n + h
    ensures Tiled(Cut(bs, h, i, n), h, end) && NoTwoFree(Cut(bs, h, i, n))
  {
    var mid := [Block(bs[i].off, n, true), Block(bs[i].off + h + n, bs[i].size - n - h, true)];
    assert Joined(bs[i], bs[i+1], h);
    SpliceTiled(bs, h, end, i, i + 1, mid);
    SpliceNoTwoFree(bs, i, i + 1, mid);
  }

  lemma CutAccounts(bs: seq<Block>, h: nat, end: nat, i: nat, n: nat)
    requires Tiled(bs, h, end) && h > 0 && i + 1 < |bs| && bs[i].used && bs[i].size >= n + h
    ensures var c := Cut(bs, h, i, n);
      && Live(c) == Live(bs) - {bs[i]} + {c[i], c[i+1]}
      && FreeBytes(c) == FreeBytes(bs) && FreeOffs(c) == FreeOffs(bs) && UsedSpan(c, h) == UsedSpan(bs, h)
  {
    hide Tiled, FreeBytes, UsedSpan, Live, FreeOffs;
    var x, y := Block(bs[i].off, n, true), Block(bs[i].off + h + n, bs[i].size - n - h, true);
    ReplaceOne(bs, h, end, i, [x, y]);
    FreeOffsOther(bs, h, end, i);
    TwoBlocks(x, y, bs[i+1], h);
    OneBlock(x, y, h);
    OneBlock(y, x, h);
  }

  /** Handing out a whole block. */
  lemma MarkUsedKeeps(bs: seq<Block>, h: nat, end: nat, i: nat)
    requires Tiled(bs, h, end) && h > 0 && i + 1 < |bs| && !bs[i].used
    ensures var c := bs[i := bs[i].(used := true)];
      && Tiled(c, h, end) && (NoTwoFree(bs) ==> NoTwoFree(c))
      && Live(c) == Live(bs) + {c[i]}
      && FreeOffs(c) == FreeOffs(bs) - {bs[i].off}
      && FreeBytes(c) + bs[i].size == FreeBytes(bs)
      && UsedSpan(c, h) == UsedSpan(bs, h) + h + bs[i].size
  {
    hide Tiled, FreeBytes, UsedSpan, Live, FreeOffs, NoTwoFree;
    var c := bs[i := bs[i].(used := true)];
    MarkTiled(bs, h, end, i, true);
    assert c == Splice(bs, i, i + 1, [c[i]]);
    if NoTwoFree(bs) {
      SingleNoTwoFree(c[i]);
      SpliceNoTwoFree(bs, i, i + 1, [c[i]]);
    }
    ReplaceOne(bs, h, end, i, [c[i]]);
    OneBlock(c[i], bs[i+1], h);
    LiveMember(bs, bs[i]);
  }

  lemma LiveMember(bs: seq<Block>, b: Block)
    ensures b in Live(bs) <==> b in bs && b.used
  {
  }

  /** Releasing a used block frees its address or adds nothing, and takes that of a right neighbour it joins. */
  lemma FreedFreeOffs(bs: seq<Block>, h: nat, end: nat, i: nat)
    requires Tiled(bs, h, end) && NoTwoFree(bs) && h > 0 && i + 1 < |bs| && bs[i].used
    ensures FreeOffs(Freed(bs, h, i))
         == FreeOffs(bs) - (if bs[i+1].used then {} else {bs[i+1].off}) + {bs[FreedLo(bs, i)].off}
  {
    hide Tiled, NoTwoFree, FreeOffs, Freed;
    var lo, hi := FreedLo(bs, i), FreedHi(bs, i);
    FreedLocal(bs, h, end, i);
    FreeOffsSplice(bs, h, end, lo, hi, [Joint(bs, h, lo, hi)]);
    OneBlock(Joint(bs, h, lo, hi), bs[i], h);
    RunFreeOffs(bs, i, lo, hi);
  }

  lemma RunFreeOffs(bs: seq<Block>, i: nat, lo: nat, hi: nat)
    requires i + 1 < |bs| && bs[i].used && lo == FreedLo(bs, i) && hi == FreedHi(bs, i) && hi <= |bs|
    ensures FreeOffs(bs[lo..hi]) == (if lo < i then {bs[lo].off} else {}) + (if bs[i+1].used then {} else {bs[i+1].off})
  {
    assert lo < i ==> bs[lo..hi][0] == bs[lo];
    assert hi == i + 2 ==> bs[lo..hi][i+1-lo] == bs[i+1];
  }

  /** Releasing the part just split off gives back the list. */
  lemma FreedUndoesSplit(bs: seq<Block>, h: nat, end: nat, i: nat, n: nat)
    requires Tiled(bs, h, end) && NoTwoFree(bs) && h > 0 && i + 1 < |bs| && !bs[i].used && bs[i].size >= n + h
    ensures Freed(Split(bs, h, i, n), h, i) == bs
  {
    var c := Split(bs, h, i, n);
    var d := c[i := c[i].(used := false)];
    assert d[..i] == bs[..i] && d[i+2..] == bs[i+1..];
    assert i > 0 ==> bs[i-1].used;
    SettledPrefix(bs, i, d[i]);
    assert d[..i+1] == bs[..i] + [d[i]];
    CoalesceMerge(d, h, i);
    assert Splice(d, i, i + 2, [Merge(d[i], d[i+1], h)]) == bs;
    CoalesceFixed(bs, h);
  }

  lemma FreedUndoesMark(bs: seq<Block>, h: nat, end: nat, i: nat)
    requires Tiled(bs, h, end) && NoTwoFree(bs) && h > 0 && i + 1 < |bs| && !bs[i].used
    ensures Freed(bs[i := bs[i].(used := true)], h, i) == bs
  {
    var c := bs[i := bs[i].(used := true)];
    assert c[i := c[i].(used := false)] == bs;
    CoalesceFixed(bs, h);
  }

  // ---- releasing step by step, as the code does ----

  /** Block `i` marked free and joined to a free block on its left. */
  function JoinedLeft(bs: seq<Block>, h: nat, i: nat): (c: seq<Block>)
    requires i < |bs|
    ensures FreedLo(bs, i) < |c|
  {
    var c := bs[i := bs[i].(used := false)];
    if i > 0 && !bs[i-1].used then Splice(c, i - 1, i + 1, [Merge(c[i-1], c[i], h)]) else c
  }

  /** Block `k` joined to a free block on its right. */
  function JoinedRight(bs: seq<Block>, h: nat, k: nat): seq<Block>
    requires k + 1 < |bs|
  {
    if !bs[k+1].used then Splice(bs, k, k + 2, [Merge(bs[k], bs[k+1], h)]) else bs
  }

  lemma FreedBySteps(bs: seq<Block>, h: nat, end: nat, i: nat)
    requires Tiled(bs, h, end) && NoTwoFree(bs) && i + 1 < |bs|
    ensures var d, lo := JoinedLeft(bs, h, i), FreedLo(bs, i);
      && lo + 1 < |d| && d[lo+1] == bs[i+1] && d[lo].off == bs[lo].off && !d[lo].used
      && d[lo].off + h + d[lo].size == bs[i+1].off
      && JoinedRight(d, h, lo) == Freed(bs, h, i)
  {
    hide Tiled, NoTwoFree, Contiguous, Freed, JoinedLeft, JoinedRight, Splice;
    var lo := FreedLo(bs, i);
    FreedLocal(bs, h, end, i);
    TiledChain(bs, h, end);
    JoinedLeftIs(bs, h, i);
    SpliceJoinsRight(bs, h, lo, i + 1, Joint(bs, h, lo, i + 1));
    if !bs[i+1].used {
      JoinedAt(bs, h, i + 1);
      assert Merge(Joint(bs, h, lo, i + 1), bs[i+1], h) == Joint(bs, h, lo, i + 2);
    }
  }

  lemma TiledChain(bs: seq<Block>, h: nat, end: nat)
    requires Tiled(bs, h, end)
    ensures Contiguous(bs, h)
  {
  }

  /** After the blocks from `lo` to `j` became `x`, a join to the right takes block `j` in. */
  lemma SpliceJoinsRight(bs: seq<Block>, h: nat, lo: nat, j: nat, x: Block)
    requires lo < j < |bs|
    ensures var d := Splice(bs, lo, j, [x]);
      && lo + 1 < |d| && d[lo] == x && d[lo+1] == bs[j]
      && JoinedRight(d, h, lo) == if bs[j].used then d else Splice(bs, lo, j + 1, [Merge(x, bs[j], h)])
  {
    var d := Splice(bs, lo, j, [x]);
    assert d[..lo] == bs[..lo];
    assert d[lo+2..] == bs[j+1..];
  }

  /** Block `k + 1` joined to a free block on its left. */
  function JoinedBack(bs: seq<Block>, h: nat, i: nat): seq<Block>
    requires i < |bs|
  {
    if i > 0 && !bs[i-1].used then Splice(bs, i - 1, i + 1, [Merge(bs[i-1], bs[i], h)]) else bs
  }

  /** Joining forward and then backward gives the same list. */
  lemma FreedForwardFirst(bs: seq<Block>, h: nat, end: nat, i: nat)
    requires Tiled(bs, h, end) && NoTwoFree(bs) && i + 1 < |bs|
    ensures var c := bs[i := bs[i].(used := false)];
      var d := JoinedRight(c, h, i);
      && i + 1 < |d| && (!bs[i+1].used ==> i + 2 < |bs|)
      && d[i].off == bs[i].off && !d[i].used && (i > 0 ==> d[i-1] == bs[i-1])
      && JoinedBack(d, h, i) == Freed(bs, h, i)
  {
    hide NoTwoFree, Contiguous, Freed;
    var lo, hi := FreedLo(bs, i), FreedHi(bs, i);
    FreedLocal(bs, h, end, i);
    JoinedAt(bs, h, i);
    JoinedAt(bs, h, lo);
    var c := bs[i := bs[i].(used := false)];
    var d := JoinedRight(c, h, i);
    if hi == i + 2 { JoinedAt(bs, h, i + 1); }
    assert d == Splice(bs, i, hi, [Joint(bs, h, i, hi)]);
    if lo < i {
      assert d[i-1] == bs[i-1] && Merge(d[i-1], d[i], h) == Joint(bs, h, lo, hi);
      assert d[..i-1] == bs[..i-1] && d[i+1..] == bs[hi..];
    }
  }

  lemma JoinedLeftIs(bs: seq<Block>, h: nat, i: nat)
    requires Contiguous(bs, h) && i + 1 < |bs|
    ensures var lo := FreedLo(bs, i);
      bs[lo].off + h <= bs[i+1].off && JoinedLeft(bs, h, i) == Splice(bs, lo, i + 1, [Joint(bs, h, lo, i + 1)])
  {
    var lo := FreedLo(bs, i);
    JoinedAt(bs, h, i);
    JoinedAt(bs, h, lo);
  }

  lemma FreedAligned(bs: seq<Block>, h: nat, end: nat, i: nat)
    requires Tiled(bs, h, end) && NoTwoFree(bs) && i + 1 < |bs| && Aligned(bs)
    ensures Aligned(Freed(bs, h, i))
  {
    hide NoTwoFree, Contiguous, Freed;
    var lo, hi := FreedLo(bs, i), FreedHi(bs, i);
    FreedLocal(bs, h, end, i);
    SpliceMembers(bs, lo, hi, [Joint(bs, h, lo, hi)]);
    assert bs[lo] in bs;
  }

  // ---- no block is too small ----

  /** Every block but the end marker has a payload of at least `m` bytes. */
  ghost predicate AtLeast(bs: seq<Block>, m: nat) {
    forall i :: 0 <= i && i + 1 < |bs| ==> bs[i].size >= m
  }

  lemma AtLeastSplice(bs: seq<Block>, i: nat, j: nat, mid: seq<Block>, m: nat)
    requires AtLeast(bs, m) && i <= j < |bs| && forall k :: 0 <= k < |mid| ==> mid[k].size >= m
    ensures AtLeast(Splice(bs, i, j, mid), m)
  {
    var c := Splice(bs, i, j, mid);
    forall k | 0 <= k && k + 1 < |c|
      ensures c[k].size >= m
    {
      assert c[k] == if k < i then bs[k] else if k < i + |mid| then mid[k-i] else bs[k - i - |mid| + j];
    }
  }

  lemma FreedAtLeast(bs: seq<Block>, h: nat, end: nat, i: nat, m: nat)
    requires Tiled(bs, h, end) && NoTwoFree(bs) && h > 0 && i + 1 < |bs| && AtLeast(bs, m)
    ensures AtLeast(Freed(bs, h, i), m)
  {
    hide NoTwoFree, Freed, AtLeast;
    var lo, hi := FreedLo(bs, i), FreedHi(bs, i);
    FreedLocal(bs, h, end, i);
    JointAtLeast(bs, h, end, lo, hi, m);
    AtLeastSplice(bs, lo, hi, [Joint(bs, h, lo, hi)], m);
  }

  lemma JointAtLeast(bs: seq<Block>, h: nat, end: nat, lo: nat, hi: nat, m: nat)
    requires Tiled(bs, h, end) && lo < hi < |bs| && bs[lo].off + h <= bs[hi].off && AtLeast(bs, m)
    ensures Joint(bs, h, lo, hi).size >= m
  {
    Ordered(bs, h, lo, hi);
    assert bs[lo].size >= m;
  }

  // ---- the list is determined by what is handed out ----

  /** The next block is the first live one behind, or the gap in front of it. */
  lemma {:induction false} LiveAbove(bs: seq<Block>, h: nat, end: nat, k: nat, b: Block)
    requires Tiled(bs, h, end) && h > 0 && k < |bs| && b in Live(bs) && b.off >= bs[k].off
    ensures b in bs[k..]
  {
    var i :| 0 <= i < |bs| && bs[i] == b;
    if i < k {
      Ordered(bs, h, i, k);
    }
    assert bs[k..][i-k] == b;
  }

  /** Where two lists agree up to `k`, their next blocks agree as well. */
  lemma NextAgrees(bs: seq<Block>, cs: seq<Block>, h: nat, end: nat, k: nat)
    requires Tiled(bs, h, end) && Tiled(cs, h, end) && NoTwoFree(bs) && NoTwoFree(cs) && h > 0 && Live(bs) == Live(cs)
    requires k < |bs| && k < |cs| && bs[k].off == cs[k].off && (k == 0 || bs[k-1].used == cs[k-1].used)
    ensures bs[k].used == cs[k].used && bs[k].size == cs[k].size
    ensures k + 1 == |bs| <==> k + 1 == |cs|
    ensures k + 1 < |bs| && k + 1 < |cs| ==> bs[k+1].off == cs[k+1].off
  {
    SameKind(bs, cs, h, end, k);
    SameKind(cs, bs, h, end, k);
    if bs[k].used {
      assert bs[k] in Live(bs) && bs[k] in Live(cs);
      OffsDistinct(cs, h, end);
      var j :| 0 <= j < |cs| && cs[j] == bs[k];
      assert j == k;
    } else {
      GapEnds(bs, cs, h, end, k);
      GapEnds(cs, bs, h, end, k);
    }
    Follows(bs, h, end, k);
    Follows(cs, h, end, k);
  }

  lemma Follows(bs: seq<Block>, h: nat, end: nat, k: nat)
    requires Tiled(bs, h, end) && h > 0 && k < |bs|
    ensures k + 1 < |bs| ==> bs[k].off + h + bs[k].size == bs[k+1].off <= end
    ensures k + 1 == |bs| ==> bs[k].off == end
    ensures k + 1 < |bs| ==> bs[k].off < end
  {
    if k + 1 < |bs| {
      JoinedAt(bs, h, k);
      if k + 2 < |bs| {
        Ordered(bs, h, k + 1, |bs| - 1);
      }
    }
  }

  lemma SameKind(bs: seq<Block>, cs: seq<Block>, h: nat, end: nat, k: nat)
    requires Tiled(bs, h, end) && Tiled(cs, h, end) && h > 0 && Live(bs) == Live(cs)
    requires k < |bs| && k < |cs| && bs[k].off == cs[k].off
    ensures bs[k].used ==> cs[k].used
  {
    if bs[k].used {
      assert bs[k] in Live(bs) && bs[k] in Live(cs);
      OffsDistinct(cs, h, end);
      var j :| 0 <= j < |cs| && cs[j] == bs[k];
      assert j == k;
    }
  }

  /** A free block ends where the next live block begins. */
  lemma GapEnds(bs: seq<Block>, cs: seq<Block>, h: nat, end: nat, k: nat)
    requires Tiled(bs, h, end) && Tiled(cs, h, end) && NoTwoFree(bs) && NoTwoFree(cs) && h > 0 && Live(bs) == Live(cs)
    requires k < |bs| && k < |cs| && bs[k].off == cs[k].off && !bs[k].used && !cs[k].used
    ensures k + 1 < |bs| && k + 1 < |cs| && cs[k+1].off <= bs[k+1].off
  {
    var b := bs[k+1];
    assert b.used;
    assert b in Live(bs) && b in Live(cs);
    Follows(bs, h, end, k);
    LiveAbove(cs, h, end, k, b);
    var i :| 0 <= i < |cs[k..]| && cs[k..][i] == b;
    assert cs[k+i] == b && i > 0;
    if i > 1 {
      Ordered(cs, h, k + 1, k + i);
    }
  }

  lemma {:induction false} PrefixesAgree(bs: seq<Block>, cs: seq<Block>, h: nat, end: nat, k: nat)
    requires Tiled(bs, h, end) && Tiled(cs, h, end) && NoTwoFree(bs) && NoTwoFree(cs) && h > 0 && Live(bs) == Live(cs)
    requires k <= |bs| && (k > 0 ==> k <= |cs|)
    ensures k <= |cs| && bs[..k] == cs[..k]
  {
    if k > 0 {
      PrefixesAgree(bs, cs, h, end, k - 1);
      if k > 1 {
        assert bs[k-2] == bs[..k-1][k-2] == cs[..k-1][k-2] == cs[k-2];
        NextAgrees(bs, cs, h, end, k - 2);
      }
      NextAgrees(bs, cs, h, end, k - 1);
      assert bs[..k] == bs[..k-1] + [bs[k-1]] && cs[..k] == cs[..k-1] + [cs[k-1]];
    }
  }

  /** Where no two free blocks touch, the blocks in use determine the whole list. */
  lemma LiveDetermines(bs: seq<Block>, cs: seq<Block>, h: nat, end: nat)
    requires Tiled(bs, h, end) && Tiled(cs, h, end) && NoTwoFree(bs) && NoTwoFree(cs) && h > 0 && Live(bs) == Live(cs)
    ensures bs == cs
  {
    hide Live, NoTwoFree;
    var k := if |bs| < |cs| then |bs| else |cs|;
    PrefixesAgree(bs, cs, h, end, k);
    assert bs[..k][k-1] == cs[..k][k-1];
    Follows(bs, h, end, k - 1);
    Follows(cs, h, end, k - 1);
  }
}
