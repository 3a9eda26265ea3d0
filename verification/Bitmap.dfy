/** Ready bitmaps: which of the priority lists are non-empty, and the best of them. */
module Bitmap {
  import opened IpcList

  // ---- __rt_ffs ----

  /** The sixteen rows of __lowest_bit_bitmap agree but for their first column. */
  function RowEntry(n: bv32): nat {
    match n
    case 1 => 0 case 2 => 1 case 3 => 0 case 4 => 2 case 5 => 0 case 6 => 1 case 7 => 0
    case 8 => 3 case 9 => 0 case 10 => 1 case 11 => 0 case 12 => 2 case 13 => 0 case 14 => 1 case _ => 0
  }

  function ColumnEntry(n: bv32): nat {
    match n
    case 0 => 0 case 1 => 4 case 2 => 5 case 3 => 4 case 4 => 6 case 5 => 4 case 6 => 5 case 7 => 4
    case 8 => 7 case 9 => 4 case 10 => 5 case 11 => 4 case 12 => 6 case 13 => 4 case 14 => 5 case _ => 4
  }

  function LowestBit(b: bv32): nat {
    if b & 0x0f != 0 then RowEntry(b & 0x0f) else ColumnEntry((b & 0xf0) >> 4)
  }

  function Ffs(value: bv32): nat {
    if value == 0 then 0
    else if value & 0xff != 0 then LowestBit(value & 0xff) + 1
    else if value & 0xff00 != 0 then LowestBit((value & 0xff00) >> 8) + 9
    else if value & 0xff_0000 != 0 then LowestBit((value & 0xff_0000) >> 16) + 17
    else LowestBit((value & 0xff00_0000) >> 24) + 25
  }

  /** 1 << p. */
  function Mask(p: nat): bv32 {
    if p == 0 then 1 else Mask(p - 1) << 1
  }

  lemma SmallMasks()
    ensures Mask(0) == 1 && Mask(1) == 2 && Mask(2) == 4 && Mask(3) == 8
    ensures Mask(4) == 16 && Mask(5) == 32 && Mask(6) == 64 && Mask(7) == 128
  {
    assert Mask(1) == 2;
    assert Mask(2) == 4;
    assert Mask(3) == 8;
    assert Mask(4) == 16;
    assert Mask(5) == 32;
    assert Mask(6) == 64;
  }

  lemma RowRight(n: bv32)
    requires 0 < n < 16
    ensures RowEntry(n) < 4 && n & Mask(RowEntry(n)) != 0 && n & (Mask(RowEntry(n)) - 1) == 0
  {
    SmallMasks();
  }

  lemma ColumnRight(n: bv32)
    requires 0 < n < 16
    ensures 4 <= ColumnEntry(n) < 8 && (n << 4) & Mask(ColumnEntry(n)) != 0 && (n << 4) & (Mask(ColumnEntry(n)) - 1) == 0
  {
    SmallMasks();
  }

  /** Bit `p` of `v` is set and no bit below it is. */
  predicate LowestIs(v: bv32, p: nat) {
    LowestAt(v, Mask(p))
  }

  predicate LowestAt(v: bv32, m: bv32) {
    Hits(v, m) && ClearBelow(v, m)
  }

  predicate Hits(v: bv32, m: bv32) {
    v & m != 0
  }

  predicate ClearBelow(v: bv32, m: bv32) {
    v & (m - 1) == 0
  }

  lemma LowNibble(b: bv32, m: bv32)
    requires m == 1 || m == 2 || m == 4 || m == 8
    requires (b & 0x0f) & m != 0 && (b & 0x0f) & (m - 1) == 0
    ensures b & m != 0 && b & (m - 1) == 0
  {
  }

  lemma HighNibble(b: bv32, m: bv32)
    requires b & 0x0f == 0 && b < 0x100
    requires (((b & 0xf0) >> 4) << 4) & m != 0 && (((b & 0xf0) >> 4) << 4) & (m - 1) == 0
    ensures b & m != 0 && b & (m - 1) == 0
  {
  }

  lemma NibbleRange(b: bv32)
    requires 0 < b < 0x100
    ensures b & 0x0f != 0 ==> 0 < b & 0x0f < 16
    ensures b & 0x0f == 0 ==> 0 < (b & 0xf0) >> 4 < 16
  {
  }

  lemma LowestBitRight(b: bv32)
    requires 0 < b < 0x100
    ensures LowestBit(b) < 8 && LowestIs(b, LowestBit(b))
  {
    NibbleRange(b);
    hide Mask, RowEntry, ColumnEntry;
    SmallMasks();
    if b & 0x0f != 0 {
      RowRight(b & 0x0f);
      LowNibble(b, Mask(LowestBit(b)));
    } else {
      ColumnRight((b & 0xf0) >> 4);
      HighNibble(b, Mask(LowestBit(b)));
    }
  }

  lemma Shl8(x: bv32)
    ensures ((((((((x << 1) << 1) << 1) << 1) << 1) << 1) << 1) << 1) == x << 8
    ensures (x << 8) << 8 == x << 16 && (x << 16) << 8 == x << 24
  {
  }

  lemma Mask8(p: nat)
    ensures Mask(p + 8) == Mask(p) << 8
  {
    hide Mask;
    MaskNext(p);
    MaskNext(p + 1);
    MaskNext(p + 2);
    MaskNext(p + 3);
    MaskNext(p + 4);
    MaskNext(p + 5);
    MaskNext(p + 6);
    MaskNext(p + 7);
    Shl8(Mask(p));
  }

  lemma MaskNext(p: nat)
    ensures Mask(p + 1) == Mask(p) << 1
  {
  }

  lemma MaskByte(p: nat)
    requires p < 8
    ensures Mask(p + 8) == Mask(p) << 8 && Mask(p + 16) == Mask(p) << 16 && Mask(p + 24) == Mask(p) << 24
    ensures SmallBit(Mask(p))
  {
    hide Mask;
    SmallMasks();
    Mask8(p);
    Mask8(p + 8);
    Mask8(p + 16);
    Shl8(Mask(p));
  }

  predicate SmallBit(m: bv32) {
    m == 1 || m == 2 || m == 4 || m == 8 || m == 16 || m == 32 || m == 64 || m == 128
  }

  lemma Byte0(v: bv32, m: bv32)
    requires SmallBit(m) && LowestAt(v & 0xff, m)
    ensures LowestAt(v, m)
  {
  }

  lemma Byte1(v: bv32, m: bv32)
    requires SmallBit(m) && v & 0xff == 0 && LowestAt((v & 0xff00) >> 8, m)
    ensures LowestAt(v, m << 8)
  {
  }

  lemma Byte2(v: bv32, m: bv32)
    requires SmallBit(m) && v & 0xffff == 0 && LowestAt((v & 0xff_0000) >> 16, m)
    ensures LowestAt(v, m << 16)
  {
  }

  lemma Byte3(v: bv32, m: bv32)
    requires SmallBit(m) && v & 0xff_ffff == 0 && LowestAt((v & 0xff00_0000) >> 24, m)
    ensures LowestAt(v, m << 24)
  {
  }

  lemma Bytes(v: bv32)
    requires v != 0
    ensures v & 0xff < 0x100 && (v & 0xff00) >> 8 < 0x100 && (v & 0xff_0000) >> 16 < 0x100 && (v & 0xff00_0000) >> 24 < 0x100
    ensures v & 0xff == 0 && v & 0xff00 == 0 ==> v & 0xffff == 0
    ensures v & 0xffff == 0 && v & 0xff_0000 == 0 ==> v & 0xff_ffff == 0
    ensures v & 0xff_ffff == 0 ==> (v & 0xff00_0000) >> 24 != 0
    ensures v & 0xff00 != 0 ==> (v & 0xff00) >> 8 != 0
    ensures v & 0xff_0000 != 0 ==> (v & 0xff_0000) >> 16 != 0
  {
  }

  /** __rt_ffs finds the least significant bit that is set, counted from 1. */
  lemma FfsRight(v: bv32)
    requires v != 0
    ensures 1 <= Ffs(v) <= 32 && LowestIs(v, Ffs(v) - 1)
  {
    hide Mask, LowestBit, LowestAt, SmallBit;
    Bytes(v);
    if v & 0xff != 0 {
      var b := v & 0xff;
      LowestBitRight(b);
      MaskByte(LowestBit(b));
      Byte0(v, Mask(LowestBit(b)));
    } else if v & 0xff00 != 0 {
      var b := (v & 0xff00) >> 8;
      LowestBitRight(b);
      MaskByte(LowestBit(b));
      Byte1(v, Mask(LowestBit(b)));
    } else if v & 0xff_0000 != 0 {
      var b := (v & 0xff_0000) >> 16;
      LowestBitRight(b);
      MaskByte(LowestBit(b));
      Byte2(v, Mask(LowestBit(b)));
    } else {
      var b := (v & 0xff00_0000) >> 24;
      LowestBitRight(b);
      MaskByte(LowestBit(b));
      Byte3(v, Mask(LowestBit(b)));
    }
  }

  // ---- a word as a set of numbers below 32 ----

  predicate Holds(v: bv32, p: nat) {
    Hits(v, Mask(p))
  }

  predicate OneHot(m: bv32) {
    m != 0 && m & (m - 1) == 0
  }

  lemma MaskOneHot(p: nat)
    requires p < 32
    ensures OneHot(Mask(p))
  {
    hide Mask;
    MaskByte(p % 8);
  }

  /** All of `m` lies below the bit `x`. */
  predicate Below(m: bv32, x: bv32) {
    m & (x - 1) == m
  }

  predicate Apart(m: bv32, x: bv32) {
    m & x == 0
  }

  lemma {:induction false} MaskBelow(p: nat, q: nat)
    requires p < q < 32
    ensures Below(Mask(p), Mask(q))
  {
    hide Mask, OneHot, Below;
    MaskOneHot(q - 1);
    MaskOneHot(q);
    MaskNext(q - 1);
    if p < q - 1 {
      MaskBelow(p, q - 1);
    }
    BelowNext(Mask(p), Mask(q - 1), Mask(q));
  }

  lemma BelowNext(m: bv32, x: bv32, y: bv32)
    requires OneHot(x) && OneHot(y) && y == x << 1 && (m == x || Below(m, x))
    ensures Below(m, y)
  {
  }

  lemma MasksApart(p: nat, q: nat)
    requires p < 32 && q < 32 && p != q
    ensures Apart(Mask(p), Mask(q))
  {
    hide Mask, OneHot, Below, Apart;
    MaskOneHot(p);
    MaskOneHot(q);
    if p < q {
      MaskBelow(p, q);
      ApartOf(Mask(p), Mask(q));
    } else {
      MaskBelow(q, p);
      ApartOf(Mask(q), Mask(p));
    }
  }

  lemma ApartOf(m: bv32, x: bv32)
    requires OneHot(x) && Below(m, x)
    ensures Apart(m, x) && Apart(x, m)
  {
  }

  function Or(v: bv32, m: bv32): bv32 { v | m }

  function AndNot(v: bv32, m: bv32): bv32 { v & !m }

  /** v |= 1 << p. */
  function Mark(v: bv32, p: nat): bv32 {
    Or(v, Mask(p))
  }

  /** v &= ~(1 << p). */
  function Unmark(v: bv32, p: nat): bv32 {
    AndNot(v, Mask(p))
  }

  lemma MarkSame(v: bv32, p: nat)
    requires p < 32
    ensures Holds(Mark(v, p), p) && !Holds(Unmark(v, p), p)
  {
    hide Mask, OneHot, Hits, Or, AndNot;
    MaskOneHot(p);
    HitsSame(v, Mask(p));
  }

  lemma HitsSame(v: bv32, m: bv32)
    requires OneHot(m)
    ensures Hits(Or(v, m), m) && !Hits(AndNot(v, m), m)
  {
  }

  lemma MarkOther(v: bv32, p: nat, q: nat)
    requires p < 32 && q < 32 && p != q
    ensures Holds(Mark(v, p), q) <==> Holds(v, q)
    ensures Holds(Unmark(v, p), q) <==> Holds(v, q)
  {
    hide Mask, Apart, Hits, Or, AndNot;
    MasksApart(p, q);
    HitsOr(v, Mask(p), Mask(q));
    HitsAndNot(v, Mask(p), Mask(q));
  }

  lemma HitsOr(v: bv32, m: bv32, x: bv32)
    requires Apart(m, x)
    ensures Hits(Or(v, m), x) <==> Hits(v, x)
  {
  }

  lemma HitsAndNot(v: bv32, m: bv32, x: bv32)
    requires Apart(m, x)
    ensures Hits(AndNot(v, m), x) <==> Hits(v, x)
  {
    AndNotApart(v, m, x);
  }

  lemma AndNotApart(v: bv32, m: bv32, x: bv32)
    requires Apart(m, x)
    ensures AndNot(v, m) & x == v & x
  {
  }

  lemma MarkHolds(v: bv32, p: nat, q: nat)
    requires p < 32 && q < 32
    ensures Holds(Mark(v, p), q) <==> Holds(v, q) || q == p
    ensures Holds(Unmark(v, p), q) <==> Holds(v, q) && q != p
  {
    hide Holds, Mark, Unmark;
    if p == q {
      MarkSame(v, p);
    } else {
      MarkOther(v, p, q);
    }
  }

  lemma ZeroHolds(q: nat)
    ensures !Holds(0, q)
  {
  }

  lemma NoneLower(v: bv32, p: nat, q: nat)
    requires q < p < 32 && LowestIs(v, p)
    ensures !Holds(v, q)
  {
    hide Mask, Below, Hits, ClearBelow;
    MaskBelow(q, p);
    NoneBelow(v, Mask(q), Mask(p));
  }

  lemma NoneBelow(v: bv32, m: bv32, x: bv32)
    requires ClearBelow(v, x) && Below(m, x)
    ensures !Hits(v, m)
  {
  }

  lemma LowestHolds(v: bv32, p: nat)
    requires LowestIs(v, p)
    ensures Holds(v, p)
  {
  }

  /** Only zero holds nothing, and __rt_ffs gives the least number held. */
  lemma FfsLeast(v: bv32)
    ensures v == 0 ==> forall q: nat :: q < 32 ==> !Holds(v, q)
    ensures v != 0 ==> 1 <= Ffs(v) <= 32 && Holds(v, Ffs(v) - 1) && forall q: nat :: q < Ffs(v) - 1 ==> !Holds(v, q)
  {
    hide Mask, Ffs, Holds, LowestIs;
    if v != 0 {
      FfsRight(v);
      var p := Ffs(v) - 1;
      LowestHolds(v, p);
      forall q: nat | q < p
        ensures !Holds(v, q)
      {
        NoneLower(v, p, q);
      }
    } else {
      forall q: nat | q < 32
        ensures !Holds(v, q)
      {
        ZeroHolds(q);
      }
    }
  }

  // ---- the best ready priority ----

  /** The plain minimum: the first list that is not empty. */
  function Best(ready: seq<seq<Tid>>): (p: nat)
    ensures p <= |ready|
    ensures forall q :: 0 <= q < p ==> ready[q] == []
    ensures p < |ready| ==> ready[p] != []
  {
    if ready == [] || ready[0] != [] then 0 else 1 + Best(ready[1..])
  }

  lemma BestUnique(ready: seq<seq<Tid>>, p: nat)
    requires p < |ready| && ready[p] != [] && forall q :: 0 <= q < p ==> ready[q] == []
    ensures Best(ready) == p
  {
  }

  /** Up to 32 priorities: one word. */
  ghost predicate Agrees(group: bv32, ready: seq<seq<Tid>>) {
    |ready| == 32 && forall p :: 0 <= p < 32 ==> (Holds(group, p) <==> ready[p] != [])
  }

  /** _get_highest_priority_thread, and the test that some thread is ready. */
  lemma HighestRight(group: bv32, ready: seq<seq<Tid>>)
    requires Agrees(group, ready)
    ensures group == 0 <==> Best(ready) == 32
    ensures group != 0 ==> Ffs(group) - 1 == Best(ready)
  {
    hide Holds, Ffs;
    FfsLeast(group);
    if group != 0 {
      BestUnique(ready, Ffs(group) - 1);
    }
  }

  /** rt_schedule_insert_thread marks the list it fills. */
  lemma InsertAgrees(group: bv32, ready: seq<seq<Tid>>, p: nat, list: seq<Tid>)
    requires Agrees(group, ready) && p < 32 && list != []
    ensures Agrees(Mark(group, p), ready[p := list])
  {
    hide Holds, Mark, Unmark;
    forall q: nat | q < 32
      ensures Holds(Mark(group, p), q) <==> ready[p := list][q] != []
    {
      MarkHolds(group, p, q);
    }
  }

  /** rt_schedule_remove_thread unmarks the list it empties. */
  lemma RemoveAgrees(group: bv32, ready: seq<seq<Tid>>, p: nat, list: seq<Tid>)
    requires Agrees(group, ready) && p < 32 && (list != [] ==> ready[p] != [])
    ensures Agrees(if list == [] then Unmark(group, p) else group, ready[p := list])
  {
    hide Holds, Mark, Unmark;
    if list == [] {
      forall q: nat | q < 32
        ensures Holds(Unmark(group, p), q) <==> ready[p := list][q] != []
      {
        MarkHolds(group, p, q);
      }
    }
  }

  // ---- up to 256 priorities ----

  /** The lists of the eight priorities of group `n`. */
  function Group(ready: seq<seq<Tid>>, n: nat): (r: seq<seq<Tid>>)
    requires n < 32 && |ready| == 256
    ensures |r| == 8
  {
    ready[8 * n..8 * n + 8]
  }

  lemma InGroup(ready: seq<seq<Tid>>, p: nat)
    requires p < 256 && |ready| == 256
    ensures p / 8 < 32 && p % 8 < 8 && Group(ready, p / 8)[p % 8] == ready[p]
  {
  }

  /** The byte of a group tells which of its lists are not empty. */
  ghost predicate ByteAgrees(byte: bv32, lists: seq<seq<Tid>>)
    requires |lists| == 8
  {
    byte < 0x100 && forall k: nat :: k < 8 ==> (Holds(byte, k) <==> lists[k] != [])
  }

  /** A word of 32 groups, and a byte for each group. */
  ghost predicate Agrees256(group: bv32, table: seq<bv32>, ready: seq<seq<Tid>>) {
    && |table| == 32 && |ready| == 256
    && (forall n :: 0 <= n < 32 ==> (Holds(group, n) <==> table[n] != 0))
    && (forall n :: 0 <= n < 32 ==> ByteAgrees(table[n], Group(ready, n)))
  }

  function Highest256(group: bv32, table: seq<bv32>): int
    requires |table| == 32 && 1 <= Ffs(group) <= 32
  {
    var number := Ffs(group) - 1;
    number * 8 + Ffs(table[number]) - 1
  }

  lemma ByteHoldsLow(v: bv32, p: nat)
    requires v < 0x100 && 8 <= p < 32
    ensures !Holds(v, p)
  {
    hide Mask;
    MaskByte(p % 8);
  }

  /** A byte is zero exactly when its lists are empty, and __rt_ffs finds the first that is not. */
  lemma ByteLeast(byte: bv32, lists: seq<seq<Tid>>)
    requires |lists| == 8 && ByteAgrees(byte, lists)
    ensures byte == 0 <==> Best(lists) == 8
    ensures byte != 0 ==> Ffs(byte) - 1 == Best(lists)
  {
    hide Holds, Ffs;
    FfsLeast(byte);
    if byte != 0 {
      var k := Ffs(byte) - 1;
      if k >= 8 {
        ByteHoldsLow(byte, k);
        assert false;
      }
      BestUnique(lists, k);
    } else if Best(lists) < 8 {
      assert false;
    }
  }

  /** All lists are empty below a group whose predecessors are all zero. */
  lemma EmptyBelow(table: seq<bv32>, ready: seq<seq<Tid>>, n: nat)
    requires |table| == 32 && |ready| == 256 && n <= 32
    requires forall m :: 0 <= m < 32 ==> ByteAgrees(table[m], Group(ready, m))
    requires forall m :: 0 <= m < n ==> table[m] == 0
    ensures forall q :: 0 <= q < 8 * n ==> ready[q] == []
  {
    hide ByteAgrees;
    forall q | 0 <= q < 8 * n
      ensures ready[q] == []
    {
      var m := q / 8;
      ByteLeast(table[m], Group(ready, m));
      InGroup(ready, q);
    }
  }

  /** The two-level search finds the plain minimum. */
  lemma Highest256Right(group: bv32, table: seq<bv32>, ready: seq<seq<Tid>>)
    requires Agrees256(group, table, ready)
    ensures group == 0 <==> Best(ready) == 256
    ensures group != 0 ==> 1 <= Ffs(group) <= 32 && Highest256(group, table) == Best(ready)
  {
    hide Holds, Ffs, ByteAgrees;
    FfsLeast(group);
    var n := if group == 0 then 32 else Ffs(group) - 1;
    EmptyBelow(table, ready, n);
    if group != 0 {
      var lists := Group(ready, n);
      ByteLeast(table[n], lists);
      var k := Best(lists);
      forall q | 0 <= q < 8 * n + k
        ensures ready[q] == []
      {
        if q >= 8 * n {
          assert ready[q] == lists[q - 8 * n];
        }
      }
      BestUnique(ready, 8 * n + k);
    }
  }

  /** A change of list `p` is a change in its own group only. */
  lemma GroupUpdate(ready: seq<seq<Tid>>, p: nat, list: seq<Tid>, n: nat)
    requires |ready| == 256 && p < 256 && n < 32
    ensures p / 8 < 32 && p % 8 < 8
    ensures Group(ready[p := list], n) == if n == p / 8 then Group(ready, n)[p % 8 := list] else Group(ready, n)
  {
    var g, g' := Group(ready, n), Group(ready[p := list], n);
    forall k | 0 <= k < 8
      ensures n == p / 8 ==> g'[k] == g[p % 8 := list][k]
      ensures n != p / 8 ==> g'[k] == g[k]
    {
      assert g'[k] == ready[p := list][8 * n + k] && g[k] == ready[8 * n + k];
    }
  }

  lemma ByteMark(byte: bv32, k: nat)
    requires byte < 0x100 && k < 8
    ensures 0 < Mark(byte, k) < 0x100 && Unmark(byte, k) < 0x100
  {
    MaskByte(k);
    hide Mask;
  }

  lemma ByteInsert(byte: bv32, lists: seq<seq<Tid>>, k: nat, list: seq<Tid>)
    requires |lists| == 8 && k < 8 && ByteAgrees(byte, lists)
    ensures list != [] ==> ByteAgrees(Mark(byte, k), lists[k := list]) && Mark(byte, k) != 0
    ensures ByteAgrees(Unmark(byte, k), lists[k := []])
  {
    hide Holds, Mark, Unmark;
    ByteMark(byte, k);
    forall q: nat | q < 8
      ensures Holds(Mark(byte, k), q) <==> Holds(byte, q) || q == k
      ensures Holds(Unmark(byte, k), q) <==> Holds(byte, q) && q != k
    {
      MarkHolds(byte, k, q);
    }
  }

  lemma GroupsMarked(group: bv32, number: nat)
    requires number < 32
    ensures forall n: nat :: n < 32 ==> (Holds(Mark(group, number), n) <==> Holds(group, n) || n == number)
    ensures forall n: nat :: n < 32 ==> (Holds(Unmark(group, number), n) <==> Holds(group, n) && n != number)
  {
    hide Holds, Mark, Unmark;
    forall n: nat | n < 32
      ensures Holds(Mark(group, number), n) <==> Holds(group, n) || n == number
      ensures Holds(Unmark(group, number), n) <==> Holds(group, n) && n != number
    {
      MarkHolds(group, number, n);
    }
  }

  lemma Insert256Agrees(group: bv32, table: seq<bv32>, ready: seq<seq<Tid>>, p: nat, list: seq<Tid>)
    requires Agrees256(group, table, ready) && p < 256 && list != []
    ensures Agrees256(Mark(group, p / 8), table[p / 8 := Mark(table[p / 8], p % 8)], ready[p := list])
  {
    hide Holds, Mark, Unmark, ByteAgrees, Group;
    var number := p / 8;
    GroupsMarked(group, number);
    ByteInsert(table[number], Group(ready, number), p % 8, list);
    var table', ready' := table[number := Mark(table[number], p % 8)], ready[p := list];
    forall n | 0 <= n < 32
      ensures ByteAgrees(table'[n], Group(ready', n))
    {
      GroupUpdate(ready, p, list, n);
    }
  }

  lemma Remove256Agrees(group: bv32, table: seq<bv32>, ready: seq<seq<Tid>>, p: nat)
    requires Agrees256(group, table, ready) && p < 256
    ensures
      var byte := Unmark(table[p / 8], p % 8);
      Agrees256(if byte == 0 then Unmark(group, p / 8) else group, table[p / 8 := byte], ready[p := []])
  {
    hide Holds, Mark, Unmark, ByteAgrees, Group;
    var number := p / 8;
    GroupsMarked(group, number);
    ByteInsert(table[number], Group(ready, number), p % 8, []);
    UnmarkZero(p % 8);
    var table', ready' := table[number := Unmark(table[number], p % 8)], ready[p := []];
    forall n | 0 <= n < 32
      ensures ByteAgrees(table'[n], Group(ready', n))
    {
      GroupUpdate(ready, p, [], n);
    }
  }

  lemma UnmarkZero(p: nat)
    ensures Unmark(0, p) == 0
  {
  }
}
