/** The CRC as a remainder: polynomials over the field of two elements, each as the set of its exponents. */
module CrcRemainder {
  import opened Crc32

  type Poly = set<nat>

  /** The polynomial of section 3.2.9 of IEEE Std 802.3. */
  const GENERATOR: Poly := {32, 26, 23, 22, 16, 12, 11, 10, 8, 7, 5, 4, 2, 1, 0}

  function Plus(a: Poly, b: Poly): Poly { (a - b) + (b - a) }

  /** Multiplication by the `n`th power of the variable. */
  function Times(a: Poly, n: nat): Poly { set e | e in a :: e + n }

  /** The coefficient of the power `i` in a word. */
  predicate Has(c: bv32, i: nat) {
    i < 32 && Top(Lefts(c, 31 - i))
  }

  function PolyOf(c: bv32): Poly { set i: nat | i < 32 && Has(c, i) }

  /** The sum of the multiples of the generator by these powers. */
  function Multiples(ks: seq<nat>): Poly {
    if ks == [] then {} else Plus(Times(GENERATOR, ks[0]), Multiples(ks[1..]))
  }

  /** The difference is a multiple of the generator. */
  ghost predicate Congruent(a: Poly, b: Poly) {
    exists ks: seq<nat> :: Plus(a, b) == Multiples(ks)
  }

  // ---- sums ----

  lemma PlusMember(a: Poly, b: Poly, e: nat)
    ensures e in Plus(a, b) <==> (e in a) != (e in b)
  {
  }

  lemma PlusCommutes(a: Poly, b: Poly)
    ensures Plus(a, b) == Plus(b, a)
  {
  }

  lemma PlusAssociates(a: Poly, b: Poly, c: Poly)
    ensures Plus(Plus(a, b), c) == Plus(a, Plus(b, c))
  {
  }

  lemma PlusNothing(a: Poly)
    ensures Plus(a, {}) == a && Plus({}, a) == a && Plus(a, a) == {}
  {
  }

  lemma PlusPairs(a: Poly, b: Poly, c: Poly, d: Poly)
    ensures Plus(Plus(a, b), Plus(c, d)) == Plus(Plus(a, c), Plus(b, d))
  {
  }

  lemma TimesMember(a: Poly, n: nat, e: nat)
    ensures e in Times(a, n) <==> e >= n && e - n in a
  {
    if e >= n && e - n in a {
      assert e == (e - n) + n;
    }
  }

  lemma TimesPlus(a: Poly, b: Poly, n: nat)
    ensures Times(Plus(a, b), n) == Plus(Times(a, n), Times(b, n))
  {
    forall e: nat
      ensures e in Times(Plus(a, b), n) <==> e in Plus(Times(a, n), Times(b, n))
    {
      TimesMember(Plus(a, b), n, e);
      TimesMember(a, n, e);
      TimesMember(b, n, e);
    }
  }

  lemma TimesTimes(a: Poly, m: nat, n: nat)
    ensures Times(Times(a, m), n) == Times(a, m + n)
  {
    forall e: nat
      ensures e in Times(Times(a, m), n) <==> e in Times(a, m + n)
    {
      TimesMember(Times(a, m), n, e);
      TimesMember(a, m + n, e);
      if e >= n { TimesMember(a, m, e - n); }
    }
  }

  lemma TimesNothing(a: Poly)
    ensures Times(a, 0) == a
  {
    forall e: nat
      ensures e in Times(a, 0) <==> e in a
    {
      TimesMember(a, 0, e);
    }
  }

  // ---- congruence ----

  lemma {:induction false} MultiplesAdd(ks: seq<nat>, ls: seq<nat>)
    ensures Multiples(ks + ls) == Plus(Multiples(ks), Multiples(ls))
  {
    hide Plus, Times;
    if ks == [] {
      assert ks + ls == ls;
      PlusNothing(Multiples(ls));
    } else {
      MultiplesAdd(ks[1..], ls);
      assert (ks + ls)[1..] == ks[1..] + ls;
      PlusAssociates(Times(GENERATOR, ks[0]), Multiples(ks[1..]), Multiples(ls));
    }
  }

  /** The powers raised by `n`. */
  function Raised(ks: seq<nat>, n: nat): seq<nat> {
    if ks == [] then [] else [ks[0] + n] + Raised(ks[1..], n)
  }

  lemma {:induction false} MultiplesTimes(ks: seq<nat>, n: nat)
    ensures Multiples(Raised(ks, n)) == Times(Multiples(ks), n)
  {
    hide Plus;
    if ks != [] {
      MultiplesTimes(ks[1..], n);
      assert Raised(ks, n)[1..] == Raised(ks[1..], n);
      TimesTimes(GENERATOR, ks[0], n);
      TimesPlus(Times(GENERATOR, ks[0]), Multiples(ks[1..]), n);
    }
  }

  lemma Same(a: Poly)
    ensures Congruent(a, a)
  {
    PlusNothing(a);
    assert Plus(a, a) == Multiples([]);
  }

  lemma Through(a: Poly, b: Poly, c: Poly)
    requires Congruent(a, b) && Congruent(b, c)
    ensures Congruent(a, c)
  {
    var ks: seq<nat> :| Plus(a, b) == Multiples(ks);
    var ls: seq<nat> :| Plus(b, c) == Multiples(ls);
    MultiplesAdd(ks, ls);
    assert Plus(a, c) == Plus(Plus(a, b), Plus(b, c));
    hide Plus;
    assert Plus(a, c) == Multiples(ks + ls);
  }

  lemma CongruentTimes(a: Poly, b: Poly, n: nat)
    requires Congruent(a, b)
    ensures Congruent(Times(a, n), Times(b, n))
  {
    hide Plus, Times;
    var ks: seq<nat> :| Plus(a, b) == Multiples(ks);
    MultiplesTimes(ks, n);
    TimesPlus(a, b, n);
    assert Plus(Times(a, n), Times(b, n)) == Multiples(Raised(ks, n));
  }

  lemma CongruentPlus(a: Poly, b: Poly, c: Poly)
    requires Congruent(a, b)
    ensures Congruent(Plus(a, c), Plus(b, c))
  {
    hide Plus, Times;
    var ks: seq<nat> :| Plus(a, b) == Multiples(ks);
    PlusPairs(a, c, b, c);
    PlusNothing(c);
    PlusNothing(Plus(a, b));
    assert Plus(Plus(a, c), Plus(b, c)) == Multiples(ks);
  }

  // ---- words ----

  lemma {:induction false} LeftsXor(a: bv32, b: bv32, n: nat)
    ensures Lefts(Xor(a, b), n) == Xor(Lefts(a, n), Lefts(b, n))
  {
    hide Xor, Left;
    if n > 0 {
      LeftsXor(a, b, n - 1);
      XorLeft(Lefts(a, n - 1), Lefts(b, n - 1));
    }
  }

  lemma PolyXor(a: bv32, b: bv32)
    ensures PolyOf(Xor(a, b)) == Plus(PolyOf(a), PolyOf(b))
  {
    hide Xor, Left, Top, Lefts;
    forall i: nat | i < 32
      ensures Has(Xor(a, b), i) <==> Has(a, i) != Has(b, i)
    {
      LeftsXor(a, b, 31 - i);
      XorTop(Lefts(a, 31 - i), Lefts(b, 31 - i));
    }
    hide Has;
  }

  lemma TopHas(c: bv32)
    ensures Has(c, 31) <==> Top(c)
  {
  }

  lemma HasLeft(c: bv32, i: nat)
    ensures Has(Left(c), i) <==> 0 < i < 32 && Has(c, i - 1)
  {
    hide Left, Lefts;
    if i < 32 {
      LeftsInner(c, 31 - i);
      LeftsGone(c);
      NoTop();
    }
  }

  lemma NoTop()
    ensures !Top(0)
  {
  }

  lemma PolyLeft(c: bv32)
    ensures PolyOf(Left(c)) == Times(PolyOf(c), 1) - {32}
  {
    hide Left, Has;
    forall e: nat
      ensures e in PolyOf(Left(c)) <==> e in Times(PolyOf(c), 1) - {32}
    {
      HasLeft(c, e);
      TimesMember(PolyOf(c), 1, e);
    }
  }

  /** The bits of POLYNOMIAL are the powers of the generator below the 32nd. */
  lemma PolynomialIs()
    ensures PolyOf(POLYNOMIAL) == GENERATOR - {32}
  {
    forall i: nat | i < 32
      ensures Has(POLYNOMIAL, i) <==> i in GENERATOR
    {
      PolynomialBit(i);
    }
    hide Has;
  }

  lemma {:induction false} LeftsSum(d: bv32, m: nat, n: nat)
    ensures Lefts(d, m + n) == Lefts(Lefts(d, m), n)
    decreases n
  {
    hide Left;
    if n > 0 {
      LeftsSum(d, m, n - 1);
    }
  }

  /** The polynomial, and what is left of it after 8, 16 and 24 shifts. */
  lemma FourBytes()
    ensures Lefts(POLYNOMIAL, 0) == 0x04c1_1db7 && Lefts(POLYNOMIAL, 8) == 0xc11d_b700
    ensures Lefts(POLYNOMIAL, 16) == 0x1db7_0000 && Lefts(POLYNOMIAL, 24) == 0xb700_0000
  {
    hide Lefts;
    Lefts8(POLYNOMIAL, 0);
    Lefts8(POLYNOMIAL, 8);
    Lefts8(POLYNOMIAL, 16);
    NoShift(POLYNOMIAL);
  }

  lemma NoShift(d: bv32)
    ensures Lefts(d, 0) == d
  {
  }

  /** The first byte of each. */
  lemma ByteBit(j: nat)
    requires j < 8
    ensures Top(Lefts(0x04c1_1db7, j)) <==> j in {5}
    ensures Top(Lefts(0xc11d_b700, j)) <==> j in {0, 1, 7}
    ensures Top(Lefts(0x1db7_0000, j)) <==> j in {3, 4, 5, 7}
    ensures Top(Lefts(0xb700_0000, j)) <==> j in {0, 2, 3, 5, 6, 7}
  {
    match j
    case 0 =>
    case 1 =>
    case 2 =>
    case 3 =>
    case 4 =>
    case 5 =>
    case 6 =>
    case 7 =>
  }

  lemma PolynomialBit(i: nat)
    requires i < 32
    ensures Has(POLYNOMIAL, i) <==> i in GENERATOR
  {
    hide Lefts;
    FourBytes();
    var n := 31 - i;
    LeftsSum(POLYNOMIAL, n / 8 * 8, n % 8);
    ByteBit(n % 8);
  }

  // ---- the division ----

  /** One step is a multiplication by the variable. */
  lemma ShiftDivides(c: bv32)
    ensures Congruent(PolyOf(Shift(c)), Times(PolyOf(c), 1))
  {
    var a, b := PolyOf(Shift(c)), Times(PolyOf(c), 1);
    PolyLeft(c);
    TopHas(c);
    TimesMember(PolyOf(c), 1, 32);
    if Top(c) {
      PolyXor(Left(c), POLYNOMIAL);
      PolynomialIs();
      hide Left, Xor, Has, Top, PolyOf, Times;
      assert Plus(a, b) == GENERATOR;
      TimesNothing(GENERATOR);
      PlusNothing(GENERATOR);
      assert Multiples([0]) == Plus(Times(GENERATOR, 0), Multiples([]));
      assert Plus(a, b) == Multiples([0]);
    } else {
      hide Left, Xor, Has, Top, Times;
      Same(b);
    }
  }

  lemma {:induction false} ShiftsDivide(c: bv32, n: nat)
    ensures Congruent(PolyOf(Shifts(c, n)), Times(PolyOf(c), n))
  {
    hide Congruent, PolyOf, Times, Shift;
    var a := PolyOf(c);
    if n == 0 {
      TimesNothing(a);
      Same(a);
    } else {
      ShiftsDivide(c, n - 1);
      ShiftDivides(Shifts(c, n - 1));
      CongruentTimes(PolyOf(Shifts(c, n - 1)), Times(a, n - 1), 1);
      TimesTimes(a, n - 1, 1);
      Through(PolyOf(Shifts(c, n)), Times(PolyOf(Shifts(c, n - 1)), 1), Times(a, n));
    }
  }

  /** The words as one polynomial, the first word with the highest powers, and 32 powers below the last. */
  function Data(words: seq<bv32>): Poly {
    if words == [] then {} else Plus(Times(PolyOf(words[0]), 32 * |words|), Data(words[1..]))
  }

  /** The start value added to the first word: what is divided. */
  function Dividend(c: bv32, words: seq<bv32>): Poly {
    Plus(Times(PolyOf(c), 32 * |words|), Data(words))
  }

  lemma WordDivides(c: bv32, data: bv32)
    ensures Congruent(PolyOf(Word(c, data)), Times(Plus(PolyOf(c), PolyOf(data)), 32))
  {
    hide Congruent, PolyOf, Times, Shifts, Plus, Xor;
    ShiftsDivide(Xor(c, data), 32);
    PolyXor(c, data);
  }

  lemma {:induction false} CrcDivides(c: bv32, words: seq<bv32>)
    ensures Congruent(PolyOf(Crc(c, words)), Dividend(c, words))
    decreases |words|
  {
    hide Congruent, PolyOf, Times, Plus, Word;
    if words == [] {
      TimesNothing(PolyOf(c));
      PlusNothing(PolyOf(c));
      Same(PolyOf(c));
    } else {
      var w, rest := words[0], words[1..];
      var m := 32 * |rest|;
      var c', sum := Word(c, w), Plus(PolyOf(c), PolyOf(w));
      CrcDivides(c', rest);
      WordDivides(c, w);
      CongruentTimes(PolyOf(c'), Times(sum, 32), m);
      TimesTimes(sum, 32, m);
      CongruentPlus(Times(PolyOf(c'), m), Times(sum, 32 + m), Data(rest));
      TimesPlus(PolyOf(c), PolyOf(w), 32 + m);
      PlusAssociates(Times(PolyOf(c), 32 + m), Times(PolyOf(w), 32 + m), Data(rest));
      Through(PolyOf(Crc(c, words)), Dividend(c', rest), Dividend(c, words));
    }
  }

  // ---- the remainder is the only one ----

  ghost predicate Below(a: Poly, n: int) {
    forall e :: e in a ==> e < n
  }

  ghost predicate Falling(ks: seq<nat>) {
    forall i, j :: 0 <= i < j < |ks| ==> ks[j] < ks[i]
  }

  /** The sum of the generator times the `k`th power and the multiples by `ks`, as a falling sequence. */
  function Added(k: nat, ks: seq<nat>): seq<nat> {
    if ks == [] || ks[0] < k then [k] + ks else if ks[0] == k then ks[1..] else [ks[0]] + Added(k, ks[1..])
  }

  lemma {:induction false} AddedFalls(k: nat, ks: seq<nat>)
    requires Falling(ks)
    ensures Falling(Added(k, ks)) && forall x :: x in Added(k, ks) ==> x == k || x in ks
  {
    if ks != [] && ks[0] > k {
      var rest := Added(k, ks[1..]);
      AddedFalls(k, ks[1..]);
      forall i | 0 <= i < |rest|
        ensures rest[i] < ks[0]
      {
        assert rest[i] in rest;
      }
      assert Added(k, ks) == [ks[0]] + rest;
    }
  }

  lemma {:induction false} AddedSum(k: nat, ks: seq<nat>)
    ensures Multiples(Added(k, ks)) == Plus(Times(GENERATOR, k), Multiples(ks))
  {
    hide Plus, Times;
    var g := Times(GENERATOR, k);
    if ks == [] || ks[0] < k {
      assert ([k] + ks)[1..] == ks;
    } else if ks[0] == k {
      PlusAssociates(g, g, Multiples(ks[1..]));
      PlusNothing(g);
      PlusNothing(Multiples(ks[1..]));
    } else {
      AddedSum(k, ks[1..]);
      assert ([ks[0]] + Added(k, ks[1..]))[1..] == Added(k, ks[1..]);
      var h, r := Times(GENERATOR, ks[0]), Multiples(ks[1..]);
      PlusAssociates(h, g, r);
      PlusAssociates(g, h, r);
      PlusCommutes(g, h);
    }
  }

  /** Every sum of multiples is one by different powers. */
  lemma {:induction false} Normal(ks: seq<nat>) returns (ls: seq<nat>)
    ensures Falling(ls) && Multiples(ls) == Multiples(ks)
  {
    if ks == [] {
      ls := [];
    } else {
      ls := Normal(ks[1..]);
      AddedFalls(ks[0], ls);
      AddedSum(ks[0], ls);
      ls := Added(ks[0], ls);
    }
  }

  /** The highest power of such a sum. */
  lemma {:induction false} TopPower(ks: seq<nat>)
    requires Falling(ks)
    ensures ks != [] ==> ks[0] + 32 in Multiples(ks)
    ensures Below(Multiples(ks), if ks == [] then 0 else ks[0] + 33)
  {
    if ks != [] {
      TopPower(ks[1..]);
      var g, r, k := Times(GENERATOR, ks[0]), Multiples(ks[1..]), ks[0];
      TimesMember(GENERATOR, k, k + 32);
      PlusMember(g, r, k + 32);
      forall e | e in Plus(g, r)
        ensures e < k + 33
      {
        PlusMember(g, r, e);
        TimesMember(GENERATOR, k, e);
      }
    }
  }

  /** Two polynomials below the 32nd power are congruent only if they are the same. */
  lemma RemaindersDiffer(a: Poly, b: Poly)
    requires Congruent(a, b) && Below(a, 32) && Below(b, 32)
    ensures a == b
  {
    var ks: seq<nat> :| Plus(a, b) == Multiples(ks);
    var ls := Normal(ks);
    assert Below(Plus(a, b), 32);
    assert ls == [] by {
      if ls != [] { NotBelow(ls); }
    }
    forall e: nat
      ensures e in a <==> e in b
    {
      PlusMember(a, b, e);
    }
  }

  lemma NotBelow(ks: seq<nat>)
    requires Falling(ks) && ks != []
    ensures !Below(Multiples(ks), 32)
  {
    TopPower(ks);
    hide Multiples;
  }

  /** The CRC is the remainder of the start value and the message, followed by 32 zero bits, divided by the generator
      of IEEE Std 802.3: it is congruent to them, below the 32nd power, and the only one such. */
  lemma CrcIsRemainder(c: bv32, words: seq<bv32>, r: Poly)
    requires Below(r, 32)
    ensures Congruent(r, Dividend(c, words)) <==> r == PolyOf(Crc(c, words))
  {
    hide Congruent, Dividend, Crc, Plus;
    var a := PolyOf(Crc(c, words));
    CrcDivides(c, words);
    if Congruent(r, Dividend(c, words)) {
      Turned(a, Dividend(c, words));
      Through(r, Dividend(c, words), a);
      RemaindersDiffer(r, a);
    }
  }

  lemma Turned(a: Poly, b: Poly)
    requires Congruent(a, b)
    ensures Congruent(b, a)
  {
    PlusCommutes(a, b);
  }
}
