/** stm_softCRC32: the CRC of section 3.2.9 of IEEE Std 802.3 over 32-bit words, most significant
    bit first, without reflection and without the final complement. */
module Crc32 {

  const POLYNOMIAL: bv32 := 0x04c1_1db7

  const START: bv32 := 0xffff_ffff

  function Xor(a: bv32, b: bv32): bv32 { a ^ b }

  function Left(a: bv32): bv32 { a << 1 }

  predicate Top(a: bv32) { a & 0x8000_0000 != 0 }

  /** One division step. */
  function Shift(c: bv32): bv32 {
    if Top(c) then Xor(Left(c), POLYNOMIAL) else Left(c)
  }

  function Shifts(c: bv32, n: nat): bv32 {
    if n == 0 then c else Shift(Shifts(c, n - 1))
  }

  /** A whole word is added first, then divided. */
  function Word(c: bv32, data: bv32): bv32 {
    Shifts(Xor(c, data), 32)
  }

  function Crc(c: bv32, words: seq<bv32>): bv32
    decreases |words|
  {
    if words == [] then c else Crc(Word(c, words[0]), words[1..])
  }

  // ---- bits ----

  lemma XorTop(a: bv32, b: bv32)
    ensures Top(Xor(a, b)) <==> Top(a) != Top(b)
  {
  }

  lemma XorLeft(a: bv32, b: bv32)
    ensures Left(Xor(a, b)) == Xor(Left(a), Left(b))
  {
  }

  lemma XorCommutes(a: bv32, b: bv32)
    ensures Xor(a, b) == Xor(b, a)
  {
  }

  lemma XorAssociates(a: bv32, b: bv32, c: bv32)
    ensures Xor(Xor(a, b), c) == Xor(a, Xor(b, c))
  {
  }

  lemma XorNothing(a: bv32)
    ensures Xor(a, 0) == a && Xor(0, a) == a && Xor(a, a) == 0
  {
  }

  lemma XorSwap(a: bv32, b: bv32, c: bv32)
    ensures Xor(Xor(a, b), c) == Xor(Xor(a, c), b)
  {
    hide Xor;
    XorAssociates(a, b, c);
    XorCommutes(b, c);
    XorAssociates(a, c, b);
  }

  lemma XorPairs(a: bv32, b: bv32, c: bv32, d: bv32)
    ensures Xor(Xor(a, b), Xor(c, d)) == Xor(Xor(a, c), Xor(b, d))
  {
    hide Xor;
    XorAssociates(Xor(a, b), c, d);
    XorSwap(a, b, c);
    XorAssociates(Xor(a, c), b, d);
  }

  lemma XorCancels(a: bv32, b: bv32, c: bv32)
    ensures Xor(Xor(a, c), Xor(b, c)) == Xor(a, b)
  {
    hide Xor;
    XorPairs(a, c, b, c);
    XorNothing(c);
    XorNothing(Xor(a, b));
  }

  lemma XorZero(a: bv32, b: bv32)
    ensures Xor(a, b) == 0 <==> a == b
  {
    hide Xor;
    XorNothing(a);
    XorNothing(b);
    XorAssociates(a, b, b);
  }

  // ---- the step is linear and one to one ----

  lemma ShiftXor(a: bv32, b: bv32)
    ensures Shift(Xor(a, b)) == Xor(Shift(a), Shift(b))
  {
    hide Xor, Left, Top;
    XorTop(a, b);
    XorLeft(a, b);
    XorCancels(Left(a), Left(b), POLYNOMIAL);
    XorSwap(Left(a), Left(b), POLYNOMIAL);
    XorAssociates(Left(a), Left(b), POLYNOMIAL);
  }

  /** The polynomial is odd, so no step loses anything. */
  lemma ShiftZero(x: bv32)
    requires Shift(x) == 0
    ensures x == 0
  {
    if Top(x) {
      LeftEven(x);
      assert false;
    } else {
      LeftZero(x);
    }
  }

  lemma LeftEven(x: bv32)
    ensures Xor(Left(x), POLYNOMIAL) != 0
  {
  }

  lemma LeftZero(x: bv32)
    requires Left(x) == 0 && !Top(x)
    ensures x == 0
  {
  }

  lemma ShiftOneToOne(a: bv32, b: bv32)
    requires Shift(a) == Shift(b)
    ensures a == b
  {
    hide Xor, Shift;
    ShiftXor(a, b);
    XorZero(Shift(a), Shift(b));
    ShiftZero(Xor(a, b));
    XorZero(a, b);
  }

  lemma {:induction false} ShiftsXor(a: bv32, b: bv32, n: nat)
    ensures Shifts(Xor(a, b), n) == Xor(Shifts(a, n), Shifts(b, n))
  {
    hide Shift, Xor;
    if n > 0 {
      ShiftsXor(a, b, n - 1);
      ShiftXor(Shifts(a, n - 1), Shifts(b, n - 1));
    }
  }

  lemma {:induction false} ShiftsOneToOne(a: bv32, b: bv32, n: nat)
    requires Shifts(a, n) == Shifts(b, n)
    ensures a == b
  {
    hide Shift;
    if n > 0 {
      ShiftOneToOne(Shifts(a, n - 1), Shifts(b, n - 1));
      ShiftsOneToOne(a, b, n - 1);
    }
  }

  // ---- words ----

  lemma WordXor(c: bv32, e: bv32, a: bv32, b: bv32)
    ensures Word(Xor(c, e), Xor(a, b)) == Xor(Word(c, a), Word(e, b))
  {
    hide Xor, Shifts;
    XorPairs(c, e, a, b);
    ShiftsXor(Xor(c, a), Xor(e, b), 32);
  }

  lemma WordOneToOne(c: bv32, e: bv32, a: bv32)
    requires Word(c, a) == Word(e, a)
    ensures c == e
  {
    hide Xor, Shifts;
    ShiftsOneToOne(Xor(c, a), Xor(e, a), 32);
    XorCancels(c, e, a);
    XorZero(Xor(c, a), Xor(e, a));
    XorZero(c, e);
  }

  lemma WordTellsData(c: bv32, a: bv32, b: bv32)
    requires Word(c, a) == Word(c, b)
    ensures a == b
  {
    hide Xor, Shifts;
    ShiftsOneToOne(Xor(c, a), Xor(c, b), 32);
    XorPairs(c, a, c, b);
    XorNothing(c);
    XorNothing(Xor(a, b));
    XorZero(Xor(c, a), Xor(c, b));
    XorZero(a, b);
  }

  // ---- messages ----

  /** The CRC of a message goes on from the CRC of its beginning. */
  lemma {:induction false} CrcAppend(c: bv32, a: seq<bv32>, b: seq<bv32>)
    ensures Crc(c, a + b) == Crc(Crc(c, a), b)
    decreases |a|
  {
    hide Word;
    if a == [] {
      assert a + b == b;
    } else {
      assert (a + b)[1..] == a[1..] + b;
      CrcAppend(Word(c, a[0]), a[1..], b);
    }
  }

  function XorAll(a: seq<bv32>, b: seq<bv32>): (r: seq<bv32>)
    requires |a| == |b|
    ensures |r| == |a|
  {
    if a == [] then [] else [Xor(a[0], b[0])] + XorAll(a[1..], b[1..])
  }

  /** The CRC is linear in its start value and the message together. */
  lemma {:induction false} CrcXor(c: bv32, e: bv32, a: seq<bv32>, b: seq<bv32>)
    requires |a| == |b|
    ensures Crc(Xor(c, e), XorAll(a, b)) == Xor(Crc(c, a), Crc(e, b))
    decreases |a|
  {
    hide Word, Xor;
    if a != [] {
      WordXor(c, e, a[0], b[0]);
      CrcXor(Word(c, a[0]), Word(e, b[0]), a[1..], b[1..]);
      assert XorAll(a, b)[1..] == XorAll(a[1..], b[1..]);
    }
  }

  /** With the start value fixed it is affine: the sum of three messages has the sum of their CRCs. */
  lemma CrcAffine(a: seq<bv32>, b: seq<bv32>, d: seq<bv32>)
    requires |a| == |b| == |d|
    ensures Crc(START, XorAll(XorAll(a, b), d)) == Xor(Xor(Crc(START, a), Crc(START, b)), Crc(START, d))
  {
    hide Xor, Crc;
    CrcXor(START, START, a, b);
    XorNothing(START);
    CrcXor(0, START, XorAll(a, b), d);
  }

  lemma {:induction false} CrcOneToOne(c: bv32, e: bv32, a: seq<bv32>)
    requires Crc(c, a) == Crc(e, a)
    ensures c == e
    decreases |a|
  {
    hide Word;
    if a != [] {
      CrcOneToOne(Word(c, a[0]), Word(e, a[0]), a[1..]);
      WordOneToOne(c, e, a[0]);
    }
  }

  /** A change within one word never goes unnoticed. */
  lemma OneWordNoticed(a: seq<bv32>, x: bv32, y: bv32, b: seq<bv32>)
    ensures Crc(START, a + [x] + b) == Crc(START, a + [y] + b) <==> x == y
  {
    hide Word;
    if Crc(START, a + [x] + b) == Crc(START, a + [y] + b) {
      CrcAppend(START, a + [x], b);
      CrcAppend(START, a + [y], b);
      CrcOneToOne(Crc(START, a + [x]), Crc(START, a + [y]), b);
      CrcAppend(START, a, [x]);
      CrcAppend(START, a, [y]);
      CrcSingle(Crc(START, a), x);
      CrcSingle(Crc(START, a), y);
      WordTellsData(Crc(START, a), x, y);
    }
  }

  lemma CrcSingle(c: bv32, x: bv32)
    ensures Crc(c, [x]) == Word(c, x)
  {
    hide Word;
    assert [x][1..] == [];
  }

  // ---- the interleaved loop ----

  function Lefts(d: bv32, n: nat): bv32 {
    if n == 0 then d else Left(Lefts(d, n - 1))
  }

  function Right(a: bv32): bv32 { a >> 1 }

  predicate Meets(a: bv32, b: bv32) { a & b != 0 }

  /** A bit of the word is the top bit once the word is shifted far enough. */
  lemma MeetsLeft(d: bv32, x: bv32)
    ensures Meets(Left(d), x) <==> Meets(d, Right(x))
  {
  }

  /** The bit that the loop looks at in round `n`. */
  function Bit(n: nat): bv32 {
    if n == 0 then 0x8000_0000 else Right(Bit(n - 1))
  }

  lemma LeftsInner(d: bv32, n: nat)
    ensures Lefts(Left(d), n) == Lefts(d, n + 1)
  {
    hide Left;
  }

  lemma {:induction false} BitIsTop(d: bv32, n: nat)
    ensures Meets(d, Bit(n)) <==> Top(Lefts(d, n))
    decreases n
  {
    if n > 0 {
      hide Left, Right, Meets, Top;
      MeetsLeft(d, Bit(n - 1));
      BitIsTop(Left(d), n - 1);
      LeftsInner(d, n - 1);
    }
  }

  lemma Left8(d: bv32)
    ensures Left(Left(Left(Left(Left(Left(Left(Left(d)))))))) == d << 8
  {
  }

  lemma Lefts8(d: bv32, n: nat)
    ensures Lefts(d, n + 8) == Lefts(d, n) << 8
  {
    hide Left;
    Left8(Lefts(d, n));
    assert Lefts(d, n + 2) == Left(Left(Lefts(d, n)));
    assert Lefts(d, n + 4) == Left(Left(Lefts(d, n + 2)));
    assert Lefts(d, n + 6) == Left(Left(Lefts(d, n + 4)));
  }

  /** After 32 shifts nothing is left of a word. */
  lemma LeftsGone(d: bv32)
    ensures Lefts(d, 32) == 0
  {
    hide Lefts;
    Lefts8(d, 0);
    Lefts8(d, 8);
    Lefts8(d, 16);
    Lefts8(d, 24);
    Gone(Lefts(d, 0));
  }

  lemma Gone(x: bv32)
    ensures (((x << 8) << 8) << 8) << 8 == 0
  {
  }

  /** One round of the interleaved loop. */
  function Round(c: bv32, data: bv32, xbit: bv32): bv32 {
    if Meets(data, xbit) then Xor(Shift(c), POLYNOMIAL) else Shift(c)
  }

  /** Adding the bits of the word one by one, or the whole word before, comes to the same. */
  lemma RoundRight(c: bv32, s: bv32, data: bv32, n: nat)
    requires s == Xor(c, Lefts(data, n))
    ensures Shift(s) == Xor(Round(c, data, Bit(n)), Lefts(data, n + 1))
  {
    var d := Lefts(data, n);
    BitIsTop(data, n);
    hide Xor, Left, Top, Bit, Meets;
    ShiftXor(c, d);
    XorSwap(Shift(c), POLYNOMIAL, Left(d));
    XorAssociates(Shift(c), Left(d), POLYNOMIAL);
  }

  method SoftCrc32(words: seq<bv32>) returns (crc32: bv32)
    ensures crc32 == Crc(START, words)
  {
    hide Xor, Shift, Word, Round, Meets, Right, Left;
    crc32 := START;
    var n := 0;
    assert words[0..] == words;
    while n < |words|
      invariant n <= |words| && Crc(crc32, words[n..]) == Crc(START, words)
    {
      ghost var start := crc32;
      var data, xbit := words[n], 0x8000_0000;
      var bits := 0;
      while bits < 32
        invariant bits <= 32 && xbit == Bit(bits)
        invariant Shifts(Xor(start, data), bits) == Xor(crc32, Lefts(data, bits))
      {
        RoundRight(crc32, Shifts(Xor(start, data), bits), data, bits);
        crc32 := Interleaved(crc32, data, xbit);
        xbit := Right(xbit);
        bits := bits + 1;
      }
      LeftsGone(data);
      XorNothing(crc32);
      WordIs(start, data);
      assert words[n..][1..] == words[n+1..];
      n := n + 1;
    }
  }

  lemma WordIs(c: bv32, data: bv32)
    ensures Word(c, data) == Shifts(Xor(c, data), 32)
  {
    hide Shifts;
  }

  method Interleaved(c: bv32, data: bv32, xbit: bv32) returns (crc32: bv32)
    ensures crc32 == Round(c, data, xbit)
  {
    crc32 := c;
    if Top(crc32) {
      crc32 := Left(crc32);
      crc32 := Xor(crc32, POLYNOMIAL);
    } else {
      crc32 := Left(crc32);
    }
    if Meets(data, xbit) {
      crc32 := Xor(crc32, POLYNOMIAL);
    }
  }
}
