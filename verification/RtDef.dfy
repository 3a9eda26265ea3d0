/** Types and macros of rtdef.h that several components share. */
module RtDef {

  datatype Option<+T> = None | Some(value: T)

  const WORD: nat := 0x1_0000_0000   // one more than the largest 32-bit value

  /** A sum or difference in 32-bit arithmetic. */
  function Wrap(x: int): (n: nat)
    ensures n < WORD
  {
    x % WORD
  }

  lemma Wraps(x: int)
    ensures 0 <= x < WORD ==> Wrap(x) == x
    ensures WORD <= x < 2 * WORD ==> Wrap(x) == x - WORD
    ensures x < 0 && x + WORD >= 0 ==> Wrap(x) == x + WORD
  {
  }

  /** RT_ALIGN(size, RT_ALIGN_SIZE) with RT_ALIGN_SIZE 4, in 32-bit arithmetic: a multiple of four that
      wraps around at 2^32, which is 4 times 2^30. */
  function Align(size: nat): (n: nat)
    ensures n % 4 == 0 && n < WORD
  {
    (size + 3) / 4 % 0x4000_0000 * 4
  }

  /** Rounding up gives the least multiple of four that covers the size, unless it wraps around. */
  lemma AlignCovers(size: nat)
    requires size < WORD
    ensures size <= Align(size) <==> size <= 0xFFFF_FFFC
    ensures size <= 0xFFFF_FFFC ==> Align(size) < size + 4
    ensures size > 0xFFFF_FFFC ==> Align(size) == 0
  {
  }

  lemma AlignExample()
    ensures Align(0xFFFF_FFFD) == 0
  {
  }

  lemma AlignFixed(n: nat)
    requires n % 4 == 0 && n < WORD
    ensures Align(n) == n
  {
  }

  /** Equal pieces do not overlap. */
  lemma {:induction false} ScaleStep(i: nat, j: nat, n: nat)
    requires i < j
    ensures i * n + n <= j * n
    decreases j
  {
    assert j * n == (j - 1) * n + n;
    if i < j - 1 {
      ScaleStep(i, j - 1, n);
    }
  }
}
