/** The unsigned longs of the bitmaps, as vectors of 64 bits (bit 0 is the least significant), with
    the C operators and the mask macros of src/hwloc/hwloc/bitmap.c built from them. */
module Words {
  type Word = w: seq<bool> | |w| == 64 witness seq(64, _ => false)

  // HWLOC_SUBBITMAP_ZERO, HWLOC_SUBBITMAP_FULL and 1UL.
  function Zero(): Word { seq(64, _ => false) }

  function Full(): Word { seq(64, _ => true) }

  function One(): Word { seq(64, i => i == 0) }

  function BitOr(a: Word, b: Word): Word {
    seq(64, i requires 0 <= i < 64 => a[i] || b[i])
  }

  function BitAnd(a: Word, b: Word): Word {
    seq(64, i requires 0 <= i < 64 => a[i] && b[i])
  }

  function BitXor(a: Word, b: Word): Word {
    seq(64, i requires 0 <= i < 64 => a[i] != b[i])
  }

  function BitNot(a: Word): Word {
    seq(64, i requires 0 <= i < 64 => !a[i])
  }

  function Shl(a: Word, n: nat): Word {
    seq(64, i requires 0 <= i < 64 => i >= n && a[i - n])
  }

  function Shr(a: Word, n: nat): Word {
    seq(64, i requires 0 <= i < 64 => i + n < 64 && a[i + n])
  }

  // The mask macros: 1UL << bit, ~0UL >> (63 - bit), ~0UL << bit, and their conjunction.
  function UlBit(bit: nat): Word
    requires bit < 64
  {
    Shl(One(), bit)
  }

  function UlBitTo(bit: nat): Word
    requires bit < 64
  {
    Shr(Full(), 63 - bit)
  }

  function UlBitFrom(bit: nat): Word
    requires bit < 64
  {
    Shl(Full(), bit)
  }

  function UlBitFromTo(begin: nat, end: nat): Word
    requires begin < 64 && end < 64
  {
    BitAnd(UlBitTo(end), UlBitFrom(begin))
  }

  lemma {:induction false} WordExt(a: Word, b: Word)
    requires forall i :: 0 <= i < 64 ==> a[i] == b[i]
    ensures a == b
  {
  }

  lemma MaskBits(begin: nat, end: nat, i: nat)
    requires begin < 64 && end < 64 && i < 64
    ensures UlBit(begin)[i] <==> i == begin
    ensures UlBitTo(end)[i] <==> i <= end
    ensures UlBitFrom(begin)[i] <==> begin <= i
    ensures UlBitFromTo(begin, end)[i] <==> begin <= i <= end
  {
  }

  /** Find first set: one plus the index of the lowest set bit, 0 for the zero word. */
  function Ffsl(w: Word): (r: nat)
    ensures r <= 64
    ensures r == 0 <==> w == Zero()
    ensures r > 0 ==> w[r - 1] && forall i :: 0 <= i < r - 1 ==> !w[i]
  {
    FfslFrom(w, 0)
  }

  function FfslFrom(w: Word, k: nat): (r: nat)
    requires k <= 64
    requires forall i :: 0 <= i < k ==> !w[i]
    ensures r <= 64
    ensures r == 0 <==> w == Zero()
    ensures r > 0 ==> w[r - 1] && forall i :: 0 <= i < r - 1 ==> !w[i]
    decreases 64 - k
  {
    if k == 64 then
      assert w == Zero();
      0
    else if w[k] then
      assert w[k] != Zero()[k];
      k + 1
    else
      FfslFrom(w, k + 1)
  }

  /** The number of binary digits of n: flsl on an unsigned long. */
  function FlslNat(n: nat): (r: nat)
    ensures n < Pow2(r)
    ensures n > 0 ==> r > 0 && Pow2(r - 1) <= n
  {
    if n == 0 then 0 else 1 + FlslNat(n / 2)
  }

  function Pow2(n: nat): (r: nat)
    ensures r > 0
  {
    if n == 0 then 1 else 2 * Pow2(n - 1)
  }
}
