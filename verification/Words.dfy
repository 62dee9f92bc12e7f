/** The 64-bit words of the frame bitmap, bit 0 first, with the C operators used on them. */
module Words {

  const WORD_BITS: nat := 64

  type Word = w: seq<bool> | |w| == WORD_BITS witness seq(WORD_BITS, _ => false)

  /** All bits clear, or all set: the words 0 and BITMAP_FULL. */
  function Filled(bit: bool): Word {
    seq(WORD_BITS, _ => bit)
  }

  function And(a: Word, b: Word): Word {
    seq(WORD_BITS, k requires 0 <= k < WORD_BITS => a[k] && b[k])
  }

  function Or(a: Word, b: Word): Word {
    seq(WORD_BITS, k requires 0 <= k < WORD_BITS => a[k] || b[k])
  }

  function Not(a: Word): Word {
    seq(WORD_BITS, k requires 0 <= k < WORD_BITS => !a[k])
  }

  /** `a << n`: bits pushed past bit 63 are lost. */
  function Shl(a: Word, n: nat): Word {
    seq(WORD_BITS, k requires 0 <= k < WORD_BITS => k >= n && a[k - n])
  }

  /** `1ull << k`. */
  function Single(k: nat): Word
    requires k < WORD_BITS
  {
    Filled(false)[k := true]
  }

  /** The word `(1 << n) - 1`, or all ones from 64 up; `MaskValue` ties it to that number. */
  function MakeMask(n: nat): Word {
    seq(WORD_BITS, k => k < n)
  }

  function Pow2(n: nat): nat {
    if n == 0 then 1 else 2 * Pow2(n - 1)
  }

  /** The number whose `k` low binary digits are the `k` low bits of `w`. */
  function Value(w: Word, k: nat): nat
    requires k <= WORD_BITS
  {
    if k == 0 then 0 else Value(w, k - 1) + (if w[k - 1] then Pow2(k - 1) else 0)
  }

  lemma {:induction false} MaskValue(n: nat, k: nat)
    requires k <= WORD_BITS
    ensures Value(MakeMask(n), k) == Pow2(if n < k then n else k) - 1
  {
    if k > 0 {
      MaskValue(n, k - 1);
    }
  }

  /** `[lo, lo + n)` is a run of clear bits. */
  predicate RunClear(w: Word, lo: nat, n: nat) {
    lo + n <= WORD_BITS && forall k :: lo <= k < lo + n ==> !w[k]
  }

  /** Every bit from `lo` up is clear. */
  predicate TailClear(w: Word, lo: nat) {
    forall k :: lo <= k < WORD_BITS ==> !w[k]
  }

  /** A shift by fewer than 64 places, or else whatever the machine makes of it: C++ leaves that open. */
  function ShiftLeft(a: Word, n: nat, wild: Word): Word {
    if n < WORD_BITS then Shl(a, n) else wild
  }

  /** The shifted mask misses the word exactly when the run under it is clear. */
  lemma MaskTest(w: Word, lo: nat, n: nat)
    requires lo + n <= WORD_BITS
    ensures And(Shl(MakeMask(n), lo), w) == Filled(false) <==> RunClear(w, lo, n)
  {
    var masked := And(Shl(MakeMask(n), lo), w);
    if RunClear(w, lo, n) {
      assert forall k :: 0 <= k < WORD_BITS ==> !masked[k];
    } else {
      var k :| lo <= k < lo + n && w[k];
      assert masked[k];
    }
  }

  /** `w & (1 << k)` is zero exactly when bit `k` is clear. */
  lemma SingleTest(w: Word, k: nat)
    requires k < WORD_BITS
    ensures And(w, Single(k)) == Filled(false) <==> !w[k]
  {
    if w[k] {
      assert And(w, Single(k))[k];
    }
  }

  /** From 64 on the mask is all ones, and shifted it misses the word exactly when every bit from `lo` up is clear. */
  lemma TailTest(w: Word, lo: nat, n: nat)
    requires n >= WORD_BITS
    ensures And(Shl(MakeMask(n), lo), w) == Filled(false) <==> TailClear(w, lo)
  {
    var masked := And(Shl(MakeMask(n), lo), w);
    if TailClear(w, lo) {
      assert forall k :: 0 <= k < WORD_BITS ==> !masked[k];
    } else {
      var k :| lo <= k < WORD_BITS && w[k];
      assert masked[k];
    }
  }

  lemma ShlStep(m: Word, i: nat)
    ensures Shl(Shl(m, i), 1) == Shl(m, i + 1)
    ensures Shl(m, 0) == m
  {
  }

  lemma NotFullHasClear(w: Word)
    requires w != Filled(true)
    ensures exists k :: 0 <= k < WORD_BITS && !w[k]
  {
    assert !(forall k :: 0 <= k < WORD_BITS ==> w[k] == Filled(true)[k]);
  }
}
