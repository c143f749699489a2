/**
  64-bit words as numbers below 2^64.  The machine's bitwise operators are given digit by
  digit; what they do to each bit is then proved.
 */
module Words {

  function Pow2(n: nat): (r: nat)
    ensures r >= 1
  {
    if n == 0 then 1 else 2 * Pow2(n - 1)
  }

  type Word = w: nat | w < Pow2(64)

  predicate Bit(w: nat, i: nat)
    decreases i
  {
    if i == 0 then w % 2 == 1 else Bit(w / 2, i - 1)
  }

  /** The lowest `n` bits of `a` and `b` combined bit by bit. */
  function Combine(op: (bool, bool) -> bool, a: nat, b: nat, n: nat): (r: nat)
    ensures r < Pow2(n)
    decreases n
  {
    if n == 0 then 0
    else (if op(a % 2 == 1, b % 2 == 1) then 1 else 0) + 2 * Combine(op, a / 2, b / 2, n - 1)
  }

  predicate Either(x: bool, y: bool) { x || y }

  predicate Differ(x: bool, y: bool) { x != y }

  predicate OnlyFirst(x: bool, y: bool) { x && !y }

  predicate Both(x: bool, y: bool) { x && y }

  function Or(a: Word, b: Word): Word { Combine(Either, a, b, 64) }

  function Xor(a: Word, b: Word): Word { Combine(Differ, a, b, 64) }

  function AndNot(a: Word, b: Word): Word { Combine(OnlyFirst, a, b, 64) }

  function And(a: Word, b: Word): Word { Combine(Both, a, b, 64) }

  lemma {:induction false} NoBits(i: nat)
    ensures !Bit(0, i)
    decreases i
  {
    if i > 0 { NoBits(i - 1); }
  }

  lemma {:induction false} CombineBit(op: (bool, bool) -> bool, a: nat, b: nat, n: nat, i: nat)
    ensures Bit(Combine(op, a, b, n), i) <==> i < n && op(Bit(a, i), Bit(b, i))
    decreases n, i
  {
    if n == 0 {
      NoBits(i);
    } else if i > 0 {
      assert Combine(op, a, b, n) / 2 == Combine(op, a / 2, b / 2, n - 1);
      CombineBit(op, a / 2, b / 2, n - 1, i - 1);
    }
  }

  /** The word operators act on each bit by itself. */
  lemma BitwiseOps(a: Word, b: Word, i: nat)
    requires i < 64
    ensures Bit(Or(a, b), i) <==> Bit(a, i) || Bit(b, i)
    ensures Bit(Xor(a, b), i) <==> Bit(a, i) != Bit(b, i)
    ensures Bit(AndNot(a, b), i) <==> Bit(a, i) && !Bit(b, i)
    ensures Bit(And(a, b), i) <==> Bit(a, i) && Bit(b, i)
  {
    hide Bit, Combine;
    CombineBit(Either, a, b, 64, i);
    CombineBit(Differ, a, b, 64, i);
    CombineBit(OnlyFirst, a, b, 64, i);
    CombineBit(Both, a, b, 64, i);
  }

  lemma {:induction false} PowMonotone(m: nat, n: nat)
    requires m <= n
    ensures Pow2(m) <= Pow2(n)
  {
    if m < n { PowMonotone(m, n - 1); }
  }

  lemma {:induction false} PowStrict(m: nat, n: nat)
    requires m < n
    ensures Pow2(m) < Pow2(n)
  {
    PowMonotone(m, n - 1);
  }

  /** `1 << k` has one bit. */
  lemma {:induction false} PowBit(k: nat, i: nat)
    ensures Bit(Pow2(k), i) <==> i == k
    decreases k
  {
    if k == 0 {
      if i > 0 { NoBits(i - 1); }
    } else if i > 0 {
      assert Pow2(k) / 2 == Pow2(k - 1);
      PowBit(k - 1, i - 1);
    }
  }

  /** `(1 << k) - 1` has the bits below `k`. */
  lemma {:induction false} LowMaskBit(k: nat, i: nat)
    ensures Bit(Pow2(k) - 1, i) <==> i < k
    decreases k
  {
    if k == 0 {
      NoBits(i);
    } else if i > 0 {
      assert (Pow2(k) - 1) / 2 == Pow2(k - 1) - 1;
      LowMaskBit(k - 1, i - 1);
    }
  }

  function TrailingZeros(w: nat): nat
    requires w > 0
    decreases w
  {
    if w % 2 == 1 then 0 else 1 + TrailingZeros(w / 2)
  }

  /** The lowest set bit, and what subtracting one does around it. */
  lemma {:induction false} LowestBit(w: nat, i: nat)
    requires w > 0
    ensures i < TrailingZeros(w) ==> !Bit(w, i) && Bit(w - 1, i)
    ensures i == TrailingZeros(w) ==> Bit(w, i) && !Bit(w - 1, i)
    ensures i > TrailingZeros(w) ==> (Bit(w - 1, i) <==> Bit(w, i))
    decreases w
  {
    if w % 2 == 1 {
      assert (w - 1) / 2 == w / 2;
    } else if i > 0 {
      assert (w - 1) / 2 == w / 2 - 1;
      LowestBit(w / 2, i - 1);
    }
  }

  lemma {:induction false} TrailingZerosBound(w: nat, n: nat)
    requires 0 < w < Pow2(n)
    ensures TrailingZeros(w) < n
    decreases w
  {
    if w % 2 == 0 { TrailingZerosBound(w / 2, n - 1); }
  }

  lemma {:induction false} AndBound(a: nat, b: nat, n: nat)
    ensures Combine(Both, a, b, n) <= b
    decreases n
  {
    if n > 0 { AndBound(a / 2, b / 2, n - 1); }
  }

  /** `w & (w - 1)` clears the lowest set bit and nothing else. */
  lemma ClearLowest(w: Word, i: nat)
    requires w > 0 && i < 64
    ensures Bit(And(w, w - 1), i) <==> Bit(w, i) && i != TrailingZeros(w)
    ensures And(w, w - 1) < w
  {
    hide Combine;
    BitwiseOps(w, w - 1, i);
    LowestBit(w, i);
    AndBound(w, w - 1, 64);
  }

  /** `count_ones` over the lowest `n` bits. */
  function Ones(w: nat, n: nat): nat {
    if n == 0 then 0 else Ones(w, n - 1) + if Bit(w, n - 1) then 1 else 0
  }

  /** Masking off the bits from `k` on leaves the count of the bits below `k`. */
  lemma {:induction false} MaskedOnes(w: Word, k: nat, n: nat)
    requires k < 64 && n <= 64 && Pow2(k) - 1 < Pow2(64)
    ensures Ones(And(w, Pow2(k) - 1), n) == Ones(w, if n < k then n else k)
    decreases n
  {
    hide And, Bit, Pow2;
    if n > 0 {
      MaskedOnes(w, k, n - 1);
      BitwiseOps(w, Pow2(k) - 1, n - 1);
      LowMaskBit(k, n - 1);
    }
  }
}
