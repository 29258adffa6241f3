/** Bitwise operations on natural numbers, and what exclusive-or with a constant does to a range. */
module Bits {

  function And2(a: bool, b: bool): bool { a && b }
  function Or2(a: bool, b: bool): bool { a || b }
  function Xor2(a: bool, b: bool): bool { a != b }

  function Pow2(n: nat): (r: nat)
    ensures r > 0
  {
    if n == 0 then 1 else 2 * Pow2(n - 1)
  }

  /** The lowest `n` bits of `x` and `y` combined bit by bit. */
  function Bitwise(op: (bool, bool) -> bool, x: nat, y: nat, n: nat): (r: nat)
    ensures r < Pow2(n)
  {
    if n == 0 then 0
    else 2 * Bitwise(op, x / 2, y / 2, n - 1) + (if op(x % 2 == 1, y % 2 == 1) then 1 else 0)
  }

  /** `x` with its lowest `k` bits shifted out. */
  function High(x: nat, k: nat): (r: nat)
    ensures r <= x
  {
    if k == 0 then x else High(x / 2, k - 1)
  }

  function XorBits(x: nat, y: nat, n: nat): nat {
    Bitwise(Xor2, x, y, n)
  }

  /** Exclusive-or with the same value twice changes nothing. */
  lemma {:induction false} XorTwice(x: nat, s: nat, n: nat)
    requires x < Pow2(n)
    ensures XorBits(XorBits(x, s, n), s, n) == x
  {
    if n > 0 {
      XorTwice(x / 2, s / 2, n - 1);
      var y := XorBits(x, s, n);
      assert y / 2 == XorBits(x / 2, s / 2, n - 1);
    }
  }

  lemma {:induction false} XorCommutes(x: nat, y: nat, n: nat)
    ensures XorBits(x, y, n) == XorBits(y, x, n)
  {
    if n > 0 {
      XorCommutes(x / 2, y / 2, n - 1);
    }
  }

  /** Zero is neutral. */
  lemma {:induction false} XorZero(x: nat, n: nat)
    requires x < Pow2(n)
    ensures XorBits(x, 0, n) == x
  {
    if n > 0 {
      XorZero(x / 2, n - 1);
    }
  }

  /** A value below 2^k leaves the bits from `k` up alone. */
  lemma {:induction false} XorHigh(x: nat, s: nat, n: nat, k: nat)
    requires x < Pow2(n) && s < Pow2(k) && k <= n
    ensures High(XorBits(x, s, n), k) == High(x, k)
  {
    if k == 0 {
      XorZero(x, n);
    } else {
      XorHigh(x / 2, s / 2, n - 1, k - 1);
      assert XorBits(x, s, n) / 2 == XorBits(x / 2, s / 2, n - 1);
    }
  }

  /** Two values with the same top bit `k` cancel it. */
  lemma {:induction false} XorTopBit(x: nat, s: nat, n: nat, k: nat)
    requires k < n && Pow2(k) <= x < Pow2(k + 1) && Pow2(k) <= s < Pow2(k + 1)
    ensures XorBits(x, s, n) < Pow2(k)
  {
    if k == 0 {
      assert x == 1 && s == 1;
      XorZero(0, n - 1);
      assert x / 2 == 0 && s / 2 == 0;
    } else {
      XorTopBit(x / 2, s / 2, n - 1, k - 1);
      assert XorBits(x, s, n) / 2 == XorBits(x / 2, s / 2, n - 1);
    }
  }

  /** `n` is a multiple of 2^k. */
  predicate Aligned(n: nat, k: nat) {
    if k == 0 then true else n % 2 == 0 && Aligned(n / 2, k - 1)
  }

  /** Below an aligned bound is below it in the high part already. */
  lemma {:induction false} AlignedBelow(x: nat, n: nat, k: nat)
    requires Aligned(n, k)
    ensures x < n <==> High(x, k) < High(n, k)
  {
    if k > 0 {
      AlignedBelow(x / 2, n / 2, k - 1);
    }
  }

  /** The part of `n` below bit `k`. */
  function Low(n: nat, k: nat): (r: nat)
    ensures r < Pow2(k)
  {
    if k == 0 then 0 else 2 * Low(n / 2, k - 1) + n % 2
  }

  /** Being aligned is leaving no remainder: see HighLow for what `Low` is. */
  lemma {:induction false} AlignedLow(n: nat, k: nat)
    ensures Aligned(n, k) <==> Low(n, k) == 0
  {
    if k > 0 {
      AlignedLow(n / 2, k - 1);
    }
  }

  lemma DoubleProduct(q: nat, p: nat)
    ensures q * (2 * p) == 2 * (q * p)
  {
  }

  lemma {:induction false} HighLow(n: nat, k: nat)
    ensures n == High(n, k) * Pow2(k) + Low(n, k)
  {
    if k > 0 {
      HighLow(n / 2, k - 1);
      DoubleProduct(High(n, k), Pow2(k - 1));
    }
  }

  /** The number with high part `q` and low part `r`. */
  function Glue(q: nat, r: nat, k: nat): nat
    requires r < Pow2(k)
  {
    if k == 0 then q else 2 * Glue(q, r / 2, k - 1) + r % 2
  }

  lemma {:induction false} GlueParts(n: nat, k: nat)
    ensures Glue(High(n, k), Low(n, k), k) == n
  {
    if k > 0 {
      GlueParts(n / 2, k - 1);
      assert Low(n, k) / 2 == Low(n / 2, k - 1) && Low(n, k) % 2 == n % 2;
    }
  }

  lemma {:induction false} GlueOrder(q: nat, r: nat, t: nat, k: nat)
    requires r < Pow2(k) && t < Pow2(k)
    ensures Glue(q, r, k) < Glue(q, t, k) <==> r < t
    decreases k
  {
    if k > 0 {
      GlueOrder(q, r / 2, t / 2, k - 1);
      GlueOrder(q, t / 2, r / 2, k - 1);
    }
  }

  /** Exclusive-or with a value below 2^k acts on the low part alone. */
  lemma {:induction false} XorGlue(q: nat, r: nat, s: nat, n: nat, k: nat)
    requires r < Pow2(k) && s < Pow2(k) && k <= n && Glue(q, r, k) < Pow2(n)
    ensures XorBits(r, s, k) < Pow2(k)
    ensures XorBits(Glue(q, r, k), s, n) == Glue(q, XorBits(r, s, k), k)
  {
    if k == 0 {
      XorZero(q, n);
    } else {
      var x := Glue(q, r, k);
      XorGlue(q, r / 2, s / 2, n - 1, k - 1);
      assert x / 2 == Glue(q, r / 2, k - 1) && x % 2 == r % 2;
      assert XorBits(r, s, k) / 2 == XorBits(r / 2, s / 2, k - 1);
    }
  }

  /** Exclusive-or with `s` maps [0, bound) into itself. */
  ghost predicate Closed(s: nat, bound: nat, n: nat) {
    forall i: nat :: i < bound ==> XorBits(i, s, n) < bound
  }

  /** For `s` with highest bit `k - 1`: the range [0, bound) is closed under exclusive-or with `s`
      exactly when `bound` is a multiple of 2^k. */
  lemma ClosedIffAligned(s: nat, bound: nat, n: nat, k: nat)
    requires 0 < k <= n && Pow2(k - 1) <= s < Pow2(k) && bound < Pow2(n)
    ensures Closed(s, bound, n) <==> Aligned(bound, k)
  {
    if Aligned(bound, k) {
      forall i: nat | i < bound
        ensures XorBits(i, s, n) < bound
      {
        XorHigh(i, s, n, k);
        AlignedBelow(i, bound, k);
        AlignedBelow(XorBits(i, s, n), bound, k);
      }
    } else if Closed(s, bound, n) {
      NotClosed(s, bound, n, k);
    }
  }

  lemma NotClosed(s: nat, bound: nat, n: nat, k: nat)
    requires 0 < k <= n && Pow2(k - 1) <= s < Pow2(k) && bound < Pow2(n) && !Aligned(bound, k)
    ensures !Closed(s, bound, n)
  {
    var q, r := High(bound, k), Low(bound, k);
    AlignedLow(bound, k);
    GlueParts(bound, k);
    if r <= s {
      var i := Glue(q, 0, k);
      GlueOrder(q, 0, r, k);
      GlueOrder(q, s, r, k);
      XorGlue(q, 0, s, n, k);
      XorCommutes(0, s, k);
      XorZero(s, k);
      assert i < bound && XorBits(i, s, n) >= bound;
    } else {
      var x := XorBits(r, s, k);
      XorTopBit(r, s, k, k - 1);
      XorTwice(r, s, k);
      var i := Glue(q, x, k);
      GlueOrder(q, x, r, k);
      XorGlue(q, x, s, n, k);
      assert i < bound && XorBits(i, s, n) >= bound;
    }
  }

  // ---- single bits ------------------------------------------------------------------------

  predicate BitAt(x: nat, k: nat) {
    if k == 0 then x % 2 == 1 else BitAt(x / 2, k - 1)
  }

  /** Bit `k` of a combination is the combination of the two bits. */
  lemma {:induction false} BitwiseAt(op: (bool, bool) -> bool, x: nat, y: nat, n: nat, k: nat)
    requires k < n
    ensures BitAt(Bitwise(op, x, y, n), k) <==> op(BitAt(x, k), BitAt(y, k))
  {
    if k > 0 {
      BitwiseAt(op, x / 2, y / 2, n - 1, k - 1);
      assert Bitwise(op, x, y, n) / 2 == Bitwise(op, x / 2, y / 2, n - 1);
    }
  }

  lemma {:induction false} HighAt(x: nat, n: nat, k: nat)
    ensures BitAt(High(x, n), k) <==> BitAt(x, n + k)
  {
    if n > 0 {
      HighAt(x / 2, n - 1, k);
    }
  }

  lemma {:induction false} NoBitAbove(x: nat, n: nat, k: nat)
    requires x < Pow2(n) && n <= k
    ensures !BitAt(x, k)
  {
    if k > 0 {
      NoBitAbove(x / 2, if n > 0 then n - 1 else 0, k - 1);
    }
  }

  /** A number is its bits. */
  lemma {:induction false} SameBits(x: nat, y: nat, n: nat)
    requires x < Pow2(n) && y < Pow2(n)
    requires forall k: nat :: k < n ==> (BitAt(x, k) <==> BitAt(y, k))
    ensures x == y
  {
    if n > 0 {
      assert BitAt(x, 0) <==> BitAt(y, 0);
      forall k: nat | k < n - 1
        ensures BitAt(x / 2, k) <==> BitAt(y / 2, k)
      {
        assert BitAt(x, k + 1) <==> BitAt(y, k + 1);
      }
      SameBits(x / 2, y / 2, n - 1);
    }
  }

  lemma {:induction false} ComplementAt(x: nat, n: nat, k: nat)
    requires x < Pow2(n) && k < n
    ensures BitAt(Pow2(n) - 1 - x, k) <==> !BitAt(x, k)
  {
    if k > 0 {
      assert (Pow2(n) - 1 - x) / 2 == Pow2(n - 1) - 1 - x / 2;
      ComplementAt(x / 2, n - 1, k - 1);
    }
  }

  /** A bit added above the others. */
  lemma {:induction false} TopAt(x: nat, n: nat, k: nat)
    requires x < Pow2(n) && k <= n
    ensures BitAt(x + Pow2(n), k) <==> k == n || BitAt(x, k)
  {
    if k > 0 {
      assert (x + Pow2(n)) / 2 == x / 2 + Pow2(n - 1);
      TopAt(x / 2, n - 1, k - 1);
    } else if n > 0 {
      assert (x + Pow2(n)) % 2 == x % 2;
    }
  }

  /** `x` with bit `k` set to `v`. */
  function WithBit(x: nat, k: nat, v: bool): nat {
    if k == 0 then x / 2 * 2 + (if v then 1 else 0) else WithBit(x / 2, k - 1, v) * 2 + x % 2
  }

  lemma {:induction false} WithBitAt(x: nat, k: nat, v: bool, j: nat)
    ensures BitAt(WithBit(x, k, v), j) == if j == k then v else BitAt(x, j)
  {
    if k > 0 && j > 0 {
      WithBitAt(x / 2, k - 1, v, j - 1);
    }
  }

  lemma {:induction false} WithBitRange(x: nat, k: nat, v: bool, n: nat)
    requires x < Pow2(n) && k < n
    ensures WithBit(x, k, v) < Pow2(n)
  {
    if k > 0 {
      WithBitRange(x / 2, k - 1, v, n - 1);
    }
  }
}
