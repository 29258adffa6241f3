/** scripts/calibrate-injector.py: which fragments a seed drops, and what changing the seed changes. */
module Calibrate {
  import opened Bytes
  import opened Bits
  import opened Prng
  import Rule

  /** Fragment `i` is dropped: its draw falls below the threshold. */
  predicate Dropped(thr: int, seed: u64, i: u64) {
    SplitMix64(Xor64(seed, i)) < thr
  }

  /** drops(p, seed, n): the dropped fragments among the first `n`, ascending. */
  function Drops(thr: int, seed: u64, n: u64): seq<u64>
    decreases n
  {
    if n == 0 then [] else Drops(thr, seed, n - 1) + (if Dropped(thr, seed, n - 1) then [n - 1] else [])
  }

  function DropSet(thr: int, seed: u64, n: u64): set<u64> {
    set i: u64 | 0 <= i < n && Dropped(thr, seed, i)
  }

  lemma {:induction false} DropsCount(thr: int, seed: u64, n: u64)
    ensures |Drops(thr, seed, n)| == |DropSet(thr, seed, n)|
    ensures forall i :: i in Drops(thr, seed, n) <==> i in DropSet(thr, seed, n)
    decreases n
  {
    hide Dropped;
    if n > 0 {
      DropsCount(thr, seed, n - 1);
      var rest := DropSet(thr, seed, n - 1);
      assert DropSet(thr, seed, n) == if Dropped(thr, seed, n - 1) then rest + {n - 1} else rest;
    } else {
      assert DropSet(thr, seed, n) == {};
    }
  }

  // ---- what the seed does ---------------------------------------------------------------

  lemma XorFacts(x: u64, s: u64)
    ensures Xor64(s, Xor64(s, x)) == x && Xor64(x, s) == Xor64(s, x) && Xor64(0, x) == x
  {
    Pow64();
    XorTwice(x, s, 64);
    XorCommutes(XorBits(x, s, 64), s, 64);
    XorCommutes(x, s, 64);
    XorCommutes(0, x, 64);
    XorZero(x, 64);
  }

  /** `k` bits hold the seed and no fewer do. */
  ghost predicate BitLength(seed: u64, k: nat) {
    if seed == 0 then k == 0 else 0 < k <= 64 && Pow2(k - 1) <= seed < Pow2(k)
  }

  /** The inputs splitmix64 is fed for the first `n` fragments are the same set as under seed 0 exactly
      when `n` is a multiple of the power of two just above the seed. */
  lemma SameInputsIffAligned(seed: u64, n: u64, k: nat)
    requires BitLength(seed, k)
    ensures (forall i: u64 :: i < n ==> Xor64(seed, i) < n) <==> Aligned(n, k)
  {
    Pow64();
    if seed == 0 {
      forall i: u64 | i < n
        ensures Xor64(seed, i) < n
      {
        XorFacts(i, seed);
      }
    } else {
      ClosedIffAligned(seed, n, 64, k);
      assert Closed(seed, n, 64) <==> forall i: u64 :: i < n ==> Xor64(seed, i) < n by {
        forall i: nat | i < n
          ensures XorBits(i, seed, 64) == Xor64(seed, i)
        {
          XorCommutes(i, seed, 64);
        }
      }
    }
  }

  /** An injective map keeps the size of a set. */
  lemma {:induction false} SameSize(a: set<u64>, b: set<u64>, s: u64)
    requires forall x :: x in a <==> Xor64(s, x) in b
    ensures |a| == |b|
    decreases |a|
  {
    hide Xor64;
    if a == {} {
      if y :| y in b {
        XorFacts(y, s);
        assert false;
      }
    } else {
      var x :| x in a;
      var y := Xor64(s, x);
      forall z | z != x
        ensures Xor64(s, z) != y
      {
        XorFacts(z, s);
        XorFacts(x, s);
      }
      SameSize(a - {x}, b - {y}, s);
    }
  }

  /** Seed permutation: when the fragment count is aligned with the seed, the dropped fragments are
      those of seed 0 with the seed exclusive-ored into every index, so the count is the same for
      every such seed and only the positions change. */
  lemma SeedPermutes(thr: int, seed: u64, n: u64, k: nat)
    requires BitLength(seed, k) && Aligned(n, k)
    ensures forall i: u64 :: i in Drops(thr, seed, n) <==> Xor64(seed, i) in Drops(thr, 0, n)
    ensures |Drops(thr, seed, n)| == |Drops(thr, 0, n)|
  {
    hide SplitMix64, Xor64;
    DropsCount(thr, seed, n);
    DropsCount(thr, 0, n);
    SameInputsIffAligned(seed, n, k);
    forall i: u64
      ensures i in DropSet(thr, seed, n) <==> Xor64(seed, i) in DropSet(thr, 0, n)
    {
      var j := Xor64(seed, i);
      XorFacts(i, seed);
      XorFacts(j, 0);
      assert Dropped(thr, 0, j) <==> Dropped(thr, seed, i);
      if j < n {
        assert Xor64(seed, j) < n;
      }
    }
    SameSize(DropSet(thr, seed, n), DropSet(thr, 0, n), seed);
  }

  /** How many of the fragments from `m` up to `n` are dropped. */
  function DroppedFrom(thr: int, seed: u64, m: u64, n: u64): (d: nat)
    requires m <= n
    ensures d <= n - m
    decreases n
  {
    if m == n then 0 else DroppedFrom(thr, seed, m, n - 1) + (if Dropped(thr, seed, n - 1) then 1 else 0)
  }

  lemma {:induction false} DropsSplit(thr: int, seed: u64, m: u64, n: u64)
    requires m <= n
    ensures |Drops(thr, seed, n)| == |Drops(thr, seed, m)| + DroppedFrom(thr, seed, m, n)
    decreases n
  {
    hide Dropped;
    if m < n {
      DropsSplit(thr, seed, m, n - 1);
    }
  }

  /** Off alignment, two counts differ by exactly what they differ among the fragments past the last
      aligned index, of which the low bits of `n` are the number; so by no more than that. */
  lemma DriftExact(thr: int, seed: u64, n: u64, k: nat)
    requires BitLength(seed, k)
    ensures Low(n, k) <= n
    ensures |Drops(thr, seed, n)| - |Drops(thr, 0, n)|
         == DroppedFrom(thr, seed, n - Low(n, k), n) - DroppedFrom(thr, 0, n - Low(n, k), n)
    ensures |Drops(thr, seed, n)| <= |Drops(thr, 0, n)| + Low(n, k)
    ensures |Drops(thr, 0, n)| <= |Drops(thr, seed, n)| + Low(n, k)
  {
    hide Drops, Low, Aligned, Xor64, DroppedFrom;
    LowAligned(n, k);
    var m: u64 := n as nat - Low(n, k);
    SeedPermutes(thr, seed, m, k);
    DropsSplit(thr, seed, m, n);
    DropsSplit(thr, 0, m, n);
  }

  lemma {:induction false} LowAligned(n: nat, k: nat)
    ensures Low(n, k) <= n && Aligned(n - Low(n, k), k)
  {
    if k > 0 {
      LowAligned(n / 2, k - 1);
    }
  }

  /** int(p * 2^64): towards zero. */
  function ScriptThreshold(p: real): int {
    if p >= 0.0 then (p * (TWO64 as real)).Floor else -((-p) * (TWO64 as real)).Floor
  }

  lemma ThresholdAgrees(p: real, d: u64)
    ensures d < ScriptThreshold(p) <==> (p > 0.0 && (p < 1.0 ==> d < Threshold(p)))
  {
    if p >= 1.0 {
      assert p * (TWO64 as real) >= TWO64 as real;
    } else if p < 0.0 {
      assert (-p) * (TWO64 as real) >= 0.0;
    }
  }

  /** What the script predicts is what the injector does, for every probability, sensible or not: the
      script's list has exactly the indices the rule drops. */
  lemma PredictionIsDecision(rule: Rule.DropRule, n: u64, i: u64)
    requires rule.replay == None
    ensures i in Drops(ScriptThreshold(rule.p), rule.seed, n) <==> i < n && Rule.Decide(rule, i)
  {
    hide SplitMix64, Xor64, Threshold, ScriptThreshold;
    DropsCount(ScriptThreshold(rule.p), rule.seed, n);
    ThresholdAgrees(rule.p, Draw(rule.seed, i));
  }

  /** The configuration the script reports, 267 fragments under seeds 1 to 3, is not aligned: the
      argument leaves room for counts up to 1 or 3 apart. */
  lemma Seeds123NotAlignedAt267()
    ensures BitLength(1, 1) && BitLength(2, 2) && BitLength(3, 2)
    ensures !Aligned(267, 1) && !Aligned(267, 2) && Low(267, 1) == 1 && Low(267, 2) == 3
    ensures Xor64(1, 266) == 267
  {
    Pow64();
    assert Pow2(1) == 2 && Pow2(2) == 4;
    XorZero(133, 63);
    assert XorBits(1, 266, 64) == 2 * XorBits(0, 133, 63) + 1;
    XorCommutes(0, 133, 63);
  }
}
