/** lib/ci_ge.c: the Gilbert-Elliott chain, run along packet indices or along transmissions. */
module Ge {
  import opened Bytes
  import opened Prng

  /** ci_ge_threshold, over exact reals. */
  function GeThreshold(p: real): u64 {
    if p <= 0.0 then 0 else if p >= 1.0 then TWO64 - 1 else Threshold(p)
  }

  /** One transition of the chain on the draw `d`. */
  predicate Next(bad: bool, d: u64, tG2b: u64, tB2g: u64) {
    if bad then d >= tB2g else d < tG2b
  }

  /** Whether the chain is in its lossy state after `n` transitions. */
  predicate BadAfter(seed: u64, tG2b: u64, tB2g: u64, n: nat) {
    n > 0 && Next(BadAfter(seed, tG2b, tB2g, n - 1), Draw(seed, Wrap64(n - 1)), tG2b, tB2g)
  }

  // ---- what the chain does, from its draws alone ----------------------------------------------

  /** After `j` transitions the chain was good, its next draw fell below `tG2b`, and of the draws after
      that, up to `n`, none has fallen below `tB2g`. */
  ghost predicate LossySince(seed: u64, tG2b: u64, tB2g: u64, j: nat, n: nat) {
    && j < n && !BadAfter(seed, tG2b, tB2g, j) && Draw(seed, Wrap64(j)) < tG2b
    && forall i: nat :: j < i < n ==> Draw(seed, Wrap64(i)) >= tB2g
  }

  lemma {:induction false} LossySinceBad(seed: u64, tG2b: u64, tB2g: u64, j: nat, n: nat)
    requires LossySince(seed, tG2b, tB2g, j, n)
    ensures BadAfter(seed, tG2b, tB2g, n)
    decreases n
  {
    hide Draw;
    if j < n - 1 {
      LossySinceBad(seed, tG2b, tB2g, j, n - 1);
    }
  }

  lemma {:induction false} LastTurn(seed: u64, tG2b: u64, tB2g: u64, n: nat) returns (j: nat)
    requires BadAfter(seed, tG2b, tB2g, n)
    ensures LossySince(seed, tG2b, tB2g, j, n)
    decreases n
  {
    hide Draw;
    if BadAfter(seed, tG2b, tB2g, n - 1) {
      j := LastTurn(seed, tG2b, tB2g, n - 1);
    } else {
      j := n - 1;
    }
  }

  /** The chain is lossy if and only if it has turned bad since it was last good: a draw below the first
      threshold started the burst and no draw below the second has ended it. */
  lemma LossyIff(seed: u64, tG2b: u64, tB2g: u64, n: nat)
    ensures BadAfter(seed, tG2b, tB2g, n) <==> exists j: nat :: LossySince(seed, tG2b, tB2g, j, n)
  {
    hide Draw, BadAfter, LossySince;
    if BadAfter(seed, tG2b, tB2g, n) {
      var j := LastTurn(seed, tG2b, tB2g, n);
    }
    if j: nat :| LossySince(seed, tG2b, tB2g, j, n) {
      LossySinceBad(seed, tG2b, tB2g, j, n);
    }
  }

  /** With a first threshold of 0 no burst ever starts. */
  lemma NeverLossy(seed: u64, tB2g: u64, n: nat)
    ensures !BadAfter(seed, 0, tB2g, n)
  {
    hide Draw, BadAfter;
    LossyIff(seed, 0, tB2g, n);
  }

  /** With a second threshold of 0 none ever ends. */
  lemma {:induction false} StaysLossy(seed: u64, tG2b: u64, m: nat, n: nat)
    requires m <= n && BadAfter(seed, tG2b, 0, m)
    ensures BadAfter(seed, tG2b, 0, n)
  {
    hide Draw;
    if m < n {
      StaysLossy(seed, tG2b, m, n - 1);
    }
  }

  /** A draw falls below the threshold of `p` with `draw + 1 <= p * 2^64`; never for p <= 0. */
  lemma ThresholdExact(p: real, d: u64)
    ensures p <= 0.0 ==> !(d < GeThreshold(p))
    ensures 0.0 < p < 1.0 ==> (d < GeThreshold(p) <==> d as real + 1.0 <= p * (TWO64 as real))
    ensures p >= 1.0 ==> (d < GeThreshold(p) <==> d < TWO64 - 1)
  {
  }

  /** The two controls: a probability of 0 to enter, and one of 0 to leave, the lossy state. */
  lemma Controls(seed: u64, pG2b: real, pB2g: real)
    ensures pG2b <= 0.0 ==> forall n: nat :: !BadAfter(seed, GeThreshold(pG2b), GeThreshold(pB2g), n)
    ensures pB2g <= 0.0 ==> forall m: nat, n: nat :: m <= n && BadAfter(seed, GeThreshold(pG2b), GeThreshold(pB2g), m)
                              ==> BadAfter(seed, GeThreshold(pG2b), GeThreshold(pB2g), n)
  {
    hide Draw, BadAfter;
    forall n: nat | pG2b <= 0.0
      ensures !BadAfter(seed, GeThreshold(pG2b), GeThreshold(pB2g), n)
    {
      NeverLossy(seed, GeThreshold(pB2g), n);
    }
    forall m: nat, n: nat | pB2g <= 0.0 && m <= n && BadAfter(seed, GeThreshold(pG2b), GeThreshold(pB2g), m)
      ensures BadAfter(seed, GeThreshold(pG2b), GeThreshold(pB2g), n)
    {
      StaysLossy(seed, GeThreshold(pG2b), m, n);
    }
  }

  /** ci_ge_fill: entry `i` is 1 when the chain is lossy after `i` transitions. */
  method Fill(seed: u64, pG2b: real, pB2g: real, vec: array<u8>)
    requires vec.Length < TWO64
    modifies vec
    ensures forall i :: 0 <= i < vec.Length ==>
              vec[i] == if BadAfter(SplitMix64(seed), GeThreshold(pG2b), GeThreshold(pB2g), i) then 1 else 0
    ensures pG2b <= 0.0 ==> forall i :: 0 <= i < vec.Length ==> vec[i] == 0
    ensures pB2g <= 0.0 ==> forall i, j :: 0 <= i <= j < vec.Length && vec[i] == 1 ==> vec[j] == 1
  {
    hide SplitMix64, Draw, GeThreshold;
    var s, tG2b, tB2g := SplitMix64(seed), GeThreshold(pG2b), GeThreshold(pB2g);
    var bad := false;
    for i := 0 to vec.Length
      invariant bad == BadAfter(s, tG2b, tB2g, i)
      invariant forall j :: 0 <= j < i ==> vec[j] == if BadAfter(s, tG2b, tB2g, j) then 1 else 0
    {
      vec[i] := if bad then 1 else 0;
      var d := Draw(s, i);
      ghost var was := bad;
      if !bad {
        if d < tG2b { bad := true; }
      } else {
        if d < tB2g { bad := false; }
      }
      assert Wrap64(i) == i && bad == Next(was, d, tG2b, tB2g);
    }
    Controls(s, pG2b, pB2g);
  }

  /** ci_ge_state_t */
  class Chain {
    var seed: u64
    var step: u64
    var tG2b: u64
    var tB2g: u64
    var bad: bool

    /** The chain has taken `n` steps from its start. */
    ghost predicate At(n: nat)
      reads this
    {
      step == Wrap64(n) && bad == BadAfter(seed, tG2b, tB2g, n)
    }

    /** ci_ge_state_init */
    constructor (seed: u64, pG2b: real, pB2g: real)
      ensures this.seed == SplitMix64(seed)
      ensures this.tG2b == GeThreshold(pG2b) && this.tB2g == GeThreshold(pB2g) && At(0)
    {
      this.seed := SplitMix64(seed);
      step := 0;
      tG2b, tB2g := GeThreshold(pG2b), GeThreshold(pB2g);
      bad := false;
    }

    /** ci_ge_state_step: emit the current state, then make one transition. The sequence of its
        answers is the vector Fill computes for the same seed. */
    method Step(ghost n: nat) returns (drop: bool)
      requires At(n)
      modifies this`step, this`bad
      ensures At(n + 1) && drop == BadAfter(seed, tG2b, tB2g, n)
    {
      hide SplitMix64, Draw;
      drop := bad;
      var d := Draw(seed, step);
      step := Wrap64(step as nat + 1);
      if !bad {
        if d < tG2b { bad := true; }
      } else {
        if d < tB2g { bad := false; }
      }
    }
  }
}
