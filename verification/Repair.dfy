/** What ci_svu_verify's verdict and repair list mean, stated without following its scan. */
module Repair {
  import opened Bytes
  import opened Sha256Spec
  import opened Receiver

  /** A run of uncovered bytes that cannot be extended on either side. */
  ghost predicate MaximalHole(c: seq<bool>, iv: Interval) {
    && iv.start < iv.end <= |c|
    && (forall k :: iv.start <= k < iv.end ==> !c[k])
    && (iv.start > 0 ==> c[iv.start - 1])
    && (iv.end < |c| ==> c[iv.end])
  }

  /** Ascending ranges with a gap of at least one byte between neighbours. */
  ghost predicate Separated(ivs: seq<Interval>) {
    forall j, k :: 0 <= j < k < |ivs| ==> ivs[j].end < ivs[k].start
  }

  function TotalLength(ivs: seq<Interval>): int {
    if ivs == [] then 0 else ivs[0].end - ivs[0].start + TotalLength(ivs[1..])
  }

  /** The scan may be resumed at `i` without splitting a run. */
  ghost predicate RunBoundary(c: seq<bool>, i: nat)
    requires i <= |c|
  {
    i == 0 || i == |c| || c[i - 1] || c[i]
  }

  lemma CountStep(c: seq<bool>, i: nat)
    requires i < |c|
    ensures Count(c[..i + 1]) == Count(c[..i]) + (if c[i] then 1 else 0)
  {
    assert c[..i + 1][..i] == c[..i];
  }

  lemma {:induction false} CountRun(c: seq<bool>, i: nat, e: nat)
    requires i <= e <= |c| && forall k :: i <= k < e ==> !c[k]
    ensures Count(c[..e]) == Count(c[..i])
  {
    if i < e {
      CountRun(c, i, e - 1);
      CountStep(c, e - 1);
    }
  }

  /** A maximal hole that starts inside the run beginning at `i` is that run. */
  lemma FirstHole(c: seq<bool>, i: nat, iv: Interval)
    requires i < |c| < TWO32 && RunBoundary(c, i) && !c[i] && MaximalHole(c, iv) && i <= iv.start
    ensures iv == Interval(i, RunEnd(c, i)) || RunEnd(c, i) <= iv.start
  {
    var e := RunEnd(c, i);
    if iv.start < e {
      assert iv.start == i;
      assert iv.end <= e;
      assert e <= iv.end;
    }
  }

  lemma {:induction false} HoleListed(c: seq<bool>, i: nat, iv: Interval)
    requires i <= |c| < TWO32 && RunBoundary(c, i)
    ensures iv in Holes(c, i) <==> MaximalHole(c, iv) && iv.start >= i
    decreases |c| - i
  {
    if i == |c| {
    } else if c[i] {
      HoleListed(c, i + 1, iv);
    } else {
      HoleListed(c, RunEnd(c, i), iv);
      if MaximalHole(c, iv) && iv.start >= i {
        FirstHole(c, i, iv);
      }
    }
  }

  lemma {:induction false} HolesSeparated(c: seq<bool>, i: nat)
    requires i <= |c| < TWO32 && RunBoundary(c, i)
    ensures Separated(Holes(c, i))
    decreases |c| - i
  {
    if i == |c| {
    } else if c[i] {
      HolesSeparated(c, i + 1);
    } else {
      var e := RunEnd(c, i);
      var rest := Holes(c, e);
      HolesSeparated(c, e);
      forall k | 0 <= k < |rest|
        ensures e < rest[k].start
      {
        HoleListed(c, e, rest[k]);
      }
    }
  }

  lemma {:induction false} HoleLengths(c: seq<bool>, i: nat)
    requires i <= |c| < TWO32
    ensures TotalLength(Holes(c, i)) == |c| - i - (Count(c) - Count(c[..i]))
    decreases |c| - i
  {
    if i == |c| {
      assert c[..i] == c;
    } else if c[i] {
      HoleLengths(c, i + 1);
      CountStep(c, i);
    } else {
      var e := RunEnd(c, i);
      HoleLengths(c, e);
      CountRun(c, i, e);
      assert Holes(c, i)[1..] == Holes(c, e);
    }
  }

  /** INCOMPLETE: the list is exactly the maximal uncovered runs, in order, and their lengths add
      up to the bytes still missing. */
  lemma HolesExact(c: seq<bool>)
    requires |c| < TWO32
    ensures forall iv :: iv in Holes(c, 0) <==> MaximalHole(c, iv)
    ensures Separated(Holes(c, 0))
    ensures TotalLength(Holes(c, 0)) == |c| - Count(c)
  {
    forall iv {
      HoleListed(c, 0, iv);
    }
    HolesSeparated(c, 0);
    HoleLengths(c, 0);
  }

  /** CORRUPT: the list is exactly the ranges of the blocks whose digest differs, in order. */
  lemma {:induction false} BadBlocksExact(h: Hash, r: Rx, from: nat)
    requires r.Wf() && from <= r.N()
    ensures forall iv :: iv in BadBlocks(h, r, from) <==>
                         exists b :: from <= b < r.N() && r.Bad(h, b) && iv == r.BlockInterval(b)
    ensures forall j, k :: 0 <= j < k < |BadBlocks(h, r, from)| ==>
                           BadBlocks(h, r, from)[j].end <= BadBlocks(h, r, from)[k].start
    decreases r.N() - from
  {
    if from < r.N() {
      BadBlocksExact(h, r, from + 1);
      var rest := BadBlocks(h, r, from + 1);
      forall k | 0 <= k < |rest|
        ensures r.BlockInterval(from).end <= rest[k].start
      {
        assert rest[k] in rest;
        var b :| from + 1 <= b < r.N() && r.Bad(h, b) && rest[k] == r.BlockInterval(b);
        BlocksInOrder(r, from, b);
      }
    }
  }

  lemma BlocksInOrder(r: Rx, a: nat, b: nat)
    requires r.Wf() && a < b < r.N()
    ensures r.BlockInterval(a).end <= r.BlockInterval(b).start
  {
    assert a * r.block + r.block == (a + 1) * r.block <= b * r.block;
  }

  /** VERIFIED means that every byte arrived and every block has its manifest digest. */
  lemma VerdictExact(h: Hash, r: Rx)
    requires r.Wf()
    ensures Verdict(h, r) == Verified <==>
            (forall i :: 0 <= i < |r.cov| ==> r.cov[i]) && (forall b :: 0 <= b < r.N() ==> !r.Bad(h, b))
    ensures Verdict(h, r) == Incomplete <==> exists i :: 0 <= i < |r.cov| && !r.cov[i]
  {
    CountFull(r.cov);
    BadBlocksExact(h, r, 0);
    if b :| 0 <= b < r.N() && r.Bad(h, b) {
      assert r.BlockInterval(b) in BadBlocks(h, r, 0);
    }
    if BadBlocks(h, r, 0) != [] {
      assert BadBlocks(h, r, 0)[0] in BadBlocks(h, r, 0);
    }
  }

  /** Short of verification there is always something to ask for, so a re-request can never turn
      into the zero-interval form that means "the whole file". */
  lemma UnverifiedHasRepairs(h: Hash, r: Rx)
    requires r.Wf() && Verdict(h, r) != Verified
    ensures RepairList(h, r) != []
  {
    if Verdict(h, r) == Incomplete {
      HolesExact(r.cov);
    }
  }
}
