/** Liveness of the round loop: a round in which everything asked for gets through repairs the first
    32 ranges of the list and nothing else, so a bounded number of such rounds ends verified. */
module Progress {
  import opened Bytes
  import opened Sha256Spec
  import opened Receiver
  import opened Repair
  import opened Delivery
  import opened Wire
  import opened Server
  import opened Session
  import opened Answers
  import opened Safety

  // ---- holes ----------------------------------------------------------------------------

  lemma {:induction false} RunEndSuffix(c: seq<bool>, d: seq<bool>, i: nat)
    requires |c| == |d| && i <= |c| && forall k :: i <= k < |c| ==> c[k] == d[k]
    ensures RunEnd(c, i) == RunEnd(d, i)
    decreases |c| - i
  {
    if i < |c| && !c[i] {
      RunEndSuffix(c, d, i + 1);
    }
  }

  /** The scan from `i` does not look below `i`. */
  lemma {:induction false} HolesSuffix(c: seq<bool>, d: seq<bool>, i: nat)
    requires |c| == |d| < TWO32 && i <= |c| && forall k :: i <= k < |c| ==> c[k] == d[k]
    ensures Holes(c, i) == Holes(d, i)
    decreases |c| - i
  {
    if i == |c| {
    } else if c[i] {
      HolesSuffix(c, d, i + 1);
    } else {
      RunEndSuffix(c, d, i);
      HolesSuffix(c, d, RunEnd(c, i));
    }
  }

  lemma {:induction false} HolesSkip(c: seq<bool>, i: nat, e: nat)
    requires i <= e <= |c| < TWO32 && forall k :: i <= k < e ==> c[k]
    ensures Holes(c, i) == Holes(c, e)
    decreases e - i
  {
    if i < e {
      HolesSkip(c, i + 1, e);
    }
  }

  /** Dropping the first `m` holes is resuming the scan where the last of them ends. */
  lemma {:induction false} HolesDrop(c: seq<bool>, i: nat, m: nat)
    requires i <= |c| < TWO32 && 0 < m <= |Holes(c, i)|
    ensures Holes(c, i)[m - 1].end <= |c|
    ensures Holes(c, i)[m..] == Holes(c, Holes(c, i)[m - 1].end)
    decreases |c| - i
  {
    if i == |c| {
    } else if c[i] {
      HolesDrop(c, i + 1, m);
    } else {
      var e := RunEnd(c, i);
      if m > 1 {
        HolesDrop(c, e, m - 1);
        assert Holes(c, i)[m - 1] == Holes(c, e)[m - 2];
        assert Holes(c, i)[m..] == Holes(c, e)[m - 1..];
      }
    }
  }

  /** Every missing byte is in a listed hole. */
  lemma {:induction false} HoleAt(c: seq<bool>, i: nat, k: nat) returns (j: nat)
    requires i <= k < |c| < TWO32 && !c[k]
    ensures j < |Holes(c, i)| && Holes(c, i)[j].start <= k < Holes(c, i)[j].end
    decreases |c| - i
  {
    if c[i] {
      j := HoleAt(c, i + 1, k);
    } else if k < RunEnd(c, i) {
      j := 0;
    } else {
      j := HoleAt(c, RunEnd(c, i), k);
      j := j + 1;
    }
  }

  /** Covering exactly the first `m` holes leaves exactly the others. */
  lemma FillHoles(c: seq<bool>, d: seq<bool>, m: nat)
    requires |c| == |d| < TWO32 && 0 < m <= |Holes(c, 0)|
    requires forall k :: 0 <= k < |c| ==> (d[k] <==> c[k] || Requested(Holes(c, 0)[..m], k))
    ensures Holes(d, 0) == Holes(c, 0)[m..]
  {
    var list := Holes(c, 0);
    var e := list[m - 1].end;
    HolesExact(c);
    assert list[m - 1] in list && list[m - 1].start < e;
    HolesDrop(c, 0, m);
    assert forall j :: 0 <= j < m ==> list[..m][j] == list[j] && list[j].end <= e;
    forall k | 0 <= k < e
      ensures d[k]
    {
      if !c[k] {
        var j := HoleAt(c, 0, k);
        assert list[..m][j] == list[j];
      }
    }
    HolesSkip(d, 0, e);
    HolesSuffix(c, d, e);
  }

  // ---- bad blocks -----------------------------------------------------------------------

  lemma {:induction false} BadBlocksBound(h: Hash, r: Rx, b: nat)
    requires r.Wf() && b <= r.N()
    ensures |BadBlocks(h, r, b)| <= r.N() - b
    decreases r.N() - b
  {
    if b < r.N() {
      BadBlocksBound(h, r, b + 1);
    }
  }

  /** The block at which the scan has passed `m` bad blocks. */
  function DropPoint(h: Hash, r: Rx, b: nat, m: nat): (e: nat)
    requires r.Wf() && b <= r.N() && m <= |BadBlocks(h, r, b)|
    ensures b <= e <= r.N()
    decreases r.N() - b
  {
    if m == 0 then b
    else DropPoint(h, r, b + 1, if r.Bad(h, b) then m - 1 else m)
  }

  /** Dropping the first `m` bad blocks is resuming the scan there. */
  lemma {:induction false} BadBlocksDrop(h: Hash, r: Rx, b: nat, m: nat)
    requires r.Wf() && b <= r.N() && m <= |BadBlocks(h, r, b)|
    ensures BadBlocks(h, r, b)[m..] == BadBlocks(h, r, DropPoint(h, r, b, m))
    decreases r.N() - b
  {
    hide NBlocks, Block;
    if m > 0 {
      if r.Bad(h, b) {
        BadBlocksDrop(h, r, b + 1, m - 1);
        assert BadBlocks(h, r, b)[m..] == BadBlocks(h, r, b + 1)[m - 1..];
      } else {
        BadBlocksDrop(h, r, b + 1, m);
      }
    }
  }

  /** The ranges dropped are those of the bad blocks passed ... */
  lemma {:induction false} DroppedIsBad(h: Hash, r: Rx, b: nat, m: nat, j: nat) returns (x: nat)
    requires r.Wf() && b <= r.N() && j < m <= |BadBlocks(h, r, b)|
    ensures b <= x < DropPoint(h, r, b, m) && r.Bad(h, x) && BadBlocks(h, r, b)[j] == r.BlockInterval(x)
    decreases r.N() - b
  {
    hide NBlocks, Block;
    if !r.Bad(h, b) {
      x := DroppedIsBad(h, r, b + 1, m, j);
    } else if j == 0 {
      x := b;
    } else {
      x := DroppedIsBad(h, r, b + 1, m - 1, j - 1);
    }
  }

  /** ... and of all of them. */
  lemma {:induction false} BadIsDropped(h: Hash, r: Rx, b: nat, m: nat, x: nat) returns (j: nat)
    requires r.Wf() && b <= r.N() && m <= |BadBlocks(h, r, b)|
    requires b <= x < DropPoint(h, r, b, m) && r.Bad(h, x)
    ensures j < m && BadBlocks(h, r, b)[j] == r.BlockInterval(x)
    decreases r.N() - b
  {
    hide NBlocks, Block;
    if x == b {
      j := 0;
    } else if r.Bad(h, b) {
      j := BadIsDropped(h, r, b + 1, m - 1, x);
      j := j + 1;
    } else {
      j := BadIsDropped(h, r, b + 1, m, x);
    }
  }

  /** Receivers in the same states block by block from `b` on list the same bad blocks. */
  lemma {:induction false} BadBlocksSame(h: Hash, r: Rx, s: Rx, b: nat)
    requires r.Wf() && s.Wf() && |r.data| == |s.data| && r.block == s.block && b <= r.N()
    requires forall x :: b <= x < r.N() ==> (r.Bad(h, x) <==> s.Bad(h, x))
    ensures BadBlocks(h, r, b) == BadBlocks(h, s, b)
    decreases r.N() - b
  {
    if b < r.N() {
      BadBlocksSame(h, r, s, b + 1);
    }
  }

  lemma {:induction false} BadBlocksSkip(h: Hash, r: Rx, b: nat, e: nat)
    requires r.Wf() && b <= e <= r.N() && forall x :: b <= x < e ==> !r.Bad(h, x)
    ensures BadBlocks(h, r, b) == BadBlocks(h, r, e)
    decreases e - b
  {
    if b < e {
      BadBlocksSkip(h, r, b + 1, e);
    }
  }

  /** `s` is `r` with the source bytes in the requested ranges, and nothing else changed. */
  ghost predicate Patched(r: Rx, s: Rx, src: seq<u8>, ivs: seq<Interval>) {
    && |s.data| == |r.data| == |s.cov| == |r.cov| == |src| && s.block == r.block && s.expected == r.expected
    && (forall i :: 0 <= i < |src| ==> s.data[i] == if Requested(ivs, i) then src[i] else r.data[i])
    && (forall i :: 0 <= i < |src| ==> s.cov[i] == (r.cov[i] || Requested(ivs, i)))
  }

  lemma PatchedRight(h: Hash, r: Rx, s: Rx, src: seq<u8>, ivs: seq<Interval>, b: nat)
    requires r.Wf() && s.Wf() && b < r.N() && Patched(r, s, src, ivs) && r.expected == Manifest(h, src, r.block)
    requires r.BlockInterval(b) in ivs
    ensures !s.Bad(h, b)
  {
    var iv := r.BlockInterval(b);
    ManifestSlice(h, src, r.block, r.N(), b);
    var j :| 0 <= j < |ivs| && ivs[j] == iv;
    assert forall i :: iv.start <= i < iv.end ==> Requested(ivs, i);
    assert Block(s.data, s.block, b) == Block(src, r.block, b);
  }

  ghost predicate Apart(a: Interval, b: Interval) {
    a.end <= b.start || b.end <= a.start
  }

  lemma PatchedSame(h: Hash, r: Rx, s: Rx, src: seq<u8>, ivs: seq<Interval>, b: nat)
    requires r.Wf() && s.Wf() && b < r.N() && Patched(r, s, src, ivs)
    requires forall iv :: iv in ivs ==> Apart(iv, r.BlockInterval(b))
    ensures r.Bad(h, b) <==> s.Bad(h, b)
  {
    var iv := r.BlockInterval(b);
    forall i | iv.start <= i < iv.end
      ensures !Requested(ivs, i)
    {
      assert forall j :: 0 <= j < |ivs| ==> Apart(ivs[j], iv);
    }
    assert Block(s.data, s.block, b) == Block(r.data, r.block, b);
  }

  /** Patching exactly the first `m` bad blocks leaves exactly the others bad. */
  lemma RepairBlocks(h: Hash, r: Rx, s: Rx, src: seq<u8>, m: nat)
    requires r.Wf() && s.Wf() && m <= |BadBlocks(h, r, 0)|
    requires Patched(r, s, src, BadBlocks(h, r, 0)[..m]) && r.expected == Manifest(h, src, r.block)
    ensures BadBlocks(h, s, 0) == BadBlocks(h, r, 0)[m..]
  {
    var ivs, e := BadBlocks(h, r, 0)[..m], DropPoint(h, r, 0, m);
    forall x | 0 <= x < r.N()
      ensures x < e ==> !s.Bad(h, x)
      ensures x >= e ==> (r.Bad(h, x) <==> s.Bad(h, x))
    {
      if x < e && r.Bad(h, x) {
        var j := BadIsDropped(h, r, 0, m, x);
        assert ivs[j] == r.BlockInterval(x);
        PatchedRight(h, r, s, src, ivs, x);
      } else {
        forall iv | iv in ivs
          ensures Apart(iv, r.BlockInterval(x))
        {
          DroppedApart(h, r, m, x, iv);
        }
        PatchedSame(h, r, s, src, ivs, x);
      }
    }
    BadBlocksDrop(h, r, 0, m);
    BadBlocksSkip(h, s, 0, e);
    BadBlocksSame(h, r, s, e);
  }

  lemma DroppedApart(h: Hash, r: Rx, m: nat, x: nat, iv: Interval)
    requires r.Wf() && x < r.N() && m <= |BadBlocks(h, r, 0)| && iv in BadBlocks(h, r, 0)[..m]
    requires x >= DropPoint(h, r, 0, m) || !r.Bad(h, x)
    ensures Apart(iv, r.BlockInterval(x))
  {
    var j :| 0 <= j < m && BadBlocks(h, r, 0)[..m][j] == iv;
    var y := DroppedIsBad(h, r, 0, m, j);
    if y < x {
      BlocksInOrder(r, y, x);
    } else {
      BlocksInOrder(r, x, y);
    }
  }

  // ---- clean rounds ---------------------------------------------------------------------

  function AllFragments(windows: seq<seq<Packet>>): seq<Fragment> {
    if windows == [] then [] else Fragments(windows[0]) + AllFragments(windows[1..])
  }

  /** Draining windows none of which is idle delivers everything, unless it can stop early. */
  lemma {:induction false} DrainBusy(h: Hash, r: Rx, windows: seq<seq<Packet>>)
    requires r.Wf() && forall w :: w in windows ==> Fragments(w) != []
    ensures var r' := DrainAll(h, r, windows);
            r' == DeliverAll(r, AllFragments(windows)) || Verdict(h, r') == Verified
    decreases |windows|
  {
    if windows != [] {
      var fs := Fragments(windows[0]);
      assert windows[0] in windows;
      DrainBusy(h, DeliverAll(r, fs), windows[1..]);
      DeliverAppend(r, fs, AllFragments(windows[1..]));
    }
  }

  /** The drain loop does not stop after window `j`: it brought something, and what has been delivered so
      far is not verified. */
  ghost predicate GoesOn(h: Hash, r: Rx, windows: seq<seq<Packet>>, j: nat)
    requires r.Wf() && j < |windows|
  {
    Fragments(windows[j]) != [] && Verdict(h, DeliverAll(r, AllFragments(windows[..j + 1]))) != Verified
  }

  lemma WindowsShift(windows: seq<seq<Packet>>, j: nat)
    requires j < |windows|
    ensures AllFragments(windows[..j + 1]) == Fragments(windows[0]) + AllFragments(windows[1..][..j])
  {
    assert windows[..j + 1][1..] == windows[1..][..j];
  }

  /** The drain loop, without the loop: it delivers the windows up to and including the first that is idle
      or completes a verified file, and nothing after that. */
  lemma {:induction false} DrainExact(h: Hash, r: Rx, windows: seq<seq<Packet>>) returns (k: nat)
    requires r.Wf()
    ensures k <= |windows| && DrainAll(h, r, windows) == DeliverAll(r, AllFragments(windows[..k]))
    ensures forall j: nat :: j < k - 1 ==> GoesOn(h, r, windows, j)
    ensures k < |windows| ==> k > 0 && !GoesOn(h, r, windows, k - 1)
    decreases |windows|
  {
    hide Verdict, Fragments;
    k := 0;
    if windows != [] {
      var fs, rest := Fragments(windows[0]), windows[1..];
      var next := DeliverAll(r, fs);
      WindowsShift(windows, 0);
      assert AllFragments(windows[..1]) == fs;
      k := 1;
      if GoesOn(h, r, windows, 0) {
        var m := DrainExact(h, next, rest);
        forall j: nat | j <= |rest|
          ensures DeliverAll(r, AllFragments(windows[..j + 1])) == DeliverAll(next, AllFragments(rest[..j]))
        {
          WindowsShift(windows, j);
          DeliverAppend(r, fs, AllFragments(rest[..j]));
        }
        forall j: nat | j < |rest|
          ensures GoesOn(h, next, rest, j) <==> GoesOn(h, r, windows, j + 1)
        {
          assert rest[j] == windows[j + 1];
        }
        k := m + 1;
        forall j: nat | j < k - 1
          ensures GoesOn(h, r, windows, j)
        {
          if j > 0 {
            assert GoesOn(h, next, rest, j - 1) <==> GoesOn(h, r, windows, j);
          }
        }
      }
    }
  }

  /** The ranges a client asks for next. */
  function NextRanges(h: Hash, r: Rx): (ivs: seq<Interval>)
    requires r.Wf()
    ensures |ivs| <= MAX_INTERVALS
  {
    var list := RepairList(h, r);
    list[..Min(|list|, MAX_INTERVALS)]
  }

  /** A round in which the control exchange works and the frames of the server's blast all arrive, in
      any order and any number of times, with no idle window before the last of them. */
  ghost predicate Clean(h: Hash, input: RoundInput, src: seq<u8>, mtu: u32, block: u32, ivs: seq<Interval>)
    requires |src| < TWO32 && mtu < TWO16 && |ivs| <= MAX_INTERVALS
  {
    && Attempts(input.conns, MAX_ATTEMPTS).Got?
    && (forall w :: w in input.windows ==> Fragments(w) != [])
    && Shuffled(AllFragments(input.windows), Fragments(Answer(h, src, mtu, block, ivs).data))
  }

  /** The receiver belongs to a transfer of `src`. */
  ghost predicate For(h: Hash, src: seq<u8>, r: Rx) {
    r.Wf() && |r.data| == |src| && r.expected == Manifest(h, src, r.block)
  }

  lemma BlastPatches(src: seq<u8>, r: Rx, fs: seq<Fragment>, mtu: u32, block: u32, ivs: seq<Interval>)
    requires r.Wf() && |r.data| == |src| && mtu < TWO16 && |ivs| <= MAX_INTERVALS
    requires Shuffled(fs, Blasted(src, Request(mtu, block, ivs)))
    ensures Patched(r, DeliverAll(r, fs), src, if ivs == [] then [Interval(0, |src|)] else ivs)
  {
    RequestedRanges(mtu, block, ivs, |src|);
    var ranges := if ivs == [] then [Interval(0, |src|)] else ivs;
    forall i | 0 <= i < |src|
      ensures var s := DeliverAll(r, fs);
              && s.data[i] == (if Requested(ranges, i) then src[i] else r.data[i])
              && s.cov[i] == (r.cov[i] || Requested(ranges, i))
    {
      BlastThenAccept(r, src, PayloadSize(ServedMtu(mtu)), ranges, fs, i);
    }
  }

  lemma CleanPatches(h: Hash, src: seq<u8>, r: Rx, input: RoundInput, mtu: u32, block: u32, ivs: seq<Interval>)
    requires For(h, src, r) && mtu < TWO16 && |ivs| <= MAX_INTERVALS && Clean(h, input, src, mtu, block, ivs)
    ensures var s := DeliverAll(r, AllFragments(input.windows));
            Patched(r, s, src, if ivs == [] then [Interval(0, |src|)] else ivs)
  {
    hide Answer, Fragments, AllFragments, Blasted, Patched, DeliverAll, Attempts;
    AnswerData(h, src, mtu, block, ivs);
    BlastPatches(src, r, AllFragments(input.windows), mtu, block, ivs);
  }

  /** One clean round: it ends the transfer, or it fills exactly the first 32 holes, or (once all bytes
      have arrived) it repairs exactly the first 32 bad blocks. All other bytes are as they were. */
  lemma CleanRound(h: Hash, src: seq<u8>, r: Rx, input: RoundInput, mtu: u32, block: u32)
    requires For(h, src, r) && Verdict(h, r) != Verified && mtu < TWO16
    requires Clean(h, input, src, mtu, block, NextRanges(h, r))
    ensures var p := Advance(h, Some(r), input);
            p.Done? || (p.Running? && p.rx.Some? && p.ivs == NextRanges(h, p.rx.value)
                        && RoundEffect(h, src, r, p.rx.value))
  {
    hide Attempts, AllFragments, Answer, Fragments, DrainAll, DeliverAll, Verdict, RepairList, Patched, Manifest;
    var ivs := NextRanges(h, r);
    var s, s' := DeliverAll(r, AllFragments(input.windows)), DrainAll(h, r, input.windows);
    UnverifiedHasRepairs(h, r);
    CleanPatches(h, src, r, input, mtu, block, ivs);
    DrainBusy(h, r, input.windows);
    if Verdict(h, s') != Verified {
      PatchEffect(h, src, r, s);
    }
  }

  lemma PatchEffect(h: Hash, src: seq<u8>, r: Rx, s: Rx)
    requires For(h, src, r) && For(h, src, s) && Verdict(h, r) != Verified && Verdict(h, s) != Verified
    requires NextRanges(h, r) != [] && Patched(r, s, src, NextRanges(h, r))
    ensures RoundEffect(h, src, r, s)
  {
    var ivs := NextRanges(h, r);
    if Verdict(h, r) == Incomplete {
      FillHoles(r.cov, s.cov, |ivs|);
    } else {
      RepairBlocks(h, r, s, src, |ivs|);
      FullStays(r, s, src, ivs);
    }
  }

  /** What a clean round that does not finish the transfer turns `r` into. */
  ghost predicate RoundEffect(h: Hash, src: seq<u8>, r: Rx, s: Rx)
    requires r.Wf()
  {
    var m := |NextRanges(h, r)|;
    && For(h, src, s) && Verdict(h, s) != Verified && Patched(r, s, src, NextRanges(h, r))
    && (if Verdict(h, r) == Incomplete then Holes(s.cov, 0) == Holes(r.cov, 0)[m..]
        else Verdict(h, s) == Corrupt && BadBlocks(h, s, 0) == BadBlocks(h, r, 0)[m..])
  }

  lemma FullStays(r: Rx, s: Rx, src: seq<u8>, ivs: seq<Interval>)
    requires Patched(r, s, src, ivs) && Count(r.cov) == |r.cov|
    ensures Count(s.cov) == |s.cov|
  {
    CountFull(r.cov);
    CountFull(s.cov);
  }

  // ---- how many are enough ----------------------------------------------------------------

  function Ceil32(n: nat): nat {
    (n + 31) / 32
  }

  /** Clean rounds that certainly suffice from here. */
  function Remaining(h: Hash, r: Rx): nat
    requires r.Wf()
  {
    match Verdict(h, r)
    case Incomplete => Ceil32(|Holes(r.cov, 0)|) + Ceil32(r.N())
    case Corrupt => Ceil32(|BadBlocks(h, r, 0)|)
    case Verified => 0
  }

  lemma NoHolesIffFull(c: seq<bool>)
    requires |c| < TWO32
    ensures Holes(c, 0) == [] <==> Count(c) == |c|
  {
    CountFull(c);
    HolesExact(c);
    if k :| 0 <= k < |c| && !c[k] {
      var j := HoleAt(c, 0, k);
    }
    if Holes(c, 0) != [] {
      assert Holes(c, 0)[0] in Holes(c, 0);
      assert !c[Holes(c, 0)[0].start];
    }
  }

  lemma RemainingFalls(h: Hash, src: seq<u8>, r: Rx, s: Rx)
    requires r.Wf() && Verdict(h, r) != Verified && RoundEffect(h, src, r, s)
    ensures Remaining(h, s) < Remaining(h, r)
  {
    UnverifiedHasRepairs(h, r);
    NoHolesIffFull(s.cov);
    BadBlocksBound(h, s, 0);
    var list, m := RepairList(h, r), |NextRanges(h, r)|;
    assert m == Min(|list|, 32) && |list[m..]| == |list| - m;
    CeilStep(|list|);
    CeilMono(|BadBlocks(h, s, 0)|, s.N());
  }

  lemma CeilStep(n: nat)
    requires n > 0
    ensures Ceil32(n - Min(n, 32)) == Ceil32(n) - 1
  {
  }

  lemma CeilMono(a: nat, b: nat)
    requires a <= b
    ensures Ceil32(a) <= Ceil32(b)
  {
  }

  /** The client is between rounds of a transfer of `src`, about to ask for what it lacks. */
  ghost predicate Steady(h: Hash, src: seq<u8>, p: State) {
    && p.Running? && p.rx.Some? && For(h, src, p.rx.value)
    && Verdict(h, p.rx.value) != Verified && p.ivs == NextRanges(h, p.rx.value)
  }

  /** Every round from `j` up to `j + n` that the client still runs is clean. */
  ghost predicate CleanFrom(h: Hash, src: seq<u8>, mtu: u32, block: u32, inputs: seq<RoundInput>, j: nat, n: nat)
    requires |src| < TWO32 && mtu < TWO16
  {
    forall k: nat :: j <= k < j + n && After(h, inputs, k).Running? ==>
      Clean(h, InputAt(inputs, k), src, mtu, block, After(h, inputs, k).ivs)
  }

  /** Termination under progress: from any state a transfer can be in, ceil(holes/32) +
      ceil(blocks/32) clean rounds (fewer when nothing is missing) end it verified. */
  lemma {:induction false} CleanRoundsSuffice(
    h: Hash, src: seq<u8>, mtu: u32, block: u32, inputs: seq<RoundInput>, j: nat, n: nat)
    requires |src| < TWO32 && mtu < TWO16 && Steady(h, src, After(h, inputs, j))
    requires CleanFrom(h, src, mtu, block, inputs, j, n)
    requires n >= Remaining(h, After(h, inputs, j).rx.value)
    ensures After(h, inputs, j + n).Done?
    decreases n
  {
    hide Step, Clean, Verdict, Remaining, NextRanges, For;
    RemainingPositive(h, After(h, inputs, j).rx.value);
    OneCleanRound(h, src, mtu, block, inputs, j);
    if After(h, inputs, j + 1).Done? {
      Settled(h, inputs, j + 1, j + n);
    } else {
      CleanRoundsSuffice(h, src, mtu, block, inputs, j + 1, n - 1);
    }
  }

  lemma OneCleanRound(h: Hash, src: seq<u8>, mtu: u32, block: u32, inputs: seq<RoundInput>, j: nat)
    requires |src| < TWO32 && mtu < TWO16 && Steady(h, src, After(h, inputs, j))
    requires Clean(h, InputAt(inputs, j), src, mtu, block, After(h, inputs, j).ivs)
    ensures var p, next := After(h, inputs, j), After(h, inputs, j + 1);
            next.Done? || (Steady(h, src, next) && Remaining(h, next.rx.value) < Remaining(h, p.rx.value))
  {
    var r := After(h, inputs, j).rx.value;
    CleanRound(h, src, r, InputAt(inputs, j), mtu, block);
    var next := After(h, inputs, j + 1);
    assert next == Advance(h, Some(r), InputAt(inputs, j));
    if !next.Done? {
      RemainingFalls(h, src, r, next.rx.value);
    }
  }

  lemma RemainingPositive(h: Hash, r: Rx)
    requires r.Wf() && Verdict(h, r) != Verified
    ensures Remaining(h, r) > 0
  {
    UnverifiedHasRepairs(h, r);
    CeilStep(|RepairList(h, r)|);
  }

  /** Any state reached after the first round of a run with a true manifest is such a state. */
  lemma SteadyAfter(h: Hash, src: seq<u8>, m: Meta, inputs: seq<RoundInput>, k: nat)
    requires Attempts(InputAt(inputs, 0).conns, MAX_ATTEMPTS) == Got(m) && Truthful(h, src, m)
    requires k > 0 && After(h, inputs, k).Running?
    ensures Steady(h, src, After(h, inputs, k))
  {
    SetUpKept(h, src, m, inputs, k);
    SetUpKept(h, src, m, inputs, k - 1);
    var p, input := After(h, inputs, k - 1), InputAt(inputs, k - 1);
    assert p.Running?;
    assert After(h, inputs, k) == Advance(h, p.rx, input);
  }
}
