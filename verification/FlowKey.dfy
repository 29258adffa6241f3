/** Two unwrappings of one 16-bit sequence number: the injector's, from the last packet, and the
    monitor's, from the highest. When each is the true index. */
module FlowKey {
  import opened Bytes
  import opened Rule
  import SeqTracker

  /** The sequence number on the wire of the packet with true index `u`. */
  function OnWire(u: int): u16 {
    u % TWO16
  }

  function Wire(us: seq<int>): (ss: seq<u16>)
    ensures |ss| == |us| && forall k :: 0 <= k < |us| ==> ss[k] == OnWire(us[k])
  {
    seq(|us|, k requires 0 <= k < |us| => OnWire(us[k]))
  }

  /** A stream of true indices: it starts in the first epoch, and no packet is 2^15 or more ahead of
      the one before it or more than 2^15 behind it. */
  ghost predicate Stream(us: seq<int>) {
    && |us| > 0 && 0 <= us[0] < TWO16
    && forall k :: 0 <= k < |us| - 1 ==> -0x8000 <= us[k + 1] - us[k] < 0x8000
  }

  // ---- the injector's index -----------------------------------------------------------------

  /** The injector's tracker after the packets `ss`. */
  function FlowAfter(ss: seq<u16>): Flow {
    if ss == [] then Flow(None, 0) else FlowStep(FlowAfter(ss[..|ss| - 1]), ss[|ss| - 1])
  }

  /** The index it gives the last of them. */
  function LastKey(ss: seq<u16>): u64
    requires ss != []
  {
    FlowKey(FlowAfter(ss).epoch, ss[|ss| - 1])
  }

  /** Steps back from one 65536-block of indices into the one before it. */
  function BackwardCrossings(us: seq<int>): (n: nat)
    ensures n <= |us|
  {
    if |us| < 2 then 0
    else
      var n := |us| - 1;
      BackwardCrossings(us[..n]) + (if us[n] < us[n - 1] && us[n] / TWO16 != us[n - 1] / TWO16 then 1 else 0)
  }

  /** Whether a step wraps forward, seen on the wire and seen on the true indices. */
  lemma WrapExact(u: int, v: int)
    requires -0x8000 <= v - u < 0x8000
    ensures IsWrap(OnWire(u), OnWire(v)) <==> v >= u && v / TWO16 != u / TWO16
    ensures v / TWO16 == u / TWO16 + (if v / TWO16 == u / TWO16 then 0 else if v >= u then 1 else -1)
  {
    var a, b := u / TWO16, v / TWO16;
    assert u == TWO16 * a + OnWire(u) && v == TWO16 * b + OnWire(v);
    assert (OnWire(v) as int - OnWire(u)) % TWO16 == (v - u) % TWO16 by {
      assert OnWire(v) as int - OnWire(u) == (v - u) - TWO16 * (b - a);
    }
  }

  lemma FlowStepExact(f: Flow, u: int, v: int, back: nat)
    requires -0x8000 <= v - u < 0x8000 && f.last == Some(OnWire(u)) && f.epoch == u / TWO16 + back < TWO32 - 1
    ensures FlowStep(f, OnWire(v)).epoch ==
            v / TWO16 + back + (if v < u && v / TWO16 != u / TWO16 then 1 else 0)
    ensures FlowStep(f, OnWire(v)).epoch <= f.epoch + 1
  {
    WrapExact(u, v);
  }

  lemma {:induction false} EpochExact(us: seq<int>)
    requires Stream(us) && |us| <= TWO32
    ensures var f := FlowAfter(Wire(us));
            && f.last == Some(OnWire(us[|us| - 1]))
            && f.epoch == us[|us| - 1] / TWO16 + BackwardCrossings(us) < |us|
  {
    var n := |us| - 1;
    var front := us[..n];
    assert Wire(us)[..n] == Wire(front);
    if n > 0 {
      EpochExact(front);
      FlowStepExact(FlowAfter(Wire(front)), us[n - 1], us[n], BackwardCrossings(front));
    } else {
      assert Wire(front) == [];
    }
  }

  /** The injector's index is the true one plus 65536 for every step back across an epoch boundary so
      far: such a step is not undone in the epoch, but the way forward over the same boundary counts. */
  lemma KeyExact(us: seq<int>)
    requires Stream(us) && |us| <= TWO32
    ensures LastKey(Wire(us)) == us[|us| - 1] + TWO16 * BackwardCrossings(us)
  {
    EpochExact(us);
    var u := us[|us| - 1];
    assert u == TWO16 * (u / TWO16) + OnWire(u);
  }

  lemma KeyAt(us: seq<int>, k: nat)
    requires Stream(us) && |us| <= TWO32 && 0 < k <= |us|
    ensures LastKey(Wire(us[..k])) == us[k - 1] + TWO16 * BackwardCrossings(us[..k])
  {
    hide LastKey, Wire, BackwardCrossings;
    KeyExact(us[..k]);
  }

  /** So every packet is indexed truly exactly when no step back crosses an epoch boundary. */
  lemma KeysTrueIff(us: seq<int>)
    requires Stream(us) && |us| <= TWO32
    ensures (forall k :: 0 < k <= |us| ==> LastKey(Wire(us[..k])) == us[k - 1]) <==> BackwardCrossings(us) == 0
  {
    assert us != [];
    hide LastKey, Wire, BackwardCrossings, Stream;
    if BackwardCrossings(us) == 0 {
      forall k | 0 < k <= |us|
        ensures LastKey(Wire(us[..k])) == us[k - 1]
      {
        KeyAt(us, k);
        CrossingsGrow(us, k);
      }
    } else {
      var n := |us|;
      KeyAt(us, n);
      assert us[..n] == us;
      assert LastKey(Wire(us[..n])) != us[n - 1];
    }
  }

  lemma {:induction false} CrossingsGrow(us: seq<int>, k: nat)
    requires k <= |us|
    ensures BackwardCrossings(us[..k]) <= BackwardCrossings(us)
    decreases |us|
  {
    if k == |us| {
      assert us[..k] == us;
    } else {
      CrossingsGrow(us[..|us| - 1], k);
      assert us[..|us| - 1][..k] == us[..k];
    }
  }

  /** Three packets around one boundary: the retransmission of 65535 after 65536 has been seen is keyed
      as 131071, a different identity from the one it had. */
  lemma RetransmissionChangesKey()
    ensures var us := [65535, 65536, 65535];
            Stream(us) && LastKey(Wire(us[..1])) == 65535 && LastKey(Wire(us)) == 131071
  {
    var us := [65535, 65536, 65535];
    assert us[..2] == [65535, 65536] && us[..2][..1] == [65535] == us[..1];
    KeyExact(us[..1]);
    KeyExact(us);
  }

  // ---- the monitor's position -----------------------------------------------------------------

  function Highest(us: seq<int>): (m: int)
    requires us != []
    ensures m in us && forall k :: 0 <= k < |us| ==> us[k] <= m
  {
    if |us| == 1 then us[0]
    else
      var m, last := Highest(us[..|us| - 1]), us[|us| - 1];
      if last > m then last else m
  }

  /** The position the monitor's tracker, having seen `ss`, gives the packet `s`. */
  function PositionOf(ss: seq<u16>, s: u16): int {
    var t := SeqTracker.FeedAll(ss);
    if t.have then t.max + SeqTracker.Distance(t.max, s) else s
  }

  /** Packet `k` is within 2^15 of the highest before it. */
  ghost predicate Near(us: seq<int>, k: nat)
    requires 0 < k < |us|
  {
    -0x8000 <= us[k] - Highest(us[..k]) < 0x8000
  }

  /** No packet strays 2^15 from the highest before it. */
  ghost predicate NearHighest(us: seq<int>) {
    && |us| > 0 && 0 <= us[0] < TWO16
    && forall k :: 0 < k < |us| ==> Near(us, k)
  }

  lemma NearPrefix(us: seq<int>, n: nat)
    requires 0 < n <= |us| && 0 <= us[0] < TWO16 && forall k :: 0 < k < n ==> Near(us, k)
    ensures NearHighest(us[..n])
  {
    forall k | 0 < k < n
      ensures Near(us[..n], k)
    {
      assert Near(us, k);
      assert us[..n][..k] == us[..k];
    }
  }

  lemma DistanceExact(m: nat, u: int)
    ensures m + SeqTracker.Distance(m, OnWire(u)) == u <==> -0x8000 <= u - m < 0x8000
  {
    var q := u / TWO16;
    assert u == TWO16 * q + OnWire(u);
    assert (OnWire(u) as int - m) % TWO16 == (u - m) % TWO16 by {
      assert OnWire(u) as int - m == (u - m) - TWO16 * q;
    }
  }

  /** One feed moves the head to the packet's position if that is higher. */
  lemma FeedHead(t: SeqTracker.Trk, u: int)
    requires |t.seen| == SeqTracker.WIN && t.have && -0x8000 <= u - t.max < 0x8000
    ensures var t' := SeqTracker.Feed(t, OnWire(u)).0;
            t'.have && t'.first == t.first && t'.max == if u > t.max then u else t.max
  {
    hide SeqTracker.Cleared;
    DistanceExact(t.max, u);
  }

  lemma {:induction false} HeadIsHighest(us: seq<int>)
    requires NearHighest(us)
    ensures var t := SeqTracker.FeedAll(Wire(us)); t.have && t.first == us[0] && t.max == Highest(us)
  {
    hide SeqTracker.Cleared;
    var n := |us| - 1;
    var front := us[..n];
    assert Wire(us)[..n] == Wire(front);
    if n > 0 {
      NearPrefix(us, n);
      HeadIsHighest(front);
      assert Near(us, n);
      hide SeqTracker.Feed;
      FeedHead(SeqTracker.FeedAll(Wire(front)), us[n]);
    } else {
      assert Wire(front) == [];
    }
  }

  /** The monitor places every packet at its true index exactly when none strays 2^15 from the highest
      seen before it. */
  lemma PositionsTrueIff(us: seq<int>)
    requires |us| > 0 && 0 <= us[0] < TWO16
    ensures (forall k :: 0 <= k < |us| ==> PositionOf(Wire(us[..k]), OnWire(us[k])) == us[k]) <==> NearHighest(us)
  {
    if NearHighest(us) {
      forall k | 0 <= k < |us|
        ensures PositionOf(Wire(us[..k]), OnWire(us[k])) == us[k]
      {
        PositionTrue(us, k);
      }
    } else {
      var k := FirstStray(us, 1);
      NearPrefix(us, k);
      HeadIsHighest(us[..k]);
      DistanceExact(Highest(us[..k]), us[k]);
      assert PositionOf(Wire(us[..k]), OnWire(us[k])) != us[k];
    }
  }

  lemma PositionTrue(us: seq<int>, k: nat)
    requires NearHighest(us) && k < |us|
    ensures PositionOf(Wire(us[..k]), OnWire(us[k])) == us[k]
  {
    if k > 0 {
      NearPrefix(us, k);
      HeadIsHighest(us[..k]);
      assert Near(us, k);
      DistanceExact(Highest(us[..k]), us[k]);
    }
  }

  lemma {:induction false} FirstStray(us: seq<int>, from: nat) returns (k: nat)
    requires |us| > 0 && 0 <= us[0] < TWO16 && !NearHighest(us) && 0 < from <= |us|
    requires forall j :: 0 < j < from ==> Near(us, j)
    ensures 0 < k < |us| && !Near(us, k) && forall j :: 0 < j < k ==> Near(us, j)
    decreases |us| - from
  {
    if Near(us, from) {
      k := FirstStray(us, from + 1);
    } else {
      k := from;
    }
  }

  // ---- the monitor's classes ------------------------------------------------------------------

  function SetOf(us: seq<int>): set<int> {
    set u | u in us
  }

  /** One packet at its true place. */
  lemma IdealStep(m: SeqTracker.Ideal, u: int)
    requires m.have && m.max in m.seen && -0x8000 <= u - m.max < 0x8000
    ensures SeqTracker.IdealFeed(m, OnWire(u)).0 == m.(max := if u > m.max then u else m.max, seen := m.seen + {u})
    ensures SeqTracker.IdealFeed(m, OnWire(u)).1 ==
            if u == m.max + 1 then SeqTracker.InOrder
            else if u > m.max then SeqTracker.Gap
            else if u in m.seen then SeqTracker.Duplicate else SeqTracker.Reorder
  {
    DistanceExact(m.max, u);
    hide SeqTracker.Distance, OnWire;
  }

  lemma SetOfSnoc(us: seq<int>, u: int)
    ensures SetOf(us + [u]) == SetOf(us) + {u}
  {
  }

  lemma IdealSnoc(ss: seq<u16>, s: u16)
    ensures SeqTracker.IdealAll(ss + [s]) == SeqTracker.IdealFeed(SeqTracker.IdealAll(ss), s).0
  {
    assert (ss + [s])[..|ss|] == ss;
  }

  lemma WireSnoc(us: seq<int>, u: int)
    ensures Wire(us + [u]) == Wire(us) + [OnWire(u)]
  {
  }

  lemma FirstIdeal(u: u16)
    ensures SeqTracker.IdealFeed(SeqTracker.IDEAL_EMPTY, OnWire(u)).0 == SeqTracker.Ideal(true, u, u, {u as int})
    ensures SetOf([u as int]) == {u as int} && SetOf([]) == {} && OnWire(u) == u
  {
  }

  lemma HighestSnoc(us: seq<int>, u: int)
    requires us != []
    ensures Highest(us + [u]) == if u > Highest(us) then u else Highest(us)
    ensures Highest(us) in SetOf(us)
  {
    assert (us + [u])[..|us|] == us;
  }

  lemma {:induction false} IdealIsTrue(us: seq<int>)
    requires NearHighest(us)
    ensures SeqTracker.IdealAll(Wire(us)) == SeqTracker.Ideal(true, us[0], Highest(us), SetOf(us))
  {
    hide SeqTracker.IdealFeed, OnWire, SetOf, Wire;
    var n := |us| - 1;
    var front := us[..n];
    assert us == front + [us[n]];
    WireSnoc(front, us[n]);
    IdealSnoc(Wire(front), OnWire(us[n]));
    if n > 0 {
      NearPrefix(us, n);
      IdealIsTrue(front);
      assert Near(us, n);
      HighestSnoc(front, us[n]);
      SetOfSnoc(front, us[n]);
      IdealStep(SeqTracker.IdealAll(Wire(front)), us[n]);
    } else {
      assert |Wire(front)| == 0;
      FirstIdeal(us[0]);
      assert us == [us[0]];
    }
  }

  /** Packet `k` is not 2048 or more behind the highest before it, nor 2^15 ahead. */
  ghost predicate Recent(us: seq<int>, k: nat)
    requires 0 < k < |us|
  {
    -SeqTracker.WIN < us[k] - Highest(us[..k]) < 0x8000
  }

  ghost predicate AllRecent(us: seq<int>) {
    && |us| > 0 && 0 <= us[0] < TWO16
    && forall k :: 0 < k < |us| ==> Recent(us, k)
  }

  lemma RecentIsNear(us: seq<int>)
    requires AllRecent(us)
    ensures NearHighest(us)
  {
    forall k | 0 < k < |us|
      ensures Near(us, k)
    {
      assert Recent(us, k);
    }
  }

  lemma RecentInWindow(us: seq<int>, k: nat)
    requires AllRecent(us) && k < |us|
    ensures var m := SeqTracker.IdealAll(Wire(us)[..k]);
            SeqTracker.InWindow(m.have, m.max, Wire(us)[k])
  {
    hide SeqTracker.Distance;
    assert Wire(us)[..k] == Wire(us[..k]);
    if k > 0 {
      RecentIsNear(us);
      NearPrefix(us, k);
      IdealIsTrue(us[..k]);
      assert Recent(us, k);
      DistanceExact(Highest(us[..k]), us[k]);
    }
  }

  /** The monitor's classes mean what they say: while packets come within the window, the next one is in
      order when it is the first or follows the highest, a gap when it is further ahead, a duplicate when it
      has been seen, and else a reordered one. */
  lemma ClassExact(us: seq<int>)
    requires AllRecent(us)
    ensures var n := |us| - 1; var u, front := us[n], us[..n];
            SeqTracker.Feed(SeqTracker.FeedAll(Wire(front)), OnWire(u)).1 ==
              if n == 0 || u == Highest(front) + 1 then SeqTracker.InOrder
              else if u > Highest(front) then SeqTracker.Gap
              else if u in front then SeqTracker.Duplicate else SeqTracker.Reorder
  {
    hide SeqTracker.Feed, SeqTracker.Distance, SeqTracker.IdealFeed, SeqTracker.InWindow, OnWire;
    var n := |us| - 1;
    var front := us[..n];
    TrackedWell(us);
    if n > 0 {
      RecentIsNear(us);
      NearPrefix(us, n);
      IdealIsTrue(front);
      assert Recent(us, n);
      IdealStep(SeqTracker.IdealAll(Wire(front)), us[n]);
    } else {
      FirstClass(OnWire(us[0]));
      assert Wire(front) == [];
    }
  }

  lemma FirstClass(s: u16)
    ensures SeqTracker.IdealFeed(SeqTracker.IdealAll([]), s).1 == SeqTracker.InOrder
  {
  }

  /** Within the window the bitmap classifies the next packet as the ideal set does. */
  lemma TrackedWell(us: seq<int>)
    requires AllRecent(us)
    ensures var n := |us| - 1;
            SeqTracker.Feed(SeqTracker.FeedAll(Wire(us[..n])), OnWire(us[n])).1 ==
            SeqTracker.IdealFeed(SeqTracker.IdealAll(Wire(us[..n])), OnWire(us[n])).1
  {
    hide SeqTracker.Feed, SeqTracker.Distance, SeqTracker.IdealFeed, SeqTracker.InWindow, OnWire;
    var n := |us| - 1;
    var ss := Wire(us[..n]);
    assert Wire(us)[..n] == ss;
    forall k | 0 <= k < n
      ensures SeqTracker.InWindow(SeqTracker.IdealAll(ss[..k]).have, SeqTracker.IdealAll(ss[..k]).max, ss[k])
    {
      RecentInWindow(us, k);
      assert ss[..k] == Wire(us)[..k];
    }
    SeqTracker.BitmapRefinesSet(ss);
    RecentInWindow(us, n);
    SameHead(ss);
    SeqTracker.FeedRefines(SeqTracker.FeedAll(ss), SeqTracker.IdealAll(ss), OnWire(us[n]));
  }

  lemma SameHead(ss: seq<u16>)
    requires SeqTracker.Represents(SeqTracker.FeedAll(ss), SeqTracker.IdealAll(ss))
    ensures var t, m := SeqTracker.FeedAll(ss), SeqTracker.IdealAll(ss);
            forall s: u16 :: SeqTracker.InWindow(t.have, t.max, s) <==> SeqTracker.InWindow(m.have, m.max, s)
  {
    hide SeqTracker.FeedAll, SeqTracker.IdealAll, SeqTracker.Distance;
  }

  /** Flow-key agreement: on a stream whose steps and distances to the running maximum stay within
      2^15, the monitor's position of the last packet is the true index, and the injector's index is
      that position exactly when no step back has crossed an epoch boundary. */
  lemma KeysAgreeIff(us: seq<int>)
    requires Stream(us) && NearHighest(us) && |us| <= TWO32
    ensures var n := |us| - 1;
            var position := PositionOf(Wire(us[..n]), OnWire(us[n]));
            position == us[n] && (LastKey(Wire(us)) == position <==> BackwardCrossings(us) == 0)
  {
    PositionTrue(us, |us| - 1);
    KeyExact(us);
  }
}
