/** The drop log and the monitor, kept independently at the two ends of the injector, agree on the
    number of packets lost. */
module TwoOracle {
  import opened Bytes
  import opened Rule
  import opened Shim
  import opened FlowKey
  import SeqTracker

  // ---- the kept packets of a stream of consecutive ones ----------------------------------------

  /** The places of the packets not dropped. */
  function Kept(drops: seq<bool>): (ks: seq<nat>)
    ensures |ks| <= |drops|
    ensures forall j :: 0 <= j < |ks| ==> ks[j] < |drops| && !drops[ks[j]]
    ensures forall i, j :: 0 <= i < j < |ks| ==> ks[i] < ks[j]
  {
    if drops == [] then []
    else
      var n := |drops| - 1;
      Kept(drops[..n]) + (if drops[n] then [] else [n])
  }

  /** How many of `drops` are set. */
  function Dropped(drops: seq<bool>): nat {
    if drops == [] then 0
    else Dropped(drops[..|drops| - 1]) + (if drops[|drops| - 1] then 1 else 0)
  }

  lemma {:induction false} DroppedAppend(a: seq<bool>, b: seq<bool>)
    ensures Dropped(a + b) == Dropped(a) + Dropped(b)
  {
    if b == [] {
      assert a + b == a;
    } else {
      assert (a + b)[..|a + b| - 1] == a + b[..|b| - 1];
      DroppedAppend(a, b[..|b| - 1]);
    }
  }

  lemma {:induction false} AllDropped(d: seq<bool>)
    requires forall i :: 0 <= i < |d| ==> d[i]
    ensures Dropped(d) == |d|
  {
    if d != [] {
      AllDropped(d[..|d| - 1]);
    }
  }

  /** Every packet was either dropped or kept. */
  lemma {:induction false} KeptOrDropped(drops: seq<bool>)
    ensures |Kept(drops)| + Dropped(drops) == |drops|
    ensures forall k :: 0 <= k < |drops| && !drops[k] ==> k in Kept(drops)
  {
    if drops != [] {
      KeptOrDropped(drops[..|drops| - 1]);
    }
  }

  /** The drops strictly between the first and the last kept packet. */
  function DropsBetween(drops: seq<bool>): nat {
    var ks := Kept(drops);
    if ks == [] then 0 else Dropped(drops[ks[0]..ks[|ks| - 1] + 1])
  }

  lemma KeptWithin(drops: seq<bool>, k: nat)
    requires k < |drops| && !drops[k]
    ensures var ks := Kept(drops); ks != [] && ks[0] <= k <= ks[|ks| - 1]
  {
    KeptOrDropped(drops);
    var ks := Kept(drops);
    hide Kept, Dropped;
    assert k in ks;
    var j :| 0 <= j < |ks| && ks[j] == k;
    assert (j == 0 || ks[0] < ks[j]) && (j == |ks| - 1 || ks[j] < ks[|ks| - 1]);
  }

  lemma OutsideDropped(drops: seq<bool>, k: nat)
    requires Kept(drops) != [] && k < |drops| && (k < Kept(drops)[0] || k > Kept(drops)[|Kept(drops)| - 1])
    ensures drops[k]
  {
    hide Kept;
    if !drops[k] {
      KeptWithin(drops, k);
    }
  }

  lemma DroppedSplit(d: seq<bool>, a: nat, b: nat)
    requires a <= b <= |d|
    ensures Dropped(d) == Dropped(d[..a]) + Dropped(d[a..b]) + Dropped(d[b..])
  {
    DroppedAppend(d[..a], d[a..b]);
    DroppedAppend(d[..b], d[b..]);
    assert d[..b] == d[..a] + d[a..b] && d == d[..b] + d[b..];
  }

  /** Between the first and the last kept packet, the packets that were not kept were dropped. */
  lemma BetweenExact(drops: seq<bool>)
    requires Kept(drops) != []
    ensures var ks := Kept(drops);
            DropsBetween(drops) == ks[|ks| - 1] - ks[0] + 1 - |ks|
  {
    hide Kept, Dropped;
    var ks := Kept(drops);
    var a, b := ks[0], ks[|ks| - 1];
    KeptOrDropped(drops);
    forall k | 0 <= k < |drops| && (k < a || k > b)
      ensures drops[k]
    {
      OutsideDropped(drops, k);
    }
    DroppedSplit(drops, a, b + 1);
    AllDropped(drops[..a]);
    AllDropped(drops[b + 1..]);
  }

  // ---- the monitor on the kept packets --------------------------------------------------------

  /** Ascending positions with no step of 2^15 or more: no run of 32767 drops. */
  ghost predicate ShortRuns(ps: seq<int>) {
    forall j :: 0 <= j < |ps| - 1 ==> ps[j] < ps[j + 1] < ps[j] + 0x8000
  }

  /** What the monitor ends with when it is fed ascending positions: it counts each of them once, from
      the first position reduced to epoch 0, and its head is the last of them, shifted alike. */
  lemma {:induction false} MonitorCounts(ps: seq<int>)
    requires ps != [] && 0 <= ps[0] && ShortRuns(ps)
    ensures var t, c := SeqTracker.FeedAll(Wire(ps)), TWO16 * (ps[0] / TWO16);
            && t.have && t.first == ps[0] - c && t.max == ps[|ps| - 1] - c && t.nDistinct == |ps|
            && t.nDup == 0 && t.nReorder == 0
  {
    hide SeqTracker.Cleared;
    var n := |ps| - 1;
    var front := ps[..n];
    assert Wire(ps)[..n] == Wire(front);
    if n > 0 {
      MonitorCounts(front);
      StepForward(SeqTracker.FeedAll(Wire(front)), ps[n] - TWO16 * (ps[0] / TWO16), ps[n], ps[0] / TWO16);
    } else {
      assert Wire(front) == [];
    }
  }

  /** What one feed changes, by where it falls. */
  lemma FeedAt(t: SeqTracker.Trk, u: int, w: int)
    requires |t.seen| == SeqTracker.WIN && t.have && w == t.max + SeqTracker.Distance(t.max, OnWire(u))
    ensures var t' := SeqTracker.Feed(t, OnWire(u)).0;
            && t'.have && t'.first == t.first && t'.max == (if w > t.max then w else t.max)
            && t'.nDistinct + t'.nDup == t.nDistinct + t.nDup + 1
            && (w > t.max ==> t'.nDup == t.nDup && t'.nReorder == t.nReorder) && t.nDup <= t'.nDup <= t.nDup + 1
  {
    hide SeqTracker.Cleared, SeqTracker.Distance, SeqTracker.Slot, OnWire;
  }

  lemma WireShift(u: int, p: int, q: int)
    requires p == u + TWO16 * q
    ensures OnWire(p) == OnWire(u)
  {
    assert p % TWO16 == u % TWO16;
  }

  /** A packet ahead of the head by less than 2^15 moves it there and counts as new. */
  lemma StepForward(t: SeqTracker.Trk, u: int, p: int, q: int)
    requires |t.seen| == SeqTracker.WIN && t.have && 0 < u - t.max < 0x8000 && p == u + TWO16 * q
    ensures var t' := SeqTracker.Feed(t, OnWire(p)).0;
            && t'.have && t'.first == t.first && t'.max == u && t'.nDistinct == t.nDistinct + 1
            && t'.nDup == t.nDup && t'.nReorder == t.nReorder
  {
    hide SeqTracker.Feed, SeqTracker.Distance, OnWire;
    WireShift(u, p, q);
    DistanceExact(t.max, u);
    FeedAt(t, u, u);
  }

  /** Where the monitor is after `count` ascending positions of any spacing, the first and last of them
      being these. The last packet was seen at `v`, which may be below the head by 2^15, and `j` turns of
      the 16-bit circle have gone unnoticed. */
  ghost predicate Behind(t: SeqTracker.Trk, first: int, last: int, count: nat, v: int, j: nat) {
    && t.have && t.first == first <= t.max
    && last == v + TWO16 * j && t.max - 0x8000 <= v <= t.max
    && t.nDistinct + t.nDup == count && t.max + t.nDup <= v + 0x8001 * j
  }

  ghost predicate Ascending(ps: seq<int>) {
    forall j :: 0 <= j < |ps| - 1 ==> ps[j] < ps[j + 1]
  }

  /** One packet `d` further on: seen at `w`, `n` turns having been missed. */
  lemma TurnsMissed(max: nat, v: int, d: nat, j: nat) returns (w: int, n: nat)
    requires max - 0x8000 <= v <= max && d > 0
    ensures w == max + SeqTracker.Distance(max, OnWire(v + d)) && v + d == w + TWO16 * n
    ensures d < 0x8000 && v == max ==> n == 0
    ensures d >= 0x8000 && v == max ==> n > 0
  {
    var u := v + d;
    w := max + SeqTracker.Distance(max, OnWire(u));
    assert (u - w) % TWO16 == 0 by {
      assert w % TWO16 == u % TWO16;
      SameRemainder(u, w);
    }
    var q := (u - w) / TWO16;
    assert q >= 0;
    n := q;
  }

  lemma SameRemainder(u: int, w: int)
    requires u % TWO16 == w % TWO16
    ensures (u - w) % TWO16 == 0
  {
    assert u - w == TWO16 * (u / TWO16 - w / TWO16);
  }

  /** One packet `d` further on. A turn is missed then or has been before unless the step is short. */
  lemma StepBehind(t: SeqTracker.Trk, first: int, last: int, count: nat, v: int, j: nat, d: nat)
    returns (w: int, k: nat)
    requires |t.seen| == SeqTracker.WIN && Behind(t, first, last, count, v, j) && d > 0
    ensures Behind(SeqTracker.Feed(t, OnWire(v + d)).0, first, last + d, count + 1, w, k)
    ensures k == 0 <==> j == 0 && d < 0x8000
  {
    hide SeqTracker.Feed, SeqTracker.Distance, OnWire;
    var n;
    w, n := TurnsMissed(t.max, v, d, j);
    FeedAt(t, v + d, w);
    k := j + n;
  }

  /** The turn count is zero exactly while no step has been as long as 2^15. */
  lemma {:induction false} TurnsCounted(ps: seq<int>) returns (v: int, j: nat)
    requires ps != [] && 0 <= ps[0] && Ascending(ps)
    ensures var n, c := |ps| - 1, TWO16 * (ps[0] / TWO16);
            Behind(SeqTracker.FeedAll(Wire(ps)), ps[0] - c, ps[n] - c, |ps|, v, j)
    ensures j == 0 <==> ShortRuns(ps)
  {
    hide SeqTracker.Feed, Behind, OnWire;
    var n, q := |ps| - 1, ps[0] / TWO16;
    var front, c := ps[..n], TWO16 * q;
    assert Wire(ps)[..n] == Wire(front);
    if n == 0 {
      MonitorCounts(ps);
      v, j := ps[0] - c, 0;
      OneBehind(SeqTracker.FeedAll(Wire(ps)), v);
    } else {
      v, j := TurnsCounted(front);
      var t, d := SeqTracker.FeedAll(Wire(front)), ps[n] - ps[n - 1];
      assert ShortRuns(ps) <==> ShortRuns(front) && d < 0x8000;
      LastPlace(t, ps[0] - c, ps[n - 1] - c, n, v, j);
      WireShift(v + d, ps[n], j + q);
      v, j := StepBehind(t, ps[0] - c, ps[n - 1] - c, n, v, j, d);
    }
  }

  lemma OneBehind(t: SeqTracker.Trk, v: int)
    requires t.have && t.first == t.max == v && t.nDistinct == 1 && t.nDup == 0
    ensures Behind(t, v, v, 1, v, 0)
  {
  }

  lemma LastPlace(t: SeqTracker.Trk, first: int, last: int, count: nat, v: int, j: nat)
    requires Behind(t, first, last, count, v, j)
    ensures last == v + TWO16 * j
  {
  }

  /** Exactly: the monitor's loss on ascending positions is the number of positions missing between the
      first and the last, and its head is at the last, if and only if no step is as long as 2^15. */
  lemma LossTrueIff(ps: seq<int>)
    requires ps != [] && 0 <= ps[0] && Ascending(ps)
    ensures var t, n := SeqTracker.FeedAll(Wire(ps)), |ps| - 1;
            && t.have && t.first <= t.max
            && (SeqTracker.Loss(t) == ps[n] - ps[0] - n <==> ShortRuns(ps))
            && (t.max == ps[n] - TWO16 * (ps[0] / TWO16) <==> ShortRuns(ps))
  {
    hide SeqTracker.FeedAll, ShortRuns;
    var v, j := TurnsCounted(ps);
    SpanAtLeast(ps);
    if ShortRuns(ps) {
      MonitorCounts(ps);
    } else {
      assert j > 0;
    }
  }

  /** Ascending integers are at least one apart, and a long step leaves something missing. */
  lemma {:induction false} SpanAtLeast(ps: seq<int>)
    requires ps != [] && Ascending(ps)
    ensures var n := |ps| - 1;
            ps[n] - ps[0] >= n && (!ShortRuns(ps) ==> ps[n] - ps[0] > n)
  {
    var n := |ps| - 1;
    if n > 0 {
      assert Ascending(ps[..n]);
      SpanAtLeast(ps[..n]);
    }
  }

  // ---- the injector on the stream -------------------------------------------------------------

  /** The offers of a sender that emits each sequence number once, in order, wrapping at 65536, in the
      scope of the rule; the wire accepts what the injector passes on. */
  ghost predicate Emits(rule: DropRule, offers: seq<Offer>, s0: u16) {
    forall k :: 0 <= k < |offers| ==> EmitsAt(rule, offers[k], s0 + k)
  }

  ghost predicate EmitsAt(rule: DropRule, o: Offer, index: int) {
    && o.rc == 0 && o.p.flags / 2 % 2 == 1 && Carries(o.p, OnWire(index)) && Match(rule, FrameOf(o.p))
  }

  /** What the injector and the monitor read off such a packet. */
  lemma EmittedIsRead(rule: DropRule, o: Offer, index: int)
    requires EmitsAt(rule, o, index)
    ensures FrameOf(o.p).isRdp && ParseTrailer(o.p.data, o.p.flags).Some?
    ensures ParseTrailer(o.p.data, o.p.flags).value.seqNr == OnWire(index)
  {
    hide ParseTrailer, Carries;
    CarriedIsRead(o.p, OnWire(index));
  }

  /** s0, s0 + 1, ..., the true indices of `n` packets. */
  function Consecutive(s0: u16, n: nat): (us: seq<int>)
    ensures |us| == n && forall k :: 0 <= k < n ==> us[k] == s0 + k
  {
    seq(n, k => s0 + k)
  }

  lemma {:induction false} ConsecutiveNeverBack(s0: u16, n: nat)
    ensures BackwardCrossings(Consecutive(s0, n)) == 0
  {
    if n > 1 {
      assert Consecutive(s0, n)[..n - 1] == Consecutive(s0, n - 1);
      ConsecutiveNeverBack(s0, n - 1);
    }
  }

  /** Oracle A: the injector logs every packet of the stream under its true index, drops exactly those
      it logs as dropped, and passes the others to the wire. Either mode. */
  lemma {:induction false} LogIsTrue(s: State, offers: seq<Offer>, s0: u16)
    requires s.flow == Flow(None, 0) && s.log == [] && Emits(s.rule, offers, s0) && |offers| <= TWO32
    ensures var (t, fates) := Run(s, offers);
            && |t.log| == |offers| && t.flow == FlowAfter(Wire(Consecutive(s0, |offers|)))
            && (forall k :: 0 <= k < |offers| ==> t.log[k].index == s0 + k)
            && (forall k :: 0 <= k < |offers| ==> fates[k] == if t.log[k].dropped then Freed else Forwarded(0))
  {
    hide Drops, FlowStep, Match, FrameOf, ParseTrailer, Carries, EmitsAt, OnWire;
    var n := |offers| - 1;
    if n >= 0 {
      LogIsTrue(s, offers[..n], s0);
      RunKeepsRule(s, offers[..n]);
      var t := Run(s, offers[..n]).0;
      LogStep(t, offers[n], s0, n);
      assert Run(s, offers).0 == NextHop(t, offers[n].p, offers[n].rc).0;
    } else {
      assert Wire(Consecutive(s0, 0)) == [];
    }
  }

  /** One more packet in order: the flow state and the index it gets. */
  lemma WireStep(s0: u16, n: nat)
    requires n < TWO32
    ensures var next := FlowStep(FlowAfter(Wire(Consecutive(s0, n))), OnWire(s0 + n));
            next == FlowAfter(Wire(Consecutive(s0, n + 1))) && Rule.FlowKey(next.epoch, OnWire(s0 + n)) == s0 + n
  {
    hide FlowStep, Rule.FlowKey, OnWire, BackwardCrossings;
    var us := Consecutive(s0, n + 1);
    ConsecutiveNeverBack(s0, n + 1);
    assert us[..n] == Consecutive(s0, n) && Wire(us)[..n] == Wire(us[..n]);
    KeyExact(us);
  }

  lemma LogStep(t: State, o: Offer, s0: u16, n: nat)
    requires EmitsAt(t.rule, o, s0 + n) && t.flow == FlowAfter(Wire(Consecutive(s0, n))) && n < TWO32
    ensures var (t', fate) := NextHop(t, o.p, o.rc);
            && t'.flow == FlowAfter(Wire(Consecutive(s0, n + 1)))
            && |t'.log| == |t.log| + 1 && t'.log[..|t.log|] == t.log && t'.log[|t.log|].index == s0 + n
            && fate == if t'.log[|t.log|].dropped then Freed else Forwarded(0)
  {
    hide Drops, Match, FrameOf, ParseTrailer, IsWrap, FlowAfter, FlowStep, Rule.FlowKey, Wire, OnWire, Carries;
    EmittedIsRead(t.rule, o, s0 + n);
    WireStep(s0, n);
  }

  // ---- both -------------------------------------------------------------------------------------

  /** The drop decisions of a log. */
  function Decisions(log: seq<Entry>): (d: seq<bool>)
    ensures |d| == |log| && forall k :: 0 <= k < |log| ==> d[k] == log[k].dropped
  {
    seq(|log|, k requires 0 <= k < |log| => log[k].dropped)
  }

  /** What the monitor feeds its tracker: the sequence numbers of the RDP packets on the wire. */
  function Observed(offers: seq<Offer>, fates: seq<Fate>): seq<u16>
    requires |offers| == |fates|
  {
    if offers == [] then []
    else
      var n := |offers| - 1;
      var p := offers[n].p;
      Observed(offers[..n], fates[..n]) +
      (if fates[n].Freed? || !FrameOf(p).isRdp then []
       else match ParseTrailer(p.data, p.flags)
         case None => []
         case Some(t) => [t.seqNr])
  }

  /** The true indices of the kept packets. */
  function KeptIndices(s0: u16, drops: seq<bool>): (us: seq<int>)
    ensures |us| == |Kept(drops)| && forall j :: 0 <= j < |us| ==> us[j] == s0 + Kept(drops)[j]
  {
    seq(|Kept(drops)|, j requires 0 <= j < |Kept(drops)| => s0 + Kept(drops)[j])
  }

  /** The monitor sees exactly the packets the log says were kept. */
  lemma {:induction false} ObservedIsKept(
    rule: DropRule, offers: seq<Offer>, fates: seq<Fate>, drops: seq<bool>, s0: u16)
    requires Emits(rule, offers, s0) && |offers| == |fates| == |drops|
    requires forall k :: 0 <= k < |fates| ==> fates[k] == if drops[k] then Freed else Forwarded(0)
    ensures Observed(offers, fates) == Wire(KeptIndices(s0, drops))
  {
    hide Match, FrameOf, ParseTrailer, OnWire, Carries;
    var n := |offers| - 1;
    if n >= 0 {
      ObservedIsKept(rule, offers[..n], fates[..n], drops[..n], s0);
      assert EmitsAt(rule, offers[n], s0 + n);
      EmittedIsRead(rule, offers[n], s0 + n);
      var front := KeptIndices(s0, drops[..n]);
      if drops[n] {
        assert KeptIndices(s0, drops) == front;
      } else {
        assert KeptIndices(s0, drops) == front + [s0 + n];
        assert Wire(front + [s0 + n]) == Wire(front) + [OnWire(s0 + n)];
      }
    }
  }

  /** The monitor's verdict on the kept packets of a stream: its loss is the number of drops between the
      first and the last if and only if no 32767 packets in a row were dropped, and then, and only then,
      its head is the last one. */
  lemma LossIsDrops(s0: u16, drops: seq<bool>)
    ensures var t, us := SeqTracker.FeedAll(Wire(KeptIndices(s0, drops))), KeptIndices(s0, drops);
            && (t.have <==> us != []) && (t.have ==> t.first <= t.max)
            && (SeqTracker.Loss(t) == DropsBetween(drops) <==> ShortRuns(us))
            && (us != [] ==> (t.max == us[|us| - 1] - TWO16 * (us[0] / TWO16) <==> ShortRuns(us)))
  {
    hide Kept;
    var us := KeptIndices(s0, drops);
    assert us == [] ==> ShortRuns(us);
    assert SeqTracker.FeedAll([]) == SeqTracker.EMPTY;
    hide SeqTracker.FeedAll, ShortRuns;
    if us == [] {
      assert Wire(us) == [];
    } else {
      LossTrueIff(us);
      BetweenExact(drops);
    }
  }

  /** Two-oracle agreement, exactly. For a sender that emits consecutive sequence numbers, with any
      number of wraps, in either drop mode: the loss the monitor infers from the packets that reach it is
      the number of packets the injector logged as dropped between the first and the last it let through,
      if and only if it dropped no 32767 in a row there. The same condition decides whether the monitor's
      head is the index logged for that last packet, up to the epoch the first was in. */
  lemma OraclesAgree(s: State, offers: seq<Offer>, s0: u16)
    requires s.flow == Flow(None, 0) && s.log == [] && Emits(s.rule, offers, s0) && |offers| <= TWO32
    ensures var (t, fates) := Run(s, offers);
            var drops, monitor := Decisions(t.log), SeqTracker.FeedAll(Observed(offers, fates));
            var ks, short := Kept(drops), ShortRuns(KeptIndices(s0, drops));
            && (monitor.have <==> ks != []) && (monitor.have ==> monitor.first <= monitor.max)
            && (SeqTracker.Loss(monitor) == DropsBetween(drops) <==> short)
            && (ks != [] ==>
                  (monitor.max == t.log[ks[|ks| - 1]].index - TWO16 * (t.log[ks[0]].index / TWO16) <==> short))
  {
    hide SeqTracker.FeedAll, Run, Kept, Observed, ShortRuns, SeqTracker.Loss, DropsBetween, Emits, Wire, FlowAfter;
    var (t, fates) := Run(s, offers);
    var drops := Decisions(t.log);
    LogIsTrue(s, offers, s0);
    ObservedIsKept(s.rule, offers, fates, drops, s0);
    LossIsDrops(s0, drops);
    var ks, us := Kept(drops), KeptIndices(s0, drops);
    if ks != [] {
      assert us[0] == t.log[ks[0]].index && us[|us| - 1] == t.log[ks[|ks| - 1]].index;
    }
  }

  /** The shortest run that hides: with 32767 packets dropped between two kept ones the monitor reports no
      loss at all. */
  lemma ShortestHiddenRun(p: u16)
    ensures var t := SeqTracker.FeedAll(Wire([p as int, p + 0x8000]));
            t.have && t.first <= t.max && SeqTracker.Loss(t) == 0
  {
    hide SeqTracker.Cleared, SeqTracker.Feed;
    var ps := [p as int, p + 0x8000];
    assert Wire(ps)[..1] == Wire([p as int]);
    MonitorCounts([p as int]);
    var t := SeqTracker.FeedAll(Wire([p as int]));
    var w, n := TurnsMissed(t.max, p, 0x8000, 0);
    FeedAt(t, p + 0x8000, w);
    SeqTracker.Accounts(Wire(ps));
  }
}
