/** inject/ci_drop_iface.c: the in-path drop shim, one packet at a time and over whole runs. */
module Shim {
  import opened Bytes
  import opened Prng
  import opened Rule
  import Ge

  /** One line of the drop log. */
  datatype Entry = Entry(src: u16, dport: u16, flags: u8, isRdp: bool, index: u64, epoch: u32, dropped: bool)

  /** What became of a packet; `rc` is the downstream interface's answer. */
  datatype Fate = PassedThrough(rc: int) | Freed | Forwarded(rc: int)

  /** How decisions are made: by identity, or by the chain, which has taken `n` steps. */
  datatype Mode = ByIdentity | PerAttempt(seed: u64, tG2b: u64, tB2g: u64, n: nat)

  /** The shim as a value. */
  datatype State = State(rule: DropRule, mtu: u16, overhead: u16, flow: Flow, mode: Mode,
                         drops: nat, forwarded: nat, passed: nat, errors: nat, log: seq<Entry>)

  predicate Drops(s: State, index: u64) {
    match s.mode
    case ByIdentity => Decide(s.rule, index)
    case PerAttempt(seed, tG2b, tB2g, n) => Ge.BadAfter(seed, tG2b, tB2g, n)
  }

  /** ci_drop_iface_nexthop */
  function NextHop(s: State, p: Pkt, rc: int): (State, Fate) {
    var f := FrameOf(p);
    if !Match(s.rule, f) then (s.(passed := s.passed + 1), PassedThrough(rc))
    else
      var (flow, index) := FlowIndex(s.flow, s.mtu, s.overhead, p);
      var drop := Drops(s, index);
      var s' := s.(flow := flow,
                   mode := if s.mode.PerAttempt? then s.mode.(n := s.mode.n + 1) else s.mode,
                   log := s.log + [Entry(p.src, p.dport, p.flags, f.isRdp, index, flow.epoch, drop)]);
      if drop then (s'.(drops := s'.drops + 1), Freed)
      else (s'.(forwarded := s'.forwarded + 1, errors := s'.errors + (if rc != 0 then 1 else 0)), Forwarded(rc))
  }

  /** ci_drop_iface_t. The drop log is kept as a list; the counters are not bounded. */
  class DropIface {
    const rule: DropRule
    const tracker: FlowTracker
    var chain: Ge.Chain?
    ghost var steps: nat
    var injectedDrops: nat
    var forwarded: nat
    var passthrough: nat
    var nexthopErrors: nat
    var dropLog: seq<Entry>

    ghost predicate Valid()
      reads this, chain
    {
      chain != null ==> chain.At(steps)
    }

    ghost function View(): State
      reads this, tracker, chain
    {
      State(rule, tracker.mtu, tracker.overhead, tracker.View(),
            if chain == null then ByIdentity else PerAttempt(chain.seed, chain.tG2b, chain.tB2g, steps),
            injectedDrops, forwarded, passthrough, nexthopErrors, dropLog)
    }

    /** ci_drop_iface_init (which sets the overhead to 4; the bridge then sets its own) */
    constructor (rule: DropRule, mtu: u16, overhead: u16)
      ensures Valid() && fresh(tracker) && chain == null
      ensures View() == State(rule, mtu, overhead, Flow(None, 0), ByIdentity, 0, 0, 0, 0, [])
    {
      this.rule := rule;
      tracker := new FlowTracker(mtu, overhead);
      chain, steps := null, 0;
      injectedDrops, forwarded, passthrough, nexthopErrors, dropLog := 0, 0, 0, 0, [];
    }

    /** ci_drop_iface_enable_ge */
    method EnableGe(pG2b: real, pB2g: real)
      requires Valid()
      modifies this`chain, this`steps
      ensures Valid() && fresh(chain)
      ensures View() ==
              old(View()).(mode := PerAttempt(SplitMix64(rule.seed), Ge.GeThreshold(pG2b), Ge.GeThreshold(pB2g), 0))
    {
      chain := new Ge.Chain(rule.seed, pG2b, pB2g);
      steps := 0;
    }

    /** ci_drop_iface_nexthop; `rc` is what the downstream nexthop returns if it is called. */
    method Send(p: Pkt, rc: int) returns (fate: Fate)
      requires Valid()
      modifies this, tracker, chain
      ensures Valid() && chain == old(chain)
      ensures (View(), fate) == NextHop(old(View()), p, rc)
    {
      hide Decide, SplitMix64, Draw;
      var f := FrameOf(p);
      if !Match(rule, f) {
        passthrough := passthrough + 1;
        return PassedThrough(rc);
      }
      var idx := tracker.Index(p, f);
      var drop;
      if chain != null {
        drop := chain.Step(steps);
        steps := steps + 1;
      } else {
        drop := Decide(rule, idx);
      }
      dropLog := dropLog + [Entry(p.src, p.dport, p.flags, f.isRdp, idx, tracker.epoch, drop)];
      if drop {
        injectedDrops := injectedDrops + 1;
        return Freed;
      }
      forwarded := forwarded + 1;
      if rc != 0 {
        nexthopErrors := nexthopErrors + 1;
      }
      fate := Forwarded(rc);
    }
  }

  // ---- whole runs -------------------------------------------------------------------------

  /** A packet offered to the shim and the downstream answer it would get. */
  datatype Offer = Offer(p: Pkt, rc: int)

  /** The shim after `offers`, and what became of each. */
  function Run(s: State, offers: seq<Offer>): (r: (State, seq<Fate>))
    ensures |r.1| == |offers|
  {
    if offers == [] then (s, [])
    else
      var n := |offers| - 1;
      var (s', fates) := Run(s, offers[..n]);
      var (s'', fate) := NextHop(s', offers[n].p, offers[n].rc);
      (s'', fates + [fate])
  }

  /** How many of `fates` are of the kind `kind`. */
  function Tally(fates: seq<Fate>, kind: Fate -> bool): nat {
    if fates == [] then 0
    else Tally(fates[..|fates| - 1], kind) + (if kind(fates[|fates| - 1]) then 1 else 0)
  }

  predicate WasFreed(f: Fate) { f.Freed? }
  predicate WasForwarded(f: Fate) { f.Forwarded? }
  predicate WasPassed(f: Fate) { f.PassedThrough? }
  predicate WasRefused(f: Fate) { f.Forwarded? && f.rc != 0 }

  /** Conservation, in either mode: every packet is freed, forwarded or passed through, each counter
      counts exactly its kind, and the three add up to the packets seen. */
  lemma {:induction false} Conservation(s: State, offers: seq<Offer>)
    ensures var (t, fates) := Run(s, offers);
            && t.drops == s.drops + Tally(fates, WasFreed)
            && t.forwarded == s.forwarded + Tally(fates, WasForwarded)
            && t.passed == s.passed + Tally(fates, WasPassed)
            && t.errors == s.errors + Tally(fates, WasRefused)
            && (t.drops - s.drops) + (t.forwarded - s.forwarded) + (t.passed - s.passed) == |offers|
            && |t.log| == |s.log| + (t.drops - s.drops) + (t.forwarded - s.forwarded)
  {
    hide Drops, FlowIndex, Match, FrameOf;
    if offers != [] {
      var n := |offers| - 1;
      Conservation(s, offers[..n]);
      var (s', fates) := Run(s, offers[..n]);
      var (t, all) := Run(s, offers);
      assert all[..n] == fates;
    }
  }

  /** In identity mode what the log says about an index is the rule's decision for that index. */
  lemma {:induction false} LogIsTheRule(s: State, offers: seq<Offer>, k: nat)
    requires s.mode == ByIdentity && |s.log| <= k < |Run(s, offers).0.log|
    ensures Run(s, offers).0.log[k].dropped == Decide(s.rule, Run(s, offers).0.log[k].index)
  {
    hide Decide, FlowIndex, Match, FrameOf;
    RunKeepsRule(s, offers);
    if offers != [] {
      var n := |offers| - 1;
      RunKeepsRule(s, offers[..n]);
      if k < |Run(s, offers[..n]).0.log| {
        LogIsTheRule(s, offers[..n], k);
      }
    }
  }

  lemma {:induction false} RunKeepsRule(s: State, offers: seq<Offer>)
    ensures var t := Run(s, offers).0;
            t.rule == s.rule && t.mtu == s.mtu && t.overhead == s.overhead
            && (s.mode == ByIdentity ==> t.mode == ByIdentity) && s.log <= t.log
  {
    hide Drops, FlowIndex, Match, FrameOf;
    if offers != [] {
      RunKeepsRule(s, offers[..|offers| - 1]);
    }
  }

  /** The identity offer `k` has when its turn comes. */
  function KeyAt(s: State, offers: seq<Offer>, k: nat): u64
    requires k < |offers|
  {
    FlowIndex(Run(s, offers[..k]).0.flow, s.mtu, s.overhead, offers[k].p).1
  }

  predicate InScope(rule: DropRule, o: Offer) {
    Match(rule, FrameOf(o.p))
  }

  /** The log tells what happened, in either mode: each packet in scope has its own entry, under its
      identity, and the entry says dropped exactly when the packet was freed. */
  lemma {:induction false} LogIsTheFate(s: State, offers: seq<Offer>, k: nat)
    requires k < |offers| && InScope(s.rule, offers[k])
    ensures var (t, fates) := Run(s, offers); var q := |Run(s, offers[..k]).0.log|;
            && q < |t.log| && t.log[q].index == KeyAt(s, offers, k)
            && (if t.log[q].dropped then fates[k] == Freed else fates[k] == Forwarded(offers[k].rc))
  {
    hide Drops, FlowIndex, Match, FrameOf;
    var n := |offers| - 1;
    var front := offers[..n];
    RunKeepsRule(s, front);
    if k < n {
      assert front[..k] == offers[..k];
      assert KeyAt(s, front, k) == KeyAt(s, offers, k);
      hide KeyAt;
      LogIsTheFate(s, front, k);
      LogGrows(s, offers, n);
    }
  }

  /** One more offer adds one fate and at most one entry. */
  lemma LogGrows(s: State, offers: seq<Offer>, n: nat)
    requires |offers| == n + 1
    ensures Run(s, offers[..n]).0.log <= Run(s, offers).0.log && Run(s, offers).1[..n] == Run(s, offers[..n]).1
  {
    hide Drops, FlowIndex, Match, FrameOf;
  }

  /** The rest of the entry: where the packet came from and went to, its flags, and for an RDP packet the
      epoch that, with its sequence number, makes up the index. */
  lemma {:induction false} LogIsThePacket(s: State, offers: seq<Offer>, k: nat)
    requires k < |offers| && InScope(s.rule, offers[k])
    ensures var log, q, p := Run(s, offers).0.log, |Run(s, offers[..k]).0.log|, offers[k].p;
            && q < |log| && log[q].src == p.src && log[q].dport == p.dport && log[q].flags == p.flags
            && (log[q].isRdp <==> p.flags / 2 % 2 == 1)
            && (forall n: u16 :: log[q].isRdp && Carries(p, n) ==> log[q].index == log[q].epoch * TWO16 + n)
  {
    hide Drops, Match, Carries;
    var n := |offers| - 1;
    var front := offers[..n];
    RunKeepsRule(s, front);
    if k < n {
      hide FlowIndex, FrameOf;
      assert front[..k] == offers[..k];
      LogIsThePacket(s, front, k);
      LogGrows(s, offers, n);
    } else {
      EntryOf(Run(s, front).0, offers[k].p, offers[k].rc);
    }
  }

  lemma EntryOf(s: State, p: Pkt, rc: int)
    requires Match(s.rule, FrameOf(p))
    ensures var log, q := NextHop(s, p, rc).0.log, |s.log|;
            && |log| == q + 1 && log[q].src == p.src && log[q].dport == p.dport && log[q].flags == p.flags
            && (log[q].isRdp <==> p.flags / 2 % 2 == 1)
            && (forall n: u16 :: log[q].isRdp && Carries(p, n) ==> log[q].index == log[q].epoch * TWO16 + n)
  {
    hide Drops, Match, Carries, ParseTrailer, FlowStep;
    forall n: u16 | Carries(p, n) && p.flags / 2 % 2 == 1
      ensures FlowIndex(s.flow, s.mtu, s.overhead, p) == (FlowStep(s.flow, n), FlowKey(FlowStep(s.flow, n).epoch, n))
    {
      RdpKey(s.flow, s.mtu, s.overhead, p, n);
    }
  }

  /** How many of `offers` are in scope. */
  function Scoped(rule: DropRule, offers: seq<Offer>): nat {
    if offers == [] then 0
    else
      var n := |offers| - 1;
      Scoped(rule, offers[..n]) + (if InScope(rule, offers[n]) then 1 else 0)
  }

  lemma {:induction false} ChainAdvances(s: State, offers: seq<Offer>)
    requires s.mode.PerAttempt?
    ensures Run(s, offers).0.mode == s.mode.(n := s.mode.n + Scoped(s.rule, offers))
  {
    hide Drops, FlowIndex, Match, FrameOf;
    if offers != [] {
      var n := |offers| - 1;
      ChainAdvances(s, offers[..n]);
      RunKeepsRule(s, offers[..n]);
    }
  }

  /** In per-attempt mode the fate of a packet is the state of the chain after as many steps as packets
      were in scope before it, whatever the packet is. */
  lemma {:induction false} FateIsTheChain(s: State, offers: seq<Offer>, k: nat)
    requires s.mode.PerAttempt? && k < |offers| && InScope(s.rule, offers[k])
    ensures var m := s.mode;
            Run(s, offers).1[k] ==
              if Ge.BadAfter(m.seed, m.tG2b, m.tB2g, m.n + Scoped(s.rule, offers[..k])) then Freed
              else Forwarded(offers[k].rc)
  {
    hide FlowIndex, Match, FrameOf, Ge.BadAfter;
    var n := |offers| - 1;
    var front := offers[..n];
    if k < n {
      assert front[..k] == offers[..k];
      FateIsTheChain(s, front, k);
      LogGrows(s, offers, n);
    } else {
      ChainAdvances(s, front);
      RunKeepsRule(s, front);
    }
  }

  /** In identity mode the fate of a packet is a matter of its identity alone. */
  lemma FateIsTheRule(s: State, offers: seq<Offer>, k: nat)
    requires s.mode == ByIdentity && k < |offers| && InScope(s.rule, offers[k])
    ensures Run(s, offers).1[k] == if Decide(s.rule, KeyAt(s, offers, k)) then Freed else Forwarded(offers[k].rc)
  {
    hide Decide, FlowIndex, Match, FrameOf, Run;
    LogIsTheFate(s, offers, k);
    RunKeepsRule(s, offers[..k]);
    LogIsTheRule(s, offers, |Run(s, offers[..k]).0.log|);
  }

  /** Drop partition: in identity mode, however packets of the flow are repeated and reordered, packets
      of one identity are all freed or all forwarded. */
  lemma NeverBoth(s: State, offers: seq<Offer>, j: nat, k: nat)
    requires s.mode == ByIdentity && j < |offers| && k < |offers|
    requires InScope(s.rule, offers[j]) && InScope(s.rule, offers[k]) && KeyAt(s, offers, j) == KeyAt(s, offers, k)
    ensures var fates := Run(s, offers).1;
            (fates[j] == Freed && fates[k] == Freed) || (fates[j].Forwarded? && fates[k].Forwarded?)
  {
    hide Decide, KeyAt, Run;
    FateIsTheRule(s, offers, j);
    FateIsTheRule(s, offers, k);
  }
}
