/** The uploader's data channel led through the injector in identity mode: when the transfer converges. */
module Injector {
  import opened Bytes
  import opened Sha256Spec
  import opened Receiver
  import opened Delivery
  import opened Wire
  import opened Server
  import opened Session
  import opened Answers
  import opened Safety
  import opened Progress
  import opened Identity
  import opened Shim
  import Rule

  // ---- one blast through the shim ---------------------------------------------------------------

  /** A data packet of the uploader: to its port, and not RDP. Any other traffic may pass the injector
      between them. */
  predicate IsData(p: Rule.Pkt) {
    p.dport == DATA_PORT && p.flags / 2 % 2 == 0
  }

  /** The payloads of the data packets offered to the injector ... */
  function Payloads(offers: seq<Offer>): seq<Packet> {
    if offers == [] then []
    else
      var n := |offers| - 1;
      Payloads(offers[..n]) + (if IsData(offers[n].p) then [offers[n].p.data] else [])
  }

  /** ... and of those it hands to the next interface, which takes them. */
  function Passed(offers: seq<Offer>, fates: seq<Fate>): seq<Packet>
    requires |offers| == |fates|
  {
    if offers == [] then []
    else
      var n := |offers| - 1;
      Passed(offers[..n], fates[..n]) +
      (if IsData(offers[n].p) && (fates[n] == Forwarded(0) || fates[n] == PassedThrough(0)) then [offers[n].p.data]
       else [])
  }

  /** The next interface refuses no data packet. */
  ghost predicate Accepting(offers: seq<Offer>) {
    forall k :: 0 <= k < |offers| && IsData(offers[k].p) ==> offers[k].rc == 0
  }

  lemma DataInScope(rule: Rule.DropRule, p: Rule.Pkt)
    requires IsData(p)
    ensures Rule.Match(rule, Rule.FrameOf(p)) <==> CoversData(rule)
  {
  }

  /** What becomes of one data packet. */
  lemma DataFate(s: Shim.State, p: Rule.Pkt, rc: int)
    requires s.mode == ByIdentity && s.overhead == DATA_HDR && IsData(p)
    ensures NextHop(s, p, rc).1 ==
            if Loses(s.rule, KeyOf(s.mtu, p.data)) then Freed
            else if CoversData(s.rule) then Forwarded(rc) else PassedThrough(rc)
  {
    hide Rule.Decide, Rule.FragmentKey, Rule.Match, CoversData;
    DataInScope(s.rule, p);
  }

  lemma SurvivorsSnoc(rule: Rule.DropRule, mtu: u32, ps: seq<Packet>, p: Packet)
    requires mtu < TWO16
    ensures Survivors(rule, mtu, ps + [p]) ==
            Survivors(rule, mtu, ps) + (if Loses(rule, KeyOf(mtu, p)) then [] else [p])
  {
    hide Loses, KeyOf;
    assert (ps + [p])[..|ps|] == ps;
  }

  /** The injector in identity mode, in whatever state earlier traffic has left it, passes exactly the data
      packets whose identity the rule does not drop. */
  lemma {:induction false} InjectorPasses(s: Shim.State, offers: seq<Offer>)
    requires s.mode == ByIdentity && s.overhead == DATA_HDR && Accepting(offers)
    ensures Passed(offers, Run(s, offers).1) == Survivors(s.rule, s.mtu, Payloads(offers))
  {
    assert Survivors(s.rule, s.mtu, []) == [];
    hide NextHop, KeyOf, Loses, IsData, CoversData, Survivors;
    if offers != [] {
      var n := |offers| - 1;
      var front, o := offers[..n], offers[n];
      assert forall k :: 0 <= k < n ==> front[k] == offers[k];
      InjectorPasses(s, front);
      RunKeepsRule(s, front);
      var t := Run(s, front).0;
      var fates := Run(s, offers).1;
      assert fates[..n] == Run(s, front).1 && fates[n] == NextHop(t, o.p, o.rc).1;
      if IsData(o.p) {
        DataFate(t, o.p, o.rc);
        SurvivorsSnoc(s.rule, s.mtu, Payloads(front), o.p.data);
        assert o.rc == 0;
      } else {
        assert Payloads(offers) == Payloads(front);
      }
    }
  }

  // ---- the closed system ------------------------------------------------------------------------

  function TrafficAt(traffic: seq<seq<Offer>>, k: nat): seq<Offer> {
    if k < |traffic| then traffic[k] else []
  }

  /** The injector after the traffic of the first `k` rounds. */
  function ShimAfter(s: Shim.State, traffic: seq<seq<Offer>>, k: nat): Shim.State {
    if k == 0 then s else Run(ShimAfter(s, traffic, k - 1), TrafficAt(traffic, k - 1)).0
  }

  lemma {:induction false} ShimKeepsRule(s: Shim.State, traffic: seq<seq<Offer>>, k: nat)
    requires s.mode == ByIdentity
    ensures var t := ShimAfter(s, traffic, k);
            t.mode == ByIdentity && t.rule == s.rule && t.mtu == s.mtu && t.overhead == s.overhead
  {
    if k > 0 {
      ShimKeepsRule(s, traffic, k - 1);
      RunKeepsRule(ShimAfter(s, traffic, k - 1), TrafficAt(traffic, k - 1));
    }
  }

  /** A round of a client in state `p` over an injector in state `s`: the control exchange works, the
      server's blast is offered to the injector, among any other traffic, and what the injector passes of
      it arrives, in any order and any number of times, with no idle window before the last of it. */
  ghost predicate InjectedRound(
    h: Hash, src: seq<u8>, mtu: u32, block: u32, s: Shim.State, p: Session.State, input: RoundInput, offers: seq<Offer>)
    requires |src| < TWO32 && mtu < TWO16 && p.Running?
  {
    && Attempts(input.conns, MAX_ATTEMPTS) == Got(ServerMeta(h, src, block))
    && Payloads(offers) == Answer(h, src, mtu, block, p.ivs).data && Accepting(offers)
    && (forall w :: w in input.windows ==> Fragments(w) != [])
    && Shuffled(AllFragments(input.windows), Fragments(Passed(offers, Run(s, offers).1)))
  }

  /** Each of the first `n` rounds that the client still runs is such a round; the injector carries its
      state from one to the next. */
  ghost predicate ThroughInjector(
    h: Hash, src: seq<u8>, mtu: u32, block: u32, s: Shim.State,
    inputs: seq<RoundInput>, traffic: seq<seq<Offer>>, n: nat)
    requires |src| < TWO32 && mtu < TWO16
  {
    && s.mode == ByIdentity && s.mtu == mtu && s.overhead == DATA_HDR
    && forall k: nat :: k < n && After(h, inputs, k).Running? ==>
         InjectedRound(h, src, mtu, block, ShimAfter(s, traffic, k), After(h, inputs, k),
                       InputAt(inputs, k), TrafficAt(traffic, k))
  }

  /** Such a system is one with a filter on the rule's decision in place of the injector. */
  lemma InjectorIsFilter(
    h: Hash, src: seq<u8>, mtu: u32, block: u32, s: Shim.State,
    inputs: seq<RoundInput>, traffic: seq<seq<Offer>>, n: nat)
    requires |src| < TWO32 && mtu < TWO16 && ThroughInjector(h, src, mtu, block, s, inputs, traffic, n)
    ensures ThroughFilter(h, src, mtu, block, s.rule, inputs, n)
  {
    hide After, Run, ShimAfter, Survivors, Payloads, Passed, Shuffled, Attempts, Fragments, AllFragments, Answer;
    forall k: nat | k < n && After(h, inputs, k).Running?
      ensures FilteredRound(h, src, mtu, block, s.rule, After(h, inputs, k), InputAt(inputs, k))
    {
      ShimKeepsRule(s, traffic, k);
      InjectorPasses(ShimAfter(s, traffic, k), TrafficAt(traffic, k));
      AnswerData(h, src, mtu, block, After(h, inputs, k).ivs);
    }
  }

  /** Identity-keyed drops decide convergence exactly: through an injector in identity mode and an
      otherwise lossless channel the transfer ends verified within any positive number of rounds if and
      only if the rule drops none of the file's fragment numbers. A rule that does not cover data packets
      drops none. If it drops one, no number of rounds helps: the client is still asking at the end. */
  lemma ConvergesIff(
    h: Hash, src: seq<u8>, mtu: u32, block: u32, s: Shim.State,
    inputs: seq<RoundInput>, traffic: seq<seq<Offer>>, maxRounds: nat)
    requires 0 < |src| < TWO32 && DATA_HDR < mtu < TWO16 && NBlocks(|src|, block) > 0 && maxRounds > 0
    requires ThroughInjector(h, src, mtu, block, s, inputs, traffic, maxRounds)
    ensures var end := After(h, inputs, maxRounds);
            && end != Undefined && (end.Done? || end.Running?)
            && (end.Done? <==> forall f: u64 :: InFile(src, mtu - DATA_HDR, f) ==> !Loses(s.rule, f))
            && (end.Done? ==> end.verified.data == src)
  {
    hide After, Loses;
    InjectorIsFilter(h, src, mtu, block, s, inputs, traffic, maxRounds);
    FilteredConverges(h, src, mtu, block, s.rule, inputs, maxRounds);
    KeepsGoing(h, src, mtu, block, s.rule, inputs, maxRounds, maxRounds);
  }

  /** A dropped fragment, whose first byte is `i`, is missing after every round. */
  lemma DroppedStaysMissing(
    h: Hash, src: seq<u8>, mtu: u32, block: u32, s: Shim.State,
    inputs: seq<RoundInput>, traffic: seq<seq<Offer>>, f: u64, i: nat, k: nat)
    requires |src| < TWO32 && DATA_HDR < mtu < TWO16 && Victim(s.rule, src, mtu, f, i)
    requires ThroughInjector(h, src, mtu, block, s, inputs, traffic, k)
    ensures Lacks(After(h, inputs, k), |src|, i)
  {
    hide After, Victim;
    InjectorIsFilter(h, src, mtu, block, s, inputs, traffic, k);
    LostStaysMissing(h, src, mtu, block, s.rule, inputs, k, f, i, k);
  }
}
