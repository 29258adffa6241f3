/** Runs that meet the hypotheses of the whole-run theorems, built for every file, rule and length. */
module Witness {
  import opened Bytes
  import opened Sha256Spec
  import opened Receiver
  import opened Delivery
  import opened Wire
  import opened Server
  import opened Session
  import opened Answers
  import opened Safety
  import opened Progress
  import opened Identity
  import opened Injector
  import Rule
  import Shim

  /** A control connection on which nothing of the server's answer is lost. */
  function GoodConn(h: Hash, src: seq<u8>, mtu: u32, block: u32, ivs: seq<Interval>): Conn
    requires |src| < TWO32 && mtu < TWO16 && |ivs| <= MAX_INTERVALS
  {
    Open(Answer(h, src, mtu, block, ivs).ctrl)
  }

  lemma GoodConnWorks(h: Hash, src: seq<u8>, mtu: u32, block: u32, ivs: seq<Interval>)
    requires |src| < TWO32 && NBlocks(|src|, block) * HASH_LEN < TWO32 && mtu < TWO16 && |ivs| <= MAX_INTERVALS
    ensures Attempts([GoodConn(h, src, mtu, block, ivs)], MAX_ATTEMPTS) == Got(ServerMeta(h, src, block))
  {
    hide Exchange;
    AnswerAccepted(h, src, mtu, block, ivs);
  }

  // ---- clean rounds -------------------------------------------------------------------------

  /** One window, or none if nothing is in flight. */
  function Windows(w: seq<Packet>): seq<seq<Packet>> {
    if Fragments(w) == [] then [] else [w]
  }

  lemma WindowsCarry(w: seq<Packet>)
    ensures AllFragments(Windows(w)) == Fragments(w) && forall x :: x in Windows(w) ==> Fragments(x) != []
  {
    if Fragments(w) != [] {
      assert AllFragments([w][1..]) == [];
    }
  }

  /** Whatever a client asks for, the server's answer can get through. */
  lemma CleanRoundExists(h: Hash, src: seq<u8>, mtu: u32, block: u32, ivs: seq<Interval>) returns (input: RoundInput)
    requires |src| < TWO32 && mtu < TWO16 && NBlocks(|src|, block) * HASH_LEN < TWO32 && |ivs| <= MAX_INTERVALS
    ensures Clean(h, input, src, mtu, block, ivs)
  {
    hide Attempts, Fragments, AllFragments, Answer, GoodConn;
    var w := Answer(h, src, mtu, block, ivs).data;
    input := RoundInput([GoodConn(h, src, mtu, block, ivs)], Windows(w));
    GoodConnWorks(h, src, mtu, block, ivs);
    WindowsCarry(w);
  }

  // ---- the closed system with the injector ----------------------------------------------------

  /** The offers by which a server hands `ps` to the injector. */
  function Offered(ps: seq<Packet>): seq<Shim.Offer> {
    if ps == [] then []
    else Offered(ps[..|ps| - 1]) + [Shim.Offer(Rule.Pkt(0, DATA_PORT, 0, ps[|ps| - 1]), 0)]
  }

  lemma {:induction false} OfferedIs(ps: seq<Packet>)
    ensures Payloads(Offered(ps)) == ps && Accepting(Offered(ps))
  {
    if ps != [] {
      var n := |ps| - 1;
      OfferedIs(ps[..n]);
      PayloadsSnoc(Offered(ps[..n]), Shim.Offer(Rule.Pkt(0, DATA_PORT, 0, ps[n]), 0));
      assert ps == ps[..n] + [ps[n]];
    }
  }

  lemma PayloadsSnoc(offers: seq<Shim.Offer>, o: Shim.Offer)
    requires IsData(o.p) && o.rc == 0 && Accepting(offers)
    ensures Payloads(offers + [o]) == Payloads(offers) + [o.p.data] && Accepting(offers + [o])
  {
    assert (offers + [o])[..|offers|] == offers;
  }

  /** Rounds and what the injector was offered in them. */
  datatype World = World(inputs: seq<RoundInput>, traffic: seq<seq<Shim.Offer>>)

  /** The traffic of the round that follows state `p`, and what arrives of it. */
  function Traffic(h: Hash, src: seq<u8>, mtu: u32, block: u32, p: State): seq<Shim.Offer>
    requires |src| < TWO32 && mtu < TWO16
  {
    if p.Running? then Offered(Answer(h, src, mtu, block, p.ivs).data) else []
  }

  function Arrivals(
    h: Hash, src: seq<u8>, mtu: u32, block: u32, s: Shim.State, p: State, offers: seq<Shim.Offer>): RoundInput
    requires |src| < TWO32 && mtu < TWO16
  {
    RoundInput([if p.Running? then GoodConn(h, src, mtu, block, p.ivs) else Refused],
               Windows(Passed(offers, Shim.Run(s, offers).1)))
  }

  function Injected(h: Hash, src: seq<u8>, mtu: u32, block: u32, s: Shim.State, n: nat): (w: World)
    requires |src| < TWO32 && mtu < TWO16
    ensures |w.inputs| == |w.traffic| == n
  {
    if n == 0 then World([], [])
    else
      var front := Injected(h, src, mtu, block, s, n - 1);
      var p := After(h, front.inputs, n - 1);
      var offers := Traffic(h, src, mtu, block, p);
      World(front.inputs + [Arrivals(h, src, mtu, block, ShimAfter(s, front.traffic, n - 1), p, offers)],
            front.traffic + [offers])
  }

  lemma {:induction false} AfterPrefix(h: Hash, inputs: seq<RoundInput>, more: seq<RoundInput>, k: nat)
    requires k <= |inputs|
    ensures After(h, inputs + more, k) == After(h, inputs, k)
  {
    hide Step;
    if k > 0 {
      AfterPrefix(h, inputs, more, k - 1);
    }
  }

  lemma {:induction false} ShimPrefix(s: Shim.State, traffic: seq<seq<Shim.Offer>>, more: seq<seq<Shim.Offer>>, k: nat)
    requires k <= |traffic|
    ensures ShimAfter(s, traffic + more, k) == ShimAfter(s, traffic, k)
  {
    hide Shim.Run;
    if k > 0 {
      ShimPrefix(s, traffic, more, k - 1);
    }
  }

  lemma ArrivalsFit(h: Hash, src: seq<u8>, mtu: u32, block: u32, s: Shim.State, p: State)
    requires |src| < TWO32 && mtu < TWO16 && NBlocks(|src|, block) * HASH_LEN < TWO32 && p.Running?
    ensures var offers := Traffic(h, src, mtu, block, p);
            InjectedRound(h, src, mtu, block, s, p, Arrivals(h, src, mtu, block, s, p, offers), offers)
  {
    hide Attempts, Fragments, AllFragments, Answer, GoodConn, Shim.Run, Passed, Offered, Payloads, Accepting;
    var offers := Traffic(h, src, mtu, block, p);
    GoodConnWorks(h, src, mtu, block, p.ivs);
    OfferedIs(Answer(h, src, mtu, block, p.ivs).data);
    WindowsCarry(Passed(offers, Shim.Run(s, offers).1));
  }

  /** An injector in identity mode set to the session's mtu, in any state. */
  predicate Set(s: Shim.State, mtu: u32) {
    s.mode == Shim.ByIdentity && s.mtu == mtu && s.overhead == DATA_HDR
  }

  /** For every injector and every number of rounds there is a run of the closed system, so what is said
      of all of them is said of something. */
  lemma {:induction false} InjectedRunExists(h: Hash, src: seq<u8>, mtu: u32, block: u32, s: Shim.State, n: nat)
    requires |src| < TWO32 && mtu < TWO16 && NBlocks(|src|, block) * HASH_LEN < TWO32 && Set(s, mtu)
    ensures var w := Injected(h, src, mtu, block, s, n);
            ThroughInjector(h, src, mtu, block, s, w.inputs, w.traffic, n)
  {
    hide Step, InjectedRound, Traffic, Arrivals, Shim.Run;
    if n > 0 {
      var front, all := Injected(h, src, mtu, block, s, n - 1), Injected(h, src, mtu, block, s, n);
      InjectedRunExists(h, src, mtu, block, s, n - 1);
      var input, offers := all.inputs[n - 1..], all.traffic[n - 1..];
      assert all.inputs == front.inputs + input && all.traffic == front.traffic + offers;
      forall k: nat | k < n && After(h, all.inputs, k).Running?
        ensures InjectedRound(h, src, mtu, block, ShimAfter(s, all.traffic, k), After(h, all.inputs, k),
                              InputAt(all.inputs, k), TrafficAt(all.traffic, k))
      {
        AfterPrefix(h, front.inputs, input, k);
        ShimPrefix(s, front.traffic, offers, k);
        if k == n - 1 {
          ArrivalsFit(h, src, mtu, block, ShimAfter(s, front.traffic, k), After(h, front.inputs, k));
        } else {
          assert InputAt(all.inputs, k) == InputAt(front.inputs, k);
          assert TrafficAt(all.traffic, k) == TrafficAt(front.traffic, k);
        }
      }
    }
  }

  /** An injector that drops fragment `f` and nothing else. */
  function DropOnly(f: u64): Rule.DropRule {
    Rule.DropRule(0, -1, false, 0.0, Some(Repeat(0, f) + [1]))
  }

  const DROP_NOTHING := Rule.DropRule(0, -1, false, 0.0, None)

  /** Both outcomes occur for every file. With nothing dropped the client accepts the true manifest and
      succeeds ... */
  lemma SuccessOccurs(h: Hash, src: seq<u8>, mtu: u32, block: u32, s: Shim.State, n: nat)
    requires 0 < |src| < TWO32 && DATA_HDR < mtu < TWO16 && n > 0 && Set(s, mtu) && s.rule == DROP_NOTHING
    requires NBlocks(|src|, block) > 0 && NBlocks(|src|, block) * HASH_LEN < TWO32
    ensures var inputs := Injected(h, src, mtu, block, s, n).inputs;
            && Attempts(InputAt(inputs, 0).conns, MAX_ATTEMPTS) == Got(ServerMeta(h, src, block))
            && Truthful(h, src, ServerMeta(h, src, block))
            && After(h, inputs, n).Done? && After(h, inputs, n).verified.data == src
  {
    hide After, Attempts, InFile, Injected, ThroughInjector;
    var w := Injected(h, src, mtu, block, s, n);
    InjectedRunExists(h, src, mtu, block, s, n);
    FirstExchange(h, src, mtu, block, s, w.inputs, w.traffic, n);
    ConvergesIff(h, src, mtu, block, s, w.inputs, w.traffic, n);
  }

  /** ... and with any one of its fragments dropped it does not, in any number of rounds. */
  lemma FailureOccurs(h: Hash, src: seq<u8>, mtu: u32, block: u32, s: Shim.State, f: u64, n: nat)
    requires 0 < |src| < TWO32 && DATA_HDR < mtu < TWO16 && n > 0 && InFile(src, mtu - DATA_HDR, f)
    requires Set(s, mtu) && s.rule == DropOnly(f)
    requires NBlocks(|src|, block) > 0 && NBlocks(|src|, block) * HASH_LEN < TWO32
    ensures After(h, Injected(h, src, mtu, block, s, n).inputs, n).Running?
  {
    hide After, InFile, Injected, ThroughInjector;
    var w := Injected(h, src, mtu, block, s, n);
    InjectedRunExists(h, src, mtu, block, s, n);
    ConvergesIff(h, src, mtu, block, s, w.inputs, w.traffic, n);
    assert Loses(s.rule, f);
  }

  lemma FirstExchange(
    h: Hash, src: seq<u8>, mtu: u32, block: u32, s: Shim.State,
    inputs: seq<RoundInput>, traffic: seq<seq<Shim.Offer>>, n: nat)
    requires |src| < TWO32 && mtu < TWO16 && n > 0 && ThroughInjector(h, src, mtu, block, s, inputs, traffic, n)
    ensures Attempts(InputAt(inputs, 0).conns, MAX_ATTEMPTS) == Got(ServerMeta(h, src, block))
  {
    hide Attempts;
    assert After(h, inputs, 0) == START;
  }
}
