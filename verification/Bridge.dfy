/** tests/e2e/ci_inject_bridge.c: the split-horizon pump between two transports that may reflect the
    bridge's own output back at it. */
module Bridge {
  import opened Bytes
  import opened Rule
  import Shim

  datatype Side = Ingress | Egress

  /** A frame read from the queue: the side it came in on, whether dedup calls it a repeat, and what
      the downstream interface would answer if the injector passed it on. */
  datatype Read = Read(side: Side, p: Pkt, repeated: bool, rc: int)

  /** What the pump does with a frame. */
  datatype Action = Discarded | ToEgress(fate: Shim.Fate) | ToIngress

  datatype Counters = Counters(dupIn: nat, dupOut: nat, echoIn: nat, echoOut: nat, reverse: nat)

  datatype State = State(dedup: bool, srcAddr: u16, n: Counters, shim: Shim.State)

  /** One turn of the pump. */
  function Pump(s: State, r: Read): (State, Action) {
    if s.dedup && r.repeated then
      (s.(n := if r.side.Ingress? then s.n.(dupIn := s.n.dupIn + 1) else s.n.(dupOut := s.n.dupOut + 1)), Discarded)
    else if r.side.Ingress? then
      if r.p.src != s.srcAddr then (s.(n := s.n.(echoIn := s.n.echoIn + 1)), Discarded)
      else
        var (shim, fate) := Shim.NextHop(s.shim, r.p, r.rc);
        (s.(shim := shim), ToEgress(fate))
    else
      if r.p.src == s.srcAddr then (s.(n := s.n.(echoOut := s.n.echoOut + 1)), Discarded)
      else (s.(n := s.n.(reverse := s.n.reverse + 1)), ToIngress)
  }

  /** The pump's counters and the injector it feeds. */
  class Pumper {
    const dedup: bool
    const srcAddr: u16
    const shim: Shim.DropIface
    var dupIn: nat
    var dupOut: nat
    var echoIn: nat
    var echoOut: nat
    var reverseFrames: nat

    ghost predicate Valid()
      reads this, shim, shim.chain
    {
      shim.Valid()
    }

    ghost function View(): State
      reads this, shim, shim.tracker, shim.chain
    {
      State(dedup, srcAddr, Counters(dupIn, dupOut, echoIn, echoOut, reverseFrames), shim.View())
    }

    constructor (dedup: bool, srcAddr: u16, shim: Shim.DropIface)
      requires shim.Valid()
      ensures Valid() && this.shim == shim
      ensures View() == State(dedup, srcAddr, Counters(0, 0, 0, 0, 0), shim.View())
    {
      this.dedup, this.srcAddr, this.shim := dedup, srcAddr, shim;
      dupIn, dupOut, echoIn, echoOut, reverseFrames := 0, 0, 0, 0, 0;
    }

    /** The body of the pump loop, for one frame read from the queue. */
    method Turn(r: Read) returns (a: Action)
      requires Valid()
      modifies this, shim, shim.tracker, shim.chain
      ensures Valid() && shim.chain == old(shim.chain)
      ensures (View(), a) == Pump(old(View()), r)
    {
      if dedup && r.repeated {
        if r.side == Ingress { dupIn := dupIn + 1; } else { dupOut := dupOut + 1; }
        return Discarded;
      }
      if r.side == Ingress {
        if r.p.src != srcAddr {
          echoIn := echoIn + 1;
          return Discarded;
        }
        var fate := shim.Send(r.p, r.rc);
        a := ToEgress(fate);
      } else {
        if r.p.src == srcAddr {
          echoOut := echoOut + 1;
          return Discarded;
        }
        reverseFrames := reverseFrames + 1;
        a := ToIngress;
      }
    }
  }

  // ---- whole runs -----------------------------------------------------------------------------

  function RunAll(s: State, rs: seq<Read>): (out: (State, seq<Action>))
    ensures |out.1| == |rs|
  {
    if rs == [] then (s, [])
    else
      var n := |rs| - 1;
      var (t, actions) := RunAll(s, rs[..n]);
      var (u, a) := Pump(t, rs[n]);
      (u, actions + [a])
  }

  /** Frame `r` is put on side `side` by action `a`. */
  predicate Emitted(r: Read, a: Action, side: Side) {
    match a
    case Discarded => false
    case ToEgress(fate) => side.Egress? && !fate.Freed?
    case ToIngress => side.Ingress?
  }

  /** Read `k` is the bridge hearing itself: a frame it put on that very side before, any number of
      times. */
  ghost predicate Echo(rs: seq<Read>, actions: seq<Action>, k: nat)
    requires k < |rs| == |actions|
  {
    exists j :: 0 <= j < k && Emitted(rs[j], actions[j], rs[k].side) && rs[j].p == rs[k].p
  }

  function Reads(rs: seq<Read>, side: Side): nat {
    if rs == [] then 0
    else Reads(rs[..|rs| - 1], side) + (if rs[|rs| - 1].side == side then 1 else 0)
  }

  lemma {:induction false} ActionAt(s: State, rs: seq<Read>, k: nat)
    requires k < |rs|
    ensures var a, r := RunAll(s, rs).1[k], rs[k];
            && RunAll(s, rs).0.srcAddr == s.srcAddr
            && (a.ToEgress? ==> r.side.Ingress? && r.p.src == s.srcAddr)
            && (a.ToIngress? ==> r.side.Egress? && r.p.src != s.srcAddr)
  {
    hide Shim.NextHop;
    var n := |rs| - 1;
    SourceKept(s, rs[..n]);
    if k < n {
      ActionAt(s, rs[..n], k);
    }
  }

  lemma {:induction false} SourceKept(s: State, rs: seq<Read>)
    ensures RunAll(s, rs).0.srcAddr == s.srcAddr && RunAll(s, rs).0.dedup == s.dedup
  {
    hide Shim.NextHop;
    if rs != [] {
      SourceKept(s, rs[..|rs| - 1]);
    }
  }

  /** Loop freedom: however often and in whatever order a transport reflects what the bridge has sent,
      no echo is forwarded again, in either direction, with dedup on or off. */
  lemma NoEchoForwarded(s: State, rs: seq<Read>, k: nat)
    requires k < |rs| && Echo(rs, RunAll(s, rs).1, k)
    ensures RunAll(s, rs).1[k] == Discarded
  {
    hide RunAll;
    var actions := RunAll(s, rs).1;
    var j :| 0 <= j < k && Emitted(rs[j], actions[j], rs[k].side) && rs[j].p == rs[k].p;
    ActionAt(s, rs, j);
    ActionAt(s, rs, k);
  }

  /** Conservation in every reachable state: each frame read on a side is in exactly one of that side's
      counters. */
  lemma {:induction false} FramesConserved(s: State, rs: seq<Read>)
    ensures var t := RunAll(s, rs).0;
            && Reads(rs, Ingress) == (t.n.dupIn - s.n.dupIn) + (t.n.echoIn - s.n.echoIn)
                 + (t.shim.drops - s.shim.drops) + (t.shim.forwarded - s.shim.forwarded)
                 + (t.shim.passed - s.shim.passed)
            && Reads(rs, Egress) == (t.n.dupOut - s.n.dupOut) + (t.n.echoOut - s.n.echoOut)
                 + (t.n.reverse - s.n.reverse)
  {
    hide Shim.Drops, FlowIndex, Match, FrameOf;
    if rs != [] {
      FramesConserved(s, rs[..|rs| - 1]);
    }
  }

  /** A frame that dedup passes and that comes in on the side of its source is not discarded. */
  lemma {:induction false} ProperTaken(s: State, rs: seq<Read>, k: nat)
    requires k < |rs| && !(s.dedup && rs[k].repeated) && (rs[k].side.Ingress? <==> rs[k].p.src == s.srcAddr)
    ensures RunAll(s, rs).1[k] != Discarded
  {
    hide Shim.NextHop;
    var n := |rs| - 1;
    SourceKept(s, rs[..n]);
    if k < n {
      ProperTaken(s, rs[..n], k);
    }
  }

  /** Dedup discards whatever it calls a repeat, and nothing else is counted as one. */
  lemma {:induction false} RepeatDiscarded(s: State, rs: seq<Read>, k: nat)
    requires k < |rs| && s.dedup && rs[k].repeated
    ensures RunAll(s, rs).1[k] == Discarded
  {
    hide Shim.NextHop;
    var n := |rs| - 1;
    SourceKept(s, rs[..n]);
    if k < n {
      RepeatDiscarded(s, rs[..n], k);
    }
  }

  /** How many of `rs` came in on `side` and were discarded, as repeats or (`repeat` false) otherwise. */
  function Lost(s: State, rs: seq<Read>, actions: seq<Action>, side: Side, repeat: bool): nat
    requires |rs| == |actions|
  {
    if rs == [] then 0
    else
      var n := |rs| - 1;
      Lost(s, rs[..n], actions[..n], side, repeat) +
      (if rs[n].side == side && actions[n] == Discarded && (repeat <==> s.dedup && rs[n].repeated) then 1 else 0)
  }

  function Returned(actions: seq<Action>): nat {
    if actions == [] then 0
    else Returned(actions[..|actions| - 1]) + (if actions[|actions| - 1] == ToIngress then 1 else 0)
  }

  /** Each counter counts what it is named after: repeats and other discards by side, and frames sent
      back. */
  lemma {:induction false} CountersExact(s: State, rs: seq<Read>)
    ensures var (t, actions) := RunAll(s, rs);
            && t.n.dupIn == s.n.dupIn + Lost(s, rs, actions, Ingress, true)
            && t.n.dupOut == s.n.dupOut + Lost(s, rs, actions, Egress, true)
            && t.n.echoIn == s.n.echoIn + Lost(s, rs, actions, Ingress, false)
            && t.n.echoOut == s.n.echoOut + Lost(s, rs, actions, Egress, false)
            && t.n.reverse == s.n.reverse + Returned(actions)
  {
    hide Shim.NextHop;
    if rs != [] {
      var n := |rs| - 1;
      CountersExact(s, rs[..n]);
      SourceKept(s, rs[..n]);
      assert RunAll(s, rs).1[..n] == RunAll(s, rs[..n]).1;
    }
  }

  /** Every frame read is either an echo or genuine: the source's enter on the ingress side only, all
      others on the egress side only. */
  ghost predicate Genuine(s: State, rs: seq<Read>) {
    forall k :: 0 <= k < |rs| ==>
      Echo(rs, RunAll(s, rs).1, k) || (rs[k].side.Ingress? <==> rs[k].p.src == s.srcAddr)
  }

  /** Where transports bring nothing but genuine frames and echoes, the bridge discards exactly the echoes
      and the frames dedup calls repeats. */
  lemma DiscardedIffEcho(s: State, rs: seq<Read>, k: nat)
    requires k < |rs| && Genuine(s, rs)
    ensures RunAll(s, rs).1[k] == Discarded <==> Echo(rs, RunAll(s, rs).1, k) || (s.dedup && rs[k].repeated)
  {
    hide RunAll, Echo;
    if s.dedup && rs[k].repeated {
      RepeatDiscarded(s, rs, k);
    } else if Echo(rs, RunAll(s, rs).1, k) {
      NoEchoForwarded(s, rs, k);
    } else {
      ProperTaken(s, rs, k);
    }
  }
}
