/** lib/ci_rule.c with the parsers it uses (lib/ci_rdp.c, lib/ci_dtp.c): which frames a drop rule
    concerns, the identity it keys on, and the decision. */
module Rule {
  import opened Bytes
  import opened Prng

  /** The parts of a CSP packet the injector looks at. */
  datatype Pkt = Pkt(src: u16, dport: u16, flags: u8, data: Packet)

  datatype Trailer = Trailer(flags: u8, seqNr: u16, ackNr: u16)

  /** ci_rdp_parse_trailer: the 5 bytes before the CRC32, if there is one, else the last 5. */
  function ParseTrailer(data: Packet, flags: u8): Option<Trailer> {
    var tail := 5 + (if flags % 2 == 1 then 4 else 0);
    if |data| < tail then None
    else
      var t := data[|data| - tail..];
      var s: int, a: int := t[1], t[3];
      Some(Trailer(t[0] % 0x10, s * 0x100 + t[2], a * 0x100 + t[4]))
  }

  /** ci_frame_t */
  datatype Frame = Frame(dport: u16, flags: u8, isRdp: bool, rdpFlags: u8)

  /** ci_frame_from_fields */
  function FrameOf(p: Pkt): Frame {
    var isRdp := p.flags / 2 % 2 == 1;
    var trailer := ParseTrailer(p.data, p.flags);
    Frame(p.dport, p.flags, isRdp, if isRdp && trailer.Some? then trailer.value.flags else 0)
  }

  /** ci_drop_rule_t */
  datatype DropRule = DropRule(seed: u64, matchDport: int, matchSyn: bool, p: real, replay: Option<seq<u8>>)

  /** ci_rule_match */
  predicate Match(r: DropRule, f: Frame) {
    && (r.matchDport >= 0 ==> f.dport == r.matchDport % TWO16)
    && (r.matchSyn ==> f.isRdp && f.rdpFlags / 8 % 2 == 1)
  }

  /** ci_rule_decide: drop the packet with this identity? */
  predicate Decide(r: DropRule, index: u64) {
    match r.replay
    case Some(v) => index < |v| && v[index] != 0
    case None =>
      if r.p <= 0.0 then false
      else if r.p >= 1.0 then true
      else Draw(r.seed, index) < Threshold(r.p)
  }

  // ---- the per-flow identity --------------------------------------------------------------

  /** The state of ci_flow_tracker_t that changes: the last RDP seq and the wrap epoch. */
  datatype Flow = Flow(last: Option<u16>, epoch: u32)

  /** ci_rdp_seq_is_wrap */
  predicate IsWrap(prev: u16, next: u16) {
    var d: int := next;
    (d - prev) % TWO16 < 0x8000 && next < prev
  }

  /** The RDP branch of ci_flow_index. */
  function FlowStep(f: Flow, s: u16): Flow {
    Flow(Some(s), if f.last.Some? && IsWrap(f.last.value, s) then Wrap32(f.epoch + 1) else f.epoch)
  }

  /** ci_flow_index_rdp */
  function FlowKey(epoch: u32, s: u16): u64 {
    epoch * TWO16 + s
  }

  /** ci_dtp_parse_offset and ci_dtp_fragment_index_ovh: 0 when either fails. */
  function FragmentKey(data: Packet, mtu: u16, overhead: u16): u64 {
    if |data| < 4 || mtu <= overhead then 0 else Get32(data) / (mtu - overhead)
  }

  /** ci_flow_index: the next state and the index. */
  function FlowIndex(f: Flow, mtu: u16, overhead: u16, p: Pkt): (Flow, u64) {
    if !FrameOf(p).isRdp then (f, FragmentKey(p.data, mtu, overhead))
    else match ParseTrailer(p.data, p.flags)
      case None => (f, 0)
      case Some(t) =>
        var next := FlowStep(f, t.seqNr);
        (next, FlowKey(next.epoch, t.seqNr))
  }

  // ---- what is read off the bytes -----------------------------------------------------------

  /** The CRC32 that follows the trailer, if the packet's flags say so. */
  function CrcLength(flags: u8): nat {
    if flags % 2 == 1 then 4 else 0
  }

  /** An RDP trailer: flags, sequence number and acknowledgement, most significant byte first. */
  function TrailerBytes(f: u8, s: u16, a: u16): (b: seq<u8>)
    ensures |b| == 5
  {
    [f, s / 0x100, s % 0x100, a / 0x100, a % 0x100]
  }

  /** A trailer put at the end of a packet, before its CRC32 if it has one, is read back. */
  lemma TrailerRead(body: seq<u8>, f: u8, s: u16, a: u16, crc: seq<u8>, flags: u8)
    requires |crc| == CrcLength(flags) && |body| + 5 + |crc| < TWO16
    ensures ParseTrailer(body + TrailerBytes(f, s, a) + crc, flags) == Some(Trailer(f % 0x10, s, a))
  {
    var data := body + TrailerBytes(f, s, a) + crc;
    assert data[|data| - 5 - |crc|..] == TrailerBytes(f, s, a) + crc;
  }

  /** None is read only when the packet has no room for one. */
  lemma TrailerMissing(data: Packet, flags: u8)
    ensures ParseTrailer(data, flags) == None <==> |data| < 5 + CrcLength(flags)
  {
  }

  /** The bytes of the sequence number `s` are where it belongs. */
  predicate Carries(p: Pkt, s: u16) {
    var at: int := |p.data| - 5 - CrcLength(p.flags);
    at >= 0 && p.data[at + 1] == s / 0x100 && p.data[at + 2] == s % 0x100
  }

  lemma CarriedIsRead(p: Pkt, s: u16)
    requires Carries(p, s)
    ensures ParseTrailer(p.data, p.flags).Some? && ParseTrailer(p.data, p.flags).value.seqNr == s
  {
    var at := |p.data| - 5 - CrcLength(p.flags);
    assert p.data[at..][1] == p.data[at + 1] && p.data[at..][2] == p.data[at + 2];
  }

  /** An RDP packet is keyed by its sequence number, whatever else its trailer says; one too short for a
      trailer is keyed 0 and leaves the tracker as it is. */
  lemma RdpKey(f: Flow, mtu: u16, overhead: u16, p: Pkt, s: u16)
    requires p.flags / 2 % 2 == 1
    ensures Carries(p, s) ==> FlowIndex(f, mtu, overhead, p) == (FlowStep(f, s), FlowKey(FlowStep(f, s).epoch, s))
    ensures |p.data| < 5 + CrcLength(p.flags) ==> FlowIndex(f, mtu, overhead, p) == (f, 0)
  {
    hide ParseTrailer, FlowStep, FlowKey, Carries;
    if Carries(p, s) {
      CarriedIsRead(p, s);
    }
    TrailerMissing(p.data, p.flags);
  }

  /** A data packet is keyed by the fragment its offset lies in. */
  lemma OffsetKey(data: Packet, mtu: u16, overhead: u16, offset: u32)
    requires mtu > overhead && |data| >= 4 && data[..4] == Le32(offset)
    ensures var pay, key := mtu - overhead, FragmentKey(data, mtu, overhead);
            key * pay <= offset < key * pay + pay
  {
    assert data[0..4] == data[..4];
    Get32Slice(data, 0, offset);
    var pay := mtu - overhead;
    assert offset == pay * (offset / pay) + offset % pay;
  }

  /** A rule for connection requests picks the RDP packets whose trailer has the SYN bit, 8, set. */
  lemma SynRule(r: DropRule, p: Pkt, body: seq<u8>, f: u8, s: u16, a: u16, crc: seq<u8>)
    requires r.matchSyn && |crc| == CrcLength(p.flags) && |body| + 5 + |crc| < TWO16
    requires p.data == body + TrailerBytes(f, s, a) + crc
    ensures Match(r, FrameOf(p)) <==>
            p.flags / 2 % 2 == 1 && f / 8 % 2 == 1 && (r.matchDport >= 0 ==> p.dport == r.matchDport % TWO16)
  {
    TrailerRead(body, f, s, a, crc, p.flags);
  }

  // ---- what is decided ------------------------------------------------------------------------

  /** The decisions of a rule for the first `n` identities, as a replay vector. */
  function Recorded(r: DropRule, n: nat): (v: seq<u8>)
    requires n <= TWO64
    ensures |v| == n && forall i :: 0 <= i < n ==> v[i] == if Decide(r, i) then 1 else 0
  {
    seq(n, i requires 0 <= i < n => if Decide(r, i) then 1 else 0)
  }

  /** Replaying what a rule decided decides the same again, and keeps whatever was not recorded. */
  lemma ReplayReproduces(r: DropRule, n: nat, i: u64)
    requires n <= TWO64
    ensures Decide(r.(replay := Some(Recorded(r, n))), i) <==> i < n && Decide(r, i)
  {
    hide Draw, Threshold;
  }

  /** ci_flow_tracker_t */
  class FlowTracker {
    var lastSeq: u16
    var haveLastSeq: bool
    var epoch: u32
    const mtu: u16
    const overhead: u16

    function View(): Flow
      reads this
    {
      Flow(if haveLastSeq then Some(lastSeq) else None, epoch)
    }

    /** ci_flow_tracker_init_ovh */
    constructor (mtu: u16, overhead: u16)
      ensures View() == Flow(None, 0) && this.mtu == mtu && this.overhead == overhead
    {
      lastSeq, haveLastSeq, epoch := 0, false, 0;
      this.mtu, this.overhead := mtu, overhead;
    }

    /** ci_flow_index */
    method Index(p: Pkt, f: Frame) returns (index: u64)
      requires f == FrameOf(p)
      modifies this
      ensures (View(), index) == FlowIndex(old(View()), mtu, overhead, p)
    {
      hide ParseTrailer, IsWrap, FlowKey, FragmentKey;
      if f.isRdp {
        var h := ParseTrailer(p.data, f.flags);
        if h.Some? {
          if haveLastSeq && IsWrap(lastSeq, h.value.seqNr) {
            epoch := Wrap32(epoch + 1);
          }
          lastSeq := h.value.seqNr;
          haveLastSeq := true;
          return FlowKey(epoch, h.value.seqNr);
        }
        return 0;
      }
      index := Fragment(p.data);
    }

    /** The branch for a packet that is not RDP. */
    method Fragment(data: Packet) returns (frag: u64)
      ensures frag == FragmentKey(data, mtu, overhead)
    {
      frag := 0;
      if |data| >= 4 {
        if mtu > overhead {
          frag := Get32(data) / (mtu - overhead);
        }
      }
    }
  }
}
