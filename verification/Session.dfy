/** svu/svu_session.c: the client's round loop, against whatever the two channels do.

    A run is driven by one input per round: what each control connection of that round yields before
    it goes silent, and what the data socket yields in each idle-terminated window. Nothing relates
    these packets to what a server sent, so a run covers loss, duplication, reordering, corruption and
    stale or forged packets. */
module Session {
  import opened Bytes
  import opened Sha256Spec
  import opened Receiver
  import opened Delivery
  import opened Wire
  import opened Server

  const MAX_ATTEMPTS := 8

  /** One control connection: refused, or these packets and then silence. */
  datatype Conn = Refused | Open(packets: seq<Packet>)

  datatype Meta = Meta(total: u32, block: u32, nblocks: u32, manifest: seq<u8>)

  /** `Overrun` is the one thing left undefined: the byte count wraps while the manifest is read. */
  datatype CtrlResult = NoReply | Overrun | Got(meta: Meta)

  /** The `while (got < man_bytes)` loop of ctrl_exchange. */
  function ReadManifest(chunks: seq<Packet>, size: u32, got: seq<u8>): Option<Option<seq<u8>>>
    requires |got| <= size
  {
    if |got| == size then Some(Some(got))
    else if chunks == [] then Some(None)
    else
      var take := |chunks[0]|;
      if |got| + take >= TWO32 then None
      else ReadManifest(chunks[1..], size, got + chunks[0][..Min(take, size - |got|)])
  }

  /** ctrl_exchange, given what its connection yields. */
  function Exchange(c: Conn): CtrlResult {
    if c.Refused? || c.packets == [] then NoReply
    else
      var hp := c.packets[0];
      if |hp| < RESP_HDR || Get32(hp, 0) != MAGIC_RESP then NoReply
      else
        var nblocks: int := Get32(hp, 16);
        match ReadManifest(c.packets[1..], Wrap32(nblocks * HASH_LEN), [])
        case None => Overrun
        case Some(None) => NoReply
        case Some(Some(m)) => Got(Meta(Get32(hp, 8), Get32(hp, 12), nblocks, m))
  }

  /** Up to `left` exchanges, the first that succeeds ends them. */
  function Attempts(conns: seq<Conn>, left: nat): CtrlResult {
    if left == 0 || conns == [] then NoReply
    else match Exchange(conns[0])
      case NoReply => Attempts(conns[1..], left - 1)
      case r => r
  }

  /** The data packets of a window that carry a payload. */
  function Fragments(ps: seq<Packet>): seq<Fragment> {
    if ps == [] then []
    else
      var last := ps[|ps| - 1];
      Fragments(ps[..|ps| - 1]) + (if |last| > DATA_HDR then [ReadPacket(last)] else [])
  }

  /** Drain and verify until verified or until a window brings nothing. */
  function DrainAll(h: Hash, r: Rx, windows: seq<seq<Packet>>): (r': Rx)
    requires r.Wf()
    ensures r'.Wf() && r'.block == r.block && r'.expected == r.expected && |r'.data| == |r.data|
    decreases |windows|
  {
    if windows == [] then r
    else
      var fs := Fragments(windows[0]);
      var next := DeliverAll(r, fs);
      if fs == [] || Verdict(h, next) == Verified then next else DrainAll(h, next, windows[1..])
  }

  datatype RoundInput = RoundInput(conns: seq<Conn>, windows: seq<seq<Packet>>)

  /** Where the client stands between rounds. `Stopped` has given up; `Undefined` has left the
      language's defined behaviour. */
  datatype Phase =
    | Running(rx: Option<Rx>, ivs: seq<Interval>)
    | Done(verified: Rx)
    | Stopped
    | Undefined

  type State = p: Phase | (p.Running? ==> |p.ivs| <= MAX_INTERVALS && (p.rx.Some? ==> p.rx.value.Wf()))
                          && (p.Done? ==> p.verified.Wf())
    witness Stopped

  const START: State := Running(None, [])

  /** The receiver a round works with: the one it has, or a new one for the manifest just read. */
  function ReceiverFor(rx: Option<Rx>, m: Meta): Option<Rx>
    requires !ShortManifest(rx, m)
  {
    if rx.Some? then rx else New(m.total, m.block, m.manifest, m.nblocks)
  }

  /** ci_svu_new would accept the block count and copy digests from beyond the end of the manifest. */
  predicate ShortManifest(rx: Option<Rx>, m: Meta) {
    rx.None? && NBlocks(m.total, m.block) == m.nblocks && |m.manifest| < HASH_LEN * m.nblocks
  }

  /** What follows the control exchange of a round. */
  function Receive(h: Hash, rx: Option<Rx>, m: Meta, windows: seq<seq<Packet>>): State
    requires rx.Some? ==> rx.value.Wf()
  {
    if ShortManifest(rx, m) then Undefined
    else match ReceiverFor(rx, m)
      case None => Stopped
      case Some(r) =>
        var r' := DrainAll(h, r, windows);
        if Verdict(h, r') == Verified then Done(r')
        else
          var list := RepairList(h, r');
          Running(Some(r'), list[..Min(|list|, MAX_INTERVALS)])
  }

  /** One round, from the receiver of the rounds before it (none yet in the first). */
  function Advance(h: Hash, rx: Option<Rx>, input: RoundInput): State
    requires rx.Some? ==> rx.value.Wf()
  {
    match Attempts(input.conns, MAX_ATTEMPTS)
    case NoReply => Stopped
    case Overrun => Undefined
    case Got(m) => Receive(h, rx, m, input.windows)
  }

  /** One turn of svu_client_run's loop; nothing happens once it has been left. */
  function Step(h: Hash, p: State, input: RoundInput): State {
    if p.Running? then Advance(h, p.rx, input) else p
  }

  const SILENCE := RoundInput([], [])

  function InputAt(inputs: seq<RoundInput>, k: nat): RoundInput {
    if k < |inputs| then inputs[k] else SILENCE
  }

  /** The client after `k` rounds. */
  function After(h: Hash, inputs: seq<RoundInput>, k: nat): State {
    if k == 0 then START else Step(h, After(h, inputs, k - 1), InputAt(inputs, k - 1))
  }

  /** The request a running client sends. */
  function Request(mtu: u32, block: u32, ivs: seq<Interval>): Req
    requires |ivs| <= MAX_INTERVALS
  {
    Req(MAGIC_REQ, 1, mtu, block, |ivs|, 0, InSlots(ivs))
  }

  /** Once the client is no longer running it stays where it is. */
  lemma {:induction false} Settled(h: Hash, inputs: seq<RoundInput>, j: nat, k: nat)
    requires j <= k && !After(h, inputs, j).Running?
    ensures After(h, inputs, k) == After(h, inputs, j)
  {
    if j < k {
      Settled(h, inputs, j, k - 1);
    }
  }

  // ---- the C functions ----------------------------------------------------------------

  /** ctrl_exchange's reading loop; the buffer is filled chunk by chunk. */
  method FillManifest(chunks: seq<Packet>, size: u32) returns (ok: bool, manifest: array<u8>)
    requires ReadManifest(chunks, size, []).Some?
    ensures manifest.Length == size
    ensures ReadManifest(chunks, size, []) == Some(if ok then Some(manifest[..]) else None)
  {
    manifest := new u8[size];
    var got: u32 := 0;
    var next := 0;
    while got < size
      invariant got <= size && next <= |chunks|
      invariant ReadManifest(chunks[next..], size, manifest[..got]) == ReadManifest(chunks, size, [])
      decreases |chunks| - next
    {
      if next == |chunks| {
        return false, manifest;
      }
      var mp := chunks[next];
      var take: u32 := |mp|;
      if Add32(got, take) > size {
        take := size - got;
      }
      ghost var was := manifest[..got];
      forall k | 0 <= k < take {
        manifest[got + k] := mp[k];
      }
      assert manifest[..got + take] == was + mp[..Min(|mp|, size - got)];
      assert chunks[next..][0] == mp && chunks[next..][1..] == chunks[next + 1..];
      got := got + take;
      next := next + 1;
    }
    ok := true;
    assert manifest[..got] == manifest[..];
  }

  /** ctrl_exchange: 0 with the header fields and the manifest, or -1. */
  method CtrlExchange(req: Req, conn: Conn) returns (rc: int, meta: Meta, request: seq<u8>)
    requires Exchange(conn) != Overrun
    ensures request == Encode(req)
    ensures rc == 0 || rc == -1
    ensures Exchange(conn) == if rc == 0 then Got(meta) else NoReply
  {
    meta := Meta(0, 0, 0, []);
    var buf := new u8[REQ_HDR + MAX_INTERVALS * 8];
    var nbytes := ReqEncode(req, buf);
    request := buf[..nbytes];
    if conn.Refused? {
      return -1, meta, request;
    }
    if conn.packets == [] {
      return -1, meta, request;
    }
    var hp := conn.packets[0];
    if |hp| < RESP_HDR || Get32(hp, 0) != MAGIC_RESP {
      return -1, meta, request;
    }
    var total, block, nblocks := Get32(hp, 8), Get32(hp, 12), Get32(hp, 16);
    var ok, manifest := FillManifest(conn.packets[1..], Wrap32(nblocks as int * HASH_LEN));
    if !ok {
      return -1, meta, request;
    }
    return 0, Meta(total, block, nblocks, manifest[..]), request;
  }

  /** The retry loop around ctrl_exchange. */
  method CtrlRetry(req: Req, conns: seq<Conn>) returns (rc: int, meta: Meta)
    requires Attempts(conns, MAX_ATTEMPTS) != Overrun
    ensures rc == 0 || rc == -1
    ensures Attempts(conns, MAX_ATTEMPTS) == if rc == 0 then Got(meta) else NoReply
  {
    rc, meta := -1, Meta(0, 0, 0, []);
    var attempt := 0;
    assert conns[0..] == conns;
    while attempt < MAX_ATTEMPTS
      invariant attempt <= MAX_ATTEMPTS && rc == -1
      invariant Attempts(conns, MAX_ATTEMPTS) ==
                Attempts(conns[Min(attempt, |conns|)..], MAX_ATTEMPTS - attempt)
    {
      var conn := if attempt < |conns| then conns[attempt] else Refused;
      if attempt < |conns| {
        assert conns[attempt..][1..] == conns[attempt + 1..];
      }
      var request;
      rc, meta, request := CtrlExchange(req, conn);
      if rc == 0 {
        return;
      }
      attempt := attempt + 1;
    }
  }

  lemma FragmentsStep(ps: seq<Packet>, i: nat)
    requires i < |ps|
    ensures Fragments(ps[..i + 1]) ==
            if |ps[i]| > DATA_HDR then Fragments(ps[..i]) + [ReadPacket(ps[i])] else Fragments(ps[..i])
  {
    assert ps[..i + 1][..i] == ps[..i];
  }

  lemma DeliverOne(r: Rx, f: Fragment)
    requires r.Wf()
    ensures DeliverAll(r, [f]) == Accept(r, f.off, f.bytes)
  {
    assert [f][..0] == [];
  }

  /** drain_data: every packet of one window, counting the data frames. */
  method DrainData(pkts: seq<Packet>, recv: Tracker) returns (accepted: nat)
    requires recv.Valid()
    modifies recv`coveredCount, recv.data, recv.covered
    ensures recv.Valid() && recv.View() == DeliverAll(old(recv.View()), Fragments(pkts))
    ensures accepted == |Fragments(pkts)|
  {
    hide IsSha256;
    accepted := 0;
    ghost var was := recv.View();
    for i := 0 to |pkts|
      invariant recv.Valid() && recv.View() == DeliverAll(was, Fragments(pkts[..i]))
      invariant accepted == |Fragments(pkts[..i])|
    {
      FragmentsStep(pkts, i);
      if |pkts[i]| > DATA_HDR {
        ghost var sofar := Fragments(pkts[..i]);
        DeliverAppend(was, sofar, [ReadPacket(pkts[i])]);
        DeliverOne(DeliverAll(was, sofar), ReadPacket(pkts[i]));
        var off := Get32(pkts[i]);
        var rc := recv.Deliver(off, pkts[i][DATA_HDR..]);
        accepted := accepted + 1;
      }
    }
    assert pkts[..|pkts|] == pkts;
  }

  /** The inner `for (;;)` of svu_client_run. It ends because every turn but the last consumes a
      window of packets that were in flight. */
  method DrainUntilQuiet(windows: seq<seq<Packet>>, recv: Tracker, ivs: array<Interval>)
    returns (st: Status, nout: nat)
    requires recv.Valid() && ivs.Length == MAX_INTERVALS
    modifies recv`coveredCount, recv.data, recv.covered, ivs
    ensures recv.Valid() && recv.View() == DrainAll(recv.h, old(recv.View()), windows)
    ensures st == Verdict(recv.h, recv.View()) && nout == |RepairList(recv.h, recv.View())|
    ensures Listed(ivs, MAX_INTERVALS, RepairList(recv.h, recv.View()))
  {
    hide IsSha256, Verdict, RepairList;
    var i := 0;
    ghost var goal := DrainAll(recv.h, recv.View(), windows);
    assert windows[0..] == windows;
    while true
      invariant i <= |windows| && recv.Valid()
      invariant DrainAll(recv.h, recv.View(), windows[i..]) == goal
      decreases |windows| - i
    {
      var window := if i < |windows| then windows[i] else [];
      ghost var was, rest := recv.View(), windows[i..];
      var got := DrainData(window, recv);
      st, nout := recv.Verify(ivs, MAX_INTERVALS);
      if i < |windows| {
        assert rest[0] == window && rest[1..] == windows[i + 1..];
      }
      if st == Verified || got == 0 {
        break;
      }
      i := i + 1;
    }
  }

  /** The requests a run of at most `n` rounds sends: one for each round it starts. */
  function Requests(h: Hash, mtu: u32, block: u32, inputs: seq<RoundInput>, n: nat): seq<Req> {
    if n == 0 then []
    else
      var p := After(h, inputs, n - 1);
      Requests(h, mtu, block, inputs, n - 1) + (if p.Running? then [Request(mtu, block, p.ivs)] else [])
  }

  lemma RequestsStep(h: Hash, mtu: u32, block: u32, inputs: seq<RoundInput>, n: nat, req: Req)
    requires After(h, inputs, n).Running? && req == Request(mtu, block, After(h, inputs, n).ivs)
    ensures Requests(h, mtu, block, inputs, n + 1) == Requests(h, mtu, block, inputs, n) + [req]
  {
  }

  lemma {:induction false} RequestsSettled(h: Hash, mtu: u32, block: u32, inputs: seq<RoundInput>, j: nat, n: nat)
    requires j <= n && !After(h, inputs, j).Running?
    ensures After(h, inputs, n) == After(h, inputs, j)
    ensures Requests(h, mtu, block, inputs, n) == Requests(h, mtu, block, inputs, j)
  {
    if j < n {
      RequestsSettled(h, mtu, block, inputs, j, n - 1);
    }
  }

  ghost function Footprint(t: Tracker?): set<object> {
    if t == null then {} else {t, t.data, t.covered}
  }

  /** No receiver yet, or a sound one for hash `h`. */
  ghost predicate Sound(h: Hash, t: Tracker?)
    reads Footprint(t)
  {
    t != null ==> t.Valid() && t.h == h
  }

  ghost function ViewOf(t: Tracker?): Option<Rx>
    reads Footprint(t)
  {
    if t == null then None else Some(t.View())
  }

  /** The body of svu_client_run's round loop. `ok` is false where it jumps to `done`. */
  method RunRound(ghost h: Hash, req: Req, prior: Tracker?, ivs: array<Interval>, input: RoundInput)
    returns (ok: bool, recv: Tracker?, st: Status, nout: nat)
    requires IsSha256(h) && ivs.Length == MAX_INTERVALS
    requires Sound(h, prior) && Advance(h, ViewOf(prior), input) != Undefined
    modifies ivs, Footprint(prior)
    ensures Sound(h, recv) && (recv == prior || fresh(Footprint(recv)))
    ensures ok ==> recv != null && nout == |RepairList(h, recv.View())|
    ensures Advance(h, old(ViewOf(prior)), input) ==
            if !ok then Stopped
            else if st == Verified then Done(recv.View())
            else Running(Some(recv.View()), ivs[..Min(nout, MAX_INTERVALS)])
  {
    hide IsSha256;
    ok, recv, st, nout := false, prior, Incomplete, 0;
    var ctrlOk, meta := CtrlRetry(req, input.conns);
    if ctrlOk != 0 {
      return;
    }
    if recv == null {
      recv := Tracker.Create(h, meta.total, meta.block, meta.manifest, meta.nblocks);
      if recv == null {
        return;
      }
    }
    st, nout := DrainUntilQuiet(input.windows, recv, ivs);
    ok := true;
  }

  /** svu_client_run's round loop: whether it ended verified, and with which receiver. */
  method RunRounds(ghost h: Hash, mtu: u32, block: u32, maxRounds: nat, inputs: seq<RoundInput>)
    returns (verified: bool, recv: Tracker?, requests: seq<Req>)
    requires IsSha256(h) && After(h, inputs, maxRounds) != Undefined
    ensures verified == After(h, inputs, maxRounds).Done?
    ensures verified ==> recv != null && recv.View() == After(h, inputs, maxRounds).verified
    ensures requests == Requests(h, mtu, block, inputs, maxRounds)
  {
    hide Advance, IsSha256;
    verified, recv, requests := false, null, [];
    var ivs := new Interval[MAX_INTERVALS](_ => Interval(0, 0));
    var nreq: u32 := 0;
    var round := 0;
    while round < maxRounds
      invariant round <= maxRounds && nreq <= MAX_INTERVALS
      invariant requests == Requests(h, mtu, block, inputs, round)
      invariant Sound(h, recv) && fresh(Footprint(recv))
      invariant After(h, inputs, round) == Running(ViewOf(recv), ivs[..nreq])
    {
      var req := Request(mtu, block, ivs[..nreq]);
      RequestsStep(h, mtu, block, inputs, round, req);
      requests := requests + [req];
      ghost var next := After(h, inputs, round + 1);
      assert next == Advance(h, ViewOf(recv), InputAt(inputs, round));
      if !next.Running? {
        RequestsSettled(h, mtu, block, inputs, round + 1, maxRounds);
      }
      var ok, st, nout;
      ok, recv, st, nout := RunRound(h, req, recv, ivs, InputAt(inputs, round));
      if !ok || st == Verified {
        return ok, recv, requests;
      }
      nreq := if nout < MAX_INTERVALS then nout else MAX_INTERVALS;
      round := round + 1;
    }
  }

  /** svu_client_run: 0 and the file written, or -1. Each round it starts sends one request, for the
      ranges it lacks at that point. */
  method ClientRun(ghost h: Hash, mtu: u32, block: u32, maxRounds: nat, inputs: seq<RoundInput>, opens: bool)
    returns (result: int, written: Option<seq<u8>>, requests: seq<Req>)
    requires IsSha256(h) && After(h, inputs, maxRounds) != Undefined
    ensures var end := After(h, inputs, maxRounds);
            if end.Done? && opens then result == 0 && written == Some(end.verified.data)
            else result == -1 && written == None
    ensures requests == Requests(h, mtu, block, inputs, maxRounds)
  {
    hide IsSha256;
    var verified, recv;
    verified, recv, requests := RunRounds(h, mtu, block, maxRounds, inputs);
    if !verified {
      return -1, None, requests;
    }
    if !opens {
      return -1, None, requests;
    }
    return 0, Some(recv.data[..]), requests;
  }
}
