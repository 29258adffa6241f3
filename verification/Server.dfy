/** svu/svu_serve.c: the manifest reply and the data blast for one meta request. */
module Server {
  import opened Bytes
  import opened Sha256Spec
  import opened Receiver
  import opened Delivery
  import opened Wire

  const CHUNK := 200

  /** The response header: magic, session, payload size, block size, block count. */
  function Header(session: u32, total: u32, block: u32, nblocks: u32): (p: Packet)
    ensures |p| == RESP_HDR
  {
    Le32(MAGIC_RESP) + Le32(session) + Le32(total) + Le32(block) + Le32(nblocks)
  }

  /** The manifest cut into chunks of 200 bytes. */
  function Chunks(m: seq<u8>): (cs: seq<Packet>)
    ensures forall c :: c in cs ==> 0 < |c| <= CHUNK
  {
    if m == [] then [] else
      var k := Min(|m|, CHUNK);
      [m[..k]] + Chunks(m[k..])
  }

  /** One data packet: offset, session, payload. */
  function DataPacket(session: u32, f: Fragment): Packet {
    Le32(f.off) + Le32(session) + f.bytes
  }

  function DataPackets(session: u32, fs: seq<Fragment>): (ps: seq<Packet>)
    ensures |ps| == |fs| && forall k :: 0 <= k < |fs| ==> ps[k] == DataPacket(session, fs[k])
  {
    seq(|fs|, k requires 0 <= k < |fs| => DataPacket(session, fs[k]))
  }

  lemma DataPacketsAppend(session: u32, a: seq<Fragment>, b: seq<Fragment>)
    ensures DataPackets(session, a + b) == DataPackets(session, a) + DataPackets(session, b)
  {
  }

  /** How a data packet is read: bytes 0..4 are the offset, the payload starts at byte 8. */
  function ReadPacket(p: Packet): Fragment
    requires |p| > DATA_HDR
  {
    Fragment(Get32(p), p[DATA_HDR..])
  }

  lemma ReadDataPacket(session: u32, f: Fragment)
    requires 0 < |f.bytes|
    ensures |DataPacket(session, f)| > DATA_HDR && ReadPacket(DataPacket(session, f)) == f
  {
    Get32Slice(DataPacket(session, f), 0, f.off);
  }

  /** The mtu the server works with. */
  function ServedMtu(mtu: u32): u32 {
    if mtu > DATA_HDR then mtu else 256
  }

  /** Payload bytes per data packet. */
  function PayloadSize(mtu: u32): (pay: nat)
    ensures pay > 0
  {
    if mtu > DATA_HDR then mtu - DATA_HDR else 1
  }

  /** The ranges a request names; none at all means the whole file. */
  function Ranges(req: Req, total: u32): seq<Interval>
    requires req.nof <= MAX_INTERVALS
  {
    if req.nof == 0 then [Interval(0, total)] else req.intervals[..req.nof]
  }

  datatype Reply = Reply(ctrl: seq<Packet>, data: seq<Packet>)

  /** What the loop needs of a file and a request to stay inside its 32-bit counters and its 16-bit
      packet lengths. */
  predicate Fits(total: u32, block: u32, mtu: u32) {
    && NBlocks(total, block) * HASH_LEN + CHUNK < TWO32
    && mtu < TWO16 && total as int + PayloadSize(mtu) < TWO32
  }

  /** Data packets of the size asked for can be built. */
  predicate Sensible(pkt: seq<u8>) {
    Decode(pkt).Some? ==> Decode(pkt).value.mtu < TWO16
  }

  /** The server can answer `pkt`: it is malformed, or its mtu keeps the counters in range. */
  predicate Servable(total: u32, block: u32, pkt: seq<u8>) {
    Decode(pkt).Some? ==> Fits(total, block, ServedMtu(Decode(pkt).value.mtu))
  }

  /** The fragments blasted in answer to `req`. */
  function Blasted(src: seq<u8>, req: Req): seq<Fragment>
    requires |src| < TWO32 && req.nof <= MAX_INTERVALS && req.mtu < TWO16
  {
    Blast(src, PayloadSize(ServedMtu(req.mtu)), Ranges(req, |src|))
  }

  /** The control half of the server's answer to one control packet; nothing for a malformed request. */
  function ServeControl(h: Hash, src: seq<u8>, block: u32, pkt: Packet): seq<Packet>
    requires |src| < TWO32
  {
    match Decode(pkt)
    case None => []
    case Some(req) =>
      [Header(req.session, |src|, block, NBlocks(|src|, block))] + Chunks(Manifest(h, src, block))
  }

  /** The data half: the blast on the data port. */
  function ServeData(src: seq<u8>, pkt: Packet): seq<Packet>
    requires |src| < TWO32 && Sensible(pkt)
  {
    match Decode(pkt)
    case None => []
    case Some(req) => DataPackets(req.session, Blasted(src, req))
  }

  /** The server's answer to the bytes of one control packet. */
  function Serve(h: Hash, src: seq<u8>, block: u32, pkt: Packet): Reply
    requires |src| < TWO32 && Sensible(pkt)
  {
    Reply(ServeControl(h, src, block, pkt), ServeData(src, pkt))
  }

  // ---- the loops ------------------------------------------------------------------

  /** The chunks still to be sent when the loop is at `off`, which may have passed the end. */
  function ChunksFrom(m: seq<u8>, off: nat): seq<Packet> {
    Chunks(m[Min(off, |m|)..])
  }

  lemma ChunkStep(m: seq<u8>, off: nat, len: nat, next: nat, pkt: Packet, sent: seq<Packet>)
    requires off < |m| && next == off + CHUNK && off + len == Min(next, |m|)
    requires pkt == m[off..off + len]
    ensures sent + ChunksFrom(m, off) == sent + [pkt] + ChunksFrom(m, next)
  {
    var rest := m[off..];
    assert rest[..len] == pkt && rest[len..] == m[off + len..];
    assert sent + ([pkt] + ChunksFrom(m, next)) == sent + [pkt] + ChunksFrom(m, next);
  }

  /** send_manifest: the packets it sends, in order. */
  method SendManifest(manifest: seq<u8>) returns (sent: seq<Packet>)
    requires |manifest| + CHUNK < TWO32
    ensures sent == Chunks(manifest)
  {
    sent := [];
    var off: u32 := 0;
    assert manifest[0..] == manifest;
    while off < |manifest|
      invariant sent + ChunksFrom(manifest, off) == Chunks(manifest)
      decreases |manifest| - off
    {
      var next := Add32(off, CHUNK);
      var len := if next <= |manifest| then CHUNK else |manifest| - off;
      var pkt: Packet := manifest[off..off + len];
      ChunkStep(manifest, off, len, next, pkt, sent);
      sent := sent + [pkt];
      off := next;
    }
  }

  /** The packet buffer blast_interval fills for the `len` bytes at `off`. */
  method FillPacket(session: u32, src: seq<u8>, off: u32, len: nat) returns (p: Packet)
    requires off + len <= |src| && len + DATA_HDR < TWO16
    ensures p == DataPacket(session, Fragment(off, src[off..off + len]))
  {
    var pkt := new u8[DATA_HDR + len];
    Append32(pkt, 0, off);
    Append32(pkt, 4, session);
    forall k | 0 <= k < len {
      pkt[DATA_HDR + k] := src[off + k];
    }
    p := pkt[..];
  }

  /** blast_interval: the packets it sends for [start, end), in order. */
  method BlastInterval(session: u32, mtu: u32, src: seq<u8>, start: u32, end: u32)
    returns (sent: seq<Packet>)
    requires mtu < TWO16 && end <= |src| && |src| + PayloadSize(mtu) < TWO32
    ensures sent == DataPackets(session, Tile(src, PayloadSize(mtu), start, end))
  {
    var pay: u32 := if mtu > DATA_HDR then mtu - DATA_HDR else 1;
    ghost var all := Tile(src, pay, start, end);
    ghost var done: seq<Fragment> := [];
    sent := [];
    var off := start;
    while off < end
      invariant off == start || off <= end + pay
      invariant done + Tile(src, pay, off, end) == all
      invariant sent == DataPackets(session, done)
      decreases end - off
    {
      var next := Add32(off, pay);
      var len := if next <= end then pay else end - off;
      TileStep(src, pay, off, end, len, next, done);
      var pkt := FillPacket(session, src, off, len);
      ghost var f := Fragment(off, src[off..off + len]);
      DataPacketsAppend(session, done, [f]);
      done := done + [f];
      sent := sent + [pkt];
      off := next;
    }
  }

  lemma TileStep(src: seq<u8>, pay: nat, off: nat, end: nat, len: nat, next: nat, done: seq<Fragment>)
    requires 0 < pay <= MAX_PAYLOAD && off < end <= |src| < TWO32
    requires next == off + pay && off + len == Min(next, end)
    ensures done + Tile(src, pay, off, end) ==
            done + [Fragment(off, src[off..off + len])] + Tile(src, pay, next, end)
  {
  }

  /** One turn of svu_serve_loop: read a request, reply on its connection, blast the data. */
  method ServeRequest(ghost h: Hash, src: seq<u8>, block: u32, manifest: seq<u8>, pkt: array<u8>, len: nat)
    returns (r: Reply)
    requires len <= pkt.Length && len < TWO16
    requires |src| < TWO32 && manifest == Manifest(h, src, block)
    requires Sensible(pkt[..len]) && Servable(|src|, block, pkt[..len])
    ensures r == Serve(h, src, block, pkt[..len])
  {
    var parsed := ReqDecode(pkt, len);
    if parsed.None? {
      return Reply([], []);
    }
    var chunks := SendManifest(manifest);
    var data := BlastReply(parsed.value, src);
    r := Reply([Header(parsed.value.session, |src|, block, NBlocks(|src|, block))] + chunks, data);
  }

  /** The blast half of svu_serve_loop's turn: no intervals means the whole file. */
  method BlastReply(req: Req, src: seq<u8>) returns (data: seq<Packet>)
    requires req.nof <= MAX_INTERVALS && req.mtu < TWO16
    requires |src| + PayloadSize(ServedMtu(req.mtu)) < TWO32
    ensures data == DataPackets(req.session, Blasted(src, req))
  {
    var mtu := if req.mtu > DATA_HDR then req.mtu else 256;
    if req.nof == 0 {
      BlastWhole(src, PayloadSize(mtu));
      data := BlastInterval(req.session, mtu, src, 0, |src|);
    } else {
      data := BlastRanges(req.session, mtu, src, req.intervals[..req.nof]);
    }
  }

  /** svu_serve_loop: one answer for each control packet read. */
  method ServeLoop(ghost h: Hash, src: seq<u8>, block: u32, requests: seq<Packet>) returns (replies: seq<Reply>)
    requires IsSha256(h) && |src| < TWO32
    requires forall k :: 0 <= k < |requests| ==> Sensible(requests[k]) && Servable(|src|, block, requests[k])
    ensures |replies| == |requests|
    ensures forall k :: 0 <= k < |requests| ==> replies[k] == Serve(h, src, block, requests[k])
  {
    hide IsSha256, Serve, Sensible, Servable;
    var manifest := BuildManifest(h, src, block);
    replies := [];
    for i := 0 to |requests|
      invariant |replies| == i
      invariant forall k :: 0 <= k < i ==> replies[k] == Serve(h, src, block, requests[k])
    {
      var r := ServeBytes(h, src, block, manifest, requests[i]);
      replies := replies + [r];
    }
  }

  method ServeBytes(ghost h: Hash, src: seq<u8>, block: u32, manifest: seq<u8>, p: Packet) returns (r: Reply)
    requires |src| < TWO32 && manifest == Manifest(h, src, block) && Sensible(p) && Servable(|src|, block, p)
    ensures r == Serve(h, src, block, p)
  {
    var pkt := new u8[|p|](k requires 0 <= k < |p| => p[k]);
    assert pkt[..|p|] == p;
    r := ServeRequest(h, src, block, manifest, pkt, |p|);
  }

  lemma BlastWhole(src: seq<u8>, pay: nat)
    requires 0 < pay <= MAX_PAYLOAD && |src| < TWO32
    ensures Blast(src, pay, [Interval(0, |src|)]) == Tile(src, pay, 0, |src|)
  {
    var iv := Interval(0, |src|);
    assert Blast(src, pay, [iv]) == Blast(src, pay, []) + Tile(src, pay, 0, |src|);
  }

  /** The interval loop of svu_serve_loop. */
  method BlastRanges(session: u32, mtu: u32, src: seq<u8>, ivs: seq<Interval>)
    returns (data: seq<Packet>)
    requires mtu < TWO16 && |src| + PayloadSize(mtu) < TWO32
    ensures data == DataPackets(session, Blast(src, PayloadSize(mtu), ivs))
  {
    ghost var sent: seq<Fragment> := [];
    data := [];
    for i := 0 to |ivs|
      invariant sent == Blast(src, PayloadSize(mtu), ivs[..i])
      invariant data == DataPackets(session, sent)
    {
      var s, e := ivs[i].start, ivs[i].end;
      if e > |src| {
        e := |src|;
      }
      assert ivs[..i + 1][..i] == ivs[..i];
      ghost var tile := Tile(src, PayloadSize(mtu), s, e);
      assert Blast(src, PayloadSize(mtu), ivs[..i + 1]) == sent + tile;
      if s < e {
        var more := BlastInterval(session, mtu, src, s, e);
        DataPacketsAppend(session, sent, tile);
        data := data + more;
        sent := sent + tile;
      } else {
        assert sent + tile == sent;
      }
    }
    assert ivs[..|ivs|] == ivs;
  }
}
