/** What the server makes of the client's requests: the bytes one side encodes, decoded and answered by the
    other. */
module Answers {
  import opened Bytes
  import opened Sha256Spec
  import opened Receiver
  import opened Delivery
  import opened Wire
  import opened Server
  import opened Session

  // ---- reading packets back -------------------------------------------------------------------

  lemma FragmentsSnoc(ps: seq<Packet>, p: Packet)
    ensures Fragments(ps + [p]) == Fragments(ps) + (if |p| > DATA_HDR then [ReadPacket(p)] else [])
  {
    assert (ps + [p])[..|ps|] == ps;
  }

  lemma {:induction false} BlastNotEmpty(src: seq<u8>, pay: nat, ivs: seq<Interval>)
    requires 0 < pay <= MAX_PAYLOAD && |src| < TWO32
    ensures forall f :: f in Blast(src, pay, ivs) ==> |f.bytes| > 0
  {
    if ivs != [] {
      var n := |ivs| - 1;
      BlastNotEmpty(src, pay, ivs[..n]);
      TileNotEmpty(src, pay, ivs[n].start, Min(ivs[n].end, |src|));
    }
  }

  lemma {:induction false} TileNotEmpty(src: seq<u8>, pay: nat, s: nat, e: nat)
    requires 0 < pay <= MAX_PAYLOAD && e <= |src| < TWO32
    ensures forall f :: f in Tile(src, pay, s, e) ==> |f.bytes| > 0
    decreases e - s
  {
    if s < e {
      TileNotEmpty(src, pay, s + pay, e);
    }
  }

  lemma {:induction false} PacketsRead(fs: seq<Fragment>)
    requires forall f :: f in fs ==> |f.bytes| > 0
    ensures Fragments(DataPackets(1, fs)) == fs
  {
    hide ReadPacket, DataPacket;
    if fs != [] {
      var n := |fs| - 1;
      assert fs[n] in fs && fs == fs[..n] + [fs[n]];
      PacketsRead(fs[..n]);
      ReadDataPacket(1, fs[n]);
      DataPacketsAppend(1, fs[..n], [fs[n]]);
      FragmentsSnoc(DataPackets(1, fs[..n]), DataPacket(1, fs[n]));
    }
  }

  // ---- a request and its answer -----------------------------------------------------------------

  /** The server reads the request the client meant. */
  lemma RequestRead(mtu: u32, block: u32, ivs: seq<Interval>)
    requires |ivs| <= MAX_INTERVALS
    ensures Decode(Encode(Request(mtu, block, ivs))) == Some(Request(mtu, block, ivs))
  {
    DecodeEncode(Request(mtu, block, ivs));
    assert InSlots(ivs)[..|ivs|] == ivs;
  }

  /** The server's whole answer to the request of a client that lacks `ivs`. */
  function Answer(h: Hash, src: seq<u8>, mtu: u32, block: u32, ivs: seq<Interval>): Reply
    requires |src| < TWO32 && mtu < TWO16 && |ivs| <= MAX_INTERVALS
  {
    RequestRead(mtu, block, ivs);
    Serve(h, src, block, Encode(Request(mtu, block, ivs)))
  }

  lemma RequestedRanges(mtu: u32, block: u32, ivs: seq<Interval>, total: u32)
    requires |ivs| <= MAX_INTERVALS
    ensures Ranges(Request(mtu, block, ivs), total) == if ivs == [] then [Interval(0, total)] else ivs
  {
    assert InSlots(ivs)[..|ivs|] == ivs;
  }

  /** Its data packets are those of the blast asked for, and are read back as its frames. */
  lemma AnswerData(h: Hash, src: seq<u8>, mtu: u32, block: u32, ivs: seq<Interval>)
    requires |src| < TWO32 && mtu < TWO16 && |ivs| <= MAX_INTERVALS
    ensures var r, fs := Answer(h, src, mtu, block, ivs), Blasted(src, Request(mtu, block, ivs));
            r.data == DataPackets(1, fs) && Fragments(r.data) == fs
  {
    hide Encode, Decode, Blast, Fragments;
    RequestRead(mtu, block, ivs);
    var req := Request(mtu, block, ivs);
    BlastNotEmpty(src, PayloadSize(ServedMtu(req.mtu)), Ranges(req, |src|));
    PacketsRead(Blasted(src, req));
  }

  /** Its control packets are the header, under the client's session, and the manifest. */
  lemma AnswerControl(h: Hash, src: seq<u8>, mtu: u32, block: u32, ivs: seq<Interval>)
    requires |src| < TWO32 && mtu < TWO16 && |ivs| <= MAX_INTERVALS
    ensures Answer(h, src, mtu, block, ivs).ctrl ==
            [Header(1, |src|, block, NBlocks(|src|, block))] + Chunks(Manifest(h, src, block))
  {
    hide Encode, Decode;
    RequestRead(mtu, block, ivs);
  }

  /** The payload size the client asked for, or that of a 256-byte packet when it asked for less than a
      header. */
  function AskedPayload(mtu: u32): nat {
    if mtu > DATA_HDR then mtu - DATA_HDR else 256 - DATA_HDR
  }

  /** What the answer is worth: all its frames are pieces of the file, no longer than asked for, and byte
      `i` of the file is in one of them if and only if it was asked for, every byte being asked for by a
      request without ranges. */
  lemma AnswerExact(h: Hash, src: seq<u8>, mtu: u32, block: u32, ivs: seq<Interval>, i: nat)
    requires i < |src| < TWO32 && mtu < TWO16 && |ivs| <= MAX_INTERVALS
    ensures var fs := Fragments(Answer(h, src, mtu, block, ivs).data);
            && (forall f :: f in fs ==> f.Of(src) && 0 < |f.bytes| <= AskedPayload(mtu))
            && (HitBy(fs, |src|, i) <==> ivs == [] || Requested(ivs, i))
            && (ivs == [] ==> Tiles(fs, src, AskedPayload(mtu), 0, |src|))
  {
    hide Answer, Fragments, Tiles, HitBy, Blasted, AskedPayload;
    AnswerData(h, src, mtu, block, ivs);
    BlastedExact(src, mtu, block, ivs, i);
  }

  lemma BlastedExact(src: seq<u8>, mtu: u32, block: u32, ivs: seq<Interval>, i: nat)
    requires i < |src| < TWO32 && mtu < TWO16 && |ivs| <= MAX_INTERVALS
    ensures var fs := Blasted(src, Request(mtu, block, ivs));
            && (forall f :: f in fs ==> f.Of(src) && 0 < |f.bytes| <= AskedPayload(mtu))
            && (HitBy(fs, |src|, i) <==> ivs == [] || Requested(ivs, i))
            && (ivs == [] ==> Tiles(fs, src, AskedPayload(mtu), 0, |src|))
  {
    hide Tiles, HitBy, Blast, Tile, Fragment.Of;
    var pay, ranges := AskedPayload(mtu), if ivs == [] then [Interval(0, |src|)] else ivs;
    RequestedRanges(mtu, block, ivs, |src|);
    assert Blasted(src, Request(mtu, block, ivs)) == Blast(src, pay, ranges);
    BlastHits(src, pay, ranges, i);
    BlastNotEmpty(src, pay, ranges);
    BlastBounded(src, pay, ranges);
    if ivs == [] {
      BlastWhole(src, pay);
      TileExact(src, pay, 0, |src|);
      assert ranges[0].start <= i < ranges[0].end;
    }
  }

  lemma {:induction false} BlastBounded(src: seq<u8>, pay: nat, ivs: seq<Interval>)
    requires 0 < pay <= MAX_PAYLOAD && |src| < TWO32
    ensures forall f :: f in Blast(src, pay, ivs) ==> |f.bytes| <= pay
  {
    if ivs != [] {
      var n := |ivs| - 1;
      BlastBounded(src, pay, ivs[..n]);
      TileBounded(src, pay, ivs[n].start, Min(ivs[n].end, |src|));
    }
  }

  lemma {:induction false} TileBounded(src: seq<u8>, pay: nat, s: nat, e: nat)
    requires 0 < pay <= MAX_PAYLOAD && e <= |src| < TWO32
    ensures forall f :: f in Tile(src, pay, s, e) ==> |f.bytes| <= pay
    decreases e - s
  {
    if s < e {
      TileBounded(src, pay, s + pay, e);
    }
  }

  lemma {:induction false} RequestCount(h: Hash, mtu: u32, block: u32, inputs: seq<RoundInput>, n: nat)
    requires n > 0 ==> After(h, inputs, n - 1).Running?
    ensures |Requests(h, mtu, block, inputs, n)| == n
  {
    hide Step;
    if n > 1 {
      if !After(h, inputs, n - 2).Running? {
        Settled(h, inputs, n - 2, n - 1);
      }
      RequestCount(h, mtu, block, inputs, n - 1);
    }
  }

  lemma {:induction false} RequestAt(h: Hash, mtu: u32, block: u32, inputs: seq<RoundInput>, n: nat, k: nat)
    requires k < n && After(h, inputs, k).Running?
    ensures var rs := Requests(h, mtu, block, inputs, n);
            k < |rs| && rs[k] == Request(mtu, block, After(h, inputs, k).ivs)
  {
    hide Step, Request;
    if k < n - 1 {
      RequestAt(h, mtu, block, inputs, n - 1, k);
    } else {
      if k > 0 && !After(h, inputs, k - 1).Running? {
        Settled(h, inputs, k - 1, k);
      }
      RequestCount(h, mtu, block, inputs, k);
    }
  }

  /** The request a run sends in round `k`, put on the wire, gets the answer for what the client lacks
      then. */
  lemma RequestAnswered(
    h: Hash, src: seq<u8>, mtu: u32, block: u32, inputs: seq<RoundInput>, n: nat, k: nat)
    requires |src| < TWO32 && mtu < TWO16 && k < n && After(h, inputs, k).Running?
    ensures var rs := Requests(h, mtu, block, inputs, n);
            && k < |rs| && Sensible(Encode(rs[k]))
            && Serve(h, src, block, Encode(rs[k])) == Answer(h, src, mtu, block, After(h, inputs, k).ivs)
  {
    hide After, Requests, Serve, Encode, Decode;
    RequestAt(h, mtu, block, inputs, n, k);
    RequestRead(mtu, block, After(h, inputs, k).ivs);
  }

  /** Every data packet bears the client's session after its offset. */
  lemma AnswerSession(h: Hash, src: seq<u8>, mtu: u32, block: u32, ivs: seq<Interval>, p: Packet)
    requires |src| < TWO32 && mtu < TWO16 && |ivs| <= MAX_INTERVALS && p in Answer(h, src, mtu, block, ivs).data
    ensures |p| > DATA_HDR && Get32(p, 4) == 1
  {
    hide Answer, Fragments, Blasted;
    AnswerData(h, src, mtu, block, ivs);
    var fs := Blasted(src, Request(mtu, block, ivs));
    var k :| 0 <= k < |fs| && p == DataPacket(1, fs[k]);
    assert p[4..8] == Le32(1);
    Get32Slice(p, 4, 1);
    NotEmptyAt(src, mtu, block, ivs, k);
  }

  lemma NotEmptyAt(src: seq<u8>, mtu: u32, block: u32, ivs: seq<Interval>, k: nat)
    requires |src| < TWO32 && mtu < TWO16 && |ivs| <= MAX_INTERVALS
    requires k < |Blasted(src, Request(mtu, block, ivs))|
    ensures |Blasted(src, Request(mtu, block, ivs))[k].bytes| > 0
  {
    var req := Request(mtu, block, ivs);
    BlastNotEmpty(src, PayloadSize(ServedMtu(req.mtu)), Ranges(req, |src|));
    assert Blasted(src, req)[k] in Blasted(src, req);
  }
}
