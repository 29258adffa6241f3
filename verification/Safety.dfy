/** "Never success on wrong bytes": whole-run safety of the client, for every hash function. */
module Safety {
  import opened Bytes
  import opened Sha256Spec
  import opened Receiver
  import opened Repair
  import opened Wire
  import opened Server
  import opened Session
  import opened Control
  import opened Answers

  /** Some block of the two files differs and still has the same digest. */
  ghost predicate Collision(h: Hash, src: seq<u8>, data: seq<u8>, block: u32)
    requires |src| == |data| < TWO32
  {
    exists b :: 0 <= b < NBlocks(|src|, block)
      && Block(src, block, b) != Block(data, block, b)
      && h(Block(src, block, b)) == h(Block(data, block, b))
  }

  lemma {:induction false} ManifestSlice(h: Hash, src: seq<u8>, block: nat, n: nat, b: nat)
    requires b < n
    ensures ManifestTo(h, src, block, n)[HASH_LEN * b..HASH_LEN * b + HASH_LEN] == h(Block(src, block, b))
  {
    var front, last := ManifestTo(h, src, block, n - 1), h(Block(src, block, n - 1));
    assert ManifestTo(h, src, block, n) == front + last;
    if b < n - 1 {
      ManifestSlice(h, src, block, n - 1, b);
      assert (front + last)[HASH_LEN * b..HASH_LEN * b + HASH_LEN] == front[HASH_LEN * b..HASH_LEN * b + HASH_LEN];
    } else {
      assert (front + last)[HASH_LEN * b..] == last;
    }
  }

  /** Every byte lies in a block. */
  lemma BlockOf(total: u32, block: u32, i: nat) returns (b: nat)
    requires NBlocks(total, block) > 0 && i < total
    ensures b < NBlocks(total, block) && BlockStart(total, block, b) <= i < BlockEnd(total, block, b)
  {
    NBlocksExact(total, block);
    b := FindBlock(total, block, NBlocks(total, block), i);
  }

  lemma FindBlock(total: nat, block: nat, n: nat, i: nat) returns (b: nat)
    requires block > 0 && i < total && IsCeiling(n, total, block)
    ensures b < n && b * block <= i < b * block + block
  {
    b := i / block;
    assert i == block * b + i % block;
    assert block * b == b * block;
    if b >= n {
      MulMono(n, b, block);
    }
  }

  /** Where two files differ, a block differs. */
  lemma BlocksDiffer(src: seq<u8>, data: seq<u8>, block: u32, i: nat) returns (b: nat)
    requires |src| == |data| < TWO32 && NBlocks(|src|, block) > 0 && i < |src| && src[i] != data[i]
    ensures b < NBlocks(|src|, block) && Block(src, block, b) != Block(data, block, b)
  {
    b := BlockOf(|src|, block, i);
    var lo := BlockStart(|src|, block, b);
    hide BlockStart, BlockEnd, NBlocks;
    assert Block(src, block, b)[i - lo] == src[i] && Block(data, block, b)[i - lo] == data[i];
  }

  /** The gate: a receiver holding the manifest of `src` that verifies holds `src`, or exhibits two
      different blocks with one digest. */
  lemma Gate(h: Hash, src: seq<u8>, r: Rx)
    requires r.Wf() && |src| == |r.data| && r.expected == Manifest(h, src, r.block)
    requires Verdict(h, r) == Verified
    ensures r.data == src || Collision(h, src, r.data, r.block)
  {
    hide Block, NBlocks, Verdict, ManifestTo;
    if r.data != src {
      var i :| 0 <= i < |src| && r.data[i] != src[i];
      var b := BlocksDiffer(src, r.data, r.block, i);
      VerdictExact(h, r);
      assert !r.Bad(h, b);
      ManifestSlice(h, src, r.block, r.N(), b);
    }
  }

  // ---- whole runs ---------------------------------------------------------------------

  /** `m` describes `src` truthfully. */
  ghost predicate Truthful(h: Hash, src: seq<u8>, m: Meta) {
    && |src| < TWO32 && m.total == |src|
    && m.nblocks == NBlocks(|src|, m.block) && m.manifest == Manifest(h, src, m.block)
  }

  /** The receiver was set up from `m`. */
  ghost predicate SetUpFrom(r: Rx, m: Meta)
    requires r.Wf()
  {
    |r.data| == m.total && r.block == m.block && r.expected == m.manifest
  }

  /** A state whose receiver, if there is one, was set up from `m`. */
  ghost predicate Follows(p: State, m: Meta) {
    && (p.Running? && p.rx.Some? ==> SetUpFrom(p.rx.value, m))
    && (p.Done? ==> SetUpFrom(p.verified, m))
  }

  lemma ReceiveKeeps(h: Hash, rx: Option<Rx>, m: Meta, now: Meta, windows: seq<seq<Packet>>)
    requires if rx.Some? then rx.value.Wf() && SetUpFrom(rx.value, m)
             else now == m && |m.manifest| == HASH_LEN * m.nblocks
    ensures var p := Receive(h, rx, now, windows);
            Follows(p, m) && (p.Running? ==> p.rx.Some?) && (p.Done? ==> Verdict(h, p.verified) == Verified)
  {
    var r := ReceiverFor(rx, now);
    if r.Some? {
      assert SetUpFrom(r.value, m);
      assert SetUpFrom(DrainAll(h, r.value, windows), m);
    }
  }

  lemma {:induction false} SetUpKept(h: Hash, src: seq<u8>, m: Meta, inputs: seq<RoundInput>, k: nat)
    requires Attempts(InputAt(inputs, 0).conns, MAX_ATTEMPTS) == Got(m) && Truthful(h, src, m)
    ensures var p := After(h, inputs, k);
            && Follows(p, m) && (p.Running? && k > 0 ==> p.rx.Some?)
            && (p.Done? ==> Verdict(h, p.verified) == Verified)
  {
    hide Receive, Attempts, Manifest, Verdict;
    if k > 0 {
      SetUpKept(h, src, m, inputs, k - 1);
      var p, input := After(h, inputs, k - 1), InputAt(inputs, k - 1);
      if p.Running? {
        var res := Attempts(input.conns, MAX_ATTEMPTS);
        if res.Got? {
          ReceiveKeeps(h, p.rx, m, res.meta, input.windows);
        }
      }
    }
  }

  /** End-to-end safety. Whatever the data channel delivers (losses, duplicates, reorderings,
      corrupted payloads or offsets, stale or forged frames) and whatever later manifests say: if the
      first manifest accepted is the true one and the client reports success, the file is the source,
      or SHA-256 (any hash the parties use) has been made to collide. */
  lemma EndToEnd(h: Hash, src: seq<u8>, m: Meta, inputs: seq<RoundInput>, k: nat)
    requires Attempts(InputAt(inputs, 0).conns, MAX_ATTEMPTS) == Got(m) && Truthful(h, src, m)
    requires After(h, inputs, k).Done?
    ensures var data := After(h, inputs, k).verified.data;
            |data| == |src| && (data == src || Collision(h, src, data, m.block))
  {
    SetUpKept(h, src, m, inputs, k);
    Gate(h, src, After(h, inputs, k).verified);
  }

  // ---- the control channel --------------------------------------------------------------

  /** `a` is `b` with some elements left out. */
  ghost predicate Subsequence<T(!new)>(a: seq<T>, b: seq<T>)
    decreases b
  {
    if a == [] then true
    else if b == [] then false
    else (a[0] == b[0] && Subsequence(a[1..], b[1..])) || Subsequence(a, b[1..])
  }

  /** Losing any non-empty chunk shortens what is read. */
  lemma {:induction false} SubsequenceShorter(a: seq<Packet>, b: seq<Packet>)
    requires Subsequence(a, b) && forall c :: c in b ==> |c| > 0
    ensures |Join(a)| <= |Join(b)| && (|Join(a)| == |Join(b)| ==> a == b)
    decreases b
  {
    if b == [] {
    } else if a != [] && a[0] == b[0] && Subsequence(a[1..], b[1..]) {
      SubsequenceShorter(a[1..], b[1..]);
      assert a == [a[0]] + a[1..] && b == [b[0]] + b[1..];
    } else {
      SubsequenceShorter(a, b[1..]);
      assert |b[0]| > 0;
    }
  }

  lemma {:induction false} JoinChunks(m: seq<u8>)
    ensures Join(Chunks(m)) == m
  {
    if m != [] {
      var k := Min(|m|, CHUNK);
      JoinChunks(m[k..]);
      assert Chunks(m)[1..] == Chunks(m[k..]);
      assert m == m[..k] + m[k..];
    }
  }

  /** What the server's side of one control connection can look like to the client: nothing, or the
      server's answer to some control packet, any packets of it lost, the header too. */
  ghost predicate FromServer(c: Conn, h: Hash, src: seq<u8>, block: u32)
    requires |src| < TWO32
  {
    c.Refused? || exists pkt: Packet :: LossyReply(c, pkt, h, src, block)
  }

  ghost predicate LossyReply(c: Conn, pkt: Packet, h: Hash, src: seq<u8>, block: u32)
    requires |src| < TWO32
  {
    c.Open? && Subsequence(c.packets, ServeControl(h, src, block, pkt))
  }

  function ServerMeta(h: Hash, src: seq<u8>, block: u32): Meta
    requires |src| < TWO32
  {
    Meta(|src|, block, NBlocks(|src|, block), Manifest(h, src, block))
  }

  /** Every packet of the reply got through. */
  ghost predicate NothingLost(c: Conn, h: Hash, src: seq<u8>, block: u32)
    requires |src| < TWO32
  {
    c.Open? && |c.packets| == 1 + |Chunks(Manifest(h, src, block))|
  }

  /** Chunk `i` passes for a response header, and what follows it fills the manifest it announces. */
  ghost predicate Poses(cs: seq<Packet>, i: nat) {
    i < |cs| && PassesForHeader(cs[i]) && |Join(cs[i + 1..])| >= SizeIn(cs[i])
  }

  ghost predicate Impostor(cs: seq<Packet>) {
    exists i: nat :: Poses(cs, i)
  }

  lemma {:induction false} SubsequenceLength(a: seq<Packet>, b: seq<Packet>)
    requires Subsequence(a, b)
    ensures |a| <= |b| && (|a| == |b| ==> a == b)
    decreases b
  {
    if a == [] || b == [] {
    } else if a[0] == b[0] && Subsequence(a[1..], b[1..]) {
      SubsequenceLength(a[1..], b[1..]);
      assert a == [a[0]] + a[1..] && b == [b[0]] + b[1..];
    } else {
      SubsequenceLength(a, b[1..]);
    }
  }

  /** The first packet of a subsequence is some element, and the others come after it. */
  lemma {:induction false} FirstKept(a: seq<Packet>, b: seq<Packet>) returns (i: nat)
    requires a != [] && Subsequence(a, b)
    ensures i < |b| && a[0] == b[i] && Subsequence(a[1..], b[i + 1..])
    decreases b
  {
    if a[0] == b[0] && Subsequence(a[1..], b[1..]) {
      i := 0;
    } else {
      i := FirstKept(a, b[1..]);
      assert b[1..][i + 1..] == b[i + 2..];
      i := i + 1;
    }
  }

  lemma {:induction false} JoinCut(cs: seq<Packet>, k: nat)
    requires k <= |cs|
    ensures |Join(cs)| == |Join(cs[..k])| + |Join(cs[k..])|
  {
    JoinAppend(cs[..k], cs[k..]);
    assert cs == cs[..k] + cs[k..];
  }

  /** Less than 2^32 bytes in all cannot make the sum wrap. */
  lemma NoOverflow(cs: seq<Packet>, size: nat)
    requires |Join(cs)| < TWO32
    ensures !Overflows(cs, size, 0)
  {
    forall k: nat | k < |cs|
      ensures |Join(cs[..k])| + |cs[k]| < TWO32
    {
      JoinCut(cs, k);
      assert cs[k..][0] == cs[k];
    }
  }

  /** With the header, the exchange succeeds exactly when no chunk is missing. */
  lemma HeaderKept(c: Conn, session: u32, h: Hash, src: seq<u8>, block: u32)
    requires |src| < TWO32 && NBlocks(|src|, block) * HASH_LEN < TWO32 && c.Open? && c.packets != []
    requires c.packets[0] == Header(session, |src|, block, NBlocks(|src|, block))
    requires Subsequence(c.packets[1..], Chunks(Manifest(h, src, block)))
    ensures Exchange(c) == if NothingLost(c, h, src, block) then Got(ServerMeta(h, src, block)) else NoReply
  {
    hide Header, Chunks, Join, Exchange, Subsequence, Overflows, Get32;
    var rest, m := c.packets[1..], Manifest(h, src, block);
    HeaderRead(session, |src|, block, NBlocks(|src|, block));
    SubsequenceShorter(rest, Chunks(m));
    SubsequenceLength(rest, Chunks(m));
    JoinChunks(m);
    NoOverflow(rest, |m|);
    SmallWrap(NBlocks(|src|, block) * HASH_LEN);
    ExchangeExact(c);
    assert m[..|m|] == m;
  }

  /** Without it, the exchange succeeds exactly when the first chunk that arrives passes for a header and
      those after it fill what that announces; it is then never taken for the server's manifest. */
  lemma HeaderLost(c: Conn, h: Hash, src: seq<u8>, block: u32)
    requires |src| < TWO32 && NBlocks(|src|, block) * HASH_LEN < TWO32 && c.Open?
    requires Subsequence(c.packets, Chunks(Manifest(h, src, block)))
    ensures if Poses(c.packets, 0) then Exchange(c).Got? && Exchange(c) != Got(ServerMeta(h, src, block))
            else Exchange(c) == NoReply
    ensures Poses(c.packets, 0) ==> Impostor(Chunks(Manifest(h, src, block)))
  {
    hide Chunks, Join, Exchange, Get32, Subsequence, Manifest, Overflows;
    var chunks := Chunks(Manifest(h, src, block));
    ExchangeExact(c);
    if c.packets != [] {
      var i := FirstKept(c.packets, chunks);
      var rest := c.packets[1..];
      JoinChunks(Manifest(h, src, block));
      AfterChunk(chunks, i);
      SubsequenceShorter(rest, chunks[i + 1..]);
      NoOverflow(rest, if Answered(c) then SizeIn(c.packets[0]) else 0);
      if Poses(c.packets, 0) {
        assert Poses(chunks, i);
      }
    }
  }

  lemma AfterChunk(cs: seq<Packet>, i: nat)
    requires i < |cs|
    ensures |cs[i]| + |Join(cs[i + 1..])| <= |Join(cs)|
  {
    JoinCut(cs, i);
    assert cs[i..][0] == cs[i] && cs[i..][1..] == cs[i + 1..];
  }

  /** Manifest delivery: if no chunk can pose as a reply, an exchange with the server succeeds exactly
      when nothing of it was lost, and then the manifest is the server's, byte for byte. */
  lemma ManifestDelivery(c: Conn, h: Hash, src: seq<u8>, block: u32)
    requires |src| < TWO32 && NBlocks(|src|, block) * HASH_LEN < TWO32 && FromServer(c, h, src, block)
    requires !Impostor(Chunks(Manifest(h, src, block)))
    ensures Exchange(c) == if NothingLost(c, h, src, block) then Got(ServerMeta(h, src, block)) else NoReply
  {
    if c.Open? && c.packets != [] {
      var pkt: Packet :| LossyReply(c, pkt, h, src, block);
      var session := Decode(pkt).value.session;
      var header, chunks := Header(session, |src|, block, NBlocks(|src|, block)), Chunks(Manifest(h, src, block));
      assert ([header] + chunks)[1..] == chunks;
      if c.packets[0] == header && Subsequence(c.packets[1..], chunks) {
        HeaderKept(c, session, h, src, block);
      } else {
        HeaderLost(c, h, src, block);
        SubsequenceLength(c.packets, chunks);
      }
    }
  }

  /** The answer to the client's own request, complete, is the manifest. */
  lemma AnswerAccepted(h: Hash, src: seq<u8>, mtu: u32, block: u32, ivs: seq<Interval>)
    requires |src| < TWO32 && NBlocks(|src|, block) * HASH_LEN < TWO32 && mtu < TWO16 && |ivs| <= MAX_INTERVALS
    ensures var c := Open(Answer(h, src, mtu, block, ivs).ctrl);
            && LossyReply(c, Encode(Request(mtu, block, ivs)), h, src, block) && NothingLost(c, h, src, block)
            && Exchange(c) == Got(ServerMeta(h, src, block))
  {
    hide Exchange, Manifest;
    var c, chunks := Open(Answer(h, src, mtu, block, ivs).ctrl), Chunks(Manifest(h, src, block));
    AnswerControl(h, src, mtu, block, ivs);
    SuffixKept(c.packets, 0);
    assert c.packets[0..] == c.packets && c.packets[1..] == chunks;
    SuffixKept(chunks, 0);
    assert chunks[0..] == chunks;
    hide Answer, Chunks;
    HeaderKept(c, 1, h, src, block);
  }

  /** The condition is exact: no loss makes the client accept anything but the server's manifest if and
      only if no chunk can pose as a reply. */
  lemma LossHarmlessIff(h: Hash, src: seq<u8>, block: u32)
    requires |src| < TWO32 && NBlocks(|src|, block) * HASH_LEN < TWO32
    ensures (forall c :: FromServer(c, h, src, block) ==>
               Exchange(c) == NoReply || Exchange(c) == Got(ServerMeta(h, src, block)))
       <==> !Impostor(Chunks(Manifest(h, src, block)))
  {
    hide Exchange, FromServer;
    var chunks := Chunks(Manifest(h, src, block));
    if i: nat :| Poses(chunks, i) {
      var c := Open(chunks[i..]);
      PosesLossy(h, src, block, i);
      assert FromServer(c, h, src, block);
      assert Exchange(c) != NoReply && Exchange(c) != Got(ServerMeta(h, src, block));
    } else {
      forall c | FromServer(c, h, src, block)
        ensures Exchange(c) == NoReply || Exchange(c) == Got(ServerMeta(h, src, block))
      {
        ManifestDelivery(c, h, src, block);
      }
    }
  }

  lemma PosesLossy(h: Hash, src: seq<u8>, block: u32, i: nat)
    requires |src| < TWO32 && NBlocks(|src|, block) * HASH_LEN < TWO32
    requires Poses(Chunks(Manifest(h, src, block)), i)
    ensures var c := Open(Chunks(Manifest(h, src, block))[i..]);
            FromServer(c, h, src, block) && Exchange(c).Got? && Exchange(c) != Got(ServerMeta(h, src, block))
  {
    hide Exchange;
    var chunks := Chunks(Manifest(h, src, block));
    var c, header := Open(chunks[i..]), Header(1, |src|, block, NBlocks(|src|, block));
    var pkt := Encode(Request(256, block, []));
    SuffixKept(chunks, i);
    AnswerControl(h, src, 256, block, []);
    assert ServeControl(h, src, block, pkt) == [header] + chunks;
    hide ServeControl;
    assert ([header] + chunks)[1..] == chunks;
    assert LossyReply(c, pkt, h, src, block);
    assert c.packets[1..] == chunks[i + 1..];
    assert Poses(c.packets, 0);
    HeaderLost(c, h, src, block);
  }

  lemma {:induction false} SuffixKept(b: seq<Packet>, i: nat)
    requires i <= |b|
    ensures Subsequence(b[i..], b)
  {
    if i > 0 {
      SuffixKept(b[1..], i - 1);
      assert b[1..][i - 1..] == b[i..];
    } else if b != [] {
      SuffixKept(b[1..], 0);
      assert b[0..] == b && b[1..][0..] == b[1..];
    }
  }

  /** In terms of the manifest's bytes at the starts of its chunks. */
  ghost predicate PosesAt(m: seq<u8>, i: nat) {
    && CHUNK * i + RESP_HDR <= |m| && Get32(m, CHUNK * i) == MAGIC_RESP
    && Wrap32(Get32(m, CHUNK * i + 16) as int * HASH_LEN) <= |m| - Min(CHUNK * (i + 1), |m|)
  }

  /** Chunk `i` of a manifest and what comes after it. */
  lemma {:induction false} ChunkBytes(m: seq<u8>, i: nat)
    requires CHUNK * i < |m|
    ensures i < |Chunks(m)| && Chunks(m)[i] == m[CHUNK * i..][..Min(CHUNK, |m| - CHUNK * i)]
    ensures |Join(Chunks(m)[i + 1..])| == |m| - Min(CHUNK * (i + 1), |m|)
    decreases i
  {
    var k := Min(|m|, CHUNK);
    var rest, cs := m[k..], Chunks(m);
    assert cs == [m[..k]] + Chunks(rest);
    hide Chunks, Join;
    if i > 0 {
      ChunkBytes(rest, i - 1);
      assert cs[i + 1..] == Chunks(rest)[i..] && cs[i] == Chunks(rest)[i - 1];
      assert rest[CHUNK * (i - 1)..] == m[CHUNK * i..];
    } else {
      assert cs[1..] == Chunks(rest) && m[0..] == m;
      JoinChunks(rest);
    }
  }

  lemma {:induction false} ChunkCount(m: seq<u8>, i: nat)
    requires i < |Chunks(m)|
    ensures CHUNK * i < |m|
    decreases i
  {
    if i > 0 {
      ChunkCount(m[Min(|m|, CHUNK)..], i - 1);
    }
  }

  /** Where a piece of a chunk is in the manifest. */
  lemma PieceOf(m: seq<u8>, at: nat, c: seq<u8>, k: nat)
    requires at <= |m| && |c| <= |m| - at && c == m[at..][..|c|] && k + 4 <= |c|
    ensures Get32(c, k) == Get32(m, at + k)
  {
    assert c[k..k + 4] == m[at + k..at + k + 4];
    Get32Same(c, k, m, at + k);
  }

  lemma PosesExact(m: seq<u8>, i: nat)
    ensures Poses(Chunks(m), i) <==> PosesAt(m, i)
  {
    hide Chunks, Get32;
    if i < |Chunks(m)| {
      ChunkCount(m, i);
    }
    if CHUNK * i < |m| {
      ChunkBytes(m, i);
      var c := Chunks(m)[i];
      if |c| >= RESP_HDR {
        PieceOf(m, CHUNK * i, c, 0);
        PieceOf(m, CHUNK * i, c, 16);
      }
    }
  }

  lemma Get32Same(a: seq<u8>, i: nat, b: seq<u8>, j: nat)
    requires i + 4 <= |a| && j + 4 <= |b| && a[i..i + 4] == b[j..j + 4]
    ensures Get32(a, i) == Get32(b, j)
  {
    Le32Get32(b, j);
    Get32Slice(a, i, Get32(b, j));
  }

  /** It can happen for a hash: a one-block file whose digest begins with the magic and goes on with
      zeros is accepted without its header, as an empty transfer. */
  lemma ImpostorOccurs()
    ensures var h := (_: seq<u8>) => Le32(MAGIC_RESP) + Repeat(0, 28);
            Impostor(Chunks(Manifest(h, [0], 1)))
  {
    var h := (_: seq<u8>) => Le32(MAGIC_RESP) + Repeat(0, 28);
    var m := Manifest(h, [0], 1);
    assert m == Le32(MAGIC_RESP) + Repeat(0, 28);
    Get32Slice(m, 0, MAGIC_RESP);
    assert m[16..20] == Le32(0);
    Get32Slice(m, 16, 0);
    PosesExact(m, 0);
  }

  lemma SmallWrap(x: nat)
    requires x < TWO32
    ensures Wrap32(x) == x
  {
  }

  ghost predicate AllFromServer(conns: seq<Conn>, h: Hash, src: seq<u8>, block: u32)
    requires |src| < TWO32
  {
    forall c :: c in conns ==> FromServer(c, h, src, block)
  }

  lemma {:induction false} AttemptsDelivery(conns: seq<Conn>, left: nat, h: Hash, src: seq<u8>, block: u32)
    requires |src| < TWO32 && NBlocks(|src|, block) * HASH_LEN < TWO32 && AllFromServer(conns, h, src, block)
    requires !Impostor(Chunks(Manifest(h, src, block)))
    ensures Attempts(conns, left) == NoReply || Attempts(conns, left) == Got(ServerMeta(h, src, block))
  {
    if left > 0 && conns != [] {
      ManifestDelivery(conns[0], h, src, block);
      AttemptsDelivery(conns[1..], left - 1, h, src, block);
    }
  }

  /** Both channels together: lossy control connections to the server of `src`, any data channel. The
      run never leaves defined behaviour, and success means the source arrived or a collision. */
  lemma SafeAgainstServer(h: Hash, src: seq<u8>, block: u32, inputs: seq<RoundInput>, k: nat)
    requires |src| < TWO32 && NBlocks(|src|, block) * HASH_LEN < TWO32
    requires forall input :: input in inputs ==> AllFromServer(input.conns, h, src, block)
    requires !Impostor(Chunks(Manifest(h, src, block)))
    ensures After(h, inputs, k) != Undefined
    ensures After(h, inputs, k).Done? ==>
              var data := After(h, inputs, k).verified.data;
              |data| == |src| && (data == src || Collision(h, src, data, block))
  {
    NeverUndefined(h, src, block, inputs, k);
    if After(h, inputs, k).Done? {
      AttemptsDelivery(InputAt(inputs, 0).conns, MAX_ATTEMPTS, h, src, block);
      FirstRoundCounts(h, inputs, k);
      EndToEnd(h, src, ServerMeta(h, src, block), inputs, k);
    }
  }

  /** A client that gets no manifest in its first round has stopped. */
  lemma FirstRoundCounts(h: Hash, inputs: seq<RoundInput>, k: nat)
    requires After(h, inputs, k).Done?
    ensures Attempts(InputAt(inputs, 0).conns, MAX_ATTEMPTS).Got?
  {
    if !Attempts(InputAt(inputs, 0).conns, MAX_ATTEMPTS).Got? {
      assert After(h, inputs, 0) == START;
      assert !After(h, inputs, 1).Running?;
      if k > 0 {
        Settled(h, inputs, 1, k);
      }
    }
  }

  lemma {:induction false} NeverUndefined(h: Hash, src: seq<u8>, block: u32, inputs: seq<RoundInput>, k: nat)
    requires |src| < TWO32 && NBlocks(|src|, block) * HASH_LEN < TWO32
    requires forall input :: input in inputs ==> AllFromServer(input.conns, h, src, block)
    requires !Impostor(Chunks(Manifest(h, src, block)))
    ensures After(h, inputs, k) != Undefined
  {
    if k > 0 {
      var conns := InputAt(inputs, k - 1).conns;
      assert AllFromServer(conns, h, src, block);
      hide Step, AllFromServer, Impostor;
      NeverUndefined(h, src, block, inputs, k - 1);
      AttemptsDelivery(conns, MAX_ATTEMPTS, h, src, block);
      StepDefined(h, src, block, After(h, inputs, k - 1), InputAt(inputs, k - 1));
    }
  }

  lemma StepDefined(h: Hash, src: seq<u8>, block: u32, p: State, input: RoundInput)
    requires |src| < TWO32 && p != Undefined
    requires var res := Attempts(input.conns, MAX_ATTEMPTS); res == NoReply || res == Got(ServerMeta(h, src, block))
    ensures Step(h, p, input) != Undefined
  {
    hide Attempts, DrainAll, Verdict, RepairList, Manifest;
  }
}
