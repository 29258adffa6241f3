/** What the control exchange yields for arbitrary packets, and which packets take the client out of
    defined behaviour. */
module Control {
  import opened Bytes
  import opened Sha256Spec
  import opened Receiver
  import opened Wire
  import opened Server
  import opened Session

  // ---- one connection -------------------------------------------------------------------------

  /** The first packet passes for a response header. */
  predicate PassesForHeader(p: Packet) {
    |p| >= RESP_HDR && Get32(p, 0) == MAGIC_RESP
  }

  predicate Answered(c: Conn) {
    c.Open? && c.packets != [] && PassesForHeader(c.packets[0])
  }

  /** The manifest size the client computes from such a packet, in 32 bits. */
  function SizeIn(p: Packet): u32
    requires PassesForHeader(p)
  {
    Wrap32(Get32(p, 16) as int * HASH_LEN)
  }

  /** With `base` bytes read before, chunk `k` arrives while the buffer is not full, and the sum that
      should cut it to what is left wraps. */
  ghost predicate OverflowsAt(chunks: seq<Packet>, size: nat, base: nat, k: nat) {
    && k < |chunks|
    && base + |Join(chunks[..k])| < size && base + |Join(chunks[..k])| + |chunks[k]| >= TWO32
  }

  ghost predicate Overflows(chunks: seq<Packet>, size: nat, base: nat) {
    exists k: nat :: OverflowsAt(chunks, size, base, k)
  }

  lemma OverflowsShift(chunks: seq<Packet>, size: nat, base: nat, k: nat)
    requires chunks != []
    ensures OverflowsAt(chunks, size, base, k + 1) <==> OverflowsAt(chunks[1..], size, base + |chunks[0]|, k)
  {
    if k < |chunks| - 1 {
      assert chunks[..k + 1][1..] == chunks[1..][..k];
    }
  }

  lemma OverflowsLater(chunks: seq<Packet>, size: nat, base: nat)
    requires chunks != [] && base + |chunks[0]| < TWO32
    ensures Overflows(chunks, size, base) <==> Overflows(chunks[1..], size, base + |chunks[0]|)
  {
    var rest, more := chunks[1..], base + |chunks[0]|;
    if k: nat :| OverflowsAt(chunks, size, base, k) {
      assert k > 0;
      OverflowsShift(chunks, size, base, k - 1);
    }
    if k: nat :| OverflowsAt(rest, size, more, k) {
      OverflowsShift(chunks, size, base, k);
    }
  }

  /** The reading loop without the loop: it leaves the buffer if and only if a sum wraps, it runs dry if
      and only if the chunks are too short, and else the buffer holds their first `size` bytes. */
  lemma {:induction false} ReadExactly(chunks: seq<Packet>, size: u32, got: seq<u8>)
    requires |got| <= size
    ensures ReadManifest(chunks, size, got) ==
            if Overflows(chunks, size, |got|) then None
            else if |got| + |Join(chunks)| < size then Some(None)
            else Some(Some((got + Join(chunks))[..size]))
    decreases |chunks|
  {
    if |got| == size {
      assert (got + Join(chunks))[..size] == got;
    } else if chunks == [] {
      assert got + [] == got;
    } else if |got| + |chunks[0]| >= TWO32 {
      assert OverflowsAt(chunks, size, |got|, 0);
    } else {
      var take := Min(|chunks[0]|, size - |got|);
      var next := got + chunks[0][..take];
      ReadExactly(chunks[1..], size, next);
      OverflowsLater(chunks, size, |got|);
      assert got + Join(chunks) == got + chunks[0] + Join(chunks[1..]);
      if |next| == size {
        assert (got + Join(chunks))[..size] == next == (next + Join(chunks[1..]))[..size];
      } else {
        assert next == got + chunks[0];
      }
    }
  }

  /** ctrl_exchange, stated outright. */
  lemma ExchangeExact(c: Conn)
    ensures Exchange(c) ==
            if !Answered(c) then NoReply
            else
              var p, rest := c.packets[0], c.packets[1..];
              if Overflows(rest, SizeIn(p), 0) then Overrun
              else if |Join(rest)| < SizeIn(p) then NoReply
              else Got(Meta(Get32(p, 8), Get32(p, 12), Get32(p, 16), Join(rest)[..SizeIn(p)]))
  {
    if Answered(c) {
      ReadExactly(c.packets[1..], SizeIn(c.packets[0]), []);
      assert [] + Join(c.packets[1..]) == Join(c.packets[1..]);
    }
  }

  /** The connection makes the client write past its manifest buffer. */
  ghost predicate Overruns(c: Conn) {
    Answered(c) && Overflows(c.packets[1..], SizeIn(c.packets[0]), 0)
  }

  /** It hands over a manifest of which ci_svu_new reads more than was allocated: the block count agrees
      with the sizes and is so large that 32 bytes a block wrap. */
  ghost predicate OverReads(c: Conn) {
    && Answered(c) && !Overruns(c) && |Join(c.packets[1..])| >= SizeIn(c.packets[0])
    && var p := c.packets[0];
       Get32(p, 16) >= 0x800_0000 && NBlocks(Get32(p, 8), Get32(p, 12)) == Get32(p, 16)
  }

  lemma WrapsFrom(n: u32)
    ensures Wrap32(n as int * HASH_LEN) < n * HASH_LEN <==> n >= 0x800_0000
  {
  }

  /** A manifest that was read is too short for the receiver it sets up exactly for such a count. */
  lemma ShortExact(c: Conn, m: Meta)
    requires Exchange(c) == Got(m)
    ensures ShortManifest(None, m) <==> m.nblocks >= 0x800_0000 && NBlocks(m.total, m.block) == m.nblocks
  {
    ExchangeExact(c);
    WrapsFrom(m.nblocks);
  }

  lemma OutcomeExact(c: Conn)
    ensures Overruns(c) <==> Exchange(c) == Overrun
    ensures OverReads(c) <==> Exchange(c).Got? && ShortManifest(None, Exchange(c).meta)
  {
    ExchangeExact(c);
    if Exchange(c).Got? {
      ShortExact(c, Exchange(c).meta);
    }
  }

  // ---- a round, a run -------------------------------------------------------------------------

  /** Connection `i` is the first of the eight attempts that is not a plain failure, and it spoils the
      round; a manifest is only used in the first round. */
  ghost predicate SpoilsAt(conns: seq<Conn>, first: bool, i: nat) {
    && i < |conns| && i < MAX_ATTEMPTS
    && (forall j :: 0 <= j < i ==> Exchange(conns[j]) == NoReply)
    && (Overruns(conns[i]) || (first && OverReads(conns[i])))
  }

  ghost predicate Spoils(conns: seq<Conn>, first: bool) {
    exists i: nat :: SpoilsAt(conns, first, i)
  }

  /** The attempts come to the first exchange that does not plainly fail. */
  lemma {:induction false} AttemptsAt(conns: seq<Conn>, left: nat, i: nat)
    requires i < |conns| && i < left && forall j :: 0 <= j < i ==> Exchange(conns[j]) == NoReply
    ensures Exchange(conns[i]) != NoReply ==> Attempts(conns, left) == Exchange(conns[i])
  {
    if i > 0 {
      assert Exchange(conns[0]) == NoReply;
      AttemptsAt(conns[1..], left - 1, i - 1);
    }
  }

  lemma {:induction false} FirstAnswer(conns: seq<Conn>, left: nat) returns (i: nat)
    requires Attempts(conns, left) != NoReply
    ensures i < |conns| && i < left && Attempts(conns, left) == Exchange(conns[i])
    ensures forall j :: 0 <= j < i ==> Exchange(conns[j]) == NoReply
  {
    if Exchange(conns[0]) == NoReply {
      i := FirstAnswer(conns[1..], left - 1);
      forall j | 0 < j < i + 1
        ensures Exchange(conns[j]) == NoReply
      {
        assert conns[j] == conns[1..][j - 1];
      }
      i := i + 1;
    } else {
      i := 0;
    }
  }

  /** A round leaves defined behaviour if and only if its connections do this. */
  lemma RoundUndefinedIff(h: Hash, p: State, input: RoundInput)
    requires p.Running?
    ensures Step(h, p, input) == Undefined <==> Spoils(input.conns, p.rx.None?)
  {
    hide Exchange, Overruns, OverReads, DrainAll;
    var res := Attempts(input.conns, MAX_ATTEMPTS);
    if i: nat :| SpoilsAt(input.conns, p.rx.None?, i) {
      OutcomeExact(input.conns[i]);
      AttemptsAt(input.conns, MAX_ATTEMPTS, i);
    } else if res != NoReply {
      var i := FirstAnswer(input.conns, MAX_ATTEMPTS);
      OutcomeExact(input.conns[i]);
      assert !SpoilsAt(input.conns, p.rx.None?, i);
    }
  }

  /** Only before its first round has a running client no receiver. */
  lemma NoReceiverYet(h: Hash, inputs: seq<RoundInput>, k: nat)
    requires After(h, inputs, k).Running?
    ensures After(h, inputs, k).rx.None? <==> k == 0
  {
    hide DrainAll, Verdict, RepairList;
  }

  /** Defined behaviour, exactly: a run leaves it if and only if some round that the client still runs
      spoils it. */
  lemma {:induction false} UndefinedIff(h: Hash, inputs: seq<RoundInput>, k: nat)
    ensures After(h, inputs, k) == Undefined <==>
            exists j: nat :: j < k && SpoiltAt(h, inputs, j)
  {
    hide Step, Spoils;
    if k > 0 {
      UndefinedIff(h, inputs, k - 1);
      var p := After(h, inputs, k - 1);
      if p.Running? {
        RoundUndefinedIff(h, p, InputAt(inputs, k - 1));
        NoReceiverYet(h, inputs, k - 1);
        assert After(h, inputs, k) == Undefined <==> SpoiltAt(h, inputs, k - 1);
      } else {
        Settled(h, inputs, k - 1, k);
        assert !SpoiltAt(h, inputs, k - 1);
      }
    }
  }

  ghost predicate SpoiltAt(h: Hash, inputs: seq<RoundInput>, j: nat) {
    After(h, inputs, j).Running? && Spoils(InputAt(inputs, j).conns, j == 0)
  }

  /** A header that stays a packet short of the limit never does. */
  ghost predicate Modest(c: Conn) {
    Answered(c) ==> Get32(c.packets[0], 16) as int * HASH_LEN + TWO16 <= TWO32
  }

  lemma ModestIsHarmless(c: Conn)
    requires Modest(c)
    ensures !Overruns(c) && !OverReads(c)
  {
  }

  lemma DefinedWhenModest(h: Hash, inputs: seq<RoundInput>, k: nat)
    requires forall input, c :: input in inputs && c in input.conns ==> Modest(c)
    ensures After(h, inputs, k) != Undefined
  {
    hide Modest, Overruns, OverReads, After;
    UndefinedIff(h, inputs, k);
    if After(h, inputs, k) == Undefined {
      var j: nat :| j < k && SpoiltAt(h, inputs, j);
      var conns := InputAt(inputs, j).conns;
      var i: nat :| SpoilsAt(conns, j == 0, i);
      assert conns[i] in conns;
      ModestIsHarmless(conns[i]);
    }
  }

  // ---- inputs that do it, and one that does not -------------------------------------------------

  function OneRound(c: Conn): seq<RoundInput> {
    [RoundInput([c], [])]
  }

  lemma OneRoundUndefined(h: Hash, c: Conn)
    requires Overruns(c) || OverReads(c)
    ensures After(h, OneRound(c), 1) == Undefined
  {
    hide Overruns, OverReads, Step;
    assert SpoilsAt([c], true, 0);
    assert After(h, OneRound(c), 0) == START;
    RoundUndefinedIff(h, START, OneRound(c)[0]);
  }

  /** 2^27 blocks of one byte, and not a byte of manifest: the client allocates nothing and reads 2^32
      bytes of it. */
  function NoManifest(): Conn {
    Open([Header(1, 0x800_0000, 1, 0x800_0000)])
  }

  lemma OverReadOccurs(h: Hash)
    ensures After(h, OneRound(NoManifest()), 1) == Undefined
  {
    hide After;
    HeaderRead(1, 0x800_0000, 1, 0x800_0000);
    assert NoManifest().packets[1..] == [];
    OneRoundUndefined(h, NoManifest());
  }

  /** 2^27 - 1 blocks: in 2^26 packets of 64 bytes the last one passes both the end of the buffer and
      2^32. */
  function Flood(n: nat): seq<Packet> {
    Repeat(Repeat(0, 64), n)
  }

  function LatePacket(): Conn {
    Open([Header(1, 0x7FF_FFFF, 1, 0x7FF_FFFF)] + Flood(0x400_0000))
  }

  lemma LatePacketOverruns()
    ensures Overruns(LatePacket())
  {
    hide Flood, Header, Get32, Overflows, PassesForHeader, SizeIn;
    var c := LatePacket();
    HeaderSize(1, 0x7FF_FFFF, 1, 0x7FF_FFFF);
    assert c.packets[1..] == Flood(0x400_0000);
    FloodOverflows();
  }

  lemma OverrunOccurs(h: Hash)
    ensures After(h, OneRound(LatePacket()), 1) == Undefined
  {
    hide After, LatePacket, Overruns;
    LatePacketOverruns();
    OneRoundUndefined(h, LatePacket());
  }

  lemma HeaderSize(session: u32, total: u32, block: u32, nblocks: u32)
    ensures var p := Header(session, total, block, nblocks);
            PassesForHeader(p) && SizeIn(p) == Wrap32(nblocks as int * HASH_LEN)
  {
    hide Header, Get32;
    HeaderRead(session, total, block, nblocks);
  }

  lemma FloodOverflows()
    ensures Overflows(Flood(0x400_0000), 0xFFFF_FFE0, 0)
  {
    var piece: Packet, n := Repeat(0, 64), 0x3FF_FFFF;
    var chunks := Flood(0x400_0000);
    assert chunks[n] == piece;
    assert chunks[..n] == Repeat(piece, n);
    JoinRepeat(piece, n);
    assert OverflowsAt(chunks, 0xFFFF_FFE0, 0, n);
  }

  lemma {:induction false} JoinRepeat(piece: Packet, n: nat)
    ensures |Join(Repeat(piece, n))| == |piece| * n
  {
    if n > 0 {
      assert Repeat(piece, n) == [piece] + Repeat(piece, n - 1);
      JoinRepeat(piece, n - 1);
      assert |piece| * n == |piece| + |piece| * (n - 1);
    }
  }

  /** A count that wraps but does not agree with the sizes is refused like any other. */
  lemma WrappedCountRefused(h: Hash)
    ensures After(h, OneRound(Open([Header(1, 1, 1, 0x800_0000)])), 1) == Stopped
  {
    var c := Open([Header(1, 1, 1, 0x800_0000)]);
    HeaderRead(1, 1, 1, 0x800_0000);
    assert c.packets[1..] == [];
    assert Exchange(c) == Got(Meta(1, 1, 0x800_0000, []));
    assert Attempts([c], MAX_ATTEMPTS) == Exchange(c);
    assert After(h, OneRound(c), 0) == START;
  }

  lemma HeaderRead(session: u32, total: u32, block: u32, nblocks: u32)
    ensures var p := Header(session, total, block, nblocks);
            && Get32(p, 0) == MAGIC_RESP && Get32(p, 4) == session && Get32(p, 8) == total
            && Get32(p, 12) == block && Get32(p, 16) == nblocks
  {
    var p := Header(session, total, block, nblocks);
    Get32Slice(p, 0, MAGIC_RESP);
    Get32Slice(p, 4, session);
    Get32Slice(p, 8, total);
    Get32Slice(p, 12, block);
    Get32Slice(p, 16, nblocks);
  }
}
