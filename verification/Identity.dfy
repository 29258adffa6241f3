/** Fragments keep their identity across retransmissions, so a transfer through an injector that drops
    by identity ends verified exactly when it drops none of the file's fragments. */
module Identity {
  import opened Bytes
  import opened Sha256Spec
  import opened Receiver
  import opened Repair
  import opened Delivery
  import opened Wire
  import opened Server
  import opened Session
  import opened Answers
  import opened Safety
  import opened Progress
  import Rule

  // ---- fragments of the whole file ------------------------------------------------------------

  /** Fragment `f` of the first, whole-file blast. */
  function FragmentOf(src: seq<u8>, pay: nat, f: nat): Fragment
    requires 0 < pay <= MAX_PAYLOAD && |src| < TWO32 && f * pay < |src|
  {
    Fragment(f * pay, src[f * pay..Min(f * pay + pay, |src|)])
  }

  /** `fr` is one of them. */
  ghost predicate Genuine(fr: Fragment, src: seq<u8>, pay: nat)
    requires 0 < pay <= MAX_PAYLOAD && |src| < TWO32
  {
    exists f: nat :: InFile(src, pay, f) && fr == FragmentOf(src, pay, f)
  }

  predicate InFile(src: seq<u8>, pay: nat, f: nat) {
    f * pay < |src|
  }

  /** The number of the fragment byte `i` is in. */
  function NumberOf(i: nat, pay: nat): nat
    requires pay > 0
  {
    i / pay
  }

  /** A fragment begins at byte `i`. */
  predicate AtStart(i: nat, pay: nat)
    requires pay > 0
  {
    NumberOf(i, pay) * pay == i
  }

  lemma NumberIs(i: nat, pay: nat, f: nat)
    requires pay > 0
    ensures f * pay <= i < f * pay + pay <==> NumberOf(i, pay) == f
  {
    var q := i / pay;
    assert i == pay * q + i % pay && pay * q == q * pay;
    if f < q {
      Between(f, q, pay);
    } else if q < f {
      Between(q, f, pay);
    }
  }

  lemma Between(a: nat, b: nat, pay: nat)
    requires a < b
    ensures a * pay + pay <= b * pay
  {
    MulMono(a + 1, b, pay);
    assert (a + 1) * pay == a * pay + pay;
  }

  lemma StartOf(f: nat, pay: nat)
    requires pay > 0
    ensures AtStart(f * pay, pay) && NumberOf(f * pay, pay) == f
  {
    NumberIs(f * pay, pay, f);
  }

  lemma GenuineHits(src: seq<u8>, pay: nat, f: nat, i: nat)
    requires 0 < pay <= MAX_PAYLOAD && i < |src| < TWO32 && InFile(src, pay, f)
    ensures FragmentOf(src, pay, f).Hits(|src|, i) <==> NumberOf(i, pay) == f
    ensures FragmentOf(src, pay, f).Of(src)
  {
    hide NumberOf;
    NumberIs(i, pay, f);
  }

  lemma Multiplies(f: nat, pay: nat)
    requires pay > 0
    ensures f <= f * pay
  {
  }

  /** Every byte is in a fragment of the file. */
  lemma InSome(src: seq<u8>, pay: nat, i: nat) returns (f: nat)
    requires 0 < pay <= MAX_PAYLOAD && i < |src| < TWO32
    ensures f < TWO32 && InFile(src, pay, f) && FragmentOf(src, pay, f).Hits(|src|, i)
  {
    f := NumberOf(i, pay);
    hide NumberOf;
    NumberIs(i, pay, f);
    Multiplies(f, pay);
    GenuineHits(src, pay, f, i);
  }

  /** A range that starts where a fragment does and ends where one does or at the end of the file. */
  ghost predicate OnBoundaries(iv: Interval, pay: nat, total: nat)
    requires pay > 0
  {
    iv.start < iv.end <= total && AtStart(iv.start, pay) && (AtStart(iv.end, pay) || iv.end == total)
  }

  lemma NextStart(s: nat, pay: nat)
    requires pay > 0 && AtStart(s, pay)
    ensures NumberOf(s + pay, pay) == NumberOf(s, pay) + 1 && AtStart(s + pay, pay)
  {
    var f := NumberOf(s, pay);
    hide NumberOf;
    assert (f + 1) * pay == f * pay + pay;
    StartOf(f + 1, pay);
  }

  lemma NextMultiple(s: nat, e: nat, pay: nat)
    requires pay > 0 && s < e && AtStart(s, pay) && AtStart(e, pay)
    ensures s + pay <= e
  {
    var a, b := NumberOf(s, pay), NumberOf(e, pay);
    hide NumberOf;
    if b <= a {
      MulMono(b, a, pay);
    }
    Between(a, b, pay);
  }

  /** A frame that starts where a fragment does, and is full or ends at the end of the file, is that
      fragment. */
  lemma FirstGenuine(src: seq<u8>, pay: nat, s: nat, e: nat)
    requires 0 < pay <= MAX_PAYLOAD && s < e <= |src| < TWO32
    requires AtStart(s, pay) && (s + pay <= e || e == |src|)
    ensures Genuine(Fragment(s, src[s..Min(s + pay, e)]), src, pay)
  {
    var f := NumberOf(s, pay);
    hide NumberOf;
    assert InFile(src, pay, f) && Fragment(s, src[s..Min(s + pay, e)]) == FragmentOf(src, pay, f);
  }

  /** Every frame of a blast over such a range is a frame of the whole-file blast. */
  lemma {:induction false} TileGenuine(src: seq<u8>, pay: nat, s: nat, e: nat, fr: Fragment)
    requires 0 < pay <= MAX_PAYLOAD && e <= |src| < TWO32 && fr in Tile(src, pay, s, e)
    requires AtStart(s, pay) && (AtStart(e, pay) || e == |src|)
    ensures Genuine(fr, src, pay)
    decreases e - s
  {
    hide Genuine, AtStart, NumberOf;
    if fr == Fragment(s, src[s..Min(s + pay, e)]) {
      if e < |src| {
        NextMultiple(s, e, pay);
      }
      FirstGenuine(src, pay, s, e);
    } else {
      NextStart(s, pay);
      TileGenuine(src, pay, s + pay, e, fr);
    }
  }

  /** The whole-file blast consists of all of them. */
  lemma {:induction false} WholeFile(src: seq<u8>, pay: nat, s: nat, f: nat)
    requires 0 < pay <= MAX_PAYLOAD && |src| < TWO32
    requires AtStart(s, pay) && NumberOf(s, pay) <= f && InFile(src, pay, f)
    ensures FragmentOf(src, pay, f) in Tile(src, pay, s, |src|)
    decreases |src| - s
  {
    var g := NumberOf(s, pay);
    hide NumberOf;
    if g < f {
      Between(g, f, pay);
      NextStart(s, pay);
      WholeFile(src, pay, s + pay, f);
    }
  }

  // ---- receivers fed only such fragments ------------------------------------------------------

  /** Coverage never splits a fragment, and what is covered is right. */
  ghost predicate Whole(r: Rx, src: seq<u8>, pay: nat)
    requires pay > 0
  {
    && |r.data| == |r.cov| == |src|
    && (forall i, j :: 0 <= i < |src| && 0 <= j < |src| && NumberOf(i, pay) == NumberOf(j, pay) ==>
          r.cov[i] == r.cov[j])
    && (forall i :: 0 <= i < |src| && r.cov[i] ==> r.data[i] == src[i])
  }

  lemma AcceptWhole(r: Rx, src: seq<u8>, pay: nat, fr: Fragment)
    requires r.Wf() && 0 < pay <= MAX_PAYLOAD && |src| < TWO32 && Whole(r, src, pay) && Genuine(fr, src, pay)
    ensures Whole(Accept(r, fr.off, fr.bytes), src, pay)
  {
    var f: nat :| InFile(src, pay, f) && fr == FragmentOf(src, pay, f);
    forall i | 0 <= i < |src|
      ensures var r' := Accept(r, fr.off, fr.bytes);
              if NumberOf(i, pay) == f then r'.cov[i] && r'.data[i] == src[i]
              else r'.cov[i] == r.cov[i] && r'.data[i] == r.data[i]
    {
      AcceptAt(r, fr, i);
      GenuineHits(src, pay, f, i);
      if NumberOf(i, pay) == f {
        OfAt(fr, src, i);
      }
    }
  }

  ghost predicate AllGenuine(fs: seq<Fragment>, src: seq<u8>, pay: nat)
    requires 0 < pay <= MAX_PAYLOAD && |src| < TWO32
  {
    forall fr :: fr in fs ==> Genuine(fr, src, pay)
  }

  lemma {:induction false} DeliverWhole(r: Rx, src: seq<u8>, pay: nat, fs: seq<Fragment>)
    requires r.Wf() && 0 < pay <= MAX_PAYLOAD && |src| < TWO32 && Whole(r, src, pay) && AllGenuine(fs, src, pay)
    ensures Whole(DeliverAll(r, fs), src, pay)
  {
    if fs != [] {
      var last := fs[|fs| - 1];
      assert last in fs;
      DeliverWhole(r, src, pay, fs[..|fs| - 1]);
      AcceptWhole(DeliverAll(r, fs[..|fs| - 1]), src, pay, last);
    }
  }

  lemma {:induction false} DrainWhole(h: Hash, r: Rx, src: seq<u8>, pay: nat, windows: seq<seq<Packet>>)
    requires r.Wf() && 0 < pay <= MAX_PAYLOAD && |src| < TWO32 && Whole(r, src, pay)
    requires AllGenuine(AllFragments(windows), src, pay)
    ensures Whole(DrainAll(h, r, windows), src, pay)
    decreases |windows|
  {
    if windows != [] {
      var fs := Fragments(windows[0]);
      assert AllFragments(windows) == fs + AllFragments(windows[1..]);
      DeliverWhole(r, src, pay, fs);
      DrainWhole(h, DeliverAll(r, fs), src, pay, windows[1..]);
    }
  }

  /** Coverage changes only at the start of a fragment. */
  lemma Edge(r: Rx, src: seq<u8>, pay: nat, i: nat)
    requires 0 < pay && 0 < i < |src| && Whole(r, src, pay) && r.cov[i - 1] != r.cov[i]
    ensures AtStart(i, pay)
  {
    var q := NumberOf(i, pay);
    hide NumberOf;
    NumberIs(i, pay, q);
    NumberIs(i - 1, pay, q);
  }

  /** The holes such a receiver reports begin and end on fragment boundaries. */
  lemma HoleOnBoundaries(r: Rx, src: seq<u8>, pay: nat, iv: Interval)
    requires 0 < pay && |src| < TWO32 && Whole(r, src, pay) && MaximalHole(r.cov, iv)
    ensures OnBoundaries(iv, pay, |src|)
  {
    assert |r.cov| == |src|;
    hide Whole, AtStart;
    if iv.start > 0 {
      Edge(r, src, pay, iv.start);
    } else {
      StartOf(0, pay);
    }
    if iv.end < |src| {
      Edge(r, src, pay, iv.end);
    }
  }

  /** Full coverage is enough to verify: CORRUPT cannot arise. */
  lemma NotCorrupt(h: Hash, r: Rx, src: seq<u8>, pay: nat)
    requires For(h, src, r) && pay > 0 && Whole(r, src, pay)
    ensures Verdict(h, r) != Corrupt
    ensures Verdict(h, r) == Verified ==> r.data == src
  {
    VerdictExact(h, r);
    if Verdict(h, r) != Incomplete {
      assert r.data == src;
      forall b | 0 <= b < r.N()
        ensures !r.Bad(h, b)
      {
        ManifestSlice(h, src, r.block, r.N(), b);
      }
    }
  }

  // ---- runs over a channel that only drops, duplicates and reorders ---------------------------

  /** What a client in state `p` makes the server blast. */
  function BlastFor(h: Hash, src: seq<u8>, mtu: u32, block: u32, p: State): seq<Fragment>
    requires |src| < TWO32 && mtu < TWO16 && p.Running?
  {
    Fragments(Answer(h, src, mtu, block, p.ivs).data)
  }

  /** Every data packet delivered in round `k` is a copy of one blasted in that round or before. */
  ghost predicate Faithful(h: Hash, src: seq<u8>, mtu: u32, block: u32, inputs: seq<RoundInput>, k: nat)
    requires |src| < TWO32 && mtu < TWO16
  {
    forall fr :: fr in AllFragments(InputAt(inputs, k).windows) ==>
      exists j: nat :: j <= k && After(h, inputs, j).Running? && fr in BlastFor(h, src, mtu, block, After(h, inputs, j))
  }

  /** The state of a transfer of `src` in which no fragment has lost its identity. */
  ghost predicate Tame(h: Hash, src: seq<u8>, pay: nat, p: State)
    requires pay > 0
  {
    match p
    case Running(None, ivs) => ivs == []
    case Running(Some(r), ivs) =>
      For(h, src, r) && Whole(r, src, pay) && Verdict(h, r) == Incomplete && ivs == NextRanges(h, r)
    case Done(r) => For(h, src, r) && r.data == src
    case _ => true
  }

  /** `iv` can be tiled with whole-file fragments. */
  predicate Tileable(iv: Interval, pay: nat, total: nat)
    requires pay > 0
  {
    AtStart(iv.start, pay) && (AtStart(iv.end, pay) || iv.end >= total)
  }

  /** The ranges a tame client asks for. */
  lemma RangesTileable(h: Hash, src: seq<u8>, pay: nat, p: State, iv: Interval)
    requires |src| < TWO32 && pay > 0 && p.Running? && Tame(h, src, pay, p)
    requires iv in if p.ivs == [] then [Interval(0, |src|)] else p.ivs
    ensures Tileable(iv, pay, |src|)
  {
    if p.ivs != [] {
      var r := p.rx.value;
      HolesExact(r.cov);
      assert iv in RepairList(h, r) && MaximalHole(r.cov, iv);
      HoleOnBoundaries(r, src, pay, iv);
    }
  }

  /** What a client in such a state makes the server send are frames of the first blast. */
  lemma BlastGenuine(h: Hash, src: seq<u8>, mtu: u32, block: u32, p: State, fr: Fragment)
    requires |src| < TWO32 && DATA_HDR < mtu < TWO16 && p.Running? && Tame(h, src, mtu - DATA_HDR, p)
    requires fr in BlastFor(h, src, mtu, block, p)
    ensures Genuine(fr, src, mtu - DATA_HDR)
  {
    hide Answer, Fragments, Tame, Tileable, Genuine, Blast;
    var pay := mtu - DATA_HDR;
    AnswerData(h, src, mtu, block, p.ivs);
    RequestedRanges(mtu, block, p.ivs, |src|);
    var ranges := if p.ivs == [] then [Interval(0, |src|)] else p.ivs;
    forall iv | iv in ranges
      ensures Tileable(iv, pay, |src|)
    {
      RangesTileable(h, src, pay, p, iv);
    }
    BlastPieces(src, pay, ranges, fr);
  }

  lemma {:induction false} BlastPieces(src: seq<u8>, pay: nat, ivs: seq<Interval>, fr: Fragment)
    requires |src| < TWO32 && 0 < pay <= MAX_PAYLOAD && fr in Blast(src, pay, ivs)
    requires forall iv :: iv in ivs ==> Tileable(iv, pay, |src|)
    ensures Genuine(fr, src, pay)
  {
    hide Genuine;
    var n := |ivs| - 1;
    assert ivs[n] in ivs;
    if fr in Blast(src, pay, ivs[..n]) {
      BlastPieces(src, pay, ivs[..n], fr);
    } else {
      TileGenuine(src, pay, ivs[n].start, Min(ivs[n].end, |src|), fr);
    }
  }

  /** One round that is given only such frames keeps the state tame. */
  lemma ReceiveTame(h: Hash, src: seq<u8>, pay: nat, p: State, m: Meta, windows: seq<seq<Packet>>)
    requires |src| < TWO32 && 0 < pay <= MAX_PAYLOAD && p.Running? && Tame(h, src, pay, p)
    requires p.rx.None? ==> Truthful(h, src, m)
    requires AllGenuine(AllFragments(windows), src, pay)
    ensures Tame(h, src, pay, Receive(h, p.rx, m, windows))
  {
    var r := ReceiverFor(p.rx, m);
    if r.Some? {
      assert Whole(r.value, src, pay) && For(h, src, r.value);
      DrainWhole(h, r.value, src, pay, windows);
      NotCorrupt(h, DrainAll(h, r.value, windows), src, pay);
    }
  }

  /** Then what arrives in round `k` is made of frames of the first blast. */
  lemma FaithfulGenuine(h: Hash, src: seq<u8>, mtu: u32, block: u32, inputs: seq<RoundInput>, k: nat)
    requires |src| < TWO32 && DATA_HDR < mtu < TWO16 && Faithful(h, src, mtu, block, inputs, k)
    requires forall j: nat :: j <= k ==> Tame(h, src, mtu - DATA_HDR, After(h, inputs, j))
    ensures AllGenuine(AllFragments(InputAt(inputs, k).windows), src, mtu - DATA_HDR)
  {
    hide Tame, After, Genuine, BlastFor;
    forall fr | fr in AllFragments(InputAt(inputs, k).windows)
      ensures Genuine(fr, src, mtu - DATA_HDR)
    {
      var j: nat :| j <= k && After(h, inputs, j).Running? && fr in BlastFor(h, src, mtu, block, After(h, inputs, j));
      BlastGenuine(h, src, mtu, block, After(h, inputs, j), fr);
    }
  }

  lemma {:induction false} TameSoFar(
    h: Hash, src: seq<u8>, mtu: u32, block: u32, m: Meta, inputs: seq<RoundInput>, k: nat)
    requires |src| < TWO32 && DATA_HDR < mtu < TWO16
    requires Attempts(InputAt(inputs, 0).conns, MAX_ATTEMPTS) == Got(m) && Truthful(h, src, m)
    requires forall j: nat :: j < k ==> Faithful(h, src, mtu, block, inputs, j)
    ensures forall j: nat :: j <= k ==> Tame(h, src, mtu - DATA_HDR, After(h, inputs, j))
  {
    hide Tame, Faithful, AllGenuine;
    if k == 0 {
      assert After(h, inputs, 0) == START;
      StartTame(h, src, mtu - DATA_HDR);
    } else {
      hide After;
      TameSoFar(h, src, mtu, block, m, inputs, k - 1);
      FaithfulGenuine(h, src, mtu, block, inputs, k - 1);
      StepTame(h, src, mtu - DATA_HDR, m, inputs, k - 1);
    }
  }

  /** Fragment identity: over a channel that only drops, duplicates and reorders, with a true first
      manifest, every state of the run is tame. CORRUPT never occurs, every frame of every round is a
      frame of the first whole-file blast, and success means the source, with no proviso about hashes. */
  lemma IdentityIsStable(h: Hash, src: seq<u8>, mtu: u32, block: u32, m: Meta, inputs: seq<RoundInput>, k: nat)
    requires |src| < TWO32 && DATA_HDR < mtu < TWO16
    requires Attempts(InputAt(inputs, 0).conns, MAX_ATTEMPTS) == Got(m) && Truthful(h, src, m)
    requires forall j: nat :: j < k ==> Faithful(h, src, mtu, block, inputs, j)
    ensures var p := After(h, inputs, k);
            && (p.Running? && p.rx.Some? ==> Verdict(h, p.rx.value) == Incomplete)
            && (p.Running? ==> forall fr :: fr in BlastFor(h, src, mtu, block, p) ==> Genuine(fr, src, mtu - DATA_HDR))
            && (p.Done? ==> p.verified.data == src)
  {
    hide After, Genuine, BlastFor;
    TameSoFar(h, src, mtu, block, m, inputs, k);
    var p := After(h, inputs, k);
    assert Tame(h, src, mtu - DATA_HDR, p);
    if p.Running? {
      forall fr | fr in BlastFor(h, src, mtu, block, p)
        ensures Genuine(fr, src, mtu - DATA_HDR)
      {
        BlastGenuine(h, src, mtu, block, p, fr);
      }
    }
  }

  lemma StepTame(h: Hash, src: seq<u8>, pay: nat, m: Meta, inputs: seq<RoundInput>, k: nat)
    requires |src| < TWO32 && 0 < pay <= MAX_PAYLOAD
    requires Attempts(InputAt(inputs, 0).conns, MAX_ATTEMPTS) == Got(m) && Truthful(h, src, m)
    requires Tame(h, src, pay, After(h, inputs, k)) && AllGenuine(AllFragments(InputAt(inputs, k).windows), src, pay)
    ensures Tame(h, src, pay, After(h, inputs, k + 1))
  {
    hide Receive;
    var p, input := After(h, inputs, k), InputAt(inputs, k);
    SetUpKept(h, src, m, inputs, k);
    if p.Running? {
      var res := Attempts(input.conns, MAX_ATTEMPTS);
      if res.Got? {
        ReceiveTame(h, src, pay, p, res.meta, input.windows);
      }
    }
  }

  // ---- the injector in identity mode ------------------------------------------------------------

  /** The identity the injector gives a data packet, with the session's mtu and an overhead of 8. */
  function KeyOf(mtu: u32, p: Packet): u64
    requires mtu < TWO16
  {
    Rule.FragmentKey(p, mtu, DATA_HDR)
  }

  const DATA_PORT := 9

  /** The rule applies to data packets, which go to port 9 and are not RDP. */
  predicate CoversData(rule: Rule.DropRule) {
    !rule.matchSyn && (rule.matchDport >= 0 ==> DATA_PORT == rule.matchDport % TWO16)
  }

  /** The rule drops data packets with this identity. */
  predicate Loses(rule: Rule.DropRule, index: u64) {
    CoversData(rule) && Rule.Decide(rule, index)
  }

  /** The packets of a blast that the injector lets through. */
  function Survivors(rule: Rule.DropRule, mtu: u32, ps: seq<Packet>): seq<Packet>
    requires mtu < TWO16
  {
    if ps == [] then []
    else
      var last := ps[|ps| - 1];
      Survivors(rule, mtu, ps[..|ps| - 1]) + (if Loses(rule, KeyOf(mtu, last)) then [] else [last])
  }

  /** The fragment keyed `f` is the fragment numbered `f`. */
  lemma KeyIsNumber(session: u32, src: seq<u8>, mtu: u32, f: nat)
    requires |src| < TWO32 && DATA_HDR < mtu < TWO16 && InFile(src, mtu - DATA_HDR, f)
    ensures KeyOf(mtu, DataPacket(session, FragmentOf(src, mtu - DATA_HDR, f))) == f
  {
    var pay := mtu - DATA_HDR;
    var fr := FragmentOf(src, pay, f);
    Get32Slice(DataPacket(session, fr), 0, fr.off);
    assert KeyOf(mtu, DataPacket(session, fr)) == NumberOf(fr.off, pay);
    StartOf(f, pay);
  }

  /** The key of the packet that carries `fr`. */
  function KeyFor(mtu: u32, fr: Fragment): u64
    requires mtu < TWO16
  {
    KeyOf(mtu, DataPacket(1, fr))
  }

  /** What the client reads out of the survivors of a blast. */
  function Read(rule: Rule.DropRule, mtu: u32, fs: seq<Fragment>): seq<Fragment>
    requires mtu < TWO16
  {
    Fragments(Survivors(rule, mtu, DataPackets(1, fs)))
  }

  lemma ReadSnoc(rule: Rule.DropRule, mtu: u32, fs: seq<Fragment>, last: Fragment)
    requires mtu < TWO16 && |last.bytes| > 0
    ensures Read(rule, mtu, fs + [last]) ==
            Read(rule, mtu, fs) + (if Loses(rule, KeyFor(mtu, last)) then [] else [last])
  {
    hide Loses, KeyOf, ReadPacket;
    var p := DataPacket(1, last);
    DataPacketsAppend(1, fs, [last]);
    assert DataPackets(1, fs + [last]) == DataPackets(1, fs) + [p];
    assert (DataPackets(1, fs) + [p])[..|fs|] == DataPackets(1, fs);
    var front := Survivors(rule, mtu, DataPackets(1, fs));
    ReadDataPacket(1, last);
    FragmentsSnoc(front, p);
    assert front + [] == front;
  }

  /** These are the fragments whose key is not dropped. */
  lemma {:induction false} SurvivingFragments(rule: Rule.DropRule, mtu: u32, fs: seq<Fragment>, fr: Fragment)
    requires mtu < TWO16 && forall f :: f in fs ==> |f.bytes| > 0
    ensures fr in Read(rule, mtu, fs) <==> fr in fs && !Loses(rule, KeyFor(mtu, fr))
  {
    hide Loses, KeyFor;
    if fs == [] {
      assert Survivors(rule, mtu, DataPackets(1, fs)) == [];
    } else {
      hide Read;
      var n := |fs| - 1;
      assert fs == fs[..n] + [fs[n]] && fs[n] in fs;
      SurvivingFragments(rule, mtu, fs[..n], fr);
      ReadSnoc(rule, mtu, fs[..n], fs[n]);
    }
  }

  lemma GenuineNotEmpty(fs: seq<Fragment>, src: seq<u8>, pay: nat)
    requires 0 < pay <= MAX_PAYLOAD && |src| < TWO32 && AllGenuine(fs, src, pay)
    ensures forall f :: f in fs ==> |f.bytes| > 0
  {
    forall fr | fr in fs
      ensures |fr.bytes| > 0
    {
      var f: nat :| InFile(src, pay, f) && fr == FragmentOf(src, pay, f);
    }
  }

  /** A round of the closed system: the control exchange works, and what arrives is what the rule keeps of
      the server's blast, in any order and any number of times, with no idle window before the last of it. */
  ghost predicate FilteredRound(
    h: Hash, src: seq<u8>, mtu: u32, block: u32, rule: Rule.DropRule, p: State, input: RoundInput)
    requires |src| < TWO32 && mtu < TWO16 && p.Running?
  {
    && Attempts(input.conns, MAX_ATTEMPTS) == Got(ServerMeta(h, src, block))
    && (forall w :: w in input.windows ==> Fragments(w) != [])
    && Shuffled(AllFragments(input.windows), Read(rule, mtu, BlastFor(h, src, mtu, block, p)))
  }

  /** Each of the first `n` rounds that the client still runs is such a round. */
  ghost predicate ThroughFilter(
    h: Hash, src: seq<u8>, mtu: u32, block: u32, rule: Rule.DropRule, inputs: seq<RoundInput>, n: nat)
    requires |src| < TWO32 && mtu < TWO16
  {
    forall k: nat :: k < n && After(h, inputs, k).Running? ==>
      FilteredRound(h, src, mtu, block, rule, After(h, inputs, k), InputAt(inputs, k))
  }

  lemma BlastAllGenuine(h: Hash, src: seq<u8>, mtu: u32, block: u32, p: State)
    requires |src| < TWO32 && DATA_HDR < mtu < TWO16 && p.Running? && Tame(h, src, mtu - DATA_HDR, p)
    ensures AllGenuine(BlastFor(h, src, mtu, block, p), src, mtu - DATA_HDR)
  {
    hide Genuine, Tame, BlastFor;
    forall fr | fr in BlastFor(h, src, mtu, block, p)
      ensures Genuine(fr, src, mtu - DATA_HDR)
    {
      BlastGenuine(h, src, mtu, block, p, fr);
    }
  }

  /** In the closed system every state is tame. */
  lemma {:induction false} SystemTame(
    h: Hash, src: seq<u8>, mtu: u32, block: u32, rule: Rule.DropRule, inputs: seq<RoundInput>, n: nat, k: nat)
    requires |src| < TWO32 && DATA_HDR < mtu < TWO16
    requires ThroughFilter(h, src, mtu, block, rule, inputs, n) && k <= n
    ensures var p := After(h, inputs, k);
            && Tame(h, src, mtu - DATA_HDR, p)
            && (p.Running? ==> AllGenuine(BlastFor(h, src, mtu, block, p), src, mtu - DATA_HDR))
  {
    hide Step, BlastFor, AllGenuine, Tame, FilteredRound;
    if k == 0 {
      StartTame(h, src, mtu - DATA_HDR);
    } else {
      SystemTame(h, src, mtu, block, rule, inputs, n, k - 1);
      if After(h, inputs, k - 1).Running? {
        SystemStep(h, src, mtu, block, rule, inputs, n, k - 1);
      } else {
        Settled(h, inputs, k - 1, k);
      }
    }
    if After(h, inputs, k).Running? {
      BlastAllGenuine(h, src, mtu, block, After(h, inputs, k));
    }
  }

  lemma SystemStep(
    h: Hash, src: seq<u8>, mtu: u32, block: u32, rule: Rule.DropRule, inputs: seq<RoundInput>, n: nat, k: nat)
    requires |src| < TWO32 && DATA_HDR < mtu < TWO16
    requires ThroughFilter(h, src, mtu, block, rule, inputs, n) && k < n
    requires After(h, inputs, k).Running? && Tame(h, src, mtu - DATA_HDR, After(h, inputs, k))
    requires AllGenuine(BlastFor(h, src, mtu, block, After(h, inputs, k)), src, mtu - DATA_HDR)
    ensures Tame(h, src, mtu - DATA_HDR, After(h, inputs, k + 1))
  {
    hide Step, BlastFor, AllGenuine, Tame, Read, AllFragments, Shuffled, Fragments, Attempts;
    var p := After(h, inputs, k);
    assert FilteredRound(h, src, mtu, block, rule, p, InputAt(inputs, k));
    ArrivalsGenuine(rule, src, mtu, BlastFor(h, src, mtu, block, p), AllFragments(InputAt(inputs, k).windows));
    assert After(h, inputs, 0) == START;
    assert FilteredRound(h, src, mtu, block, rule, START, InputAt(inputs, 0));
    StepTame(h, src, mtu - DATA_HDR, ServerMeta(h, src, block), inputs, k);
  }

  lemma StartTame(h: Hash, src: seq<u8>, pay: nat)
    requires pay > 0
    ensures Tame(h, src, pay, START)
  {
  }

  lemma ArrivalsGenuine(rule: Rule.DropRule, src: seq<u8>, mtu: u32, fs: seq<Fragment>, arrived: seq<Fragment>)
    requires |src| < TWO32 && DATA_HDR < mtu < TWO16 && AllGenuine(fs, src, mtu - DATA_HDR)
    requires Shuffled(arrived, Read(rule, mtu, fs))
    ensures AllGenuine(arrived, src, mtu - DATA_HDR)
  {
    hide Read;
    GenuineNotEmpty(fs, src, mtu - DATA_HDR);
    forall fr | fr in arrived
      ensures fr in fs
    {
      SurvivingFragments(rule, mtu, fs, fr);
    }
  }

  /** The client of state `p` has byte `i` of the `n`-byte file still to come. */
  ghost predicate Lacks(p: State, n: nat, i: nat) {
    && !p.Done?
    && (p.Running? && p.rx.Some? ==> i < |p.rx.value.cov| == n && !p.rx.value.cov[i])
  }

  /** Byte `i` is the first of fragment `f`, which the rule drops. */
  ghost predicate Victim(rule: Rule.DropRule, src: seq<u8>, mtu: u32, f: u64, i: nat)
    requires DATA_HDR < mtu
  {
    InFile(src, mtu - DATA_HDR, f) && i == f * (mtu - DATA_HDR) && Loses(rule, f)
  }

  /** A dropped fragment stays missing in every round. */
  lemma {:induction false} LostStaysMissing(
    h: Hash, src: seq<u8>, mtu: u32, block: u32, rule: Rule.DropRule,
    inputs: seq<RoundInput>, n: nat, f: u64, i: nat, k: nat)
    requires |src| < TWO32 && DATA_HDR < mtu < TWO16 && ThroughFilter(h, src, mtu, block, rule, inputs, n) && k <= n
    requires Victim(rule, src, mtu, f, i)
    ensures Lacks(After(h, inputs, k), |src|, i)
  {
    hide Step, ThroughFilter, Victim;
    if k > 0 {
      hide Lacks;
      LostStaysMissing(h, src, mtu, block, rule, inputs, n, f, i, k - 1);
      StillMissing(h, src, mtu, block, rule, inputs, n, f, i, k - 1);
    }
  }

  lemma StillMissing(
    h: Hash, src: seq<u8>, mtu: u32, block: u32, rule: Rule.DropRule,
    inputs: seq<RoundInput>, n: nat, f: u64, i: nat, k: nat)
    requires |src| < TWO32 && DATA_HDR < mtu < TWO16 && ThroughFilter(h, src, mtu, block, rule, inputs, n) && k < n
    requires Victim(rule, src, mtu, f, i)
    requires Lacks(After(h, inputs, k), |src|, i)
    ensures Lacks(After(h, inputs, k + 1), |src|, i)
  {
    hide Receive, Blasted, Victim, Tame, Attempts, AllGenuine, HitBy, Read, AllFragments, Shuffled, Fragments;
    var p := After(h, inputs, k);
    SystemTame(h, src, mtu, block, rule, inputs, n, k);
    if p.Running? {
      var windows := InputAt(inputs, k).windows;
      MissedAgain(rule, src, mtu, BlastFor(h, src, mtu, block, p), AllFragments(windows), f, i);
      ReceiveMisses(h, src, p.rx, ServerMeta(h, src, block), windows, i);
    }
  }

  /** None of the survivors of a blast writes a byte of a dropped fragment. */
  lemma MissedAgain(
    rule: Rule.DropRule, src: seq<u8>, mtu: u32, fs: seq<Fragment>, arrived: seq<Fragment>, f: u64, i: nat)
    requires |src| < TWO32 && DATA_HDR < mtu < TWO16 && AllGenuine(fs, src, mtu - DATA_HDR)
    requires Victim(rule, src, mtu, f, i) && Shuffled(arrived, Read(rule, mtu, fs))
    ensures i < |src| && !HitBy(arrived, |src|, i)
  {
    hide Loses, Read;
    GenuineNotEmpty(fs, src, mtu - DATA_HDR);
    forall fr | fr in arrived
      ensures !fr.Hits(|src|, i)
    {
      SurvivingFragments(rule, mtu, fs, fr);
      SurvivorMisses(rule, src, mtu, fr, f, i);
    }
  }

  lemma SurvivorMisses(rule: Rule.DropRule, src: seq<u8>, mtu: u32, fr: Fragment, f: u64, i: nat)
    requires |src| < TWO32 && DATA_HDR < mtu < TWO16 && Genuine(fr, src, mtu - DATA_HDR)
    requires Victim(rule, src, mtu, f, i) && !Loses(rule, KeyFor(mtu, fr))
    ensures !fr.Hits(|src|, i)
  {
    hide Loses, KeyOf;
    var pay := mtu - DATA_HDR;
    var g: nat :| InFile(src, pay, g) && fr == FragmentOf(src, pay, g);
    KeyIsNumber(1, src, mtu, g);
    StartOf(f, pay);
    GenuineHits(src, pay, g, i);
  }

  lemma {:induction false} DrainMisses(h: Hash, r: Rx, windows: seq<seq<Packet>>, i: nat)
    requires r.Wf() && i < |r.data| && !r.cov[i] && !HitBy(AllFragments(windows), |r.data|, i)
    ensures !DrainAll(h, r, windows).cov[i]
    decreases |windows|
  {
    hide Verdict, Fragments;
    if windows != [] {
      var fs := Fragments(windows[0]);
      assert AllFragments(windows) == fs + AllFragments(windows[1..]);
      forall f | f in fs || f in AllFragments(windows[1..])
        ensures !f.Hits(|r.data|, i)
      {
        assert f in AllFragments(windows);
      }
      CoveredAfter(r, fs, i);
      DrainMisses(h, DeliverAll(r, fs), windows[1..], i);
    }
  }

  lemma ReceiveMisses(h: Hash, src: seq<u8>, rx: Option<Rx>, m: Meta, windows: seq<seq<Packet>>, i: nat)
    requires i < |src| < TWO32 && m.total == |src|
    requires rx.Some? ==> rx.value.Wf() && |rx.value.cov| == |src| && !rx.value.cov[i]
    requires !HitBy(AllFragments(windows), |src|, i)
    ensures Lacks(Receive(h, rx, m, windows), |src|, i)
  {
    hide AllFragments;
    if !ShortManifest(rx, m) && ReceiverFor(rx, m).Some? {
      var r := ReceiverFor(rx, m).value;
      assert !r.cov[i];
      DrainMisses(h, r, windows, i);
      VerdictExact(h, DrainAll(h, r, windows));
    }
  }

  /** With nothing dropped the first round delivers the file. */
  lemma NothingDropped(
    h: Hash, src: seq<u8>, mtu: u32, block: u32, rule: Rule.DropRule, inputs: seq<RoundInput>, n: nat)
    requires 0 < |src| < TWO32 && DATA_HDR < mtu < TWO16 && NBlocks(|src|, block) > 0
    requires ThroughFilter(h, src, mtu, block, rule, inputs, n) && n > 0
    requires forall f: u64 :: InFile(src, mtu - DATA_HDR, f) ==> !Loses(rule, f)
    ensures After(h, inputs, 1).Done? && After(h, inputs, 1).verified.data == src
  {
    hide Loses, InFile, Tame, Step, HitBy, Fragments, Tile, Read, ThroughFilter, AllGenuine, BlastFor, Receive;
    var windows := InputAt(inputs, 0).windows;
    FirstRound(h, src, mtu, block, rule, inputs, n);
    SystemTame(h, src, mtu, block, rule, inputs, n, 0);
    forall i | 0 <= i < |src|
      ensures HitBy(AllFragments(windows), |src|, i)
    {
      EveryByteArrives(rule, src, mtu, Tile(src, mtu - DATA_HDR, 0, |src|), AllFragments(windows), i);
    }
    FirstWindows(h, src, block, windows);
    SystemTame(h, src, mtu, block, rule, inputs, n, 1);
    DoneNotCorrupt(h, src, mtu - DATA_HDR, After(h, inputs, 1));
  }

  lemma DoneNotCorrupt(h: Hash, src: seq<u8>, pay: nat, p: State)
    requires pay > 0 && Tame(h, src, pay, p)
    ensures p.Done? ==> p.verified.data == src
    ensures p.Running? && p.rx.Some? ==> Verdict(h, p.rx.value) != Corrupt
  {
  }

  /** The first request, for no range, is answered by the whole file. */
  lemma FirstBlast(h: Hash, src: seq<u8>, mtu: u32, block: u32)
    requires |src| < TWO32 && DATA_HDR < mtu < TWO16
    ensures BlastFor(h, src, mtu, block, START) == Tile(src, mtu - DATA_HDR, 0, |src|)
  {
    hide Answer, Fragments, Tile;
    AnswerData(h, src, mtu, block, []);
    RequestedRanges(mtu, block, [], |src|);
    BlastWhole(src, mtu - DATA_HDR);
  }

  /** What the first round of the closed system amounts to. */
  lemma FirstRound(h: Hash, src: seq<u8>, mtu: u32, block: u32, rule: Rule.DropRule, inputs: seq<RoundInput>, n: nat)
    requires 0 < |src| < TWO32 && DATA_HDR < mtu < TWO16
    requires ThroughFilter(h, src, mtu, block, rule, inputs, n) && n > 0
    ensures var windows, fs := InputAt(inputs, 0).windows, Tile(src, mtu - DATA_HDR, 0, |src|);
            && BlastFor(h, src, mtu, block, After(h, inputs, 0)) == fs
            && (forall w :: w in windows ==> Fragments(w) != [])
            && Shuffled(AllFragments(windows), Read(rule, mtu, fs))
            && After(h, inputs, 1) == Receive(h, None, ServerMeta(h, src, block), windows)
  {
    hide Receive, Attempts, Tile, Read, Shuffled, AllFragments, Fragments, BlastFor;
    assert After(h, inputs, 0) == START;
    FirstBlast(h, src, mtu, block);
    assert After(h, inputs, 1) == Step(h, START, InputAt(inputs, 0));
  }

  /** A first round whose windows cover the file fills the new receiver. */
  lemma FirstWindows(h: Hash, src: seq<u8>, block: u32, windows: seq<seq<Packet>>)
    requires 0 < |src| < TWO32 && NBlocks(|src|, block) > 0
    requires forall w :: w in windows ==> Fragments(w) != []
    requires forall i :: 0 <= i < |src| ==> HitBy(AllFragments(windows), |src|, i)
    ensures var p := Receive(h, None, ServerMeta(h, src, block), windows);
            p.Done? || (p.Running? && p.rx.Some? && Verdict(h, p.rx.value) == Corrupt)
  {
    hide HitBy, AllFragments, Fragments;
    var r := New(|src|, block, Manifest(h, src, block), NBlocks(|src|, block)).value;
    var fs := AllFragments(windows);
    DrainBusy(h, r, windows);
    forall i | 0 <= i < |src|
      ensures DeliverAll(r, fs).cov[i]
    {
      CoveredAfter(r, fs, i);
    }
    VerdictExact(h, DeliverAll(r, fs));
  }

  lemma HitByOne(fs: seq<Fragment>, fr: Fragment, total: nat, i: nat)
    requires fr in fs && fr.Hits(total, i)
    ensures HitBy(fs, total, i)
  {
  }

  /** A fragment of the file that the rule keeps arrives, and with it every byte in it. */
  lemma FragmentArrives(
    rule: Rule.DropRule, src: seq<u8>, mtu: u32, fs: seq<Fragment>, arrived: seq<Fragment>, f: u64, i: nat)
    requires |src| < TWO32 && DATA_HDR < mtu < TWO16 && fs == Tile(src, mtu - DATA_HDR, 0, |src|)
    requires AllGenuine(fs, src, mtu - DATA_HDR) && Shuffled(arrived, Read(rule, mtu, fs))
    requires InFile(src, mtu - DATA_HDR, f) && !Loses(rule, f)
    requires FragmentOf(src, mtu - DATA_HDR, f).Hits(|src|, i)
    ensures HitBy(arrived, |src|, i)
  {
    hide Loses, Read, KeyOf, Tile, AtStart, NumberOf, HitBy, Fragment.Hits;
    var pay := mtu - DATA_HDR;
    var fr := FragmentOf(src, pay, f);
    hide FragmentOf, InFile;
    StartOf(0, pay);
    WholeFile(src, pay, 0, f);
    KeyIsNumber(1, src, mtu, f);
    GenuineNotEmpty(fs, src, pay);
    SurvivingFragments(rule, mtu, fs, fr);
    HitByOne(arrived, fr, |src|, i);
  }

  lemma EveryByteArrives(
    rule: Rule.DropRule, src: seq<u8>, mtu: u32, fs: seq<Fragment>, arrived: seq<Fragment>, i: nat)
    requires i < |src| < TWO32 && DATA_HDR < mtu < TWO16 && fs == Tile(src, mtu - DATA_HDR, 0, |src|)
    requires AllGenuine(fs, src, mtu - DATA_HDR) && Shuffled(arrived, Read(rule, mtu, fs))
    requires forall f: u64 :: InFile(src, mtu - DATA_HDR, f) ==> !Loses(rule, f)
    ensures HitBy(arrived, |src|, i)
  {
    hide Loses, Read, Tile, InFile, FragmentOf, AllGenuine, Shuffled, HitBy, Fragment.Hits;
    var f := InSome(src, mtu - DATA_HDR, i);
    FragmentArrives(rule, src, mtu, fs, arrived, f, i);
  }

  /** The client never leaves defined behaviour and never gives up before its rounds are spent. */
  lemma {:induction false} KeepsGoing(
    h: Hash, src: seq<u8>, mtu: u32, block: u32, rule: Rule.DropRule, inputs: seq<RoundInput>, n: nat, k: nat)
    requires |src| < TWO32 && mtu < TWO16 && NBlocks(|src|, block) > 0
    requires ThroughFilter(h, src, mtu, block, rule, inputs, n) && k <= n
    ensures After(h, inputs, k).Running? || After(h, inputs, k).Done?
  {
    hide Step, FilteredRound, NBlocks;
    if k > 0 {
      KeepsGoing(h, src, mtu, block, rule, inputs, n, k - 1);
      if After(h, inputs, k - 1).Running? {
        StepGoesOn(h, src, mtu, block, rule, After(h, inputs, k - 1), InputAt(inputs, k - 1));
      } else {
        Settled(h, inputs, k - 1, k);
      }
    }
  }

  lemma StepGoesOn(
    h: Hash, src: seq<u8>, mtu: u32, block: u32, rule: Rule.DropRule, p: State, input: RoundInput)
    requires |src| < TWO32 && mtu < TWO16 && NBlocks(|src|, block) > 0 && p.Running?
    requires FilteredRound(h, src, mtu, block, rule, p, input)
    ensures Step(h, p, input).Running? || Step(h, p, input).Done?
  {
    hide Receive, Attempts, AllFragments, Shuffled, Fragments, BlastFor, Read, NBlocks;
    ReceiveGoesOn(h, p.rx, ServerMeta(h, src, block), input.windows);
  }

  lemma ReceiveGoesOn(h: Hash, rx: Option<Rx>, m: Meta, windows: seq<seq<Packet>>)
    requires rx.Some? ==> rx.value.Wf()
    requires NBlocks(m.total, m.block) == m.nblocks > 0 && |m.manifest| == HASH_LEN * m.nblocks
    ensures Receive(h, rx, m, windows).Running? || Receive(h, rx, m, windows).Done?
  {
    hide DrainAll, Verdict, RepairList;
  }

  /** With a filter on the rule's decision in place of the injector, convergence is decided exactly. */
  lemma FilteredConverges(
    h: Hash, src: seq<u8>, mtu: u32, block: u32, rule: Rule.DropRule, inputs: seq<RoundInput>, maxRounds: nat)
    requires 0 < |src| < TWO32 && DATA_HDR < mtu < TWO16 && NBlocks(|src|, block) > 0 && maxRounds > 0
    requires ThroughFilter(h, src, mtu, block, rule, inputs, maxRounds)
    ensures After(h, inputs, maxRounds).Done? <==>
            forall f: u64 :: InFile(src, mtu - DATA_HDR, f) ==> !Loses(rule, f)
    ensures After(h, inputs, maxRounds).Done? ==> After(h, inputs, maxRounds).verified.data == src
  {
    hide Loses, After;
    if f: u64 :| InFile(src, mtu - DATA_HDR, f) && Loses(rule, f) {
      LostStaysMissing(h, src, mtu, block, rule, inputs, maxRounds, f, f * (mtu - DATA_HDR), maxRounds);
    } else {
      NothingDropped(h, src, mtu, block, rule, inputs, maxRounds);
      Settled(h, inputs, 1, maxRounds);
    }
  }
}
