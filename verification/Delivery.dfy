/** What a series of accepted fragments leaves in the receiver, and what a blast delivers. */
module Delivery {
  import opened Bytes
  import opened Receiver

  const MAX_PAYLOAD := 0xFFFF - 8

  /** What fits in a data packet after its 8-byte header. */
  type Payload = b: seq<u8> | |b| <= MAX_PAYLOAD witness []

  /** The payload of one data packet and where it belongs. */
  datatype Fragment = Fragment(off: u32, bytes: Payload) {
    /** Byte `i` of a `total`-byte payload is written when this fragment is accepted. */
    predicate Hits(total: nat, i: nat) {
      off + |bytes| <= total && off <= i < off + |bytes|
    }

    /** The fragment carries what `src` has at its place. */
    predicate Of(src: seq<u8>) {
      off + |bytes| <= |src| && bytes == src[off..off + |bytes|]
    }
  }

  /** ci_svu_accept, for each of `fs` in turn. */
  function DeliverAll(r: Rx, fs: seq<Fragment>): (r': Rx)
    requires r.Wf()
    ensures r'.Wf() && r'.block == r.block && r'.expected == r.expected && |r'.data| == |r.data|
  {
    if fs == [] then r
    else
      var last := fs[|fs| - 1];
      Accept(DeliverAll(r, fs[..|fs| - 1]), last.off, last.bytes)
  }

  lemma {:induction false} DeliverAppend(r: Rx, fs: seq<Fragment>, gs: seq<Fragment>)
    requires r.Wf()
    ensures DeliverAll(r, fs + gs) == DeliverAll(DeliverAll(r, fs), gs)
  {
    if gs == [] {
      assert fs + gs == fs;
    } else {
      assert (fs + gs)[..|fs + gs| - 1] == fs + gs[..|gs| - 1];
      DeliverAppend(r, fs, gs[..|gs| - 1]);
    }
  }

  lemma AcceptAt(r: Rx, f: Fragment, i: nat)
    requires r.Wf() && i < |r.data|
    ensures var r' := Accept(r, f.off, f.bytes);
            if f.Hits(|r.data|, i) then r'.cov[i] && r'.data[i] == f.bytes[i - f.off]
            else r'.cov[i] == r.cov[i] && r'.data[i] == r.data[i]
  {
  }

  /** Some fragment of `fs` writes byte `i`. */
  ghost predicate HitBy(fs: seq<Fragment>, total: nat, i: nat) {
    exists f :: f in fs && f.Hits(total, i)
  }

  lemma HitBySnoc(fs: seq<Fragment>, total: nat, i: nat)
    requires fs != []
    ensures HitBy(fs, total, i) <==> HitBy(fs[..|fs| - 1], total, i) || fs[|fs| - 1].Hits(total, i)
  {
    assert forall f :: f in fs <==> f in fs[..|fs| - 1] || f == fs[|fs| - 1];
  }

  /** A byte is covered when it was before or when some accepted fragment contains it. */
  lemma {:induction false} CoveredAfter(r: Rx, fs: seq<Fragment>, i: nat)
    requires r.Wf() && i < |r.data|
    ensures DeliverAll(r, fs).cov[i] <==> r.cov[i] || HitBy(fs, |r.data|, i)
  {
    if fs != [] {
      var m := |fs| - 1;
      CoveredAfter(r, fs[..m], i);
      AcceptAt(DeliverAll(r, fs[..m]), fs[m], i);
      HitBySnoc(fs, |r.data|, i);
    }
  }

  /** Fragment `k` of `fs` is the last one to write byte `i`. */
  ghost predicate LastToHit(fs: seq<Fragment>, total: nat, i: nat, k: nat) {
    k < |fs| && fs[k].Hits(total, i) && !HitBy(fs[k + 1..], total, i)
  }

  /** Last writer wins, whatever the order, overlap and repetition of the fragments; a byte that none
      of them contains is as it was. */
  lemma {:induction false} LastWriterWins(r: Rx, fs: seq<Fragment>, i: nat, k: nat)
    requires r.Wf() && i < |r.data|
    ensures LastToHit(fs, |r.data|, i, k) ==> DeliverAll(r, fs).data[i] == fs[k].bytes[i - fs[k].off]
    ensures !HitBy(fs, |r.data|, i) ==> DeliverAll(r, fs).data[i] == r.data[i]
  {
    if fs != [] {
      var m, n := |fs| - 1, |r.data|;
      LastWriterWins(r, fs[..m], i, k);
      AcceptAt(DeliverAll(r, fs[..m]), fs[m], i);
      HitBySnoc(fs, n, i);
      if LastToHit(fs, n, i, k) && k < m {
        HitBySnoc(fs[k + 1..], n, i);
        assert fs[k + 1..][..m - k - 1] == fs[..m][k + 1..];
      }
    }
  }

  /** Fragments of `src` only ever write bytes of `src`, and cover every byte they contain. */
  lemma {:induction false} DeliverSource(r: Rx, fs: seq<Fragment>, src: seq<u8>, i: nat)
    requires r.Wf() && i < |r.data| == |src|
    requires forall f :: f in fs ==> f.Of(src)
    ensures var r' := DeliverAll(r, fs);
            if HitBy(fs, |src|, i) then r'.cov[i] && r'.data[i] == src[i]
            else r'.cov[i] == r.cov[i] && r'.data[i] == r.data[i]
  {
    if fs != [] {
      var last := fs[|fs| - 1];
      assert last in fs && last.Of(src);
      DeliverSource(r, fs[..|fs| - 1], src, i);
      AcceptAt(DeliverAll(r, fs[..|fs| - 1]), last, i);
      HitBySnoc(fs, |src|, i);
      if last.Hits(|src|, i) {
        OfAt(last, src, i);
      }
    }
  }

  lemma OfAt(f: Fragment, src: seq<u8>, i: nat)
    requires f.Of(src) && f.Hits(|src|, i)
    ensures f.bytes[i - f.off] == src[i]
  {
  }

  // ---- blasts -------------------------------------------------------------------

  /** The fragments blast_interval sends for [s, e), `pay` payload bytes at a time. */
  function Tile(src: seq<u8>, pay: nat, s: nat, e: nat): (fs: seq<Fragment>)
    requires 0 < pay <= MAX_PAYLOAD && e <= |src| < TWO32
    decreases e - s
  {
    if s >= e then [] else
      var next := Min(s + pay, e);
      [Fragment(s, src[s..next])] + Tile(src, pay, s + pay, e)
  }

  /** The fragments sent for a list of intervals, each clamped to the end of the file. */
  function Blast(src: seq<u8>, pay: nat, ivs: seq<Interval>): seq<Fragment>
    requires 0 < pay <= MAX_PAYLOAD && |src| < TWO32
  {
    if ivs == [] then []
    else
      var n := |ivs| - 1;
      Blast(src, pay, ivs[..n]) + Tile(src, pay, ivs[n].start, Min(ivs[n].end, |src|))
  }

  /** `fs` starts at `s`, is made of pieces of `src`, and each piece begins where the one before it
      stops; all but the last are full, and the last stops at `e`. */
  ghost predicate Tiles(fs: seq<Fragment>, src: seq<u8>, pay: nat, s: nat, e: nat)
    decreases fs
  {
    if fs == [] then s >= e
    else
      var f := fs[0];
      && f.off == s && f.Of(src)
      && |f.bytes| == (if |fs| == 1 then e - s else pay) && 0 < |f.bytes| <= pay
      && Tiles(fs[1..], src, pay, s + |f.bytes|, e)
  }

  lemma {:induction false} TileExact(src: seq<u8>, pay: nat, s: nat, e: nat)
    requires 0 < pay <= MAX_PAYLOAD && e <= |src| < TWO32
    ensures Tiles(Tile(src, pay, s, e), src, pay, s, e)
    decreases e - s
  {
    if s < e {
      var fs, rest := Tile(src, pay, s, e), Tile(src, pay, s + pay, e);
      assert fs[1..] == rest;
      if s + pay < e {
        TileExact(src, pay, s + pay, e);
      } else {
        assert rest == [];
      }
    }
  }

  /** The fragments of a blast are pieces of the file, and hit exactly the bytes of [s, e). */
  lemma {:induction false} TileHits(src: seq<u8>, pay: nat, s: nat, e: nat, i: nat)
    requires 0 < pay <= MAX_PAYLOAD && e <= |src| < TWO32
    ensures forall f :: f in Tile(src, pay, s, e) ==> f.Of(src)
    ensures HitBy(Tile(src, pay, s, e), |src|, i) <==> s <= i < e
    decreases e - s
  {
    if s < e {
      TileHits(src, pay, s + pay, e, i);
      var first := Fragment(s, src[s..Min(s + pay, e)]);
      assert first in Tile(src, pay, s, e);
    }
  }

  ghost predicate Requested(ivs: seq<Interval>, i: nat) {
    exists k :: 0 <= k < |ivs| && ivs[k].start <= i < ivs[k].end
  }

  lemma {:induction false} BlastHits(src: seq<u8>, pay: nat, ivs: seq<Interval>, i: nat)
    requires 0 < pay <= MAX_PAYLOAD && i < |src| < TWO32
    ensures forall f :: f in Blast(src, pay, ivs) ==> f.Of(src)
    ensures HitBy(Blast(src, pay, ivs), |src|, i) <==> Requested(ivs, i)
  {
    if ivs != [] {
      var n := |ivs| - 1;
      BlastHits(src, pay, ivs[..n], i);
      TileHits(src, pay, ivs[n].start, Min(ivs[n].end, |src|), i);
      assert forall k :: 0 <= k < n ==> ivs[..n][k] == ivs[k];
      var a, b := Blast(src, pay, ivs[..n]), Tile(src, pay, ivs[n].start, Min(ivs[n].end, |src|));
      assert forall f :: f in a + b <==> f in a || f in b;
    }
  }

  /** `fs` is what is left of the fragments `sent` after reordering and duplication. */
  ghost predicate Shuffled(fs: seq<Fragment>, sent: seq<Fragment>) {
    forall f :: f in fs <==> f in sent
  }

  /** Delivering the fragments of a blast in any order, any number of times each, puts the source
      bytes in the requested ranges and touches nothing else. */
  lemma BlastThenAccept(r: Rx, src: seq<u8>, pay: nat, ivs: seq<Interval>, fs: seq<Fragment>, i: nat)
    requires r.Wf() && 0 < pay <= MAX_PAYLOAD && i < |r.data| == |src|
    requires Shuffled(fs, Blast(src, pay, ivs))
    ensures var r' := DeliverAll(r, fs);
            if Requested(ivs, i) then r'.cov[i] && r'.data[i] == src[i]
            else r'.cov[i] == r.cov[i] && r'.data[i] == r.data[i]
  {
    BlastHits(src, pay, ivs, i);
    DeliverSource(r, fs, src, i);
  }
}
