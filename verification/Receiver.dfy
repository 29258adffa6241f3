/** lib/ci_svu.c: the reassembly buffer, its coverage accounting and the verified-completion verdict. */
module Receiver {
  import opened Bytes
  import opened Sha256Spec
  import Sha256

  const HASH_LEN := 32

  datatype Status = Incomplete | Verified | Corrupt

  /** ci_svu_nblocks, with the 32-bit sum of the source. */
  function NBlocks(total: u32, block: u32): u32 {
    if total == 0 || block == 0 then 0 else
      var t: int := total;
      Wrap32(t + block - 1) / block
  }

  function BlockStart(total: nat, block: nat, b: nat): (r: nat)
    ensures r <= total
  {
    Min(b * block, total)
  }

  function BlockEnd(total: nat, block: nat, b: nat): (r: nat)
    ensures BlockStart(total, block, b) <= r <= total
  {
    Min(b * block + block, total)
  }

  /** The bytes of block `b`. */
  function Block(data: seq<u8>, block: nat, b: nat): seq<u8> {
    data[BlockStart(|data|, block, b)..BlockEnd(|data|, block, b)]
  }

  /** The digests of the first `n` blocks, one after the other (ci_svu_manifest). */
  function ManifestTo(h: Hash, src: seq<u8>, block: nat, n: nat): (m: seq<u8>)
    ensures |m| == HASH_LEN * n
  {
    if n == 0 then [] else ManifestTo(h, src, block, n - 1) + h(Block(src, block, n - 1))
  }

  function Manifest(h: Hash, src: seq<u8>, block: u32): (m: seq<u8>)
    requires |src| < TWO32
    ensures |m| == HASH_LEN * NBlocks(|src|, block)
  {
    ManifestTo(h, src, block, NBlocks(|src|, block))
  }

  /** How many entries of `c` are true. */
  function Count(c: seq<bool>): (n: nat)
    ensures n <= |c|
  {
    if c == [] then 0 else Count(c[..|c| - 1]) + (if c[|c| - 1] then 1 else 0)
  }

  // ---- the receiver as a value ------------------------------------------------

  datatype Rx = Rx(block: u32, expected: seq<u8>, data: seq<u8>, cov: seq<bool>) {

    predicate Wf() {
      && |data| == |cov| < TWO32
      && NBlocks(|data|, block) > 0
      && |expected| == HASH_LEN * NBlocks(|data|, block)
    }

    function N(): nat
      requires Wf()
    {
      NBlocks(|data|, block)
    }

    /** The bytes that make block `b` fail: its digest is not the manifest's. */
    predicate Bad(h: Hash, b: nat)
      requires Wf() && b < N()
    {
      h(Block(data, block, b)) != expected[HASH_LEN * b..HASH_LEN * b + HASH_LEN]
    }

    function BlockInterval(b: nat): Interval
      requires Wf()
    {
      Interval(BlockStart(|data|, block, b), BlockEnd(|data|, block, b))
    }
  }

  /** ci_svu_new; `None` where it returns NULL. */
  function New(total: u32, block: u32, expected: seq<u8>, nblocks: u32): (r: Option<Rx>)
    requires NBlocks(total, block) == nblocks ==> HASH_LEN * nblocks <= |expected|
    ensures r.Some? ==> r.value.Wf()
  {
    var nblk := NBlocks(total, block);
    if nblk == 0 || nblk != nblocks then None
    else Some(Rx(block, expected[..HASH_LEN * nblk], Repeat(0, total), Repeat(false, total)))
  }

  /** ci_svu_accept */
  function Accept(r: Rx, off: u32, buf: seq<u8>): (r': Rx)
    requires r.Wf()
    ensures r'.Wf() && r'.block == r.block && r'.expected == r.expected && |r'.data| == |r.data|
  {
    if off + |buf| > |r.data| then r
    else r.(data := Splice(r.data, off, buf), cov := Splice(r.cov, off, Repeat(true, |buf|)))
  }

  /** Where the run of `v` that begins at `i` stops. */
  function RunEnd(c: seq<bool>, i: nat): (e: nat)
    requires i <= |c|
    ensures i <= e <= |c|
    ensures forall k :: i <= k < e ==> !c[k]
    ensures e < |c| ==> c[e]
    decreases |c| - i
  {
    if i < |c| && !c[i] then RunEnd(c, i + 1) else i
  }

  /** The uncovered runs at or after `i`, as ci_svu_verify coalesces them. */
  function Holes(c: seq<bool>, i: nat): seq<Interval>
    requires i <= |c| < TWO32
    decreases |c| - i
  {
    if i == |c| then []
    else if c[i] then Holes(c, i + 1)
    else [Interval(i, RunEnd(c, i))] + Holes(c, RunEnd(c, i))
  }

  /** The ranges of the failing blocks from block `b` on. */
  function BadBlocks(h: Hash, r: Rx, b: nat): seq<Interval>
    requires r.Wf() && b <= r.N()
    decreases r.N() - b
  {
    if b == r.N() then []
    else (if r.Bad(h, b) then [r.BlockInterval(b)] else []) + BadBlocks(h, r, b + 1)
  }

  /** Everything ci_svu_verify would list, were there room for it. */
  function RepairList(h: Hash, r: Rx): seq<Interval>
    requires r.Wf()
  {
    if Count(r.cov) < |r.cov| then Holes(r.cov, 0) else BadBlocks(h, r, 0)
  }

  /** The verdict of ci_svu_verify. */
  function Verdict(h: Hash, r: Rx): Status
    requires r.Wf()
  {
    if Count(r.cov) < |r.cov| then Incomplete
    else if BadBlocks(h, r, 0) == [] then Verified
    else Corrupt
  }

  /** The number of blocks is the quotient rounded up, unless the sum wraps; then it is zero. */
  lemma NBlocksExact(total: u32, block: u32)
    requires total > 0 && block > 0
    ensures var n, sum: int := NBlocks(total, block), total;
            if sum + block - 1 < TWO32 then n > 0 && IsCeiling(n, total, block) else n == 0
  {
    var t: int := total;
    var m := t + block - 1;
    if m < TWO32 {
      Ceiling(total, block, m / block);
    } else {
      assert Wrap32(m) == m - TWO32 < block;
    }
  }

  predicate IsCeiling(n: nat, total: nat, block: nat) {
    n * block - block < total <= n * block
  }

  lemma Ceiling(total: nat, block: nat, n: nat)
    requires total > 0 && block > 0 && n == (total + block - 1) / block
    ensures n > 0 && IsCeiling(n, total, block)
  {
    var m := total + block - 1;
    assert m == block * n + m % block;
    assert block * n == n * block;
  }

  lemma MulMono(a: nat, b: nat, d: nat)
    requires a <= b
    ensures a * d <= b * d
  {
    assert b * d == a * d + (b - a) * d;
  }

  /** Every block starts inside the payload. */
  lemma BlockInside(total: u32, block: u32, b: nat)
    requires b < NBlocks(total, block)
    ensures b * block < total
  {
    NBlocksExact(total, block);
    var n := NBlocks(total, block);
    MulMono(b, n - 1, block);
    assert (n - 1) * block == n * block - block;
  }

  lemma BadBlocksStep(h: Hash, r: Rx, found: seq<Interval>, b: nat)
    requires r.Wf() && b < r.N()
    ensures found + BadBlocks(h, r, b) ==
            (if r.Bad(h, b) then found + [r.BlockInterval(b)] else found) + BadBlocks(h, r, b + 1)
  {
    var rest := BadBlocks(h, r, b + 1);
    if r.Bad(h, b) {
      assert found + ([r.BlockInterval(b)] + rest) == found + [r.BlockInterval(b)] + rest;
    } else {
      assert [] + rest == rest;
    }
  }

  // ---- counting ---------------------------------------------------------------

  lemma {:induction false} CountSet(c: seq<bool>, i: nat)
    requires i < |c|
    ensures Count(c[i := true]) == Count(c) + (if c[i] then 0 else 1)
  {
    var n := |c| - 1;
    if i < n {
      CountSet(c[..n], i);
      assert c[i := true][..n] == c[..n][i := true];
    } else {
      assert c[i := true][..n] == c[..n];
    }
  }

  lemma MarkStep(c: seq<bool>, start: nat, i: nat)
    requires start <= i < |c|
    ensures Splice(c, start, Repeat(true, i - start))[i := true] == Splice(c, start, Repeat(true, i + 1 - start))
  {
  }

  lemma {:induction false} CountFull(c: seq<bool>)
    ensures Count(c) == |c| <==> forall i :: 0 <= i < |c| ==> c[i]
  {
    if c != [] {
      CountFull(c[..|c| - 1]);
    }
  }

  lemma {:induction false} CountNone(n: nat)
    ensures Count(Repeat(false, n)) == 0
  {
    if n > 0 {
      CountNone(n - 1);
      assert Repeat(false, n)[..n - 1] == Repeat(false, n - 1);
    }
  }

  // ---- the receiver as the C struct -------------------------------------------

  class Tracker {
    const total: u32
    const block: u32
    const nblocks: u32
    const expected: seq<u8>
    const data: array<u8>
    const covered: array<bool>
    var coveredCount: u32
    ghost const h: Hash

    ghost predicate Valid()
      reads this, data, covered
    {
      && IsSha256(h)
      && data.Length == covered.Length == total
      && View().Wf() && nblocks == View().N()
      && coveredCount == Count(covered[..])
    }

    ghost function View(): Rx
      reads this, data, covered
    {
      Rx(block, expected, data[..], covered[..])
    }

    constructor (ghost h: Hash, total: u32, block: u32, expected: seq<u8>)
      requires IsSha256(h) && NBlocks(total, block) > 0
      requires |expected| == HASH_LEN * NBlocks(total, block)
      ensures Valid() && fresh(data) && fresh(covered) && this.h == h
      ensures View() == Rx(block, expected, Repeat(0, total), Repeat(false, total))
    {
      this.h := h;
      this.total, this.block, this.nblocks := total, block, NBlocks(total, block);
      this.expected := expected;
      data := new u8[total](_ => 0);
      covered := new bool[total](_ => false);
      coveredCount := 0;
      new;
      assert data[..] == Repeat(0, total);
      assert covered[..] == Repeat(false, total);
      CountNone(total);
    }

    /** ci_svu_new: NULL for an empty payload, a zero block size or a wrong block count. */
    static method Create(ghost h: Hash, total: u32, block: u32, expected: seq<u8>, nblocks: u32)
      returns (s: Tracker?)
      requires IsSha256(h) && (NBlocks(total, block) == nblocks ==> HASH_LEN * nblocks <= |expected|)
      ensures s == null <==> New(total, block, expected, nblocks).None?
      ensures s != null ==> fresh(s) && fresh(s.data) && fresh(s.covered) && s.Valid() && s.h == h
      ensures s != null ==> s.View() == New(total, block, expected, nblocks).value
    {
      hide IsSha256;
      var nblk := NBlocks(total, block);
      if nblk == 0 || nblk != nblocks {
        return null;
      }
      s := new Tracker(h, total, block, expected[..HASH_LEN * nblk]);
    }

    /** ci_svu_accept: 0, or -1 when the fragment runs past the declared payload. */
    method Deliver(offset: u32, buf: seq<u8>) returns (rc: int)
      requires Valid()
      modifies this`coveredCount, data, covered
      ensures Valid() && View() == Accept(old(View()), offset, buf)
      ensures rc == if offset + |buf| > total then -1 else 0
    {
      hide IsSha256;
      var end: int := offset + |buf|;
      if end > total {
        return -1;
      }
      Mark(offset, end);
      CopyIn(offset, buf);
      rc := 0;
    }

    /** The coverage loop of ci_svu_accept: count each byte the first time it is covered. */
    method Mark(start: nat, end: nat)
      requires covered.Length == total && coveredCount == Count(covered[..]) && start <= end <= total
      modifies this`coveredCount, covered
      ensures covered[..] == Splice(old(covered[..]), start, Repeat(true, end - start))
      ensures coveredCount == Count(covered[..])
    {
      ghost var was := covered[..];
      var i := start;
      assert was == Splice(was, start, Repeat(true, 0));
      while i < end
        invariant start <= i <= end
        invariant covered[..] == Splice(was, start, Repeat(true, i - start))
        invariant coveredCount == Count(covered[..])
      {
        MarkStep(was, start, i);
        MarkOne(i);
        i := i + 1;
      }
    }

    /** The body of that loop. */
    method MarkOne(i: nat)
      requires covered.Length == total && coveredCount == Count(covered[..]) && i < total
      modifies this`coveredCount, covered
      ensures covered[..] == old(covered[..])[i := true] && coveredCount == Count(covered[..])
    {
      ghost var c := covered[..];
      CountSet(c, i);
      if !covered[i] {
        covered[i] := true;
        coveredCount := coveredCount + 1;
      }
      assert covered[..] == c[i := true];
    }

    /** The memcpy of ci_svu_accept. */
    method CopyIn(offset: nat, buf: seq<u8>)
      requires offset + |buf| <= data.Length
      modifies data
      ensures data[..] == Splice(old(data[..]), offset, buf)
    {
      forall k | 0 <= k < |buf| {
        data[offset + k] := buf[k];
      }
    }

    /** hash_block of the receiver's own buffer. */
    method HashBlock(b: u32) returns (out: seq<u8>)
      requires Valid() && b < nblocks
      ensures out == h(Block(data[..], block, b))
    {
      hide IsSha256;
      out := DigestBlock(h, data[..], block, b);
    }

    /** ci_svu_verify. `out` may be null; at most `max` ranges are written to it. */
    method Verify(out: array?<Interval>, max: nat) returns (status: Status, nout: nat)
      requires Valid() && (out != null ==> max <= out.Length)
      modifies out
      ensures Valid() && View() == old(View())
      ensures status == Verdict(h, View()) && nout == |RepairList(h, View())|
      ensures Listed(out, max, RepairList(h, View()))
      ensures out != null ==> Kept(out, max, nout, old(out[..]))
    {
      hide IsSha256;
      if coveredCount < total {
        status := Incomplete;
        nout := ListHoles(out, max);
      } else {
        status, nout := ListBad(out, max);
      }
    }

    /** The hole scan of ci_svu_verify. */
    method ListHoles(out: array?<Interval>, max: nat) returns (nout: nat)
      requires covered.Length == total && (out != null ==> max <= out.Length)
      modifies out
      ensures covered[..] == old(covered[..]) && data[..] == old(data[..])
      ensures nout == |Holes(covered[..], 0)| && Listed(out, max, Holes(covered[..], 0))
      ensures out != null ==> Kept(out, max, nout, old(out[..]))
    {
      nout := 0;
      ghost var c := covered[..];
      ghost var found: seq<Interval> := [];
      ghost var was := if out != null then out[..] else [];
      var i := 0;
      while i < total
        invariant i <= total && covered[..] == c && data[..] == old(data[..])
        invariant nout == |found| && found + Holes(c, i) == Holes(c, 0)
        invariant Listed(out, max, found)
        invariant out != null ==> Kept(out, max, nout, was)
      {
        if !covered[i] {
          var run := i;
          while run < total && !covered[run]
            invariant i <= run <= total
            invariant RunEnd(c, run) == RunEnd(c, i)
          {
            run := run + 1;
          }
          nout := PushInterval(out, max, nout, i, run, found, was);
          found := found + [Interval(i, run)];
          i := run;
        } else {
          i := i + 1;
        }
      }
    }

    /** Whether block `b` fails, and its range. */
    method CheckBlock(b: u32) returns (bad: bool, iv: Interval)
      requires Valid() && b < nblocks
      ensures bad == View().Bad(h, b) && iv == View().BlockInterval(b)
    {
      hide IsSha256;
      var got := HashBlock(b);
      bad := got != expected[HASH_LEN * b..HASH_LEN * b + HASH_LEN];
      BlockInside(total, block, b);
      var start: int := b * block;
      var end := start + block;
      if end > total {
        end := total;
      }
      iv := Interval(start, end);
    }

    /** One turn of the block scan. */
    method ScanBlock(
      b: u32, out: array?<Interval>, max: nat, nout: nat, ghost found: seq<Interval>, ghost was: seq<Interval>)
      returns (bad: bool, n: nat, ghost now: seq<Interval>)
      requires Valid() && b < nblocks && nout == |found| && Listed(out, max, found)
      requires out != null ==> max <= out.Length == |was| && Kept(out, max, nout, was)
      modifies out
      ensures n == |now| && bad == (n > nout)
      ensures Listed(out, max, now) && (out != null ==> Kept(out, max, n, was))
      ensures now + BadBlocks(h, old(View()), b + 1) == found + BadBlocks(h, old(View()), b)
    {
      hide IsSha256;
      var iv;
      bad, iv := CheckBlock(b);
      BadBlocksStep(h, View(), found, b);
      n, now := nout, found;
      if bad {
        n := PushInterval(out, max, nout, iv.start, iv.end, found, was);
        now := found + [iv];
      }
    }

    /** The block scan of ci_svu_verify. */
    method ListBad(out: array?<Interval>, max: nat) returns (status: Status, nout: nat)
      requires Valid() && (out != null ==> max <= out.Length)
      modifies out
      ensures Valid() && View() == old(View())
      ensures status == if nout == 0 then Verified else Corrupt
      ensures nout == |BadBlocks(h, View(), 0)| && Listed(out, max, BadBlocks(h, View(), 0))
      ensures out != null ==> Kept(out, max, nout, old(out[..]))
    {
      hide IsSha256;
      status, nout := Verified, 0;
      ghost var r := View();
      ghost var found: seq<Interval> := [];
      ghost var was := if out != null then out[..] else [];
      var b := 0;
      while b < nblocks
        invariant b <= nblocks && unchanged(this, data, covered)
        invariant status == if nout == 0 then Verified else Corrupt
        invariant nout == |found| && found + BadBlocks(h, r, b) == BadBlocks(h, r, 0)
        invariant Listed(out, max, found)
        invariant out != null ==> Kept(out, max, nout, was)
      {
        var bad;
        bad, nout, found := ScanBlock(b, out, max, nout, found, was);
        if bad {
          status := Corrupt;
        }
        b := b + 1;
      }
    }
  }

  /** As many of the ranges `found` as there is room for are in `out`. */
  ghost predicate Listed(out: array?<Interval>, max: nat, found: seq<Interval>)
    reads out
  {
    out != null ==>
      var k := Min(|found|, max);
      k <= out.Length && out[..k] == found[..k]
  }

  /** Nothing beyond those ranges has been written. */
  ghost predicate Kept(out: array<Interval>, max: nat, nout: nat, was: seq<Interval>)
    requires max <= out.Length == |was|
    reads out
  {
    forall k :: Min(nout, max) <= k < out.Length ==> out[k] == was[k]
  }

  /** push_interval: append if there is room, count in any case. */
  method PushInterval(out: array?<Interval>, max: nat, nout: nat, start: u32, end: u32,
                      ghost found: seq<Interval>, ghost was: seq<Interval>)
    returns (n: nat)
    requires nout == |found| && Listed(out, max, found)
    requires out != null ==> max <= out.Length == |was| && Kept(out, max, nout, was)
    modifies out
    ensures n == nout + 1 && Listed(out, max, found + [Interval(start, end)])
    ensures out != null ==> Kept(out, max, n, was)
  {
    if out != null && nout < max {
      out[nout] := Interval(start, end);
      assert out[..nout + 1] == out[..nout] + [Interval(start, end)];
    }
    n := nout + 1;
  }

  /** hash_block: the digest of bytes [b*block, min((b+1)*block, total)). */
  method DigestBlock(ghost h: Hash, src: seq<u8>, block: u32, b: u32) returns (out: seq<u8>)
    requires IsSha256(h)
    ensures out == h(Block(src, block, b))
  {
    ghost var f :| IsCompress(f) && IsDigestOf(h, f);
    var ctx := new Sha256.Context(f);
    ctx.Update(src[BlockStart(|src|, block, b)..BlockEnd(|src|, block, b)]);
    assert ctx.absorbed == Block(src, block, b);
    out := ctx.Final();
  }

  /** ci_svu_manifest: the digests of every block of a known-good source. */
  method BuildManifest(ghost h: Hash, src: seq<u8>, block: u32) returns (m: seq<u8>)
    requires IsSha256(h) && |src| < TWO32
    ensures m == Manifest(h, src, block)
  {
    hide IsSha256;
    var n := NBlocks(|src|, block);
    m := [];
    for b := 0 to n
      invariant m == ManifestTo(h, src, block, b)
    {
      var d := DigestBlock(h, src, block, b);
      m := m + d;
    }
  }
}
