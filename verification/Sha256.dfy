/** lib/ci_sha256.c: the streaming hash context, proved to compute the digest of FIPS 180-4. */
module Sha256 {
  import opened Bytes
  import opened Sha256Spec

  class Context {
    ghost const f: Compression
    const state: array<Word>
    const buf: array<u8>
    var buflen: nat
    var bitlen: u64

    ghost var absorbed: seq<u8>  // every byte given to Update so far
    ghost var blocks: nat        // how many whole blocks of it are in `state`

    ghost function Registers(): Regs
      requires state.Length == 8
      reads state
    {
      Regs(state[0], state[1], state[2], state[3], state[4], state[5], state[6], state[7])
    }

    ghost predicate Valid()
      reads this, state, buf
    {
      && state.Length == 8 && buf.Length == 64 && buflen < 64 && IsCompress(f)
      && |absorbed| == 64 * blocks + buflen
      && Registers() == Fold(f, absorbed, blocks)
      && buf[..buflen] == absorbed[64 * blocks..]
      && bitlen == 512 * blocks % TWO64
    }

    /** ci_sha256_init */
    constructor (ghost f: Compression)
      requires IsCompress(f)
      ensures this.f == f && Valid() && absorbed == [] && fresh(state) && fresh(buf)
    {
      this.f := f;
      state := new Word[8] [0x6a09e667, 0xbb67ae85, 0x3c6ef372, 0xa54ff53a,
                            0x510e527f, 0x9b05688c, 0x1f83d9ab, 0x5be0cd19];
      buf := new u8[64];
      buflen := 0;
      bitlen := 0;
      absorbed := [];
      blocks := 0;
    }

    /** The message schedule, filled in as the first two loops of ci_sha256_transform do. */
    method Expand() returns (m: array<Word>)
      requires buf.Length == 64
      ensures m[..] == Schedule(Words(buf[..]), 64) && fresh(m)
    {
      ghost var ws := Words(buf[..]);
      m := new Word[64];
      for i := 0 to 16
        invariant m[..i] == ws[..i]
      {
        m[i] := WordOf(buf[i * 4], buf[i * 4 + 1], buf[i * 4 + 2], buf[i * 4 + 3]);
      }
      Extend(m, ws);
    }

    static method Extend(m: array<Word>, ghost ws: seq<Word>)
      requires m.Length == 64 && |ws| == 16 && m[..16] == ws
      modifies m
      ensures m[..] == Schedule(ws, 64)
    {
      for i := 16 to 64
        invariant m[..i] == Schedule(ws, i)
      {
        ghost var was := m[..i];
        var w := NextWord(m[i - 2], m[i - 7], m[i - 15], m[i - 16]);
        assert w == NextWord(was[i - 2], was[i - 7], was[i - 15], was[i - 16]);
        m[i] := w;
        assert m[..i + 1] == was + [w];
      }
    }

    /** The 64 rounds, with the constants `k` and the schedule `m`. */
    static method Mix(k: seq<Word>, m: array<Word>, r: Regs) returns (out: Regs)
      requires m.Length == |k| == 64
      ensures out == Rounds(k, m[..], r, 64)
    {
      hide T1, T2, Add;
      var a, b, cc, d, e, f, g, h := r.a, r.b, r.c, r.d, r.e, r.f, r.g, r.h;
      for i := 0 to 64
        invariant Regs(a, b, cc, d, e, f, g, h) == Rounds(k, m[..], r, i)
      {
        ghost var was := Regs(a, b, cc, d, e, f, g, h);
        var t1 := T1(e, f, g, h, k[i], m[i]);
        var t2 := T2(a, b, cc);
        h := g; g := f; f := e; e := Add(d, t1);
        d := cc; cc := b; b := a; a := Add(t1, t2);
        assert Regs(a, b, cc, d, e, f, g, h) == OneRound(was, k[i], m[i]);
      }
      out := Regs(a, b, cc, d, e, f, g, h);
    }

    /** ci_sha256_transform: one block into the state. */
    method Transform()
      requires state.Length == 8 && buf.Length == 64 && IsCompress(f)
      modifies state
      ensures Registers() == f(old(Registers()), buf[..])
    {
      hide Rounds, Schedule, Words, Add;
      ghost var start := Registers();
      var m := Expand();
      var r := Mix(K, m, Regs(state[0], state[1], state[2], state[3], state[4], state[5], state[6], state[7]));
      state[0] := Add(state[0], r.a); state[1] := Add(state[1], r.b);
      state[2] := Add(state[2], r.c); state[3] := Add(state[3], r.d);
      state[4] := Add(state[4], r.e); state[5] := Add(state[5], r.f);
      state[6] := Add(state[6], r.g); state[7] := Add(state[7], r.h);
      assert Registers() == AddRegs(start, r);
      assert Registers() == Compress(start, buf[..]);
    }

    /** A full buffer that holds block `n` of `p`, folded in. */
    method Absorb(ghost p: seq<u8>, ghost n: nat)
      requires state.Length == 8 && buf.Length == 64 && IsCompress(f)
      requires 64 * n + 64 <= |p| && buf[..] == p[64 * n..64 * n + 64]
      requires Registers() == Fold(f, p, n)
      modifies state
      ensures Registers() == Fold(f, p, n + 1)
    {
      hide IsCompress;
      assert p[64 * n..64 * (n + 1)] == buf[..];
      Transform();
    }

    /** The loop body of ci_sha256_update: one more byte. */
    method Push(c: u8)
      requires Valid()
      modifies this, state, buf
      ensures Valid() && absorbed == old(absorbed) + [c]
    {
      hide IsCompress, Fold;
      ghost var lo := 64 * blocks;
      FoldPrefix(f, absorbed, absorbed + [c], blocks);
      assert (absorbed + [c])[lo..] == absorbed[lo..] + [c];
      absorbed := absorbed + [c];
      buf[buflen] := c;
      buflen := buflen + 1;
      assert buf[..buflen] == absorbed[lo..];
      if buflen == 64 {
        Absorb(absorbed, blocks);
        bitlen := (bitlen + 512) % TWO64;
        assert bitlen == 512 * (blocks + 1) % TWO64 by {
          BitCount(blocks, 64);
        }
        blocks := blocks + 1;
        buflen := 0;
        assert buf[..0] == absorbed[64 * blocks..];
      }
    }

    /** ci_sha256_update */
    method Update(data: seq<u8>)
      requires Valid()
      modifies this, state, buf
      ensures Valid() && absorbed == old(absorbed) + data
    {
      hide IsCompress;
      for i := 0 to |data|
        invariant Valid() && absorbed == old(absorbed) + data[..i]
      {
        Push(data[i]);
        assert data[..i + 1] == data[..i] + [data[i]];
      }
      assert data[..|data|] == data;
    }

    /** ci_sha256_final: pad, write the length, and return the digest of everything absorbed. */
    method Final() returns (out: seq<u8>)
      requires Valid()
      modifies this, state, buf
      ensures out == Digest(f, old(absorbed))
    {
      hide IsCompress;
      PadIsPadded(absorbed, blocks, buflen);
      ghost var n := Finish(Pad(absorbed));
      out := Output();
    }

    /** The part of ci_sha256_final that feeds the padding, in one block or two. */
    method Finish(ghost p: seq<u8>) returns (ghost n: nat)
      requires Valid() && IsPadded(absorbed, p, blocks, buflen)
      modifies this, state, buf
      ensures 64 * n == |p| && state.Length == 8 && Registers() == Fold(f, p, n)
    {
      hide IsCompress, Fold, BigEndian;
      n := blocks;
      FoldPrefix(f, absorbed, p, n);
      ghost var len := |absorbed|;
      bitlen := (bitlen + buflen * 8) % TWO64;
      assert bitlen == 8 * len % TWO64 by {
        BitCount(n, buflen);
      }
      assert buf[..buflen] == p[64 * n..len];
      n := Tail(p, n, len);
    }

    /** 0x80 after the bytes of the last block, and a further block if the length no longer fits. */
    method Tail(ghost p: seq<u8>, ghost n: nat, ghost len: nat) returns (ghost after: nat)
      requires state.Length == 8 && buf.Length == 64 && IsCompress(f) && buflen < 64
      requires len == 64 * n + buflen && |p| == 64 * n + (if buflen < 56 then 64 else 128)
      requires buf[..buflen] == p[64 * n..len] && p[len] == 0x80
      requires forall k :: len < k < |p| - 8 ==> p[k] == 0
      requires p[|p| - 8..] == BigEndian(8 * len, 8) && bitlen == 8 * len % TWO64
      requires Registers() == Fold(f, p, n)
      modifies state, buf
      ensures 64 * after == |p| && state.Length == 8 && Registers() == Fold(f, p, after)
    {
      hide IsCompress, Fold, BigEndian;
      after := n;
      var i := buflen;
      buf[i] := 0x80;
      i := i + 1;
      assert buf[..i] == p[64 * n..64 * n + i];
      if i > 56 {
        i := Zeros(i, 64, p, 64 * n);
        Absorb(p, n);
        i := 0;
        after := after + 1;
      }
      LastBlock(i, p, after, len);
      after := after + 1;
    }

    /** The last block: zeros from `start`, then the length. */
    method LastBlock(start: nat, ghost p: seq<u8>, ghost n: nat, ghost len: nat)
      requires state.Length == 8 && buf.Length == 64 && IsCompress(f) && start <= 56
      requires |p| == 64 * n + 64 && buf[..start] == p[64 * n..64 * n + start]
      requires forall k :: 64 * n + start <= k < |p| - 8 ==> p[k] == 0
      requires p[|p| - 8..] == BigEndian(8 * len, 8) && bitlen == 8 * len % TWO64
      requires Registers() == Fold(f, p, n)
      modifies state, buf
      ensures state.Length == 8 && Registers() == Fold(f, p, n + 1)
    {
      hide IsCompress;
      var i := Zeros(start, 56, p, 64 * n);
      PutLength(p, 64 * n, len);
      Absorb(p, n);
    }

    /** The zero-filling loops of ci_sha256_final, up to position `end` of the block at `lo`. */
    method Zeros(start: nat, end: nat, ghost p: seq<u8>, ghost lo: nat) returns (i: nat)
      requires buf.Length == 64 && start <= end <= 64 && lo + end <= |p|
      requires buf[..start] == p[lo..lo + start]
      requires forall k :: lo + start <= k < lo + end ==> p[k] == 0
      modifies buf
      ensures i == end && buf[..end] == p[lo..lo + end]
    {
      hide IsCompress;
      i := start;
      while i < end
        invariant start <= i <= end
        invariant buf[..i] == p[lo..lo + i]
      {
        buf[i] := 0;
        assert p[lo + i] == 0;
        i := i + 1;
      }
    }

    /** The big-endian length field, written into the last 8 bytes of the block at `lo`. */
    method PutLength(ghost p: seq<u8>, ghost lo: nat, ghost len: nat)
      requires buf.Length == 64 && lo + 64 == |p|
      requires buf[..56] == p[lo..lo + 56] && p[lo + 56..] == BigEndian(8 * len, 8)
      requires bitlen == 8 * len % TWO64
      modifies buf
      ensures buf[..] == p[lo..]
    {
      hide IsCompress;
      BigEndianWrap64(8 * len);
      ghost var field := BigEndian(bitlen, 8);
      var i, j := 56, 7;
      while j >= 0
        invariant -1 <= j <= 7 && i == 63 - j
        invariant buf[..i] == p[lo..lo + i]
      {
        BigEndianAt(bitlen, 8, 7 - j);
        assert p[lo + i] == p[lo + 56..][7 - j] == field[7 - j];
        buf[i] := ShiftBytes(bitlen, j) % 0x100;
        i := i + 1;
        j := j - 1;
      }
      assert buf[..64] == buf[..];
    }

    /** The state words as 32 big-endian bytes. */
    method Output() returns (out: seq<u8>)
      requires state.Length == 8
      ensures out == RegsBytes(Registers())
    {
      hide IsCompress;
      out := [];
      for k := 0 to 8
        invariant |out| == 4 * k
        invariant forall q :: 0 <= q < k ==> out[4 * q..4 * q + 4] == WordBytes(state[q])
      {
        ghost var was := out;
        out := out + [state[k] / 0x100_0000, state[k] / 0x1_0000 % 0x100,
                      state[k] / 0x100 % 0x100, state[k] % 0x100];
        assert forall q :: 0 <= q < k ==> out[4 * q..4 * q + 4] == was[4 * q..4 * q + 4];
      }
      assert out == out[0..4] + out[4..8] + out[8..12] + out[12..16]
                    + out[16..20] + out[20..24] + out[24..28] + out[28..32];
    }
  }

  /** ci_sha256_file: `opens` says whether fopen succeeds, `pieces` are what fread returns until it
      returns nothing, `failed` is ferror's answer at the end. However the file is cut up, the result is
      the digest of the whole, in hexadecimal, and its length. */
  method HashFile(opens: bool, pieces: seq<seq<u8>>, failed: bool) returns (rc: int, hex: string, total: nat)
    ensures rc == if opens && !failed then 0 else -1
    ensures rc == 0 ==> hex == Hex(SHA256(Join(pieces))) && total == |Join(pieces)|
  {
    hide IsCompress, Digest, Fold;
    rc, hex, total := -1, "", 0;
    if !opens {
      return;
    }
    CompressIsCompress();
    var c := new Context(Compress);
    assert pieces[..0] == [];
    for i := 0 to |pieces|
      invariant c.Valid() && c.f == Compress && fresh(c) && fresh(c.state) && fresh(c.buf)
      invariant c.absorbed == Join(pieces[..i]) && total == |c.absorbed|
    {
      JoinAppend(pieces[..i], [pieces[i]]);
      assert pieces[..i + 1] == pieces[..i] + [pieces[i]];
      c.Update(pieces[i]);
      total := total + |pieces[i]|;
    }
    assert pieces[..|pieces|] == pieces;
    if failed {
      return;
    }
    var digest := c.Final();
    hex := HexDigits(digest);
    rc := 0;
  }

  /** The digit loop of ci_sha256_file. */
  method HexDigits(digest: seq<u8>) returns (hex: string)
    ensures hex == Hex(digest)
  {
    hex := "";
    for i := 0 to |digest|
      invariant hex == Hex(digest[..i])
    {
      assert digest[..i + 1][..i] == digest[..i];
      hex := hex + [HEX[digest[i] / 0x10], HEX[digest[i] % 0x10]];
    }
    assert digest[..|digest|] == digest;
  }
}
