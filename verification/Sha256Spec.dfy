/** SHA-256 as FIPS 180-4 defines it: padding, message schedule, compression, digest. */
module Sha256Spec {
  import opened Bytes
  import opened Bits

  type Word = u32
  type Digest32 = d: seq<u8> | |d| == 32 witness Repeat(0, 32)

  datatype Regs = Regs(a: Word, b: Word, c: Word, d: Word, e: Word, f: Word, g: Word, h: Word)

  // ---- operations on words, sections 2.2.2 and 3.2 ---------------------------

  function Bitwise32(op: (bool, bool) -> bool, x: Word, y: Word): Word {
    assert Pow2(32) == TWO32 by {
      assert Pow2(8) == 0x100 && Pow2(16) == 0x1_0000 && Pow2(24) == 0x100_0000;
    }
    Bitwise(op, x, y, 32)
  }

  function And(x: Word, y: Word): Word { Bitwise32(And2, x, y) }
  function Or(x: Word, y: Word): Word { Bitwise32(Or2, x, y) }
  function Xor(x: Word, y: Word): Word { Bitwise32(Xor2, x, y) }
  function Not(x: Word): Word { TWO32 - 1 - x }

  function Shr(x: Word, n: nat): Word { High(x, n) }

  function Shl(x: Word, n: nat): Word
    decreases n
  {
    if n == 0 then x else Shl(Wrap32(2 * x), n - 1)
  }

  function Rotr(x: Word, n: nat): Word
    requires n < 32
  {
    Or(Shr(x, n), Shl(x, 32 - n))
  }

  // ---- functions of section 4.1.2 -------------------------------------------

  function Ch(x: Word, y: Word, z: Word): Word { Xor(And(x, y), And(Not(x), z)) }
  function Maj(x: Word, y: Word, z: Word): Word { Xor(Xor(And(x, y), And(x, z)), And(y, z)) }
  function BigSigma0(x: Word): Word { Xor(Xor(Rotr(x, 2), Rotr(x, 13)), Rotr(x, 22)) }
  function BigSigma1(x: Word): Word { Xor(Xor(Rotr(x, 6), Rotr(x, 11)), Rotr(x, 25)) }
  function SmallSigma0(x: Word): Word { Xor(Xor(Rotr(x, 7), Rotr(x, 18)), Shr(x, 3)) }
  function SmallSigma1(x: Word): Word { Xor(Xor(Rotr(x, 17), Rotr(x, 19)), Shr(x, 10)) }

  /** The constants of section 4.2.2. */
  const K: seq<Word> :=
    [0x428a2f98, 0x71374491, 0xb5c0fbcf, 0xe9b5dba5, 0x3956c25b, 0x59f111f1, 0x923f82a4, 0xab1c5ed5] +
    [0xd807aa98, 0x12835b01, 0x243185be, 0x550c7dc3, 0x72be5d74, 0x80deb1fe, 0x9bdc06a7, 0xc19bf174] +
    [0xe49b69c1, 0xefbe4786, 0x0fc19dc6, 0x240ca1cc, 0x2de92c6f, 0x4a7484aa, 0x5cb0a9dc, 0x76f988da] +
    [0x983e5152, 0xa831c66d, 0xb00327c8, 0xbf597fc7, 0xc6e00bf3, 0xd5a79147, 0x06ca6351, 0x14292967] +
    [0x27b70a85, 0x2e1b2138, 0x4d2c6dfc, 0x53380d13, 0x650a7354, 0x766a0abb, 0x81c2c92e, 0x92722c85] +
    [0xa2bfe8a1, 0xa81a664b, 0xc24b8b70, 0xc76c51a3, 0xd192e819, 0xd6990624, 0xf40e3585, 0x106aa070] +
    [0x19a4c116, 0x1e376c08, 0x2748774c, 0x34b0bcb5, 0x391c0cb3, 0x4ed8aa4a, 0x5b9cca4f, 0x682e6ff3] +
    [0x748f82ee, 0x78a5636f, 0x84c87814, 0x8cc70208, 0x90befffa, 0xa4506ceb, 0xbef9a3f7, 0xc67178f2]

  /** The initial hash value of section 5.3.3. */
  const H0 := Regs(0x6a09e667, 0xbb67ae85, 0x3c6ef372, 0xa54ff53a,
                   0x510e527f, 0x9b05688c, 0x1f83d9ab, 0x5be0cd19)

  // ---- padding and parsing, sections 5.1.1 and 5.2.1 ------------------------

  /** The low `k` bytes of `n`, most significant byte first. */
  function BigEndian(n: nat, k: nat): (r: seq<u8>)
    ensures |r| == k
  {
    if k == 0 then [] else BigEndian(n / 0x100, k - 1) + [n % 0x100]
  }

  /** The number of zero bytes after 0x80: the least one that leaves 8 bytes in the last block. */
  function ZeroCount(len: nat): (k: nat)
    ensures k < 64 && (len + 1 + k + 8) % 64 == 0
  {
    (55 - len) % 64
  }

  function Pad(msg: seq<u8>): (r: seq<u8>)
    ensures |r| % 64 == 0
  {
    msg + [0x80] + Repeat(0, ZeroCount(|msg|)) + BigEndian(8 * |msg|, 8)
  }

  /** The 32-bit word made of four bytes, most significant first. */
  function WordOf(b0: u8, b1: u8, b2: u8, b3: u8): Word {
    var x0: int, x1: int, x2: int := b0, b1, b2;
    x0 * 0x100_0000 + x1 * 0x1_0000 + x2 * 0x100 + b3
  }

  type Block512 = b: seq<u8> | |b| == 64 witness Repeat(0, 64)

  // ---- compression, section 6.2.2 -------------------------------------------

  /** The sixteen words of a block. */
  function Words(m: Block512): (ws: seq<Word>)
    ensures |ws| == 16
  {
    seq(16, t requires 0 <= t < 16 => WordOf(m[4 * t], m[4 * t + 1], m[4 * t + 2], m[4 * t + 3]))
  }

  /** W_t from W_{t-2}, W_{t-7}, W_{t-15} and W_{t-16}. */
  function NextWord(w2: Word, w7: Word, w15: Word, w16: Word): Word {
    Wrap32((SmallSigma1(w2) as int) + w7 + SmallSigma0(w15) + w16)
  }

  /** The first `t` words of the message schedule that starts with the words `m`. */
  function Schedule(m: seq<Word>, t: nat): (ws: seq<Word>)
    requires |m| == 16 <= t
    ensures |ws| == t
  {
    if t == 16 then m else
      var ws := Schedule(m, t - 1);
      ws + [NextWord(ws[t - 3], ws[t - 8], ws[t - 16], ws[t - 17])]
  }

  function Add(x: Word, y: Word): Word {
    Wrap32((x as int) + y)
  }

  function T1(e: Word, f: Word, g: Word, h: Word, k: Word, w: Word): Word {
    Wrap32((h as int) + BigSigma1(e) + Ch(e, f, g) + k + w)
  }

  function T2(a: Word, b: Word, c: Word): Word {
    Add(BigSigma0(a), Maj(a, b, c))
  }

  /** The working variables after one more round. */
  function OneRound(r: Regs, k: Word, w: Word): Regs {
    var t1 := T1(r.e, r.f, r.g, r.h, k, w);
    Regs(Add(t1, T2(r.a, r.b, r.c)), r.a, r.b, r.c, Add(r.d, t1), r.e, r.f, r.g)
  }

  /** The working variables after the first `t` rounds with constants `ks` and schedule `ws`. */
  function Rounds(ks: seq<Word>, ws: seq<Word>, start: Regs, t: nat): Regs
    requires t <= |ws| == |ks|
  {
    if t == 0 then start else OneRound(Rounds(ks, ws, start, t - 1), ks[t - 1], ws[t - 1])
  }

  function AddRegs(x: Regs, y: Regs): Regs {
    Regs(Add(x.a, y.a), Add(x.b, y.b), Add(x.c, y.c), Add(x.d, y.d),
         Add(x.e, y.e), Add(x.f, y.f), Add(x.g, y.g), Add(x.h, y.h))
  }

  function Compress(s: Regs, m: Block512): Regs {
    AddRegs(s, Rounds(K, Schedule(Words(m), 64), s, 64))
  }

  // ---- the hash computation, section 6.2 ------------------------------------

  /** A compression function. Chaining and padding are the same for every one of them. */
  type Compression = (Regs, Block512) -> Regs

  /** `f` is the compression function of section 6.2.2. */
  ghost predicate IsCompress(f: Compression) {
    forall s, m {:trigger Compress(s, m)} :: f(s, m) == Compress(s, m)
  }

  /** The hash value after the first `n` blocks of `p`. */
  function Fold(f: Compression, p: seq<u8>, n: nat): Regs
    requires 64 * n <= |p|
  {
    if n == 0 then H0 else f(Fold(f, p, n - 1), p[64 * (n - 1)..64 * n])
  }

  function WordBytes(w: Word): (r: seq<u8>)
    ensures |r| == 4
  {
    [w / 0x100_0000, w / 0x1_0000 % 0x100, w / 0x100 % 0x100, w % 0x100]
  }

  function RegsBytes(r: Regs): Digest32 {
    WordBytes(r.a) + WordBytes(r.b) + WordBytes(r.c) + WordBytes(r.d) +
    WordBytes(r.e) + WordBytes(r.f) + WordBytes(r.g) + WordBytes(r.h)
  }

  /** The message digest. */
  function Digest(f: Compression, msg: seq<u8>): Digest32 {
    RegsBytes(Fold(f, Pad(msg), |Pad(msg)| / 64))
  }

  /** A hash function with 32-byte digests. What the transfer protocol guarantees holds for all. */
  type Hash = seq<u8> -> Digest32

  ghost predicate IsSha256(h: Hash) {
    exists f :: IsCompress(f) && IsDigestOf(h, f)
  }

  ghost predicate IsDigestOf(h: Hash, f: Compression) {
    forall m {:trigger Digest(f, m)} :: h(m) == Digest(f, m)
  }

  /** Blocks already folded do not look at what follows them. */
  lemma {:induction false} FoldPrefix(f: Compression, p: seq<u8>, q: seq<u8>, n: nat)
    requires 64 * n <= |p| && 64 * n <= |q| && p[..64 * n] == q[..64 * n]
    ensures Fold(f, p, n) == Fold(f, q, n)
  {
    if n > 0 {
      assert p[..64 * (n - 1)] == p[..64 * n][..64 * (n - 1)] == q[..64 * (n - 1)];
      FoldPrefix(f, p, q, n - 1);
      assert p[64 * (n - 1)..64 * n] == p[..64 * n][64 * (n - 1)..] == q[64 * (n - 1)..64 * n];
    }
  }

  /** Padding byte by byte, for a message of `n` blocks and `r` bytes: the message, 0x80, zeros
      up to the length field of the last block. */
  ghost predicate IsPadded(msg: seq<u8>, p: seq<u8>, n: nat, r: nat) {
    && |msg| == 64 * n + r && r < 64
    && |p| == 64 * n + (if r < 56 then 64 else 128)
    && p[..|msg|] == msg && p[|msg|] == 0x80
    && (forall k :: |msg| < k < |p| - 8 ==> p[k] == 0)
    && p[|p| - 8..] == BigEndian(8 * |msg|, 8)
  }

  lemma ZeroCountIs(n: nat, r: nat)
    requires r < 64
    ensures ZeroCount(64 * n + r) == if r < 56 then 55 - r else 119 - r
  {
  }

  lemma PadIsPadded(msg: seq<u8>, n: nat, r: nat)
    requires |msg| == 64 * n + r && r < 64
    ensures IsPadded(msg, Pad(msg), n, r)
  {
    hide BigEndian, ZeroCount;
    ZeroCountIs(n, r);
    var z := ZeroCount(|msg|);
    var head := msg + [0x80] + Repeat(0, z);
    assert Pad(msg) == head + BigEndian(8 * |msg|, 8);
    assert forall k :: |msg| < k < |head| ==> head[k] == Repeat(0, z)[k - |msg| - 1];
  }

  /** `n` shifted right by `j` bytes. */
  function ShiftBytes(n: nat, j: nat): nat {
    if j == 0 then n else ShiftBytes(n / 0x100, j - 1)
  }

  /** Byte `i` of a big-endian field is the byte `k - 1 - i` places above the low end. */
  lemma {:induction false} BigEndianAt(n: nat, k: nat, i: nat)
    requires i < k
    ensures BigEndian(n, k)[i] == ShiftBytes(n, k - 1 - i) % 0x100
  {
    if i < k - 1 {
      BigEndianAt(n / 0x100, k - 1, i);
    }
  }

  function Pow256(k: nat): nat {
    if k == 0 then 1 else 0x100 * Pow256(k - 1)
  }

  lemma TimesByte(q: nat, p: nat)
    ensures q * (0x100 * p) == 0x100 * (q * p)
  {
  }

  lemma ByteOff(r: nat, x: nat)
    ensures (r + 0x100 * x) / 0x100 == r / 0x100 + x && (r + 0x100 * x) % 0x100 == r % 0x100
  {
  }

  /** A `k`-byte field holds its value modulo 256^k. */
  lemma {:induction false} BigEndianTruncates(r: nat, q: nat, k: nat)
    ensures BigEndian(r + q * Pow256(k), k) == BigEndian(r, k)
  {
    if k > 0 {
      var x := q * Pow256(k - 1);
      TimesByte(q, Pow256(k - 1));
      BigEndianTruncates(r / 0x100, q, k - 1);
      ByteOff(r, x);
    }
  }

  /** Counting bits modulo 2^64 block by block, then the last bytes. */
  lemma BitCount(n: nat, r: nat)
    ensures (512 * n % TWO64 + 8 * r) % TWO64 == 8 * (64 * n + r) % TWO64
  {
    assert 8 * (64 * n + r) == TWO64 * (512 * n / TWO64) + (512 * n % TWO64 + 8 * r);
    ModAdd(512 * n % TWO64 + 8 * r, 512 * n / TWO64);
  }

  lemma ModAdd(x: nat, q: nat)
    ensures (TWO64 * q + x) % TWO64 == x % TWO64
  {
  }

  lemma BigEndianWrap64(n: nat)
    ensures BigEndian(n % TWO64, 8) == BigEndian(n, 8)
  {
    assert Pow256(8) == TWO64 by {
      assert Pow256(4) == 0x1_0000_0000;
    }
    BigEndianTruncates(n % TWO64, n / TWO64, 8);
  }

  /** The hash function of the standard. */
  const SHA256: Hash := msg => Digest(Compress, msg)

  lemma Sha256IsSha256()
    ensures IsSha256(SHA256)
  {
    hide Digest;
    CompressIsCompress();
    assert IsDigestOf(SHA256, Compress);
  }

  lemma CompressIsCompress()
    ensures IsCompress(Compress)
  {
    hide Rounds, Schedule;
  }

  /** Every SHA-256 is the one of the standard. */
  lemma Sha256Unique(h: Hash, msg: seq<u8>)
    requires IsSha256(h)
    ensures h(msg) == SHA256(msg)
  {
    hide Compress;
    var f :| IsCompress(f) && IsDigestOf(h, f);
    assert h(msg) == Digest(f, msg);
    SameFold(f, Pad(msg), |Pad(msg)| / 64);
  }

  lemma {:induction false} SameFold(f: Compression, p: seq<u8>, n: nat)
    requires IsCompress(f) && 64 * n <= |p|
    ensures Fold(f, p, n) == Fold(Compress, p, n)
  {
    hide Compress;
    if n > 0 {
      SameFold(f, p, n - 1);
      var s, m := Fold(f, p, n - 1), p[64 * (n - 1)..64 * n];
      assert f(s, m) == Compress(s, m);
    }
  }

  // ---- hexadecimal ------------------------------------------------------------

  const HEX := "0123456789abcdef"

  /** Two lower-case digits a byte. */
  function Hex(d: seq<u8>): (s: string)
    ensures |s| == 2 * |d|
    ensures forall i :: 0 <= i < |d| ==> s[2 * i] == HEX[d[i] / 0x10] && s[2 * i + 1] == HEX[d[i] % 0x10]
  {
    if d == [] then ""
    else
      var n := |d| - 1;
      Hex(d[..n]) + [HEX[d[n] / 0x10], HEX[d[n] % 0x10]]
  }

  lemma DigitsDiffer(a: nat, b: nat)
    requires a < 0x10 && b < 0x10 && HEX[a] == HEX[b]
    ensures a == b
  {
  }

  /** Comparing the hexadecimal forms is comparing the digests. */
  lemma HexInjective(a: seq<u8>, b: seq<u8>)
    requires Hex(a) == Hex(b)
    ensures a == b
  {
    forall i | 0 <= i < |a|
      ensures a[i] == b[i]
    {
      assert Hex(a)[2 * i] == Hex(b)[2 * i] && Hex(a)[2 * i + 1] == Hex(b)[2 * i + 1];
      DigitsDiffer(a[i] / 0x10, b[i] / 0x10);
      DigitsDiffer(a[i] % 0x10, b[i] % 0x10);
    }
  }
}
