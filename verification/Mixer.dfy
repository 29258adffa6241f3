/** The 64-bit mixer of the injector: it is a bijection, and its first values. */
module Mixer {
  import opened Bytes
  import opened Bits
  import opened Prng
  import opened Sha256Spec
  import opened Sha256Words
  import opened BitVector

  // ---- no two inputs have one output --------------------------------------------------------------

  lemma {:induction false} HighTwice(x: nat, a: nat, b: nat)
    ensures High(High(x, a), b) == High(x, a + b)
  {
    if a > 0 {
      HighTwice(x / 2, a - 1, b);
    }
  }

  lemma {:induction false} HighRange(x: nat, n: nat, k: nat)
    requires x < Pow2(n) && k <= n
    ensures High(x, k) < Pow2(n - k)
  {
    if k > 0 {
      HighRange(x / 2, n - 1, k - 1);
    }
  }

  lemma {:induction false} XorHighParts(a: nat, b: nat, n: nat, k: nat)
    requires k <= n
    ensures High(XorBits(a, b, n), k) == XorBits(High(a, k), High(b, k), n - k)
  {
    if k > 0 {
      XorHighParts(a / 2, b / 2, n - 1, k - 1);
      assert XorBits(a, b, n) / 2 == XorBits(a / 2, b / 2, n - 1);
    }
  }

  /** Exclusive-or with oneself shifted down can be undone, from the top bit on. */
  lemma {:induction false} TopParts(x: nat, y: nat, s: nat, n: nat, k: nat)
    requires x < Pow2(n) && y < Pow2(n) && s > 0 && k <= n
    requires XorBits(x, High(x, s), n) == XorBits(y, High(y, s), n)
    ensures High(x, k) == High(y, k)
    decreases n - k
  {
    hide XorBits, High, Pow2;
    HighRange(x, n, k);
    HighRange(y, n, k);
    if k == n {
      Pow2Zero();
    } else {
      TopParts(x, y, s, n, k + 1);
      HighTwice(x, k + 1, s - 1);
      HighTwice(y, k + 1, s - 1);
      HighTwice(x, s, k);
      HighTwice(y, s, k);
      XorHighParts(x, High(x, s), n, k);
      XorHighParts(y, High(y, s), n, k);
      XorTwice(High(x, k), High(x, s + k), n - k);
      XorTwice(High(y, k), High(y, s + k), n - k);
    }
  }

  lemma Pow2Zero()
    ensures Pow2(0) == 1
  {
  }

  lemma XorShiftInjective(x: u64, y: u64, s: nat)
    requires s > 0 && Xor64(x, High(x, s)) == Xor64(y, High(y, s))
    ensures x == y
  {
    Pow64();
    TopParts(x, y, s, 64, 0);
  }

  lemma TurnsGone(x: u64, z: int)
    ensures (x + TWO64 * z) % TWO64 == x
  {
  }

  /** Multiplication by `c` is undone by multiplication by its inverse modulo 2^64. */
  lemma Undo(x: u64, c: nat, inverse: nat, t: nat)
    requires c * inverse == 1 + TWO64 * t
    ensures Wrap64(Wrap64(x * c) * inverse) == x
  {
    var q, r := (x * c) / TWO64, Wrap64(x * c);
    assert x * c == TWO64 * q + r;
    Regroup(x, c, inverse, t, q, r);
    TurnsGone(x, x * t - q * inverse);
  }

  lemma Regroup(x: nat, c: nat, inverse: nat, t: nat, q: nat, r: nat)
    requires c * inverse == 1 + TWO64 * t && x * c == TWO64 * q + r
    ensures r * inverse == x + TWO64 * (x * t - q * inverse)
  {
    assert (x * c) * inverse == x * (c * inverse);
    assert x * (1 + TWO64 * t) == x + TWO64 * (x * t);
    assert (TWO64 * q + r) * inverse == TWO64 * (q * inverse) + r * inverse;
  }

  lemma FirstProduct(x: u64, y: u64)
    requires Wrap64(x as nat * 0xBF58_476D_1CE4_E5B9) == Wrap64(y as nat * 0xBF58_476D_1CE4_E5B9)
    ensures x == y
  {
    var inverse: nat := 0x96DE_1B17_3F11_9089;
    Undo(x, 0xBF58_476D_1CE4_E5B9, inverse, 0x70c3bca78f27f46c);
    Undo(y, 0xBF58_476D_1CE4_E5B9, inverse, 0x70c3bca78f27f46c);
  }

  lemma SecondProduct(x: u64, y: u64)
    requires Wrap64(x as nat * 0x94D0_49BB_1331_11EB) == Wrap64(y as nat * 0x94D0_49BB_1331_11EB)
    ensures x == y
  {
    var inverse: nat := 0x3196_42B2_D24D_8EC3;
    Undo(x, 0x94D0_49BB_1331_11EB, inverse, 0x1cd336eda85f1453);
    Undo(y, 0x94D0_49BB_1331_11EB, inverse, 0x1cd336eda85f1453);
  }

  lemma Start(x: u64, y: u64)
    requires Wrap64(x as nat + 0x9E37_79B9_7F4A_7C15) == Wrap64(y as nat + 0x9E37_79B9_7F4A_7C15)
    ensures x == y
  {
  }

  lemma FirstStage(a: u64, b: u64)
    requires Wrap64(Xor64(a, High(a, 30)) as nat * 0xBF58_476D_1CE4_E5B9)
          == Wrap64(Xor64(b, High(b, 30)) as nat * 0xBF58_476D_1CE4_E5B9)
    ensures a == b
  {
    hide Xor64, High, Wrap64;
    FirstProduct(Xor64(a, High(a, 30)), Xor64(b, High(b, 30)));
    XorShiftInjective(a, b, 30);
  }

  lemma SecondStage(a: u64, b: u64)
    requires Wrap64(Xor64(a, High(a, 27)) as nat * 0x94D0_49BB_1331_11EB)
          == Wrap64(Xor64(b, High(b, 27)) as nat * 0x94D0_49BB_1331_11EB)
    ensures a == b
  {
    hide Xor64, High, Wrap64;
    SecondProduct(Xor64(a, High(a, 27)), Xor64(b, High(b, 27)));
    XorShiftInjective(a, b, 27);
  }

  /** The mixer loses nothing: different inputs have different outputs. */
  lemma SplitMixInjective(x: u64, y: u64)
    requires SplitMix64(x) == SplitMix64(y)
    ensures x == y
  {
    hide Xor64, High, Wrap64;
    var a, b := Wrap64(x as nat + 0x9E37_79B9_7F4A_7C15), Wrap64(y as nat + 0x9E37_79B9_7F4A_7C15);
    var c := Wrap64(Xor64(a, High(a, 30)) as nat * 0xBF58_476D_1CE4_E5B9);
    var d := Wrap64(Xor64(b, High(b, 30)) as nat * 0xBF58_476D_1CE4_E5B9);
    var e := Wrap64(Xor64(c, High(c, 27)) as nat * 0x94D0_49BB_1331_11EB);
    var f := Wrap64(Xor64(d, High(d, 27)) as nat * 0x94D0_49BB_1331_11EB);
    assert SplitMix64(x) == Xor64(e, High(e, 31)) && SplitMix64(y) == Xor64(f, High(f, 31));
    hide SplitMix64;
    XorShiftInjective(e, f, 31);
    SecondStage(c, d);
    FirstStage(a, b);
    Start(x, y);
  }

  /** So under one seed no two indices have the same draw. */
  lemma DrawInjective(seed: u64, i: u64, j: u64)
    requires Draw(seed, i) == Draw(seed, j)
    ensures i == j
  {
    SplitMixInjective(Xor64(seed, i), Xor64(seed, j));
    Pow64();
    XorCommutes(seed, i, 64);
    XorCommutes(seed, j, 64);
    XorTwice(i, seed, 64);
    XorTwice(j, seed, 64);
  }

  // ---- known values -------------------------------------------------------------------------------

  lemma {:induction false} GlueIs(q: nat, r: nat, k: nat)
    requires r < Pow2(k)
    ensures Glue(q, r, k) == q * Pow2(k) + r
  {
    if k > 0 {
      GlueIs(q, r / 2, k - 1);
      DoubleProduct(q, Pow2(k - 1));
    }
  }

  lemma {:induction false} XorGlued(q: nat, r: nat, s: nat, t: nat, n: nat, k: nat)
    requires r < Pow2(k) && t < Pow2(k)
    ensures XorBits(Glue(q, r, k), Glue(s, t, k), n + k) == Glue(XorBits(q, s, n), XorBits(r, t, k), k)
    decreases k
  {
    if k > 0 {
      var x, y := Glue(q, r, k), Glue(s, t, k);
      XorGlued(q, r / 2, s, t / 2, n, k - 1);
      assert x / 2 == Glue(q, r / 2, k - 1) && x % 2 == r % 2;
      assert y / 2 == Glue(s, t / 2, k - 1) && y % 2 == t % 2;
      assert XorBits(r, t, k) / 2 == XorBits(r / 2, t / 2, k - 1);
    }
  }

  /** The number with these two halves. */
  function Num64(h: bv32, l: bv32): u64 {
    NumV(h) * TWO32 + NumV(l)
  }

  lemma XorNum64(a: bv32, b: bv32, c: bv32, d: bv32, e: bv32, f: bv32)
    requires a ^ c == e && b ^ d == f
    ensures Xor64(Num64(a, b), Num64(c, d)) == Num64(e, f)
  {
    XorIs(a, c, e);
    XorIs(b, d, f);
    hide NumV, Num, Xor;
    NumIs(a);
    NumIs(b);
    NumIs(c);
    NumIs(d);
    NumIs(e);
    NumIs(f);
    Halves(NumV(a), NumV(b), NumV(c), NumV(d));
  }

  lemma XorIs(a: bv32, c: bv32, e: bv32)
    requires a ^ c == e
    ensures Xor(Num(a), Num(c)) == Num(e)
  {
    assert XorV(a, c) == e;
    hide Num, Xor;
    XorNum(a, c);
  }

  lemma Halves(a: Word, b: Word, c: Word, d: Word)
    ensures Xor64(a * TWO32 + b, c * TWO32 + d) == Xor(a, c) * TWO32 + Xor(b, d)
  {
    Pow32();
    Pow64();
    GlueIs(a, b, 32);
    GlueIs(c, d, 32);
    GlueIs(Xor(a, c), Xor(b, d), 32);
    XorGlued(a, b, c, d, 32, 32);
  }

  lemma HighBy(x: nat, k: nat, p: nat, q: nat)
    requires Pow2(k) == p && q * p <= x < q * p + p
    ensures High(x, k) == q
  {
    HighLow(x, k);
    var h, l := High(x, k), Low(x, k);
    if h < q {
      Between(h, q, p);
    } else if q < h {
      Between(q, h, p);
    }
  }

  lemma Between(a: nat, b: nat, p: nat)
    requires a < b
    ensures a * p + p <= b * p
  {
    var c := b - a - 1;
    assert b * p == a * p + p + c * p;
  }

  lemma Shifts()
    ensures Pow2(30) == 0x4000_0000 && Pow2(27) == 0x800_0000 && Pow2(31) == 0x8000_0000
  {
    assert Pow2(8) == 0x100 && Pow2(16) == 0x1_0000 && Pow2(24) == 0x100_0000;
  }

  /** One exclusive-or with the number shifted by `k`: `x` becomes `z`. */
  lemma MixStep(x: u64, a: bv32, b: bv32, k: nat, p: nat, y: u64, c: bv32, d: bv32, z: u64, e: bv32, f: bv32)
    requires x == Num64(a, b) && y == Num64(c, d) && z == Num64(e, f) && a ^ c == e && b ^ d == f
    requires Pow2(k) == p && y * p <= x < y * p + p
    ensures Xor64(x, High(x, k)) == z
  {
    XorNum64(a, b, c, d, e, f);
    HighBy(x, k, p, y);
  }

  lemma Value0()
    ensures SplitMix64(0) == 0xE220_A839_7B1D_CDAF
  {
    Shifts();
    hide Xor64, High, Pow2;
    assert Wrap64(0 + 0x9E37_79B9_7F4A_7C15) == 0x9E37_79B9_7F4A_7C15;
    MixStep(0x9E37_79B9_7F4A_7C15, 0x9e3779b9, 0x7f4a7c15, 30, 0x4000_0000,
            0x0000_0002_78DD_E6E5, 0x00000002, 0x78dde6e5, 0x9E37_79BB_0797_9AF0, 0x9e3779bb, 0x07979af0);
    assert Wrap64(0x9E37_79BB_0797_9AF0 * 0xBF58_476D_1CE4_E5B9) == 0x6F68_261B_57E7_A770;
    MixStep(0x6F68_261B_57E7_A770, 0x6f68261b, 0x57e7a770, 27, 0x800_0000,
            0x0000_000D_ED04_C36A, 0x0000000d, 0xed04c36a, 0x6F68_2616_BAE3_641A, 0x6f682616, 0xbae3641a);
    assert Wrap64(0x6F68_2616_BAE3_641A * 0x94D0_49BB_1331_11EB) == 0xE220_A838_BF5C_9DDE;
    MixStep(0xE220_A838_BF5C_9DDE, 0xe220a838, 0xbf5c9dde, 31, 0x8000_0000,
            0x0000_0001_C441_5071, 0x00000001, 0xc4415071, 0xE220_A839_7B1D_CDAF, 0xe220a839, 0x7b1dcdaf);
  }

  lemma Value1()
    ensures SplitMix64(1) == 0x910A_2DEC_8902_5CC1
  {
    Shifts();
    hide Xor64, High, Pow2;
    assert Wrap64(1 + 0x9E37_79B9_7F4A_7C15) == 0x9E37_79B9_7F4A_7C16;
    MixStep(0x9E37_79B9_7F4A_7C16, 0x9e3779b9, 0x7f4a7c16, 30, 0x4000_0000,
            0x0000_0002_78DD_E6E5, 0x00000002, 0x78dde6e5, 0x9E37_79BB_0797_9AF3, 0x9e3779bb, 0x07979af3);
    assert Wrap64(0x9E37_79BB_0797_9AF3 * 0xBF58_476D_1CE4_E5B9) == 0xAD70_FC62_AE96_589B;
    MixStep(0xAD70_FC62_AE96_589B, 0xad70fc62, 0xae96589b, 27, 0x800_0000,
            0x0000_0015_AE1F_8C55, 0x00000015, 0xae1f8c55, 0xAD70_FC77_0089_D4CE, 0xad70fc77, 0x0089d4ce);
    assert Wrap64(0xAD70_FC77_0089_D4CE * 0x94D0_49BB_1331_11EB) == 0x910A_2DED_AB16_071A;
    MixStep(0x910A_2DED_AB16_071A, 0x910a2ded, 0xab16071a, 31, 0x8000_0000,
            0x0000_0001_2214_5BDB, 0x00000001, 0x22145bdb, 0x910A_2DEC_8902_5CC1, 0x910a2dec, 0x89025cc1);
  }

  lemma Value2()
    ensures SplitMix64(2) == 0x9758_35DE_1C97_56CE
  {
    Shifts();
    hide Xor64, High, Pow2;
    assert Wrap64(2 + 0x9E37_79B9_7F4A_7C15) == 0x9E37_79B9_7F4A_7C17;
    MixStep(0x9E37_79B9_7F4A_7C17, 0x9e3779b9, 0x7f4a7c17, 30, 0x4000_0000,
            0x0000_0002_78DD_E6E5, 0x00000002, 0x78dde6e5, 0x9E37_79BB_0797_9AF2, 0x9e3779bb, 0x07979af2);
    assert Wrap64(0x9E37_79BB_0797_9AF2 * 0xBF58_476D_1CE4_E5B9) == 0xEE18_B4F5_91B1_72E2;
    MixStep(0xEE18_B4F5_91B1_72E2, 0xee18b4f5, 0x91b172e2, 27, 0x800_0000,
            0x0000_001D_C316_9EB2, 0x0000001d, 0xc3169eb2, 0xEE18_B4E8_52A7_EC50, 0xee18b4e8, 0x52a7ec50);
    assert Wrap64(0xEE18_B4E8_52A7_EC50 * 0x94D0_49BB_1331_11EB) == 0x9758_35DF_3227_3D70;
    MixStep(0x9758_35DF_3227_3D70, 0x975835df, 0x32273d70, 31, 0x8000_0000,
            0x0000_0001_2EB0_6BBE, 0x00000001, 0x2eb06bbe, 0x9758_35DE_1C97_56CE, 0x975835de, 0x1c9756ce);
  }

  /** The first three outputs. */
  lemma KnownValues()
    ensures SplitMix64(0) == 0xE220_A839_7B1D_CDAF
    ensures SplitMix64(1) == 0x910A_2DEC_8902_5CC1
    ensures SplitMix64(2) == 0x9758_35DE_1C97_56CE
  {
    hide SplitMix64;
    Value0();
    Value1();
    Value2();
  }
}
