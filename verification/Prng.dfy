/** lib/ci_prng.h: the keyed draw behind every drop decision. */
module Prng {
  import opened Bytes
  import opened Bits

  lemma Pow64()
    ensures Pow2(64) == TWO64
  {
    assert Pow2(8) == 0x100 && Pow2(16) == 0x1_0000;
    assert Pow2(24) == 0x100_0000 && Pow2(32) == TWO32;
    assert Pow2(40) == 0x100_0000_0000 && Pow2(48) == 0x1_0000_0000_0000;
    assert Pow2(56) == 0x100_0000_0000_0000;
  }

  function Xor64(x: u64, y: u64): u64 {
    Pow64();
    XorBits(x, y, 64)
  }

  function Wrap64(x: nat): u64 {
    x % TWO64
  }

  /** ci_splitmix64 */
  function SplitMix64(x: u64): u64 {
    var a := Wrap64(x as nat + 0x9E37_79B9_7F4A_7C15);
    var b := Wrap64(Xor64(a, High(a, 30)) as nat * 0xBF58_476D_1CE4_E5B9);
    var c := Wrap64(Xor64(b, High(b, 27)) as nat * 0x94D0_49BB_1331_11EB);
    Xor64(c, High(c, 31))
  }

  /** ci_draw: one value for packet `index` under `seed`. */
  function Draw(seed: u64, index: u64): u64 {
    SplitMix64(Xor64(seed, index))
  }

  /** p * 2^64 rounded down, for p in (0, 1). */
  function Threshold(p: real): (t: u64)
    requires 0.0 < p < 1.0
  {
    assert p * (TWO64 as real) < TWO64 as real;
    (p * (TWO64 as real)).Floor
  }
}
