/** What the operations of SHA-256 on words do, bit by bit. */
module Sha256Words {
  import opened Bytes
  import opened Bits
  import opened Sha256Spec

  lemma Pow32()
    ensures Pow2(31) == 0x8000_0000 && Pow2(32) == TWO32
  {
    assert Pow2(8) == 0x100 && Pow2(16) == 0x1_0000 && Pow2(24) == 0x100_0000;
  }

  lemma And32(x: Word, y: Word, k: nat)
    requires k < 32
    ensures BitAt(And(x, y), k) <==> BitAt(x, k) && BitAt(y, k)
  {
    BitwiseAt(And2, x, y, 32, k);
  }

  lemma Or32(x: Word, y: Word, k: nat)
    requires k < 32
    ensures BitAt(Or(x, y), k) <==> BitAt(x, k) || BitAt(y, k)
  {
    BitwiseAt(Or2, x, y, 32, k);
  }

  lemma Xor32(x: Word, y: Word, k: nat)
    requires k < 32
    ensures BitAt(Xor(x, y), k) <==> BitAt(x, k) != BitAt(y, k)
  {
    BitwiseAt(Xor2, x, y, 32, k);
  }

  lemma Not32(x: Word, k: nat)
    requires k < 32
    ensures BitAt(Not(x), k) <==> !BitAt(x, k)
  {
    Pow32();
    ComplementAt(x, 32, k);
  }

  lemma Shr32(x: Word, n: nat, k: nat)
    requires k < 32
    ensures BitAt(Shr(x, n), k) <==> k + n < 32 && BitAt(x, k + n)
  {
    HighAt(x, n, k);
    Pow32();
    if k + n >= 32 {
      NoBitAbove(x, 32, k + n);
    }
  }

  /** One place to the left: the top bit is lost. */
  lemma Shl1(x: Word, k: nat)
    requires k < 32
    ensures BitAt(Wrap32(2 * x), k) <==> k > 0 && BitAt(x, k - 1)
  {
    Pow32();
    if k > 0 {
      var low: nat := if x < 0x8000_0000 then x else x as nat - 0x8000_0000;
      assert Wrap32(2 * x) == 2 * low;
      assert Wrap32(2 * x) / 2 == low;
      TopAt(low, 31, k - 1);
    }
  }

  lemma {:induction false} Shl32(x: Word, n: nat, k: nat)
    requires k < 32
    ensures BitAt(Shl(x, n), k) <==> k >= n && BitAt(x, k - n)
    decreases n
  {
    if n > 0 {
      Shl32(Wrap32(2 * x), n - 1, k);
      if k >= n - 1 {
        Shl1(x, k - (n - 1));
      }
    }
  }

  /** Rotation loses no bit: bit k comes from bit k + n, counted round the word. */
  lemma RotrAt(x: Word, n: nat, k: nat)
    requires n < 32 && k < 32
    ensures BitAt(Rotr(x, n), k) <==> BitAt(x, (k + n) % 32)
  {
    hide Shr, Shl, Or;
    Shr32(x, n, k);
    Shl32(x, 32 - n, k);
    Or32(Shr(x, n), Shl(x, 32 - n), k);
    if n == 0 {
      assert (k + n) % 32 == k;
    }
  }

  /** The parity of three bits. */
  predicate Odd3(a: bool, b: bool, c: bool) {
    (a != b) != c
  }

  /** The two functions of section 4.1.2 that add up three rotations, and the two that add up two
      rotations and a shift. */
  lemma BigSigmasAt(x: Word, k: nat)
    requires k < 32
    ensures BitAt(BigSigma0(x), k) <==>
            Odd3(BitAt(x, (k + 2) % 32), BitAt(x, (k + 13) % 32), BitAt(x, (k + 22) % 32))
    ensures BitAt(BigSigma1(x), k) <==>
            Odd3(BitAt(x, (k + 6) % 32), BitAt(x, (k + 11) % 32), BitAt(x, (k + 25) % 32))
  {
    hide Rotr, Xor, BitAt;
    RotrAt(x, 2, k);
    RotrAt(x, 13, k);
    RotrAt(x, 22, k);
    Xor32(Rotr(x, 2), Rotr(x, 13), k);
    Xor32(Xor(Rotr(x, 2), Rotr(x, 13)), Rotr(x, 22), k);
    RotrAt(x, 6, k);
    RotrAt(x, 11, k);
    RotrAt(x, 25, k);
    Xor32(Rotr(x, 6), Rotr(x, 11), k);
    Xor32(Xor(Rotr(x, 6), Rotr(x, 11)), Rotr(x, 25), k);
  }

  lemma SmallSigmasAt(x: Word, k: nat)
    requires k < 32
    ensures BitAt(SmallSigma0(x), k) <==>
            Odd3(BitAt(x, (k + 7) % 32), BitAt(x, (k + 18) % 32), k + 3 < 32 && BitAt(x, k + 3))
    ensures BitAt(SmallSigma1(x), k) <==>
            Odd3(BitAt(x, (k + 17) % 32), BitAt(x, (k + 19) % 32), k + 10 < 32 && BitAt(x, k + 10))
  {
    hide Rotr, Shr, Xor, BitAt;
    RotrAt(x, 7, k);
    RotrAt(x, 18, k);
    Shr32(x, 3, k);
    Xor32(Rotr(x, 7), Rotr(x, 18), k);
    Xor32(Xor(Rotr(x, 7), Rotr(x, 18)), Shr(x, 3), k);
    RotrAt(x, 17, k);
    RotrAt(x, 19, k);
    Shr32(x, 10, k);
    Xor32(Rotr(x, 17), Rotr(x, 19), k);
    Xor32(Xor(Rotr(x, 17), Rotr(x, 19)), Shr(x, 10), k);
  }

  /** Ch chooses between its second and third argument by the first; Maj takes the majority. */
  lemma ChMajAt(x: Word, y: Word, z: Word, k: nat)
    requires k < 32
    ensures BitAt(Ch(x, y, z), k) <==> if BitAt(x, k) then BitAt(y, k) else BitAt(z, k)
    ensures BitAt(Maj(x, y, z), k) <==>
            (BitAt(x, k) && BitAt(y, k)) || (BitAt(x, k) && BitAt(z, k)) || (BitAt(y, k) && BitAt(z, k))
  {
    hide And, Not, Xor, BitAt;
    And32(x, y, k);
    Not32(x, k);
    And32(Not(x), z, k);
    Xor32(And(x, y), And(Not(x), z), k);
    And32(x, z, k);
    And32(y, z, k);
    Xor32(And(x, y), And(x, z), k);
    Xor32(Xor(And(x, y), And(x, z)), And(y, z), k);
  }
}
