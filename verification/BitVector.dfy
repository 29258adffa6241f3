/** Words as bit vectors: a second form of the operations, for evaluating them on given words. */
module BitVector {
  import opened Bytes
  import opened Bits
  import opened Sha256Spec
  import opened Sha256Words

  // ---- the number a bit vector stands for -----------------------------------------------------

  function Value(p: bv8): u8 {
    p as int
  }

  function Byte0(b: bv32): bv8 { (b & 0xFF) as bv8 }
  function Byte1(b: bv32): bv8 { ((b >> 8) & 0xFF) as bv8 }
  function Byte2(b: bv32): bv8 { ((b >> 16) & 0xFF) as bv8 }
  function Byte3(b: bv32): bv8 { (b >> 24) as bv8 }

  function Num(b: bv32): Word {
    var b1: int, b2: int, b3: int := Value(Byte1(b)), Value(Byte2(b)), Value(Byte3(b));
    Value(Byte0(b)) + 0x100 * b1 + 0x1_0000 * b2 + 0x100_0000 * b3
  }

  function Part(p: bv8, mask: bv8, v: nat): nat {
    if p & mask == mask then v else 0
  }

  lemma ByteSum(p: bv8)
    ensures Value(p) == Part(p, 1, 1) + Part(p, 2, 2) + Part(p, 4, 4) + Part(p, 8, 8)
                        + Part(p, 16, 16) + Part(p, 32, 32) + Part(p, 64, 64) + Part(p, 128, 128)
  {
  }

  /** `p` one place down, under `above`. */
  function Shifted(p: bv8, above: bv8): bv8 {
    (p >> 1) | (above << 7)
  }

  /** One place down: a byte loses its low bit and takes that of the byte above. */
  lemma HalfByte(p: bv8, above: bv8)
    ensures var c: int := Part(above, 1, 1);
            Value(p) + 0x100 * c == 2 * Value(Shifted(p, above)) + Part(p, 1, 1)
  {
    ByteSum(p);
    ByteSum(Shifted(p, above));
  }

  function Half(b: bv32): bv32 { b >> 1 }
  function Bit0(b: bv32): nat { if b & 1 == 1 then 1 else 0 }
  function Zero(): bv8 { 0 }

  lemma BytesOfHalf(b: bv32)
    ensures Byte0(Half(b)) == Shifted(Byte0(b), Byte1(b)) && Byte1(Half(b)) == Shifted(Byte1(b), Byte2(b))
    ensures Byte2(Half(b)) == Shifted(Byte2(b), Byte3(b)) && Byte3(Half(b)) == Shifted(Byte3(b), Zero())
    ensures Part(Byte0(b), 1, 1) == Bit0(b) <= 1 && Part(Zero(), 1, 1) == 0
  {
  }

  lemma HalfNum(b: bv32)
    ensures Num(b) == 2 * Num(Half(b)) + Bit0(b) && Bit0(b) <= 1
  {
    hide Value, Part, Byte0, Byte1, Byte2, Byte3, Bit0, Half, Zero, Shifted;
    BytesOfHalf(b);
    HalfByte(Byte0(b), Byte1(b));
    HalfByte(Byte1(b), Byte2(b));
    HalfByte(Byte2(b), Byte3(b));
    HalfByte(Byte3(b), Zero());
  }

  lemma NumZero(b: bv32)
    requires Num(b) == 0
    ensures b == 0
  {
    ByteSum(Byte0(b));
    ByteSum(Byte1(b));
    ByteSum(Byte2(b));
    ByteSum(Byte3(b));
  }

  // ---- the operations ---------------------------------------------------------------------------

  function XorV(a: bv32, b: bv32): bv32 { a ^ b }
  function AndV(a: bv32, b: bv32): bv32 { a & b }
  function NotV(a: bv32): bv32 { !a }

  lemma XorHalf(a: bv32, b: bv32)
    ensures Half(XorV(a, b)) == XorV(Half(a), Half(b)) && Bit0(XorV(a, b)) == (if Bit0(a) != Bit0(b) then 1 else 0)
  {
  }

  lemma AndHalf(a: bv32, b: bv32)
    ensures Half(AndV(a, b)) == AndV(Half(a), Half(b))
    ensures Bit0(AndV(a, b)) == (if Bit0(a) == 1 && Bit0(b) == 1 then 1 else 0)
  {
  }

  lemma OfZero(a: bv32, b: bv32)
    requires Num(a) == 0 && Num(b) == 0
    ensures Num(XorV(a, b)) == 0 && Num(AndV(a, b)) == 0
  {
    NumZero(a);
    NumZero(b);
  }

  lemma BitwiseStep(op: (bool, bool) -> bool, x: nat, y: nat, u: nat, v: nat, b: nat, c: nat, n: nat)
    requires n > 0 && x == 2 * u + b && y == 2 * v + c && b <= 1 && c <= 1
    ensures Bitwise(op, x, y, n) == 2 * Bitwise(op, u, v, n - 1) + (if op(b == 1, c == 1) then 1 else 0)
    ensures x < Pow2(n) ==> u < Pow2(n - 1)
    ensures y < Pow2(n) ==> v < Pow2(n - 1)
  {
    assert x / 2 == u && y / 2 == v && x % 2 == b && y % 2 == c;
  }

  lemma {:induction false} XorStep(a: bv32, b: bv32, n: nat)
    requires Num(a) < Pow2(n) && Num(b) < Pow2(n)
    ensures Bitwise(Xor2, Num(a), Num(b), n) == Num(XorV(a, b))
    decreases n
  {
    hide Num, Half, Bit0, XorV, AndV;
    if n == 0 {
      OfZero(a, b);
    } else {
      hide Bitwise, Pow2;
      XorHalf(a, b);
      HalfNum(a);
      HalfNum(b);
      HalfNum(XorV(a, b));
      BitwiseStep(Xor2, Num(a), Num(b), Num(Half(a)), Num(Half(b)), Bit0(a), Bit0(b), n);
      XorStep(Half(a), Half(b), n - 1);
    }
  }

  lemma {:induction false} AndStep(a: bv32, b: bv32, n: nat)
    requires Num(a) < Pow2(n) && Num(b) < Pow2(n)
    ensures Bitwise(And2, Num(a), Num(b), n) == Num(AndV(a, b))
    decreases n
  {
    hide Num, Half, Bit0, XorV, AndV;
    if n == 0 {
      OfZero(a, b);
    } else {
      hide Bitwise, Pow2;
      AndHalf(a, b);
      HalfNum(a);
      HalfNum(b);
      HalfNum(AndV(a, b));
      BitwiseStep(And2, Num(a), Num(b), Num(Half(a)), Num(Half(b)), Bit0(a), Bit0(b), n);
      AndStep(Half(a), Half(b), n - 1);
    }
  }

  lemma XorNum(a: bv32, b: bv32)
    ensures Xor(Num(a), Num(b)) == Num(XorV(a, b))
  {
    hide Num, XorV;
    Pow32();
    XorStep(a, b, 32);
  }

  lemma AndNum(a: bv32, b: bv32)
    ensures And(Num(a), Num(b)) == Num(AndV(a, b))
  {
    hide Num, AndV;
    Pow32();
    AndStep(a, b, 32);
  }

  lemma NotByte(p: bv8)
    ensures Value(!p) + Value(p) == 0xFF
  {
    ByteSum(p);
    ByteSum(!p);
  }

  lemma BytesOfNot(a: bv32)
    ensures Byte0(NotV(a)) == !Byte0(a) && Byte1(NotV(a)) == !Byte1(a)
    ensures Byte2(NotV(a)) == !Byte2(a) && Byte3(NotV(a)) == !Byte3(a)
  {
  }

  lemma NotNum(a: bv32)
    ensures Not(Num(a)) == Num(NotV(a))
  {
    BytesOfNot(a);
    hide Value, Byte0, Byte1, Byte2, Byte3, NotV;
    NotByte(Byte0(a));
    NotByte(Byte1(a));
    NotByte(Byte2(a));
    NotByte(Byte3(a));
  }

  function Down(a: bv32, n: nat): bv32
    decreases n
  {
    if n == 0 then a else Down(Half(a), n - 1)
  }

  lemma {:induction false} DownNum(a: bv32, n: nat)
    ensures Shr(Num(a), n) == Num(Down(a, n))
    decreases n
  {
    hide Num, Half, Bit0;
    if n > 0 {
      HalfNum(a);
      DownNum(Half(a), n - 1);
    }
  }

  function Turn(a: bv32): bv32 {
    (a >> 1) | (a << 31)
  }

  function Turned(a: bv32, n: nat): bv32
    decreases n
  {
    if n == 0 then a else Turned(Turn(a), n - 1)
  }

  function TopSet(p: bv8, v: nat): bv8 {
    if v == 0 then p else p | 0x80
  }

  predicate TopClear(p: bv8) {
    p & 0x80 == 0
  }

  lemma BytesOfTurn(a: bv32)
    ensures Byte0(Turn(a)) == Byte0(Half(a)) && Byte1(Turn(a)) == Byte1(Half(a)) && Byte2(Turn(a)) == Byte2(Half(a))
    ensures Byte3(Turn(a)) == TopSet(Byte3(Half(a)), Bit0(a)) && TopClear(Byte3(Half(a)))
  {
  }

  lemma TopByte(p: bv8, v: nat)
    requires TopClear(p) && v <= 1
    ensures Value(TopSet(p, v)) == Value(p) + 0x80 * v
  {
    ByteSum(p);
    ByteSum(TopSet(p, v));
  }

  lemma TurnedIs(x: Word, h: nat, v: nat)
    requires x == 2 * h + v && v <= 1
    ensures TurnedWord(x) == h + 0x8000_0000 * v
  {
  }

  lemma TurnParts(a: bv32)
    ensures Num(Turn(a)) == Num(Half(a)) + 0x8000_0000 * Bit0(a)
  {
    hide Value, Byte0, Byte1, Byte2, Byte3, Half, Bit0, Turn, TopSet, TopClear;
    BytesOfTurn(a);
    HalfNum(a);
    TopByte(Byte3(Half(a)), Bit0(a));
  }

  lemma TurnNum(a: bv32)
    ensures Num(Turn(a)) == TurnedWord(Num(a))
  {
    hide Num, Half, Bit0, Turn, TurnedWord;
    TurnParts(a);
    HalfNum(a);
    TurnedIs(Num(a), Num(Half(a)), Bit0(a));
  }

  lemma {:induction false} TurnedNum(a: bv32, n: nat)
    requires n < 32
    ensures Rotr(Num(a), n) == Num(Turned(a, n))
    decreases n
  {
    hide Num, Turn, Rotr;
    if n == 0 {
      RotrNone(Num(a));
    } else {
      TurnedNum(Turn(a), n - 1);
      TurnNum(a);
      RotrOne(Num(a), n - 1);
    }
  }

  lemma RotrNone(x: Word)
    ensures Rotr(x, 0) == x
  {
    hide Rotr, BitAt;
    Pow32();
    forall k: nat | k < 32
      ensures BitAt(Rotr(x, 0), k) <==> BitAt(x, k)
    {
      RotrAt(x, 0, k);
      assert (k + 0) % 32 == k;
    }
    SameBits(Rotr(x, 0), x, 32);
  }

  function TurnedWord(x: Word): Word {
    x / 2 + 0x8000_0000 * (x % 2)
  }

  /** One place round, then `n`. */
  lemma RotrOne(x: Word, n: nat)
    requires n < 31
    ensures Rotr(TurnedWord(x), n) == Rotr(x, n + 1)
  {
    Pow32();
    var y := TurnedWord(x);
    hide Rotr, TurnedWord, BitAt;
    forall k: nat | k < 32
      ensures BitAt(Rotr(y, n), k) <==> BitAt(Rotr(x, n + 1), k)
    {
      RotrAt(y, n, k);
      RotrAt(x, n + 1, k);
      TurnedAt(x, (k + n) % 32);
      NextPlace(k, n);
    }
    SameBits(Rotr(y, n), Rotr(x, n + 1), 32);
  }

  lemma NextPlace(k: nat, n: nat)
    ensures ((k + n) % 32 + 1) % 32 == (k + (n + 1)) % 32
  {
  }

  lemma TurnedAt(x: Word, k: nat)
    requires k < 32
    ensures BitAt(TurnedWord(x), k) <==> BitAt(x, (k + 1) % 32)
  {
    Pow32();
    if x % 2 == 1 {
      TopAt(x / 2, 31, k);
    }
    if k == 31 && x % 2 == 0 {
      NoBitAbove(x / 2, 31, 31);
    }
  }

  // ---- the functions of section 4.1.2 -----------------------------------------------------------

  lemma {:induction false} TurnedTwice(x: bv32, m: nat, n: nat)
    ensures Turned(Turned(x, m), n) == Turned(x, m + n)
    decreases m
  {
    hide Turn;
    if m > 0 {
      TurnedTwice(Turn(x), m - 1, n);
    }
  }

  lemma {:induction false} DownTwice(x: bv32, m: nat, n: nat)
    ensures Down(Down(x, m), n) == Down(x, m + n)
    decreases m
  {
    hide Half;
    if m > 0 {
      DownTwice(Half(x), m - 1, n);
    }
  }

  // The two again without recursion in the definition, so that it can be left out of a proof.
  function Round(x: bv32, n: nat): bv32 { Turned(x, n) }
  function Under(x: bv32, n: nat): bv32 { Down(x, n) }

  lemma RoundTwice(x: bv32, m: nat, n: nat)
    ensures Round(Round(x, m), n) == Round(x, m + n)
  {
    hide Turn;
    TurnedTwice(x, m, n);
  }

  lemma UnderTwice(x: bv32, m: nat, n: nat)
    ensures Under(Under(x, m), n) == Under(x, m + n)
  {
    hide Half;
    DownTwice(x, m, n);
  }

  lemma TurnIs(x: bv32)
    ensures Turn(x) == x.RotateRight(1)
  {
  }

  lemma Round1(x: bv32)
    ensures Round(x, 1) == x.RotateRight(1)
  {
    TurnIs(x);
    hide Turn;
    assert Turned(x, 1) == Turned(Turn(x), 0);
  }

  lemma Under1(x: bv32)
    ensures Under(x, 1) == x >> 1
  {
    assert Down(x, 1) == Down(Half(x), 0);
  }

  lemma Round2(x: bv32)
    ensures Round(x, 2) == x.RotateRight(2)
  {
    hide Round;
    RoundTwice(x, 1, 1);
    assert Round(x, 2) == Round(Round(x, 1), 1);
    Round1(x);
    assert Round(x, 2) == Round(x.RotateRight(1), 1);
    Round1(x.RotateRight(1));
    assert Round(x, 2) == x.RotateRight(1).RotateRight(1);
  }

  lemma Round4(x: bv32)
    ensures Round(x, 4) == x.RotateRight(4)
  {
    hide Round;
    RoundTwice(x, 2, 2);
    assert Round(x, 4) == Round(Round(x, 2), 2);
    Round2(x);
    assert Round(x, 4) == Round(x.RotateRight(2), 2);
    Round2(x.RotateRight(2));
    assert Round(x, 4) == x.RotateRight(2).RotateRight(2);
  }

  lemma Round6(x: bv32)
    ensures Round(x, 6) == x.RotateRight(6)
  {
    hide Round;
    RoundTwice(x, 4, 2);
    assert Round(x, 6) == Round(Round(x, 4), 2);
    Round4(x);
    assert Round(x, 6) == Round(x.RotateRight(4), 2);
    Round2(x.RotateRight(4));
    assert Round(x, 6) == x.RotateRight(4).RotateRight(2);
  }

  lemma Round7(x: bv32)
    ensures Round(x, 7) == x.RotateRight(7)
  {
    hide Round;
    RoundTwice(x, 6, 1);
    assert Round(x, 7) == Round(Round(x, 6), 1);
    Round6(x);
    assert Round(x, 7) == Round(x.RotateRight(6), 1);
    Round1(x.RotateRight(6));
    assert Round(x, 7) == x.RotateRight(6).RotateRight(1);
  }

  lemma Round11(x: bv32)
    ensures Round(x, 11) == x.RotateRight(11)
  {
    hide Round;
    RoundTwice(x, 7, 4);
    assert Round(x, 11) == Round(Round(x, 7), 4);
    Round7(x);
    assert Round(x, 11) == Round(x.RotateRight(7), 4);
    Round4(x.RotateRight(7));
    assert Round(x, 11) == x.RotateRight(7).RotateRight(4);
  }

  lemma Round13(x: bv32)
    ensures Round(x, 13) == x.RotateRight(13)
  {
    hide Round;
    RoundTwice(x, 11, 2);
    assert Round(x, 13) == Round(Round(x, 11), 2);
    Round11(x);
    assert Round(x, 13) == Round(x.RotateRight(11), 2);
    Round2(x.RotateRight(11));
    assert Round(x, 13) == x.RotateRight(11).RotateRight(2);
  }

  lemma Round17(x: bv32)
    ensures Round(x, 17) == x.RotateRight(17)
  {
    hide Round;
    RoundTwice(x, 13, 4);
    assert Round(x, 17) == Round(Round(x, 13), 4);
    Round13(x);
    assert Round(x, 17) == Round(x.RotateRight(13), 4);
    Round4(x.RotateRight(13));
    assert Round(x, 17) == x.RotateRight(13).RotateRight(4);
  }

  lemma Round18(x: bv32)
    ensures Round(x, 18) == x.RotateRight(18)
  {
    hide Round;
    RoundTwice(x, 17, 1);
    assert Round(x, 18) == Round(Round(x, 17), 1);
    Round17(x);
    assert Round(x, 18) == Round(x.RotateRight(17), 1);
    Round1(x.RotateRight(17));
    assert Round(x, 18) == x.RotateRight(17).RotateRight(1);
  }

  lemma Round19(x: bv32)
    ensures Round(x, 19) == x.RotateRight(19)
  {
    hide Round;
    RoundTwice(x, 17, 2);
    assert Round(x, 19) == Round(Round(x, 17), 2);
    Round17(x);
    assert Round(x, 19) == Round(x.RotateRight(17), 2);
    Round2(x.RotateRight(17));
    assert Round(x, 19) == x.RotateRight(17).RotateRight(2);
  }

  lemma Round22(x: bv32)
    ensures Round(x, 22) == x.RotateRight(22)
  {
    hide Round;
    RoundTwice(x, 18, 4);
    assert Round(x, 22) == Round(Round(x, 18), 4);
    Round18(x);
    assert Round(x, 22) == Round(x.RotateRight(18), 4);
    Round4(x.RotateRight(18));
    assert Round(x, 22) == x.RotateRight(18).RotateRight(4);
  }

  lemma Round25(x: bv32)
    ensures Round(x, 25) == x.RotateRight(25)
  {
    hide Round;
    RoundTwice(x, 18, 7);
    assert Round(x, 25) == Round(Round(x, 18), 7);
    Round18(x);
    assert Round(x, 25) == Round(x.RotateRight(18), 7);
    Round7(x.RotateRight(18));
    assert Round(x, 25) == x.RotateRight(18).RotateRight(7);
  }

  lemma Under2(x: bv32)
    ensures Under(x, 2) == x >> 2
  {
    hide Under;
    UnderTwice(x, 1, 1);
    assert Under(x, 2) == Under(Under(x, 1), 1);
    Under1(x);
    assert Under(x, 2) == Under(x >> 1, 1);
    Under1(x >> 1);
    assert Under(x, 2) == (x >> 1) >> 1;
  }

  lemma Under3(x: bv32)
    ensures Under(x, 3) == x >> 3
  {
    hide Under;
    UnderTwice(x, 2, 1);
    assert Under(x, 3) == Under(Under(x, 2), 1);
    Under2(x);
    assert Under(x, 3) == Under(x >> 2, 1);
    Under1(x >> 2);
    assert Under(x, 3) == (x >> 2) >> 1;
  }

  lemma Under5(x: bv32)
    ensures Under(x, 5) == x >> 5
  {
    hide Under;
    UnderTwice(x, 3, 2);
    assert Under(x, 5) == Under(Under(x, 3), 2);
    Under3(x);
    assert Under(x, 5) == Under(x >> 3, 2);
    Under2(x >> 3);
    assert Under(x, 5) == (x >> 3) >> 2;
  }

  lemma Under10(x: bv32)
    ensures Under(x, 10) == x >> 10
  {
    hide Under;
    UnderTwice(x, 5, 5);
    assert Under(x, 10) == Under(Under(x, 5), 5);
    Under5(x);
    assert Under(x, 10) == Under(x >> 5, 5);
    Under5(x >> 5);
    assert Under(x, 10) == (x >> 5) >> 5;
  }

  lemma RoundNum(x: bv32, n: nat)
    requires n < 32
    ensures Rotr(Num(x), n) == Num(Round(x, n))
  {
    hide Num, Turned, Rotr;
    TurnedNum(x, n);
  }

  lemma UnderNum(x: bv32, n: nat)
    ensures Shr(Num(x), n) == Num(Under(x, n))
  {
    hide Num, Down, Shr;
    DownNum(x, n);
  }

  function Xor3(p: bv32, q: bv32, r: bv32): bv32 { XorV(p ^ q, r) }

  lemma Xor3Is(p: bv32, q: bv32, r: bv32)
    ensures Xor3(p, q, r) == XorV(XorV(p, q), r)
  {
  }

  function BigSigma0V(x: bv32): bv32 { Xor3(x.RotateRight(2), x.RotateRight(13), x.RotateRight(22)) }
  function BigSigma1V(x: bv32): bv32 { Xor3(x.RotateRight(6), x.RotateRight(11), x.RotateRight(25)) }
  function SmallSigma0V(x: bv32): bv32 { Xor3(x.RotateRight(7), x.RotateRight(18), x >> 3) }
  function SmallSigma1V(x: bv32): bv32 { Xor3(x.RotateRight(17), x.RotateRight(19), x >> 10) }
  function ChV(x: bv32, y: bv32, z: bv32): bv32 { XorV(x & y, !x & z) }
  function MajV(x: bv32, y: bv32, z: bv32): bv32 { Xor3(x & y, x & z, y & z) }

  lemma ChParts(x: bv32, y: bv32, z: bv32)
    ensures ChV(x, y, z) == XorV(AndV(x, y), AndV(NotV(x), z))
  {
  }

  lemma MajParts(x: bv32, y: bv32, z: bv32)
    ensures MajV(x, y, z) == XorV(XorV(AndV(x, y), AndV(x, z)), AndV(y, z))
  {
    AndIs(x, y);
    AndIs(x, z);
    AndIs(y, z);
    hide AndV, XorV, Xor3;
    Xor3Is(AndV(x, y), AndV(x, z), AndV(y, z));
  }

  lemma AndIs(x: bv32, y: bv32)
    ensures AndV(x, y) == x & y
  {
  }

  lemma Xor3Num(p: bv32, q: bv32, r: bv32)
    ensures Xor(Xor(Num(p), Num(q)), Num(r)) == Num(Xor3(p, q, r))
  {
    hide Num, XorV, Xor3, Xor;
    Xor3Is(p, q, r);
    XorNum(p, q);
    XorNum(XorV(p, q), r);
  }

  lemma BigSigma0Num(x: bv32)
    ensures BigSigma0(Num(x)) == Num(BigSigma0V(x))
  {
    hide Num, Round, Under, XorV, Xor3, Xor, Rotr, Shr;
    Round2(x);
    Round13(x);
    Round22(x);
    RoundNum(x, 2);
    RoundNum(x, 13);
    RoundNum(x, 22);
    Xor3Num(x.RotateRight(2), x.RotateRight(13), x.RotateRight(22));
  }

  lemma BigSigma1Num(x: bv32)
    ensures BigSigma1(Num(x)) == Num(BigSigma1V(x))
  {
    hide Num, Round, Under, XorV, Xor3, Xor, Rotr, Shr;
    Round6(x);
    Round11(x);
    Round25(x);
    RoundNum(x, 6);
    RoundNum(x, 11);
    RoundNum(x, 25);
    Xor3Num(x.RotateRight(6), x.RotateRight(11), x.RotateRight(25));
  }

  lemma SmallSigma0Num(x: bv32)
    ensures SmallSigma0(Num(x)) == Num(SmallSigma0V(x))
  {
    hide Num, Round, Under, XorV, Xor3, Xor, Rotr, Shr;
    Round7(x);
    Round18(x);
    Under3(x);
    RoundNum(x, 7);
    RoundNum(x, 18);
    UnderNum(x, 3);
    Xor3Num(x.RotateRight(7), x.RotateRight(18), x >> 3);
  }

  lemma SmallSigma1Num(x: bv32)
    ensures SmallSigma1(Num(x)) == Num(SmallSigma1V(x))
  {
    hide Num, Round, Under, XorV, Xor3, Xor, Rotr, Shr;
    Round17(x);
    Round19(x);
    Under10(x);
    RoundNum(x, 17);
    RoundNum(x, 19);
    UnderNum(x, 10);
    Xor3Num(x.RotateRight(17), x.RotateRight(19), x >> 10);
  }

  lemma ChNum(x: bv32, y: bv32, z: bv32)
    ensures Ch(Num(x), Num(y), Num(z)) == Num(ChV(x, y, z))
  {
    hide Num, XorV, AndV, NotV, Xor, And, Not, ChV;
    ChParts(x, y, z);
    AndNum(x, y);
    NotNum(x);
    AndNum(NotV(x), z);
    XorNum(AndV(x, y), AndV(NotV(x), z));
  }

  lemma MajNum(x: bv32, y: bv32, z: bv32)
    ensures Maj(Num(x), Num(y), Num(z)) == Num(MajV(x, y, z))
  {
    hide Num, XorV, AndV, Xor, And, MajV;
    MajParts(x, y, z);
    AndNum(x, y);
    AndNum(x, z);
    AndNum(y, z);
    XorNum(AndV(x, y), AndV(x, z));
    XorNum(XorV(AndV(x, y), AndV(x, z)), AndV(y, z));
  }

  /** `Num` in one expression. */
  function NumV(b: bv32): Word {
    ((b & 0xFF) as bv8 as int) + 0x100 * (((b >> 8) & 0xFF) as bv8 as int)
    + 0x1_0000 * (((b >> 16) & 0xFF) as bv8 as int) + 0x100_0000 * ((b >> 24) as bv8 as int)
  }

  lemma NumIs(b: bv32)
    ensures Num(b) == NumV(b)
  {
  }

  /** One round on words given as bit vectors, with the values of its four functions and its two sums. */
  lemma Step(
    a: bv32, b: bv32, c: bv32, d: bv32, e: bv32, f: bv32, g: bv32, h: bv32, k: Word, w: Word,
    sum1: bv32, choice: bv32, sum0: bv32, majority: bv32, t1: Word, t2: Word)
    requires BigSigma1V(e) == sum1 && ChV(e, f, g) == choice && BigSigma0V(a) == sum0 && MajV(a, b, c) == majority
    requires Wrap32((NumV(h) as int) + NumV(sum1) + NumV(choice) + k + w) == t1
    requires Wrap32((NumV(sum0) as int) + NumV(majority)) == t2
    ensures OneRound(Regs(NumV(a), NumV(b), NumV(c), NumV(d), NumV(e), NumV(f), NumV(g), NumV(h)), k, w) ==
            Regs(Add(t1, t2), NumV(a), NumV(b), NumV(c), Add(NumV(d), t1), NumV(e), NumV(f), NumV(g))
  {
    hide Num, NumV, BigSigma0V, BigSigma1V, ChV, MajV, BigSigma0, BigSigma1, Ch, Maj, Wrap32;
    BigSigma1Num(e);
    BigSigma0Num(a);
    ChNum(e, f, g);
    MajNum(a, b, c);
    NumIs(a);
    NumIs(b);
    NumIs(c);
    NumIs(d);
    NumIs(e);
    NumIs(f);
    NumIs(g);
    NumIs(h);
    NumIs(sum1);
    NumIs(sum0);
    NumIs(choice);
    NumIs(majority);
  }

  /** One word of the schedule. */
  lemma Next(w2: bv32, w7: bv32, w15: bv32, w16: bv32, s1: bv32, s0: bv32)
    requires SmallSigma1V(w2) == s1 && SmallSigma0V(w15) == s0
    ensures NextWord(NumV(w2), NumV(w7), NumV(w15), NumV(w16)) ==
            Wrap32((NumV(s1) as int) + NumV(w7) + NumV(s0) + NumV(w16))
  {
    hide Num, NumV, SmallSigma0V, SmallSigma1V, SmallSigma0, SmallSigma1, Wrap32;
    SmallSigma1Num(w2);
    SmallSigma0Num(w15);
    NumIs(w2);
    NumIs(w7);
    NumIs(w15);
    NumIs(w16);
    NumIs(s1);
    NumIs(s0);
  }
}
