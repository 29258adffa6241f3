/** Fixed-width integers, byte buffers and the little-endian accessors of svu_proto.h. */
module Bytes {

  type u8 = x: int | 0 <= x < 0x100
  type u16 = x: int | 0 <= x < 0x1_0000
  type u32 = x: int | 0 <= x < 0x1_0000_0000
  type u64 = x: int | 0 <= x < 0x1_0000_0000_0000_0000

  const TWO16 := 0x1_0000
  const TWO32 := 0x1_0000_0000
  const TWO64 := 0x1_0000_0000_0000_0000

  /** Unsigned 32-bit wrap-around. */
  function Wrap32(x: int): u32 {
    x % TWO32
  }

  /** A 32-bit sum that stays in range is exact. */
  function Add32(a: u32, b: u32): (r: u32)
    ensures var x: int, y: int := a, b; x + y < TWO32 ==> r == x + y
  {
    var x: int, y: int := a, b;
    Wrap32(x + y)
  }

  function Min(a: nat, b: nat): nat {
    if a < b then a else b
  }

  /** `s` with the bytes `b` copied over positions [at, at+|b|): what memcpy does. */
  function Splice<T>(s: seq<T>, at: nat, b: seq<T>): (r: seq<T>)
    requires at + |b| <= |s|
    ensures |r| == |s|
    ensures forall i :: 0 <= i < |s| ==> r[i] == if at <= i < at + |b| then b[i - at] else s[i]
  {
    s[..at] + b + s[at + |b|..]
  }

  function Repeat<T>(x: T, n: nat): (r: seq<T>)
    ensures |r| == n && forall i :: 0 <= i < n ==> r[i] == x
  {
    seq(n, _ => x)
  }

  /** A half-open range of byte offsets (ci_svu_interval_t and svu_wire_interval_t). */
  datatype Interval = Interval(start: u32, end: u32)

  /** The contents of one CSP packet; packet lengths are 16-bit. */
  type Packet = p: seq<u8> | |p| < TWO16 witness []

  datatype Option<+T> = None | Some(value: T)

  /** The four bytes of `v`, low byte first (svu_put32). */
  function Le32(v: u32): (r: seq<u8>)
    ensures |r| == 4
  {
    [v % 0x100, v / 0x100 % 0x100, v / 0x1_0000 % 0x100, v / 0x100_0000 % 0x100]
  }

  /** The 32-bit value stored low byte first at `p[at..at+4]` (svu_get32). */
  function Get32(p: seq<u8>, at: nat := 0): u32
    requires at + 4 <= |p|
  {
    var b0: int, b1: int, b2: int, b3: int := p[at], p[at + 1], p[at + 2], p[at + 3];
    b0 + b1 * 0x100 + b2 * 0x1_0000 + b3 * 0x100_0000
  }

  lemma Get32Le32(v: u32)
    ensures Get32(Le32(v)) == v
  {
    assert v / 0x1_0000 == v / 0x100 / 0x100;
    assert v / 0x100_0000 == v / 0x100 / 0x100 / 0x100;
  }

  lemma Le32Get32(p: seq<u8>, at: nat)
    requires at + 4 <= |p|
    ensures Le32(Get32(p, at)) == p[at..at + 4]
  {
    Digits(p[at], p[at + 1], p[at + 2], p[at + 3]);
  }

  lemma Split(b: u8, x: nat)
    ensures (b + 0x100 * x) % 0x100 == b && (b + 0x100 * x) / 0x100 == x
  {
  }

  lemma Digits(b0: u8, b1: u8, b2: u8, b3: u8)
    ensures var c1: int, c2: int, c3: int := b1, b2, b3;
            Le32(b0 + c1 * 0x100 + c2 * 0x1_0000 + c3 * 0x100_0000) == [b0, b1, b2, b3]
  {
    var c1: int, c2: int, c3: int := b1, b2, b3;
    var v: int := b0 + c1 * 0x100 + c2 * 0x1_0000 + c3 * 0x100_0000;
    Split(b0, c1 + c2 * 0x100 + c3 * 0x1_0000);
    Split(b1, c2 + c3 * 0x100);
    Split(b2, c3);
    assert v / 0x100 == c1 + c2 * 0x100 + c3 * 0x1_0000;
    assert v / 0x1_0000 == v / 0x100 / 0x100 && v / 0x100_0000 == v / 0x1_0000 / 0x100;
  }

  /** Reading the four bytes at `at` depends on nothing else in the buffer. */
  lemma Get32Slice(p: seq<u8>, at: nat, v: u32)
    requires at + 4 <= |p| && p[at..at + 4] == Le32(v)
    ensures Get32(p, at) == v
  {
    Get32Le32(v);
    var q := p[at..at + 4];
    assert q[0] == p[at] && q[1] == p[at + 1] && q[2] == p[at + 2] && q[3] == p[at + 3];
  }

  function Join(cs: seq<seq<u8>>): seq<u8> {
    if cs == [] then [] else cs[0] + Join(cs[1..])
  }

  lemma {:induction false} JoinAppend(a: seq<seq<u8>>, b: seq<seq<u8>>)
    ensures Join(a + b) == Join(a) + Join(b)
  {
    if a == [] {
      assert a + b == b;
    } else {
      assert (a + b)[0] == a[0] && (a + b)[1..] == a[1..] + b;
      JoinAppend(a[1..], b);
    }
  }
}
