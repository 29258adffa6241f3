/** svu/svu_proto.h: the meta request and the push announce on the wire. */
module Wire {
  import opened Bytes

  const MAGIC_REQ: u32 := 0x51555653
  const MAGIC_RESP: u32 := 0x52555653
  const PUSH_MAGIC: u32 := 0x53565550
  const MAX_INTERVALS := 32
  const REQ_HDR := 24
  const RESP_HDR := 20
  const DATA_HDR := 8

  type Slots = s: seq<Interval> | |s| == MAX_INTERVALS witness Repeat(Interval(0, 0), MAX_INTERVALS)

  datatype Req = Req(magic: u32, session: u32, mtu: u32, block: u32, nof: u32, clientAddr: u32,
                     intervals: Slots)

  /** `ivs` in the first slots of a request, zeros in the others (memset). */
  function InSlots(ivs: seq<Interval>): Slots
    requires |ivs| <= MAX_INTERVALS
  {
    ivs + Repeat(Interval(0, 0), MAX_INTERVALS - |ivs|)
  }

  // ---- encoding -----------------------------------------------------------------

  function EncodeIntervals(ivs: seq<Interval>): (b: seq<u8>)
    ensures |b| == 8 * |ivs|
  {
    if ivs == [] then []
    else
      var last := ivs[|ivs| - 1];
      EncodeIntervals(ivs[..|ivs| - 1]) + Le32(last.start) + Le32(last.end)
  }

  function EncodeHeader(r: Req, n: u32): (b: seq<u8>)
    ensures |b| == REQ_HDR
  {
    Le32(r.magic) + Le32(r.session) + Le32(r.mtu) + Le32(r.block) + Le32(n) + Le32(r.clientAddr)
  }

  /** The bytes of a meta request; an interval count above 32 is cut to 32. */
  function Encode(r: Req): (b: seq<u8>)
  {
    var n := Min(r.nof, MAX_INTERVALS);
    EncodeHeader(r, n) + EncodeIntervals(r.intervals[..n])
  }

  /** The bytes of the buffer once `n` intervals are in. */
  function EncodePrefix(head: seq<u8>, ivs: seq<Interval>, n: nat): (b: seq<u8>)
    requires n <= |ivs|
    ensures |b| == |head| + 8 * n
  {
    head + EncodeIntervals(ivs[..n])
  }

  lemma EncodeOneMore(head: seq<u8>, ivs: seq<Interval>, i: nat)
    requires i < |ivs|
    ensures EncodePrefix(head, ivs, i + 1) ==
            EncodePrefix(head, ivs, i) + (Le32(ivs[i].start) + Le32(ivs[i].end))
  {
    var sofar := EncodeIntervals(ivs[..i]);
    assert ivs[..i + 1][..i] == ivs[..i];
    assert head + (sofar + Le32(ivs[i].start) + Le32(ivs[i].end)) ==
           head + sofar + (Le32(ivs[i].start) + Le32(ivs[i].end));
  }

  /** svu_put32 */
  method Put32(p: array<u8>, at: nat, v: u32)
    requires at + 4 <= p.Length
    modifies p
    ensures p[..] == Splice(old(p[..]), at, Le32(v))
  {
    p[at], p[at + 1] := v % 0x100, v / 0x100 % 0x100;
    p[at + 2], p[at + 3] := v / 0x1_0000 % 0x100, v / 0x100_0000 % 0x100;
  }

  /** Four more bytes after a finished prefix of the buffer. */
  method Append32(p: array<u8>, at: nat, v: u32)
    requires at + 4 <= p.Length
    modifies p
    ensures p[..at + 4] == old(p[..at]) + Le32(v)
    ensures forall k :: at + 4 <= k < p.Length ==> p[k] == old(p[k])
  {
    ghost var was := p[..];
    Put32(p, at, v);
    assert p[..at + 4] == p[..][..at + 4] && old(p[..at]) == was[..at];
    assert forall k :: 0 <= k < p.Length ==> p[k] == p[..][k] && old(p[k]) == was[k];
  }

  /** One turn of svu_req_encode's loop. */
  method EncodeTurn(buf: array<u8>, ghost head: seq<u8>, ivs: seq<Interval>, i: nat)
    requires |head| == REQ_HDR && i < |ivs| && REQ_HDR + 8 * i + 8 <= buf.Length
    requires buf[..REQ_HDR + 8 * i] == EncodePrefix(head, ivs, i)
    modifies buf
    ensures buf[..REQ_HDR + 8 * (i + 1)] == EncodePrefix(head, ivs, i + 1)
    ensures forall k :: REQ_HDR + 8 * i + 8 <= k < buf.Length ==> buf[k] == old(buf[k])
  {
    AppendInterval(buf, REQ_HDR + i * 8, ivs[i]);
    EncodeOneMore(head, ivs, i);
  }

  method AppendInterval(p: array<u8>, at: nat, iv: Interval)
    requires at + 8 <= p.Length
    modifies p
    ensures p[..at + 8] == old(p[..at]) + (Le32(iv.start) + Le32(iv.end))
    ensures forall k :: at + 8 <= k < p.Length ==> p[k] == old(p[k])
  {
    Append32(p, at, iv.start);
    Append32(p, at + 4, iv.end);
  }

  /** svu_req_encode */
  method ReqEncode(r: Req, buf: array<u8>) returns (len: nat)
    requires REQ_HDR + 8 * Min(r.nof, MAX_INTERVALS) <= buf.Length
    modifies buf
    ensures len == |Encode(r)| <= buf.Length
    ensures buf[..len] == Encode(r)
    ensures forall k :: len <= k < buf.Length ==> buf[k] == old(buf[k])
  {
    var n: u32 := r.nof;
    if n > MAX_INTERVALS {
      n := MAX_INTERVALS;
    }
    ghost var end, head := REQ_HDR + 8 * n, EncodeHeader(r, n);
    HeaderEncode(r, n, buf);
    var i := 0;
    while i < n
      invariant 0 <= i <= n
      invariant buf[..REQ_HDR + 8 * i] == EncodePrefix(head, r.intervals, i)
      invariant forall k :: end <= k < buf.Length ==> buf[k] == old(buf[k])
    {
      EncodeTurn(buf, head, r.intervals, i);
      i := i + 1;
    }
    len := REQ_HDR + n * 8;
  }

  method HeaderEncode(r: Req, n: u32, buf: array<u8>)
    requires REQ_HDR <= buf.Length
    modifies buf
    ensures buf[..REQ_HDR] == EncodeHeader(r, n)
    ensures forall k :: REQ_HDR <= k < buf.Length ==> buf[k] == old(buf[k])
  {
    Append32(buf, 0, r.magic);
    Append32(buf, 4, r.session);
    Append32(buf, 8, r.mtu);
    Append32(buf, 12, r.block);
    Append32(buf, 16, n);
    Append32(buf, 20, r.clientAddr);
  }

  // ---- decoding -----------------------------------------------------------------

  function IntervalAt(b: seq<u8>, i: nat): Interval
    requires REQ_HDR + 8 * i + 8 <= |b|
  {
    Interval(Get32(b, REQ_HDR + 8 * i), Get32(b, REQ_HDR + 8 * i + 4))
  }

  function DecodeIntervals(b: seq<u8>, n: nat): (ivs: seq<Interval>)
    requires REQ_HDR + 8 * n <= |b|
    ensures |ivs| == n && forall i :: 0 <= i < n ==> ivs[i] == IntervalAt(b, i)
  {
    seq(n, i requires 0 <= i < n => IntervalAt(b, i))
  }

  /** The meta request in `b`; `None` where svu_req_decode returns -1. */
  function Decode(b: seq<u8>): Option<Req> {
    if |b| < REQ_HDR then None
    else
      var n := Get32(b, 16);
      if Get32(b, 0) != MAGIC_REQ || n > MAX_INTERVALS || |b| < REQ_HDR + 8 * n then None
      else Some(Req(Get32(b, 0), Get32(b, 4), Get32(b, 8), Get32(b, 12), n, Get32(b, 20),
                    InSlots(DecodeIntervals(b, n))))
  }

  /** svu_req_decode */
  method ReqDecode(buf: array<u8>, len: nat) returns (r: Option<Req>)
    requires len <= buf.Length
    ensures r == Decode(buf[..len])
  {
    if len < REQ_HDR {
      return None;
    }
    ghost var b := buf[..len];
    var p := buf[..len];
    var nof := Get32(p, 16);
    if Get32(p, 0) != MAGIC_REQ || nof > MAX_INTERVALS {
      return None;
    }
    if len < REQ_HDR + nof * 8 {
      return None;
    }
    var ivs: seq<Interval> := Repeat(Interval(0, 0), MAX_INTERVALS);
    var i := 0;
    while i < nof
      invariant 0 <= i <= nof
      invariant ivs == InSlots(DecodeIntervals(b, i))
    {
      ivs := ivs[i := Interval(Get32(p, REQ_HDR + i * 8), Get32(p, REQ_HDR + i * 8 + 4))];
      i := i + 1;
    }
    r := Some(Req(Get32(p, 0), Get32(p, 4), Get32(p, 8), Get32(p, 12), nof, Get32(p, 20), ivs));
  }

  // ---- round trips ----------------------------------------------------------------

  lemma SamePrefix(b: seq<u8>, short: seq<u8>, i: nat)
    requires short <= b && REQ_HDR + 8 * i + 8 <= |short|
    ensures IntervalAt(b, i) == IntervalAt(short, i)
  {
  }

  lemma {:induction false} EncodedIntervalAt(head: seq<u8>, ivs: seq<Interval>, i: nat)
    requires |head| == REQ_HDR && i < |ivs|
    ensures IntervalAt(head + EncodeIntervals(ivs), i) == ivs[i]
  {
    hide Le32, Get32;
    var n := |ivs| - 1;
    var b, short := head + EncodeIntervals(ivs), head + EncodeIntervals(ivs[..n]);
    assert b == short + Le32(ivs[n].start) + Le32(ivs[n].end);
    if i < n {
      EncodedIntervalAt(head, ivs[..n], i);
      SamePrefix(b, short, i);
    } else {
      assert b[|short|..|short| + 4] == Le32(ivs[n].start) && b[|short| + 4..|short| + 8] == Le32(ivs[n].end);
      Get32Slice(b, |short|, ivs[n].start);
      Get32Slice(b, |short| + 4, ivs[n].end);
    }
  }

  lemma HeaderFields(r: Req, n: u32, rest: seq<u8>)
    ensures var b := EncodeHeader(r, n) + rest;
            && Get32(b, 0) == r.magic && Get32(b, 4) == r.session && Get32(b, 8) == r.mtu
            && Get32(b, 12) == r.block && Get32(b, 16) == n && Get32(b, 20) == r.clientAddr
  {
    var b := EncodeHeader(r, n) + rest;
    assert b[..REQ_HDR] == EncodeHeader(r, n);
    assert b[0..4] == Le32(r.magic) && b[4..8] == Le32(r.session) && b[8..12] == Le32(r.mtu);
    assert b[12..16] == Le32(r.block) && b[16..20] == Le32(n) && b[20..24] == Le32(r.clientAddr);
    Get32Slice(b, 0, r.magic);
    Get32Slice(b, 4, r.session);
    Get32Slice(b, 8, r.mtu);
    Get32Slice(b, 12, r.block);
    Get32Slice(b, 16, n);
    Get32Slice(b, 20, r.clientAddr);
  }

  /** Every request decodes to itself with the unused interval slots zeroed; one with more than 32
      intervals loses the surplus, one with the wrong magic is refused. */
  lemma DecodeEncode(r: Req)
    ensures var n := Min(r.nof, MAX_INTERVALS);
            Decode(Encode(r)) == if r.magic == MAGIC_REQ
                                 then Some(r.(nof := n, intervals := InSlots(r.intervals[..n])))
                                 else None
  {
    var n := Min(r.nof, MAX_INTERVALS);
    var head, ivs := EncodeHeader(r, n), r.intervals[..n];
    HeaderFields(r, n, EncodeIntervals(ivs));
    forall i | 0 <= i < n
      ensures IntervalAt(Encode(r), i) == ivs[i]
    {
      EncodedIntervalAt(head, ivs, i);
    }
    assert DecodeIntervals(Encode(r), n) == ivs;
  }

  /** Where everything is in an encoded request: six fields, then start and end of each interval. */
  lemma RequestLayout(r: Req, i: nat)
    requires i < Min(r.nof, MAX_INTERVALS)
    ensures var b, at := Encode(r), REQ_HDR + 8 * i;
            && |b| == REQ_HDR + 8 * Min(r.nof, MAX_INTERVALS)
            && Get32(b, 0) == r.magic && Get32(b, 4) == r.session && Get32(b, 8) == r.mtu && Get32(b, 12) == r.block
            && Get32(b, 16) == Min(r.nof, MAX_INTERVALS) && Get32(b, 20) == r.clientAddr
            && Get32(b, at) == r.intervals[i].start && Get32(b, at + 4) == r.intervals[i].end
  {
    hide Get32, EncodeHeader, EncodeIntervals;
    var n := Min(r.nof, MAX_INTERVALS);
    var ivs := r.intervals[..n];
    HeaderFields(r, n, EncodeIntervals(ivs));
    EncodedIntervalAt(EncodeHeader(r, n), ivs, i);
  }

  lemma IntervalBytes(b: seq<u8>, i: nat)
    requires REQ_HDR + 8 * i + 8 <= |b|
    ensures var iv, at := IntervalAt(b, i), REQ_HDR + 8 * i;
            Le32(iv.start) + Le32(iv.end) == b[at..at + 8]
  {
    hide Le32, Get32;
    var at := REQ_HDR + 8 * i;
    Le32Get32(b, at);
    Le32Get32(b, at + 4);
    assert b[at..at + 8] == b[at..at + 4] + b[at + 4..at + 8];
  }

  lemma {:induction false} EncodeDecodedIntervals(b: seq<u8>, n: nat)
    requires REQ_HDR + 8 * n <= |b|
    ensures EncodeIntervals(DecodeIntervals(b, n)) == b[REQ_HDR..REQ_HDR + 8 * n]
  {
    if n > 0 {
      hide Le32, IntervalAt;
      var ivs, front := DecodeIntervals(b, n), DecodeIntervals(b, n - 1);
      EncodeDecodedIntervals(b, n - 1);
      assert ivs[..n - 1] == front;
      IntervalBytes(b, n - 1);
      var at := REQ_HDR + 8 * (n - 1);
      assert b[REQ_HDR..at] + b[at..at + 8] == b[REQ_HDR..at + 8];
      var code := EncodeIntervals(front);
      assert code + Le32(ivs[n - 1].start) + Le32(ivs[n - 1].end)
          == code + (Le32(ivs[n - 1].start) + Le32(ivs[n - 1].end));
    }
  }

  /** Whatever is accepted off the wire is the encoding of the request it is read as, followed by
      bytes that are ignored. */
  lemma EncodeDecode(b: seq<u8>)
    requires Decode(b).Some?
    ensures Encode(Decode(b).value) <= b
  {
    hide Le32, Get32, EncodeIntervals;
    var r := Decode(b).value;
    var n := r.nof;
    EncodeDecodedIntervals(b, n);
    assert r.intervals[..n] == DecodeIntervals(b, n);
    Le32Get32(b, 0);
    Le32Get32(b, 4);
    Le32Get32(b, 8);
    Le32Get32(b, 12);
    Le32Get32(b, 16);
    Le32Get32(b, 20);
    assert EncodeHeader(r, n) == b[..REQ_HDR];
    assert b[..REQ_HDR] + b[REQ_HDR..REQ_HDR + 8 * n] == b[..REQ_HDR + 8 * n];
  }

  // ---- push announce ----------------------------------------------------------------

  /** A C string: no byte of it is the terminator. */
  ghost predicate IsPath(p: seq<u8>) {
    forall i :: 0 <= i < |p| ==> p[i] != 0
  }

  /** svu_announce_encode: path only when `mode` is 0, else magic, mode and path; the path is cut to
      what the buffer holds. A non-zero mode writes its 8-byte header whatever `cap` is. */
  function Announce(mode: u32, path: seq<u8>, cap: nat): seq<u8>
    requires mode != 0 ==> cap >= 8
  {
    if mode == 0 then path[..Min(|path|, cap)]
    else
      var plen := if |path| + 8 > cap then (if cap > 8 then cap - 8 else 0) else |path|;
      Le32(PUSH_MAGIC) + Le32(mode) + path[..plen]
  }

  /** Characters that fit in a buffer of `cap` bytes beside the terminator. */
  function Room(cap: nat): nat {
    if cap == 0 then 0 else cap - 1
  }

  /** svu_announce_decode: the mode, and as much of the path as `cap` bytes hold. */
  function ReadAnnounce(b: seq<u8>, cap: nat): (u32, seq<u8>) {
    var tagged := |b| >= 8 && Get32(b) == PUSH_MAGIC;
    var mode := if tagged then Get32(b, 4) else 0;
    var path := if tagged then b[8..] else b;
    (mode, path[..Min(|path|, Room(cap))])
  }

  /** memcpy of a whole sequence to `at`. */
  method CopyTo(dst: array<u8>, at: nat, b: seq<u8>)
    requires at + |b| <= dst.Length
    modifies dst
    ensures dst[..at + |b|] == old(dst[..at]) + b
    ensures forall k :: at + |b| <= k < dst.Length ==> dst[k] == old(dst[k])
  {
    forall k | 0 <= k < |b| {
      dst[at + k] := b[k];
    }
  }

  method AnnounceHeader(mode: u32, buf: array<u8>)
    requires buf.Length >= 8
    modifies buf
    ensures buf[..8] == Le32(PUSH_MAGIC) + Le32(mode)
    ensures forall k :: 8 <= k < buf.Length ==> buf[k] == old(buf[k])
  {
    Append32(buf, 0, PUSH_MAGIC);
    Append32(buf, 4, mode);
  }

  /** svu_announce_encode */
  method AnnounceEncode(mode: u32, path: seq<u8>, buf: array<u8>) returns (len: nat)
    requires mode != 0 ==> buf.Length >= 8
    modifies buf
    ensures len == |Announce(mode, path, buf.Length)| <= buf.Length
    ensures buf[..len] == Announce(mode, path, buf.Length)
    ensures forall k :: len <= k < buf.Length ==> buf[k] == old(buf[k])
  {
    hide Le32;
    var plen := |path|;
    if mode == 0 {
      if plen > buf.Length {
        plen := buf.Length;
      }
      CopyTo(buf, 0, path[..plen]);
      return plen;
    }
    if plen + 8 > buf.Length {
      plen := if buf.Length > 8 then buf.Length - 8 else 0;
    }
    AnnounceHeader(mode, buf);
    CopyTo(buf, 8, path[..plen]);
    len := 8 + plen;
  }

  /** svu_announce_decode: the path goes into the caller's buffer, with its terminator; a buffer of no
      bytes is left alone. */
  method AnnounceDecode(buf: array<u8>, len: nat, path: array<u8>) returns (mode: u32)
    requires len <= buf.Length && path != buf
    modifies path
    ensures var (m, p) := ReadAnnounce(buf[..len], path.Length);
            mode == m && (path.Length > 0 ==> path[..|p| + 1] == p + [0])
  {
    var text := buf[..len];
    mode := 0;
    if len >= 8 && Get32(buf[..len]) == PUSH_MAGIC {
      mode := Get32(buf[..len], 4);
      text := buf[8..len];
    }
    if path.Length == 0 {
      return;
    }
    var plen := |text|;
    if plen >= path.Length {
      plen := path.Length - 1;
    }
    CopyTo(path, 0, text[..plen]);
    path[plen] := 0;
    assert path[..plen] == text[..plen];
  }

  /** The longest prefix of the path that both buffers hold. */
  function Delivered(mode: u32, path: seq<u8>, cap: nat, pathcap: nat): seq<u8>
    requires mode != 0 ==> cap >= 8
  {
    path[..Min(Min(|path|, if mode == 0 then cap else cap - 8), Room(pathcap))]
  }

  /** The announce hands over the mode and the path, cut to the buffers, except when a legacy
      (mode 0) announce of at least 8 bytes happens to begin with the bytes of the magic. */
  lemma AnnounceRoundTrip(mode: u32, path: seq<u8>, cap: nat, pathcap: nat)
    requires IsPath(path) && (mode != 0 ==> cap >= 8)
    ensures ReadAnnounce(Announce(mode, path, cap), pathcap) == (mode, Delivered(mode, path, cap, pathcap))
       <==> !(mode == 0 && |path| >= 8 && cap >= 8 && path[..4] == Le32(PUSH_MAGIC))
  {
    var b := Announce(mode, path, cap);
    if mode != 0 {
      Get32Slice(b, 0, PUSH_MAGIC);
      Get32Slice(b, 4, mode);
      assert b[8..][..|Delivered(mode, path, cap, pathcap)|] == Delivered(mode, path, cap, pathcap);
    } else {
      var k := Min(|b|, Room(pathcap));
      assert b[..k] == path[..k] == Delivered(mode, path, cap, pathcap);
    }
    if mode == 0 && |b| >= 8 {
      assert path[..4] == b[..4];
      if path[..4] == Le32(PUSH_MAGIC) {
        Get32Slice(b, 0, PUSH_MAGIC);
        assert Get32(b, 4) != 0 by {
          assert b[4] == path[4] != 0;
        }
      } else {
        Le32Get32(b, 0);
        assert Get32(b) != PUSH_MAGIC;
      }
    }
  }

  /** The boundary case: the magic's four bytes and four more, announced with mode 0. */
  lemma LegacyCollision()
    ensures var path := Le32(PUSH_MAGIC) + [1, 1, 1, 1];
            IsPath(path) && ReadAnnounce(Announce(0, path, 64), 64) == (0x0101_0101, [])
  {
    var path := Le32(PUSH_MAGIC) + [1, 1, 1, 1];
    Get32Slice(path, 0, PUSH_MAGIC);
    assert path[4] == 1 && path[5] == 1 && path[6] == 1 && path[7] == 1;
    assert path[..8] == path && path[8..] == [];
  }
}
