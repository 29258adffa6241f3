/** lib/ci_meas.c, the sequence tracker: 16-bit unwrapping over a 2048-slot circular bitmap. */
module SeqTracker {
  import opened Bytes
  import opened Bits

  const WIN := 2048
  const LOSS_MIN_SPAN := 64
  const LOSS_DENSITY_DIV := 8

  /** What a feed is classified as: 0, 1, 2 and 3 in the source. */
  datatype Class = InOrder | Gap | Duplicate | Reorder

  /** The tracker as a value. Positions and counters are unbounded. */
  datatype Trk = Trk(have: bool, first: nat, max: nat, nSeen: nat, nDistinct: nat, nDup: nat,
                     nReorder: nat, nGap: nat, seen: seq<bool>)

  const EMPTY := Trk(false, 0, 0, 0, 0, 0, 0, 0, Repeat(false, WIN))

  /** The slot of a position. A position below zero is a 64-bit wrap-around in the source, which lands
      in the same slot because 2048 divides 2^64. */
  function Slot(pos: int): (i: nat)
    ensures i < WIN
  {
    pos % WIN
  }

  /** The signed 16-bit distance of `s` from the head. */
  function Distance(max: nat, s: u16): (d: int)
    ensures -0x8000 <= d < 0x8000 && (max + d) % TWO16 == s
  {
    var x: int := s;
    var d := (x - max) % TWO16;
    if d < 0x8000 then d else d - TWO16
  }

  /** The bitmap with the slots of [from, to) cleared. */
  function Cleared(seen: seq<bool>, from: nat, to: nat): (r: seq<bool>)
    requires |seen| == WIN
    ensures |r| == WIN
    decreases (to as int) - from
  {
    if from >= to then seen else Cleared(seen[Slot(from) := false], from + 1, to)
  }

  /** ci_seq_tracker_feed */
  function Feed(t: Trk, s: u16): (r: (Trk, Class))
    requires |t.seen| == WIN
    ensures |r.0.seen| == WIN
  {
    if !t.have then
      (t.(have := true, first := s, max := s, nSeen := t.nSeen + 1, nDistinct := 1,
          seen := t.seen[Slot(s) := true]), InOrder)
    else
      var diff := Distance(t.max, s);
      var pos := t.max + diff;
      if diff > 0 then
        var from := if diff > WIN then pos - WIN else t.max + 1;
        (t.(max := pos, nSeen := t.nSeen + 1, nDistinct := t.nDistinct + 1, nGap := t.nGap + (diff - 1),
            seen := Cleared(t.seen, from, pos)[Slot(pos) := true]),
         if diff > 1 then Gap else InOrder)
      else if t.seen[Slot(pos)] then
        (t.(nSeen := t.nSeen + 1, nDup := t.nDup + 1), Duplicate)
      else
        (t.(nSeen := t.nSeen + 1, nDistinct := t.nDistinct + 1, nReorder := t.nReorder + 1,
            seen := t.seen[Slot(pos) := true]), Reorder)
  }

  function Span(t: Trk): nat
    requires t.first <= t.max
  {
    t.max - t.first + 1
  }

  /** ci_seq_tracker_loss */
  function Loss(t: Trk): nat
    requires t.have ==> t.first <= t.max
  {
    if t.have && Span(t) > t.nDistinct then Span(t) - t.nDistinct else 0
  }

  /** ci_loss_trustworthy */
  predicate Trustworthy(t: Trk)
    requires t.have ==> t.first <= t.max
  {
    !t.have || Span(t) < LOSS_MIN_SPAN || t.nDistinct * LOSS_DENSITY_DIV >= Span(t)
  }

  /** The 2048 flags packed in 256 bytes, lowest bit first. */
  function Unpack(bytes: seq<u8>): (b: seq<bool>)
    requires |bytes| == WIN / 8
    ensures |b| == WIN
  {
    seq(WIN, i requires 0 <= i < WIN => BitAt(bytes[i / 8], i % 8))
  }

  // ---- the C struct -----------------------------------------------------------------------

  class Tracker {
    var have: bool
    var first: nat
    var max: nat
    var nSeen: nat
    var nDistinct: nat
    var nDup: nat
    var nReorder: nat
    var nGap: nat
    var epoch: u32
    const seen: array<u8>

    ghost predicate Valid()
      reads this
    {
      seen.Length == WIN / 8 && epoch == Wrap32(max / TWO16)
    }

    /** seq_bit_get, by slot */
    predicate SlotSet(i: nat)
      requires i < WIN && seen.Length == WIN / 8
      reads seen
    {
      BitAt(seen[i / 8], i % 8)
    }

    ghost function Bitmap(): (b: seq<bool>)
      requires seen.Length == WIN / 8
      reads seen
      ensures |b| == WIN && forall i :: 0 <= i < WIN ==> b[i] == SlotSet(i)
    {
      Unpack(seen[..])
    }

    ghost function View(): Trk
      requires seen.Length == WIN / 8
      reads this, seen
    {
      Trk(have, first, max, nSeen, nDistinct, nDup, nReorder, nGap, Bitmap())
    }

    /** ci_seq_tracker_init */
    constructor ()
      ensures Valid() && fresh(seen) && View() == EMPTY
    {
      have, first, max, nSeen, nDistinct, nDup, nReorder, nGap, epoch := false, 0, 0, 0, 0, 0, 0, 0, 0;
      seen := new u8[WIN / 8](_ => 0);
      new;
      forall i | 0 <= i < WIN
        ensures !SlotSet(i)
      {
        ZeroBits(i % 8);
      }
      assert Bitmap() == Repeat(false, WIN);
    }

    /** seq_bit_set */
    method BitSet(pos: int, v: bool)
      requires seen.Length == WIN / 8
      modifies seen
      ensures Bitmap() == old(Bitmap())[Slot(pos) := v]
    {
      var i := Slot(pos);
      ByteRange();
      WithBitRange(seen[i / 8], i % 8, v, 8);
      ghost var was := Bitmap();
      ghost var x := seen[i / 8];
      seen[i / 8] := WithBit(seen[i / 8], i % 8, v);
      forall j | 0 <= j < WIN
        ensures SlotSet(j) == if j == i then v else was[j]
      {
        WithBitAt(x, i % 8, v, j % 8);
        assert j / 8 == i / 8 && j % 8 == i % 8 ==> j == i;
      }
    }

    /** The clearing loop of ci_seq_tracker_feed. */
    method ClearFrom(from: nat, to: nat)
      requires seen.Length == WIN / 8
      modifies seen
      ensures Bitmap() == Cleared(old(Bitmap()), from, to)
    {
      ghost var was := Bitmap();
      var p := from;
      while p < to
        invariant Cleared(Bitmap(), p, to) == Cleared(was, from, to)
        decreases (to as int) - p
      {
        BitSet(p, false);
        p := p + 1;
      }
    }

    /** The forward branch of ci_seq_tracker_feed: expose the holes, mark the packet, move the head. */
    method Advance(diff: nat) returns (c: Class)
      requires Valid() && 0 < diff < 0x8000
      modifies this`max, this`nDistinct, this`nGap, this`epoch, seen
      ensures Valid() && c == if diff > 1 then Gap else InOrder
      ensures var t, pos := old(View()), old(max) + diff;
              View() == t.(max := pos, nDistinct := t.nDistinct + 1, nGap := t.nGap + (diff - 1),
                           seen := Cleared(t.seen, if diff > WIN then pos - WIN else t.max + 1, pos)[Slot(pos) := true])
    {
      hide Cleared, Slot, SlotSet;
      var unwrapped := max + diff;
      var clearFrom := max + 1;
      if unwrapped - max > WIN {
        clearFrom := unwrapped - WIN;
      }
      ClearFrom(clearFrom, unwrapped);
      BitSet(unwrapped, true);
      max := unwrapped;
      nDistinct := nDistinct + 1;
      epoch := Wrap32(max / TWO16);
      if diff > 1 {
        nGap := nGap + (diff - 1);
        return Gap;
      }
      c := InOrder;
    }

    /** ci_seq_tracker_feed */
    method FeedOne(s: u16) returns (c: Class)
      requires Valid()
      modifies this, seen
      ensures Valid() && (View(), c) == Feed(old(View()), s)
    {
      hide Cleared, Slot, SlotSet, Distance;
      nSeen := nSeen + 1;
      if !have {
        have, first, max, nDistinct := true, s, s, 1;
        BitSet(max, true);
        epoch := Wrap32(max / TWO16);
        return InOrder;
      }
      var diff := Distance(max, s);
      var unwrapped := max + diff;
      if diff > 0 {
        c := Advance(diff);
        return;
      }
      if SlotSet(Slot(unwrapped)) {
        nDup := nDup + 1;
        return Duplicate;
      }
      BitSet(unwrapped, true);
      nDistinct := nDistinct + 1;
      nReorder := nReorder + 1;
      c := Reorder;
    }
  }

  lemma {:induction false} ZeroBits(k: nat)
    ensures !BitAt(0, k)
  {
    if k > 0 {
      ZeroBits(k - 1);
    }
  }

  lemma ByteRange()
    ensures Pow2(8) == 0x100
  {
    assert Pow2(4) == 0x10;
  }

  // ---- the ideal tracker ------------------------------------------------------------------

  /** The same observations kept as an unbounded set of unwrapped positions. */
  datatype Ideal = Ideal(have: bool, first: nat, max: nat, seen: set<int>)

  function IdealFeed(m: Ideal, s: u16): (Ideal, Class) {
    if !m.have then (Ideal(true, s, s, {s as int}), InOrder)
    else
      var diff := Distance(m.max, s);
      var pos := m.max + diff;
      if diff > 0 then
        (m.(max := pos, seen := m.seen + {pos}), if diff > 1 then Gap else InOrder)
      else if pos in m.seen then (m, Duplicate)
      else (m.(seen := m.seen + {pos}), Reorder)
  }

  /** The packet is not more than 2047 positions behind the head. */
  predicate InWindow(have: bool, max: nat, s: u16) {
    have ==> Distance(max, s) > -WIN
  }

  /** `t` represents `m`: the bitmap is the set, restricted to the last 2048 positions. */
  ghost predicate Represents(t: Trk, m: Ideal) {
    && |t.seen| == WIN && t.have == m.have
    && (if !t.have then t.nDistinct == 0 && m.seen == {} && t.seen == Repeat(false, WIN)
        else
          && t.first == m.first && t.max == m.max && t.nDistinct == |m.seen|
          && m.first in m.seen && m.max in m.seen && m.first <= m.max
          && (forall p :: p in m.seen ==> p <= m.max)
          && (forall p: int :: m.max - WIN < p <= m.max ==> (t.seen[Slot(p)] <==> p in m.seen)))
  }

  lemma SlotsDistinct(p: int, q: int)
    requires p < q < p + WIN
    ensures Slot(p) != Slot(q)
  {
  }

  /** Clearing a range clears the slots of its positions and no others. */
  lemma {:induction false} ClearedAt(seen: seq<bool>, from: nat, to: nat, i: nat)
    requires |seen| == WIN && i < WIN
    ensures (exists p :: from <= p < to && Slot(p) == i) ==> !Cleared(seen, from, to)[i]
    ensures (forall p :: from <= p < to ==> Slot(p) != i) ==> Cleared(seen, from, to)[i] == seen[i]
    decreases (to as int) - from
  {
    if from < to {
      ClearedAt(seen[Slot(from) := false], from + 1, to, i);
    }
  }

  /** After moving the head forward the bitmap is right at every position of the new window. */
  lemma ForwardAt(t: Trk, m: Ideal, s: u16, p: int)
    requires Represents(t, m) && t.have && Distance(t.max, s) > 0
    requires t.max + Distance(t.max, s) - WIN < p <= t.max + Distance(t.max, s)
    ensures Feed(t, s).0.seen[Slot(p)] <==> p in IdealFeed(m, s).0.seen
  {
    var diff := Distance(t.max, s);
    var pos := t.max + diff;
    var from := if diff > WIN then pos - WIN else t.max + 1;
    if p == pos {
    } else {
      SlotsDistinct(p, pos);
      ClearedAt(t.seen, from, pos, Slot(p));
      if p > t.max {
        assert from <= p < pos;
      } else {
        forall q | from <= q < pos
          ensures Slot(q) != Slot(p)
        {
          SlotsDistinct(p, q);
        }
      }
    }
  }

  /** Two positions of one window have different slots. */
  lemma OtherSlots(lo: int, q: int)
    requires lo < q <= lo + WIN
    ensures forall p: int :: lo < p <= lo + WIN && p != q ==> Slot(p) != Slot(q)
  {
    forall p: int | lo < p <= lo + WIN && p != q
      ensures Slot(p) != Slot(q)
    {
      if p < q { SlotsDistinct(p, q); } else { SlotsDistinct(q, p); }
    }
  }

  lemma FirstRefines(t: Trk, m: Ideal, s: u16)
    requires Represents(t, m) && !t.have
    ensures Feed(t, s).1 == IdealFeed(m, s).1 && Represents(Feed(t, s).0, IdealFeed(m, s).0)
  {
    OtherSlots(s as int - WIN, s);
    hide Slot, Cleared, Distance;
  }

  lemma ForwardRefines(t: Trk, m: Ideal, s: u16)
    requires Represents(t, m) && t.have && Distance(t.max, s) > 0
    ensures Feed(t, s).1 == IdealFeed(m, s).1 && Represents(Feed(t, s).0, IdealFeed(m, s).0)
  {
    hide Slot, Cleared, Distance;
    var pos := t.max + Distance(t.max, s);
    var t', m' := Feed(t, s).0, IdealFeed(m, s).0;
    forall p: int | pos - WIN < p <= pos
      ensures t'.seen[Slot(p)] <==> p in m'.seen
    {
      ForwardAt(t, m, s, p);
    }
  }

  lemma BackwardRefines(t: Trk, m: Ideal, s: u16)
    requires Represents(t, m) && t.have && -WIN < Distance(t.max, s) <= 0
    ensures Feed(t, s).1 == IdealFeed(m, s).1 && Represents(Feed(t, s).0, IdealFeed(m, s).0)
  {
    hide Slot, Cleared, Distance;
    OtherSlots(t.max - WIN, t.max + Distance(t.max, s));
  }

  /** One feed inside the window: the same class, and the representation is kept. */
  lemma FeedRefines(t: Trk, m: Ideal, s: u16)
    requires Represents(t, m) && InWindow(t.have, t.max, s)
    ensures Feed(t, s).1 == IdealFeed(m, s).1 && Represents(Feed(t, s).0, IdealFeed(m, s).0)
  {
    assert |t.seen| == WIN;
    hide Feed, IdealFeed, Represents;
    if !t.have {
      FirstRefines(t, m, s);
    } else if Distance(t.max, s) > 0 {
      ForwardRefines(t, m, s);
    } else {
      BackwardRefines(t, m, s);
    }
  }

  // ---- whole runs -------------------------------------------------------------------------

  function FeedAll(feeds: seq<u16>): (t: Trk)
    ensures |t.seen| == WIN
  {
    if feeds == [] then EMPTY else Feed(FeedAll(feeds[..|feeds| - 1]), feeds[|feeds| - 1]).0
  }

  const IDEAL_EMPTY := Ideal(false, 0, 0, {})

  function IdealAll(feeds: seq<u16>): Ideal {
    if feeds == [] then IDEAL_EMPTY else IdealFeed(IdealAll(feeds[..|feeds| - 1]), feeds[|feeds| - 1]).0
  }

  /** Every feed arrives within the window of the head as it then is. */
  ghost predicate AllInWindow(feeds: seq<u16>) {
    forall k :: 0 <= k < |feeds| ==> InWindow(IdealAll(feeds[..k]).have, IdealAll(feeds[..k]).max, feeds[k])
  }

  /** Circular-bitmap refinement: while no packet is 2048 or more behind the head, the bitmap tracker
      and the unbounded set agree after every feed, and so on the class of the next one. */
  lemma {:induction false} BitmapRefinesSet(feeds: seq<u16>)
    requires AllInWindow(feeds)
    ensures Represents(FeedAll(feeds), IdealAll(feeds))
  {
    if feeds != [] {
      var n := |feeds| - 1;
      forall k | 0 <= k < n
        ensures InWindow(IdealAll(feeds[..n][..k]).have, IdealAll(feeds[..n][..k]).max, feeds[..n][k])
      {
        assert feeds[..n][..k] == feeds[..k];
      }
      BitmapRefinesSet(feeds[..n]);
      FeedRefines(FeedAll(feeds[..n]), IdealAll(feeds[..n]), feeds[n]);
    }
  }

  /** Accounting that needs no hypothesis at all. */
  lemma {:induction false} Accounts(feeds: seq<u16>)
    ensures var t := FeedAll(feeds);
            && t.nSeen == |feeds| == t.nDistinct + t.nDup
            && (t.have <==> feeds != [])
            && (t.have ==> t.first <= t.max && Span(t) + t.nReorder == t.nDistinct + t.nGap)
            && (!t.have ==> t.nDup == 0 && t.nReorder == 0 && t.nGap == 0 && t.nDistinct == 0)
  {
    if feeds != [] {
      Accounts(feeds[..|feeds| - 1]);
    }
  }

  // ---- what the loss number means -----------------------------------------------------------

  /** The missing positions between the first and the highest seen. */
  function Missing(m: Ideal): set<int> {
    set p: int | m.first <= p <= m.max && p !in m.seen
  }

  /** Positions seen below the first one. */
  function Below(m: Ideal): set<int> {
    set p | p in m.seen && p < m.first
  }

  /** The integers from `lo` up to but not including `hi`. */
  function Range(lo: int, hi: int): (r: set<int>)
    requires lo <= hi
    ensures |r| == hi - lo && forall p :: p in r <==> lo <= p < hi
    decreases hi - lo
  {
    if lo == hi then {} else Range(lo, hi - 1) + {hi - 1}
  }

  /** The inferred loss is the number of holes less the packets that arrived from below the first one
      (and never less than zero), so it is the number of holes exactly when none came from below or
      there are no holes. */
  lemma LossExact(t: Trk, m: Ideal)
    requires Represents(t, m) && t.have
    ensures Loss(t) == if |Missing(m)| > |Below(m)| then |Missing(m)| - |Below(m)| else 0
    ensures Loss(t) == |Missing(m)| <==> Below(m) == {} || Missing(m) == {}
  {
    var inside := m.seen - Below(m);
    assert Range(m.first, m.max + 1) == inside + Missing(m);
    assert inside * Missing(m) == {};
    assert m.seen == inside + Below(m);
    assert inside * Below(m) == {};
  }

  /** The trust guard in terms of the loss it guards: it trips only when more than 7/8 of a span of at
      least 64 looks lost, so never at the 30% the experiments sweep to. */
  lemma TrustExact(t: Trk)
    requires t.have && t.first <= t.max
    ensures Trustworthy(t) <==> Span(t) < LOSS_MIN_SPAN || 8 * Loss(t) <= 7 * Span(t)
    ensures 10 * Loss(t) <= 3 * Span(t) ==> Trustworthy(t)
  {
  }
}
