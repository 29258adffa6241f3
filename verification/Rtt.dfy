/** lib/ci_meas.c, the RTT pairing: a ring of 256 records with a 32-bit write cursor. */
module Rtt {
  import opened Bytes

  const RING := 256

  datatype Slot = Slot(seqNr: u16, tMs: u32, valid: bool)

  /** The ring as a value. */
  datatype Ring = Ring(slots: seq<Slot>, head: u32) {
    predicate Wf() {
      |slots| == RING
    }
  }

  const EMPTY_RING := Ring(Repeat(Slot(0, 0, false), RING), 0)

  /** The slot of record number `i`. */
  function SlotOf(i: int): (j: nat)
    ensures j < RING
  {
    i % RING
  }

  /** (head - 1 - k) % 256, in 32-bit arithmetic. */
  function Back(head: u32, k: nat): (i: nat)
    ensures i < RING
  {
    var h: int := head;
    SlotOf(Wrap32(h - 1 - k))
  }

  /** The slot on_ack takes, looking from `k` places back on: the newest valid one with this number. */
  function FindFrom(r: Ring, ack: u16, k: nat): (i: int)
    requires r.Wf() && k <= RING
    ensures -1 <= i < RING
    decreases RING - k
  {
    if k == RING then -1
    else
      var i := Back(r.head, k);
      if r.slots[i].valid && r.slots[i].seqNr == ack then i else FindFrom(r, ack, k + 1)
  }

  /** ci_rtt_on_data */
  function OnData(r: Ring, s: u16, t: u32): (r': Ring)
    requires r.Wf()
    ensures r'.Wf()
  {
    var h: int := r.head;
    Ring(r.slots[SlotOf(h) := Slot(s, t, true)], Wrap32(h + 1))
  }

  /** ci_rtt_on_ack: the ring with the entry consumed, and the time difference, if there is a match. */
  function OnAck(r: Ring, ack: u16, t: u32): (out: (Ring, Option<u32>))
    requires r.Wf()
    ensures out.0.Wf()
  {
    var i := FindFrom(r, ack, 0);
    if i < 0 then (r, None)
    else
      var now: int := t;
      (r.(slots := r.slots[i := r.slots[i].(valid := false)]), Some(Wrap32(now - r.slots[i].tMs)))
  }

  class Pairing {
    const seqNr: array<u16>
    const tMs: array<u32>
    const valid: array<bool>
    var head: u32

    ghost predicate Valid()
      reads this
    {
      seqNr.Length == tMs.Length == valid.Length == RING && tMs as object != seqNr as object
    }

    ghost function View(): (r: Ring)
      requires Valid()
      reads this, seqNr, tMs, valid
      ensures r.Wf()
    {
      Ring(Zip(seqNr[..], tMs[..], valid[..]), head)
    }

    /** ci_rtt_init */
    constructor ()
      ensures Valid() && fresh(seqNr) && fresh(tMs) && fresh(valid) && View() == EMPTY_RING
    {
      seqNr := new u16[RING](_ => 0);
      tMs := new u32[RING](_ => 0);
      valid := new bool[RING](_ => false);
      head := 0;
      new;
      assert Zip(seqNr[..], tMs[..], valid[..]) == Repeat(Slot(0, 0, false), RING);
    }

    /** ci_rtt_on_data */
    method Data(s: u16, t: u32)
      requires Valid()
      modifies this, seqNr, tMs, valid
      ensures Valid() && View() == OnData(old(View()), s, t)
    {
      ghost var was := View();
      var i := head % RING;
      seqNr[i] := s;
      tMs[i] := t;
      valid[i] := true;
      head := Wrap32(head + 1);
      assert Zip(seqNr[..], tMs[..], valid[..]) == was.slots[i := Slot(s, t, true)];
    }

    /** ci_rtt_on_ack */
    method Ack(ack: u16, t: u32) returns (rtt: Option<u32>)
      requires Valid()
      modifies valid
      ensures Valid() && (View(), rtt) == OnAck(old(View()), ack, t)
    {
      hide SlotOf, Back;
      ghost var was := View();
      var k := 0;
      while k < RING
        invariant k <= RING && Valid() && View() == was
        invariant FindFrom(was, ack, k) == FindFrom(was, ack, 0)
      {
        var i := Back(head, k);
        assert was.slots[i] == Slot(seqNr[i], tMs[i], valid[i]);
        if valid[i] && seqNr[i] == ack {
          var now: int := t;
          rtt := Some(Wrap32(now - tMs[i]));
          valid[i] := false;
          assert Zip(seqNr[..], tMs[..], valid[..]) == was.slots[i := was.slots[i].(valid := false)];
          return;
        }
        k := k + 1;
      }
      rtt := None;
    }
  }

  function Zip(s: seq<u16>, t: seq<u32>, v: seq<bool>): (r: seq<Slot>)
    requires |s| == |t| == |v|
    ensures |r| == |s| && forall i :: 0 <= i < |s| ==> r[i] == Slot(s[i], t[i], v[i])
  {
    seq(|s|, i requires 0 <= i < |s| => Slot(s[i], t[i], v[i]))
  }

  // ---- the ideal history --------------------------------------------------------------------

  /** Everything ever recorded, oldest first; `valid` is false once the record has been paired. */
  type History = seq<Slot>

  /** The newest unpaired record with number `ack` among those at `lo` and above, below `hi`. */
  function Newest(h: History, ack: u16, lo: nat, hi: nat): (i: int)
    requires hi <= |h|
    ensures i == -1 || (lo <= i < hi && h[i].valid && h[i].seqNr == ack)
    ensures forall j :: 0 <= j && (if i == -1 then lo else i + 1) <= j < hi ==> !(h[j].valid && h[j].seqNr == ack)
    decreases hi
  {
    if hi <= lo then -1
    else if h[hi - 1].valid && h[hi - 1].seqNr == ack then hi - 1
    else Newest(h, ack, lo, hi - 1)
  }

  /** The first record still in the ring. */
  function Oldest(h: History): nat {
    if |h| < RING then 0 else |h| - RING
  }

  /** The record an acknowledgement pairs with, or -1. */
  function Match(h: History, ack: u16): int {
    Newest(h, ack, Oldest(h), |h|)
  }

  function IdealAck(h: History, ack: u16, t: u32): (History, Option<u32>) {
    var i := Match(h, ack);
    if i < 0 then (h, None)
    else
      var now: int := t;
      (h[i := h[i].(valid := false)], Some(Wrap32(now - h[i].tMs)))
  }

  /** The ring holds the last 256 records, each in the slot of its number; the cursor is the number of
      records, as far as 32 bits show it. */
  ghost predicate Holds(r: Ring, h: History) {
    && r.Wf() && r.head == |h| % TWO32
    && (forall i :: Oldest(h) <= i < |h| ==> r.slots[SlotOf(i)] == h[i])
    && (forall j :: |h| <= j < RING ==> !r.slots[j].valid)
  }

  /** Two records less than 256 apart have different slots. */
  lemma SlotsDiffer(i: nat, j: nat)
    requires i < j < i + RING
    ensures SlotOf(i) != SlotOf(j)
  {
  }

  /** Multiples of 2^32 do not change the slot. */
  lemma SlotShift(x: int, q: int)
    ensures SlotOf(x + TWO32 * q) == SlotOf(x)
  {
    SlotTurns(x, q * 0x100_0000);
  }

  lemma SlotTurns(x: int, q: int)
    ensures SlotOf(x + RING * q) == SlotOf(x)
  {
  }

  /** The cursor still finds the slot `k` records back after it has wrapped. */
  lemma BackIsSlot(n: nat, head: u32, k: nat)
    requires head == n % TWO32 && k < RING
    ensures Back(head, k) == SlotOf(n - 1 - k)
  {
    var h: int, q := head, n / TWO32;
    var x := h - 1 - k;
    assert n == TWO32 * q + h;
    assert Back(head, k) == SlotOf(Wrap32(x)) && (Wrap32(x) == x || Wrap32(x) == x + TWO32 * 1);
    hide SlotOf, Back, Wrap32;
    SlotShift(x, q);
    SlotShift(x, 1);
  }

  /** The cursor names the slot of the next record although it wraps. */
  lemma CursorSlot(n: nat, head: u32)
    requires head == n % TWO32
    ensures SlotOf(head) == SlotOf(n) && Wrap32(head as int + 1) == (n + 1) % TWO32
  {
    SlotShift(head, n / TWO32);
  }

  /** Until the ring has been filled once, records stand at their own numbers. */
  lemma EarlySlots(n: nat)
    ensures n < RING ==> SlotOf(n) == n
  {
  }

  lemma DataRefines(r: Ring, h: History, s: u16, t: u32)
    requires Holds(r, h)
    ensures Holds(OnData(r, s, t), h + [Slot(s, t, true)])
  {
    var h' := h + [Slot(s, t, true)];
    CursorSlot(|h|, r.head);
    EarlySlots(|h|);
    hide SlotOf, Wrap32;
    forall i | Oldest(h') <= i < |h|
      ensures SlotOf(i) != SlotOf(|h|)
    {
      SlotsDiffer(i, |h|);
    }
  }

  lemma FreeSlot(n: nat, k: nat)
    requires n <= k < RING
    ensures n <= SlotOf(n - 1 - k)
  {
  }

  /** Searching the ring backwards from the cursor is searching the last 256 records backwards. */
  lemma {:induction false} FindIsNewest(r: Ring, h: History, ack: u16, k: nat)
    requires Holds(r, h) && k <= RING
    ensures var i := Newest(h, ack, Oldest(h), if k <= |h| then |h| - k else 0);
            FindFrom(r, ack, k) == if i < 0 then -1 else SlotOf(i)
    decreases RING - k
  {
    if k < RING {
      BackIsSlot(|h|, r.head, k);
      FindIsNewest(r, h, ack, k + 1);
      if k < |h| {
        var i := |h| - 1 - k;
        assert Oldest(h) <= i;
        assert r.slots[SlotOf(i)] == h[i];
      } else {
        FreeSlot(|h|, k);
      }
    }
  }

  lemma AckRefines(r: Ring, h: History, ack: u16, t: u32)
    requires Holds(r, h)
    ensures OnAck(r, ack, t).1 == IdealAck(h, ack, t).1
    ensures Holds(OnAck(r, ack, t).0, IdealAck(h, ack, t).0)
  {
    hide SlotOf, FindFrom, Newest, Wrap32;
    FindIsNewest(r, h, ack, 0);
    var i := Match(h, ack);
    if i >= 0 {
      EarlySlots(i);
      forall j | Oldest(h) <= j < |h| && j != i
        ensures SlotOf(j) != SlotOf(i)
      {
        if j < i { SlotsDiffer(j, i); } else { SlotsDiffer(i, j); }
      }
    }
  }

  // ---- whole runs ---------------------------------------------------------------------------

  datatype Event = DataSeen(s: u16, t: u32) | AckSeen(ack: u16, now: u32)

  function RingAfter(events: seq<Event>): (r: Ring)
    ensures r.Wf()
  {
    if events == [] then EMPTY_RING
    else
      var n := |events| - 1;
      match events[n]
      case DataSeen(s, t) => OnData(RingAfter(events[..n]), s, t)
      case AckSeen(a, t) => OnAck(RingAfter(events[..n]), a, t).0
  }

  function HistoryAfter(events: seq<Event>): History {
    if events == [] then []
    else
      var n := |events| - 1;
      match events[n]
      case DataSeen(s, t) => HistoryAfter(events[..n]) + [Slot(s, t, true)]
      case AckSeen(a, t) => IdealAck(HistoryAfter(events[..n]), a, t).0
  }

  /** RTT ring refinement: after any run, however long, the ring answers the next acknowledgement as
      the history does: with the newest record of that number not paired yet, among the last 256. */
  lemma {:induction false} RingRefinesHistory(events: seq<Event>, ack: u16, t: u32)
    ensures Holds(RingAfter(events), HistoryAfter(events))
    ensures OnAck(RingAfter(events), ack, t).1 == IdealAck(HistoryAfter(events), ack, t).1
  {
    if events != [] {
      var n := |events| - 1;
      RingRefinesHistory(events[..n], ack, t);
      var r, h := RingAfter(events[..n]), HistoryAfter(events[..n]);
      match events[n]
      case DataSeen(s, u) => DataRefines(r, h, s, u);
      case AckSeen(a, u) => AckRefines(r, h, a, u);
    }
    AckRefines(RingAfter(events), HistoryAfter(events), ack, t);
  }

  /** The records paired in a run, in the order of their acknowledgements. */
  function Paired(events: seq<Event>): seq<int> {
    if events == [] then []
    else
      var n := |events| - 1;
      var before := Paired(events[..n]);
      var m := if events[n].AckSeen? then Match(HistoryAfter(events[..n]), events[n].ack) else -1;
      if m < 0 then before else before + [m]
  }

  /** No record is ever paired twice. */
  lemma {:induction false} NeverPairedTwice(events: seq<Event>)
    ensures forall m :: m in Paired(events) ==> 0 <= m < |HistoryAfter(events)| && !HistoryAfter(events)[m].valid
    ensures forall j, k :: 0 <= j < k < |Paired(events)| ==> Paired(events)[j] != Paired(events)[k]
  {
    if events != [] {
      var n := |events| - 1;
      NeverPairedTwice(events[..n]);
      var before := Paired(events[..n]);
      assert forall k :: 0 <= k < |before| ==> before[k] in before;
    }
  }

  // ---- what the answer means --------------------------------------------------------------------

  /** How many data packets `events` record. */
  function Records(events: seq<Event>): nat {
    if events == [] then 0
    else Records(events[..|events| - 1]) + (if events[|events| - 1].DataSeen? then 1 else 0)
  }

  lemma {:induction false} RecordsSplit(events: seq<Event>, k: nat)
    requires k <= |events|
    ensures Records(events) == Records(events[..k]) + Records(events[k..])
  {
    if k == |events| {
      assert events[..k] == events;
    } else {
      var n := |events| - 1;
      RecordsSplit(events[..n], k);
      assert events[..n][..k] == events[..k] && events[k..][..n - k] == events[..n][k..];
    }
  }

  lemma {:induction false} HistoryLength(events: seq<Event>)
    ensures |HistoryAfter(events)| == Records(events)
  {
    hide Newest;
    if events != [] {
      HistoryLength(events[..|events| - 1]);
    }
  }

  /** Record `i` of the history stems from the data packet that was the i-th. */
  lemma {:induction false} RecordEvent(events: seq<Event>, i: nat) returns (k: nat)
    requires i < |HistoryAfter(events)|
    ensures k < |events| && Records(events[..k]) == i
    ensures events[k] == DataSeen(HistoryAfter(events)[i].seqNr, HistoryAfter(events)[i].tMs)
  {
    hide Newest;
    var n := |events| - 1;
    var front := events[..n];
    if i < |HistoryAfter(front)| {
      k := RecordEvent(front, i);
      assert front[..k] == events[..k];
    } else {
      k := n;
      HistoryLength(front);
    }
  }

  /** A round-trip time that is reported is the time from a data packet with the acknowledged number, one
      of the last 256 recorded, to the acknowledgement, as far as 32 bits tell. */
  lemma RttExact(events: seq<Event>, ack: u16, now: u32) returns (k: nat)
    requires OnAck(RingAfter(events), ack, now).1.Some?
    ensures k < |events| && events[k].DataSeen? && events[k].s == ack && Records(events[k..]) <= RING
    ensures var rtt := OnAck(RingAfter(events), ack, now).1.value; (events[k].t as int + rtt) % TWO32 == now
  {
    hide OnAck, RingAfter, Holds, Newest, Wrap32;
    RingRefinesHistory(events, ack, now);
    var h := HistoryAfter(events);
    var i := Match(h, ack);
    MatchIs(h, ack);
    k := RecordEvent(events, i);
    HistoryLength(events);
    RecordsSplit(events, k);
    Elapsed(h[i].tMs, now);
  }

  lemma MatchIs(h: History, ack: u16)
    ensures var i := Match(h, ack); i < 0 || (Oldest(h) <= i < |h| && h[i].seqNr == ack)
  {
  }

  lemma Elapsed(t: u32, now: u32)
    ensures (t as int + Wrap32(now as int - t)) % TWO32 == now
  {
  }
}
