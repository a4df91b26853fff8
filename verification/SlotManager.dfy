/**
 The two timeslots' state machines. Their states are shown to be a function of the last
 bursts alone, and the slots' counts to follow from the alternation of the timeslots.
 The event handed to the next layer is the result of OnBurst.
 */
module SlotManager {
  import opened SyncWords
  import opened DibitStream
  import opened BurstScan

  datatype SlotState = IDLE | VOICE | DATA

  datatype SlotCtx = SlotCtx(state: SlotState, count: nat, missCount: nat)

  datatype SlotEvent = SlotEvent(burst: Burst, state: SlotState, burstCount: nat)

  predicate IsVoice(t: BurstType) {
    t == BS_VOICE || t == MS_VOICE
  }

  predicate IsData(t: BurstType) {
    t == BS_DATA || t == MS_DATA
  }

  function Advance(state: SlotState, t: BurstType): SlotState {
    match state
    case IDLE => if IsVoice(t) then VOICE else if IsData(t) then DATA else IDLE
    case VOICE => if IsData(t) then IDLE else VOICE
    case DATA => if IsVoice(t) then VOICE else DATA
  }

  // ----- What the states mean -----

  /** The machine, run over a slot's burst types. */
  function Run(ts: seq<BurstType>): SlotState {
    if ts == [] then IDLE else Advance(Run(ts[..|ts| - 1]), ts[|ts| - 1])
  }

  /** The types that were recognised. */
  function Known(ts: seq<BurstType>): seq<BurstType> {
    if ts == [] then []
    else
      var k := Known(ts[..|ts| - 1]);
      if ts[|ts| - 1] == UNKNOWN then k else k + [ts[|ts| - 1]]
  }

  /**
   A slot is in VOICE when its last burst is voice; it is in IDLE when it has had none, or
   when its last is data directly after voice; and otherwise it is in DATA.
   */
  function Meaning(known: seq<BurstType>): SlotState {
    var n := |known|;
    if n == 0 then IDLE
    else if known[n - 1] in {BS_VOICE, MS_VOICE} then VOICE
    else if n >= 2 && known[n - 2] in {BS_VOICE, MS_VOICE} then IDLE
    else DATA
  }

  lemma {:induction false} KnownIsKnown(ts: seq<BurstType>)
    ensures forall i :: 0 <= i < |Known(ts)| ==> Known(ts)[i] != UNKNOWN
  {
    if ts == [] {
    } else {
      KnownIsKnown(ts[..|ts| - 1]);
    }
  }

  lemma {:induction false} StateIsLastTwoBursts(ts: seq<BurstType>)
    ensures Run(ts) == Meaning(Known(ts))
  {
    if ts == [] {
    } else {
      StateIsLastTwoBursts(ts[..|ts| - 1]);
      KnownIsKnown(ts);
      KnownIsKnown(ts[..|ts| - 1]);
    }
  }

  lemma {:induction false} KnownOfKnown(ts: seq<BurstType>)
    requires forall i :: 0 <= i < |ts| ==> ts[i] != UNKNOWN
    ensures Known(ts) == ts
  {
    if ts == [] {
    } else {
      KnownOfKnown(ts[..|ts| - 1]);
    }
  }

  /** The transitions, type by type: what one more burst does to the state of a slot. */
  lemma OneMoreBurst(ts: seq<BurstType>, t: BurstType)
    ensures Run([]) == IDLE
    ensures t == BS_VOICE || t == MS_VOICE ==> Run(ts + [t]) == VOICE
    ensures t == BS_DATA || t == MS_DATA ==> Run(ts + [t]) == if Run(ts) == VOICE then IDLE else DATA
    ensures t == UNKNOWN ==> Run(ts + [t]) == Run(ts)
  {
    assert (ts + [t])[..|ts|] == ts;
  }

  // ----- Routing -----

  function SlotIndex(b: Burst): (idx: nat)
    ensures idx < 2
  {
    if b.timeslot == 2 then 1 else 0
  }

  /** The types of the bursts routed to a slot, in order. */
  function OnSlot(bs: seq<Burst>, idx: nat): seq<BurstType> {
    if bs == [] then []
    else
      var ts := OnSlot(bs[..|bs| - 1], idx);
      var b := bs[|bs| - 1];
      if SlotIndex(b) == idx then ts + [b.kind] else ts
  }

  class Manager {
    const slots: array<SlotCtx>
    ghost var history: seq<Burst>

    ghost predicate Valid()
      reads this, slots
    {
      && slots.Length == 2
      && (forall idx: nat :: idx < 2 ==>
            && slots[idx].count == |OnSlot(history, idx)|
            && slots[idx].state == Run(OnSlot(history, idx)))
    }

    constructor ()
      ensures Valid() && history == [] && fresh(slots)
    {
      slots := new SlotCtx[2](i => SlotCtx(IDLE, 0, 0));
      history := [];
    }

    method AdvanceState(idx: nat, t: BurstType)
      requires slots.Length == 2 && idx < 2
      modifies slots
      ensures slots[idx] == old(slots[idx]).(state := Advance(old(slots[idx]).state, t), missCount := 0)
      ensures slots[1 - idx] == old(slots[1 - idx])
    {
      slots[idx] := slots[idx].(missCount := 0);
      match slots[idx].state
      case IDLE =>
        if IsVoice(t) {
          slots[idx] := slots[idx].(state := VOICE);
        } else if IsData(t) {
          slots[idx] := slots[idx].(state := DATA);
        }
      case VOICE =>
        if IsData(t) {
          slots[idx] := slots[idx].(state := IDLE);
        }
      case DATA =>
        if IsVoice(t) {
          slots[idx] := slots[idx].(state := VOICE);
        }
    }

    method OnBurst(b: Burst) returns (ev: SlotEvent)
      requires Valid()
      modifies this, slots
      ensures Valid() && history == old(history) + [b]
      ensures ev == EventOf(history)
    {
      hide OnSlot, Run, Advance, SlotIndex;
      OnSlotSnoc(history, b, 0);
      OnSlotSnoc(history, b, 1);
      var idx := SlotIndex(b);
      RunSnoc(OnSlot(history, idx), b.kind);
      slots[idx] := slots[idx].(count := slots[idx].count + 1);
      AdvanceState(idx, b.kind);
      ev := SlotEvent(b, slots[idx].state, slots[idx].count);
      history := history + [b];
    }
  }

  lemma OnSlotSnoc(bs: seq<Burst>, b: Burst, idx: nat)
    ensures OnSlot(bs + [b], idx) == if SlotIndex(b) == idx then OnSlot(bs, idx) + [b.kind] else OnSlot(bs, idx)
  {
    assert (bs + [b])[..|bs|] == bs;
  }

  lemma RunSnoc(ts: seq<BurstType>, t: BurstType)
    ensures Run(ts + [t]) == Advance(Run(ts), t)
  {
    assert (ts + [t])[..|ts|] == ts;
  }

  /** The event for the last burst of a history. */
  function EventOf(bs: seq<Burst>): SlotEvent
    requires bs != []
  {
    var b := bs[|bs| - 1];
    var ts := OnSlot(bs, SlotIndex(b));
    SlotEvent(b, Run(ts), |ts|)
  }

  /** One event per burst. */
  function Events(bs: seq<Burst>): seq<SlotEvent> {
    if bs == [] then [] else Events(bs[..|bs| - 1]) + [EventOf(bs)]
  }

  lemma EventsSnoc(bs: seq<Burst>, b: Burst)
    ensures Events(bs + [b]) == Events(bs) + [EventOf(bs + [b])]
  {
    hide EventOf;
    assert (bs + [b])[..|bs|] == bs;
  }

  lemma {:induction false} EventsAt(bs: seq<Burst>, i: nat)
    requires i < |bs|
    ensures |Events(bs)| == |bs| && Events(bs)[i] == EventOf(bs[..i + 1])
  {
    hide EventOf;
    var n := |bs| - 1;
    if n == 0 {
      assert Events(bs[..n]) == [];
      assert bs[..i + 1] == bs;
    } else if i == n {
      EventsAt(bs[..n], 0);
      assert bs[..i + 1] == bs;
    } else {
      EventsAt(bs[..n], i);
      assert bs[..n][..i + 1] == bs[..i + 1];
    }
  }

  /** The places of the bursts, up to place i, that are on the same slot as burst i. */
  function OnSameSlot(bs: seq<Burst>, i: nat): set<nat>
    requires i < |bs|
  {
    set j: nat | j <= i && (bs[j].timeslot == 2 <==> bs[i].timeslot == 2)
  }

  lemma {:induction false} OnSlotCounts(bs: seq<Burst>, idx: nat)
    requires idx < 2
    ensures |OnSlot(bs, idx)| == |set j: nat | j < |bs| && SlotIndex(bs[j]) == idx|
  {
    var places := set j: nat | j < |bs| && SlotIndex(bs[j]) == idx;
    if bs == [] {
      assert places == {};
    } else {
      var n := |bs| - 1;
      OnSlotCounts(bs[..n], idx);
      var before := set j: nat | j < |bs[..n]| && SlotIndex(bs[..n][j]) == idx;
      assert places == before + if SlotIndex(bs[n]) == idx then {n} else {};
    }
  }

  /** Event i carries burst i and the number of bursts on its slot so far, itself included. */
  lemma EventCounts(bs: seq<Burst>, i: nat)
    requires i < |bs|
    ensures |Events(bs)| == |bs|
    ensures Events(bs)[i].burst == bs[i] && Events(bs)[i].burstCount == |OnSameSlot(bs, i)|
  {
    EventsAt(bs, i);
    var us, idx := bs[..i + 1], SlotIndex(bs[i]);
    OnSlotCounts(us, idx);
    assert (set j: nat | j < |us| && SlotIndex(us[j]) == idx) == OnSameSlot(bs, i);
    hide Events, OnSlot, Run;
  }

  // ----- Alternating timeslots -----

  ghost predicate Alternates(bs: seq<Burst>) {
    forall i :: 0 <= i < |bs| ==> bs[i].timeslot == if i % 2 == 0 then 1 else 2
  }

  /** Alternating bursts fill the slots in turn: slot idx gets bursts idx, idx + 2, ... */
  lemma {:induction false} SlotsFillInTurn(bs: seq<Burst>, idx: nat)
    requires Alternates(bs) && idx < 2
    ensures |OnSlot(bs, idx)| == (|bs| + 1 - idx) / 2
    ensures forall k: nat :: k < |OnSlot(bs, idx)| ==> 2 * k + idx < |bs| && OnSlot(bs, idx)[k] == bs[2 * k + idx].kind
  {
    if bs == [] {
    } else {
      var n := |bs| - 1;
      SlotsFillInTurn(bs[..n], idx);
      var before, after := OnSlot(bs[..n], idx), OnSlot(bs, idx);
      assert SlotIndex(bs[n]) == n % 2;
      assert after == if n % 2 == idx then before + [bs[n].kind] else before;
      hide OnSlot, SlotIndex;
      forall k: nat | k < |after| ensures 2 * k + idx < |bs| && after[k] == bs[2 * k + idx].kind {
        if k < |before| {
          assert after[k] == before[k];
        } else {
          assert 2 * k + idx == n;
        }
      }
    }
  }

  /**
   After any dibit stream the emitted bursts alternate between the timeslots, the slots'
   counts sum to the burst count and differ by at most one, and a sync match is
   unaccounted for exactly while a burst is under way.
   */
  lemma StreamFillsSlots(s: seq<dibit>, channel: int)
    ensures var bs := Bursts(s, channel);
      && Alternates(bs)
      && |OnSlot(bs, 0)| + |OnSlot(bs, 1)| == |bs| == Completed(s)
      && 0 <= |OnSlot(bs, 0)| - |OnSlot(bs, 1)| <= 1
      && |Starts(s)| - |bs| == (if UnderWay(s) then 1 else 0)
      && (forall i :: 0 <= i < |bs| ==> bs[i].kind != UNKNOWN)
  {
    hide TypeAt;
    var bs := Bursts(s, channel);
    SlotsFillInTurn(bs, 0);
    SlotsFillInTurn(bs, 1);
    StartsIsScan(s);
    forall i | 0 <= i < |bs| ensures bs[i].kind != UNKNOWN {
      assert MatchAt(s, Starts(s)[i]);
    }
  }

  /**
   Over any dibit stream, event i carries burst i, counts every other burst, and has a state
   that depends on burst i and on burst i - 2, the one before it on its slot.
   */
  lemma EventInStream(s: seq<dibit>, channel: int, i: nat)
    requires i < |Bursts(s, channel)|
    ensures |Events(Bursts(s, channel))| == |Bursts(s, channel)|
    ensures var bs, ev := Bursts(s, channel), Events(Bursts(s, channel))[i];
      && ev.burst == bs[i] && ev.burstCount == i / 2 + 1
      && ev.state == if bs[i].kind in {BS_VOICE, MS_VOICE} then VOICE
                     else if i >= 2 && bs[i - 2].kind in {BS_VOICE, MS_VOICE} then IDLE
                     else DATA
  {
    StreamFillsSlots(s, channel);
    hide Bursts, Starts, Events, Alternates;
    EventInTurn(Bursts(s, channel), i);
  }

  lemma EventInTurn(bs: seq<Burst>, i: nat)
    requires i < |bs| && Alternates(bs) && forall j :: 0 <= j < |bs| ==> bs[j].kind != UNKNOWN
    ensures |Events(bs)| == |bs|
    ensures var ev := Events(bs)[i];
      && ev.burst == bs[i] && ev.burstCount == i / 2 + 1
      && ev.state == if bs[i].kind in {BS_VOICE, MS_VOICE} then VOICE
                     else if i >= 2 && bs[i - 2].kind in {BS_VOICE, MS_VOICE} then IDLE
                     else DATA
  {
    EventsAt(bs, i);
    PrefixAlternates(bs, i);
    hide Events, EventOf, Alternates;
    LastEvent(bs[..i + 1]);
  }

  lemma PrefixAlternates(bs: seq<Burst>, i: nat)
    requires i < |bs| && Alternates(bs)
    ensures Alternates(bs[..i + 1])
  {
  }

  lemma LastEvent(bs: seq<Burst>)
    requires bs != [] && Alternates(bs) && forall j :: 0 <= j < |bs| ==> bs[j].kind != UNKNOWN
    ensures var i, ev := |bs| - 1, EventOf(bs);
      && ev.burst == bs[i] && ev.burstCount == i / 2 + 1
      && ev.state == if bs[i].kind in {BS_VOICE, MS_VOICE} then VOICE
                     else if i >= 2 && bs[i - 2].kind in {BS_VOICE, MS_VOICE} then IDLE
                     else DATA
  {
    hide OnSlot, SlotIndex, Run, Known, Alternates;
    LastOnSlot(bs);
    var ts := OnSlot(bs, SlotIndex(bs[|bs| - 1]));
    StateIsLastTwoBursts(ts);
    KnownOfKnown(ts);
  }

  /** The slot of the last burst has had that burst, the last but two, and so on. */
  lemma LastOnSlot(bs: seq<Burst>)
    requires bs != [] && Alternates(bs) && forall j :: 0 <= j < |bs| ==> bs[j].kind != UNKNOWN
    ensures var i := |bs| - 1;
      var ts := OnSlot(bs, SlotIndex(bs[i]));
      && |ts| == i / 2 + 1 && ts[|ts| - 1] == bs[i].kind
      && (i >= 2 ==> ts[|ts| - 2] == bs[i - 2].kind)
      && forall k :: 0 <= k < |ts| ==> ts[k] != UNKNOWN
  {
    var i := |bs| - 1;
    assert SlotIndex(bs[i]) == i % 2;
    hide OnSlot, SlotIndex, Alternates;
    SlotsFillInTurn(bs, i % 2);
    HalfAndBack(i);
  }

  lemma HalfAndBack(i: nat)
    ensures 2 * (i / 2) + i % 2 == i && (i + 2 - i % 2) / 2 == i / 2 + 1
    ensures i >= 2 ==> 2 * (i / 2 - 1) + i % 2 == i - 2
  {
  }
}
