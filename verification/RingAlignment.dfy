/**
 Alignment: when the capacity and all requested lengths are multiples of a group size,
 every write and every read moves whole groups, so a byte keeps its phase in the group.
 With groups of two, an I byte is never read in the place of a Q byte.
 */
module RingAlignment {
  import opened Bits
  import opened Words
  import opened RingProtocol

  predicate Whole(n: int, g: nat) {
    g > 0 && n % g == 0
  }

  /** The bytes, counted from phase 0, satisfy a property of phase and value. */
  ghost predicate Phased(s: seq<byte>, g: nat, p: (nat, byte) -> bool) {
    g > 0 && forall i: nat :: i < |s| ==> p(i % g, s[i])
  }

  /** The caller asks in whole groups, and its bytes satisfy the property. */
  ghost predicate AlignedAction(a: Action, g: nat, p: (nat, byte) -> bool) {
    match a
    case BeginWrite(data, _) => Whole(|data|, g) && Phased(data, g, p)
    case BeginRead(wanted, _) => Whole(wanted, g)
    case _ => true
  }

  ghost predicate Aligned(s: State, g: nat, p: (nat, byte) -> bool) {
    && Whole(|s.cells|, g)
    && (forall i: nat :: i < |s.heads| ==> Whole(s.heads[i], g))
    && (forall i: nat :: i < |s.tails| ==> Whole(s.tails[i], g))
    && Phased(s.accepted, g, p)
    && (s.writer.Filling? ==> Whole(|s.writer.data|, g) && Phased(s.writer.data, g, p))
    && (s.reader.Draining? ==> Whole(|s.reader.dest|, g))
    && Whole(s.dropped, g)
  }

  lemma WholeSum(a: int, b: int, g: nat)
    requires Whole(a, g) && Whole(b, g)
    ensures Whole(a + b, g) && Whole(a - b, g)
  {
    var q, r := a / g, b / g;
    assert g * (q + r) == g * q + g * r && g * (q - r) == g * q - g * r;
    Remainder(a + b, g, q + r, 0);
    Remainder(a - b, g, q - r, 0);
  }

  lemma PhaseFromWhole(base: int, i: nat, g: nat)
    requires Whole(base, g)
    ensures (base + i) % g == i % g
  {
    var q, r := base / g, i / g;
    assert g * (q + r) == g * q + g * r;
    Remainder(base + i, g, q + r, i % g);
  }

  lemma PhasedAppend(s: seq<byte>, t: seq<byte>, g: nat, p: (nat, byte) -> bool)
    requires Phased(s, g, p) && Phased(t, g, p) && Whole(|s|, g)
    ensures Phased(s + t, g, p)
  {
    forall i: nat | i < |s + t| ensures p(i % g, (s + t)[i]) {
      if i >= |s| {
        PhaseFromWhole(|s|, i - |s|, g);
      }
    }
  }

  lemma BeginWriteKeepsAligned(s: State, data: seq<byte>, view: nat, g: nat, p: (nat, byte) -> bool)
    requires Inv(s) && Aligned(s, g, p)
    requires Enabled(s, BeginWrite(data, view)) && AlignedAction(BeginWrite(data, view), g, p)
    ensures Aligned(StepBeginWrite(s, data, view), g, p)
  {
    RoomSeen(s, view);
    WholeSum(s.tails[view], |s.cells|, g);
    WholeSum(s.tails[view] + |s.cells|, Last(s.heads), g);
    var room := |s.cells| - (|s.accepted| - s.tails[view]);
    assert Whole(room, g);
    WholeSum(|data|, room, g);
    WholeSum(s.dropped, |data| - room, g);
    WholeSum(s.dropped, 0, g);
    hide Inv, Whole, Enabled, Sub, Word, Add;
  }

  lemma BeginReadKeepsAligned(s: State, wanted: nat, view: nat, g: nat, p: (nat, byte) -> bool)
    requires Inv(s) && Aligned(s, g, p)
    requires Enabled(s, BeginRead(wanted, view)) && AlignedAction(BeginRead(wanted, view), g, p)
    ensures Aligned(StepBeginRead(s, wanted, view), g, p)
  {
    Order(s);
    assert s.heads[s.readerSees] <= s.heads[view] <= |s.accepted|;
    CounterDifference(s.heads[view], Last(s.tails));
    WholeSum(s.heads[view], Last(s.tails), g);
    hide Inv, Whole, Enabled, Sub, Word, Add;
  }

  lemma StepKeepsAligned(s: State, a: Action, g: nat, p: (nat, byte) -> bool)
    requires Inv(s) && Aligned(s, g, p) && Enabled(s, a) && AlignedAction(a, g, p)
    ensures Aligned(Step(s, a), g, p)
  {
    match a
    case BeginWrite(data, view) => BeginWriteKeepsAligned(s, data, view, g, p);
    case BeginRead(wanted, view) => BeginReadKeepsAligned(s, wanted, view, g, p);
    case EndWrite =>
      WholeSum(Last(s.heads), |s.writer.data|, g);
      PhasedAppend(s.accepted, s.writer.data, g, p);
      hide Inv, Whole, Phased;
    case EndRead =>
      WholeSum(Last(s.tails), |s.reader.dest|, g);
      hide Inv, Whole, Phased;
    case _ =>
      hide Inv, Whole, Phased;
  }

  lemma {:induction false} RunIsAligned(states: seq<State>, actions: seq<Action>, i: nat, g: nat, p: (nat, byte) -> bool)
    requires IsRun(states, actions) && i < |states|
    requires Whole(|states[0].cells|, g)
    requires forall k :: 0 <= k < |actions| ==> AlignedAction(actions[k], g, p)
    ensures Inv(states[i]) && Aligned(states[i], g, p)
  {
    RunKeepsInvariant(states, actions, i);
    if i == 0 {
      Remainder(0, g, 0, 0);
    } else {
      RunIsAligned(states, actions, i - 1, g, p);
      StepKeepsAligned(states[i - 1], actions[i - 1], g, p);
    }
  }

  /**
   In every aligned run all counters and all accepted, dropped and returned lengths are
   whole groups, overruns included, and every byte is read in the phase it was written in.
   */
  lemma BytesKeepTheirPhase(states: seq<State>, actions: seq<Action>, i: nat, g: nat, p: (nat, byte) -> bool)
    requires IsRun(states, actions) && i < |states|
    requires Whole(|states[0].cells|, g)
    requires forall k :: 0 <= k < |actions| ==> AlignedAction(actions[k], g, p)
    ensures var s := states[i];
      && Whole(|s.accepted|, g) && Whole(|s.returned|, g) && Whole(s.dropped, g)
      && (s.reader.Draining? ==>
            && Whole(|s.reader.dest|, g)
            && forall j: nat :: j < |s.reader.dest| && j in s.reader.drained ==> p(j % g, s.reader.dest[j]))
  {
    RunIsAligned(states, actions, i, g, p);
    var s := states[i];
    assert Whole(Last(s.heads), g) && Whole(Last(s.tails), g);
    if s.reader.Draining? {
      forall j: nat | j < |s.reader.dest| && j in s.reader.drained ensures p(j % g, s.reader.dest[j]) {
        PhaseFromWhole(|s.returned|, j, g);
        Order(s);
        assert s.reader.dest[j] == s.accepted[|s.returned| + j];
      }
    }
  }
}
