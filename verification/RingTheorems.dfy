/**
 What every concurrent run of the ring buffer guarantees.
 */
module RingTheorems {
  import opened Bits
  import opened Words
  import opened RingBuffer
  import opened RingProtocol

  // ----- The buffer is a bounded FIFO -----

  /** The bytes accepted and not yet returned. */
  ghost function Queue(s: State): seq<byte>
    requires |s.returned| <= |s.accepted|
  {
    s.accepted[|s.returned|..]
  }

  /** The queue is what the buffer's own contents function reads off cells and wrapped counters. */
  lemma StoredIsQueue(states: seq<State>, actions: seq<Action>, i: nat)
    requires IsRun(states, actions) && i < |states|
    ensures Inv(states[i])
    ensures var s := states[i];
      && Consistent(s.cells, Word(Last(s.heads)), Word(Last(s.tails)))
      && Stored(s.cells, Word(Last(s.heads)), Word(Last(s.tails))) == Queue(s)
  {
    RunKeepsInvariant(states, actions, i);
    hide IsRun, Inv;
    StoredIsQueueNow(states[i]);
  }

  lemma StoredIsQueueNow(s: State)
    requires Inv(s)
    ensures Consistent(s.cells, Word(Last(s.heads)), Word(Last(s.tails)))
    ensures |s.returned| <= |s.accepted|
    ensures Stored(s.cells, Word(Last(s.heads)), Word(Last(s.tails))) == Queue(s)
  {
    Order(s);
    hide PassesPowerOfTwoTest, Sub, Word, Slot, Stored, WriterOk, ReaderOk, AccountsOk, Monotone;
    CounterDifference(|s.accepted|, |s.returned|);
    var h, t := Word(|s.accepted|), Word(|s.returned|);
    var stored, q := Stored(s.cells, h, t), Queue(s);
    forall j: nat | j < |stored| ensures stored[j] == q[j] {
      StoredAt(s.cells, h, t, j);
      SameSlot(t, |s.returned|, j, |s.cells|);
    }
  }

  /** What is read is always a prefix of what was accepted, and never more than a capacity behind. */
  lemma ReturnedIsPrefix(states: seq<State>, actions: seq<Action>, i: nat)
    requires IsRun(states, actions) && i < |states|
    ensures states[i].returned <= states[i].accepted
    ensures |Queue(states[i])| <= |states[i].cells|
  {
    RunKeepsInvariant(states, actions, i);
    Order(states[i]);
  }

  lemma StepMovesQueue(s: State, a: Action)
    requires Inv(s) && Enabled(s, a) && Inv(Step(s, a))
    ensures var s' := Step(s, a);
      match a
      case EndWrite => Queue(s') == Queue(s) + s.writer.data
      case EndRead => Queue(s) == s.reader.dest + Queue(s')
      case _ => Queue(s') == Queue(s)
  {
    hide CountersOk, WriterOk, AccountsOk;
    if a.EndRead? {
      EndReadTakesFront(s);
    }
  }

  /** Publishing a write appends its bytes, publishing a read removes its bytes; no other step shows. */
  lemma StepRefinesQueue(states: seq<State>, actions: seq<Action>, i: nat)
    requires IsRun(states, actions) && i < |actions|
    ensures Inv(states[i]) && Inv(states[i + 1])
    ensures var s, s' := states[i], states[i + 1];
      match actions[i]
      case EndWrite => Queue(s') == Queue(s) + s.writer.data
      case EndRead => Queue(s) == s.reader.dest + Queue(s')
      case _ => Queue(s') == Queue(s)
  {
    RunKeepsInvariant(states, actions, i);
    RunKeepsInvariant(states, actions, i + 1);
    assert Enabled(states[i], actions[i]) && states[i + 1] == Step(states[i], actions[i]);
    hide IsRun, Inv, Enabled, Step, Queue;
    StepMovesQueue(states[i], actions[i]);
  }

  lemma EndReadTakesFront(s: State)
    requires Inv(s) && Enabled(s, EndRead)
    ensures |s.reader.dest| <= |Queue(s)| && s.reader.dest == Queue(s)[..|s.reader.dest|]
  {
    Order(s);
  }

  /** A write takes what the read counter it saw leaves room for; seeing the newest, all that fits. */
  lemma WriteTakes(states: seq<State>, actions: seq<Action>, i: nat, data: seq<byte>, view: nat)
    requires IsRun(states, actions) && i < |actions| && actions[i] == BeginWrite(data, view)
    ensures var s, s' := states[i], states[i + 1];
      && Inv(s) && view < |s.tails| && |s.accepted| <= s.tails[view] + |s.cells|
      && InFlight(s') == Min(|data|, s.tails[view] + |s.cells| - |s.accepted|)
      && InFlight(s') <= Min(|data|, |s.cells| - |Queue(s)|)
      && (s'.writer.Filling? ==> s'.writer.data == data[..InFlight(s')])
      && (view == |s.tails| - 1 ==> InFlight(s') == Min(|data|, |s.cells| - |Queue(s)|))
      && s'.shortWrites == s.shortWrites + (if InFlight(s') < |data| then 1 else 0)
      && s'.requested == s.requested + |data| && s'.writerSees == view
  {
    RunKeepsInvariant(states, actions, i);
    var s := states[i];
    assert Enabled(s, actions[i]) && states[i + 1] == StepBeginWrite(s, data, view);
    RoomSeen(s, view);
    hide Inv, IsRun, Enabled, Sub, Word, Add;
  }

  /** A read takes all that it wants, or all that its look at the write counter shows. */
  lemma ReadTakesAll(states: seq<State>, actions: seq<Action>, i: nat, wanted: nat, view: nat)
    requires IsRun(states, actions) && i < |actions| && actions[i] == BeginRead(wanted, view)
    ensures Inv(states[i]) && view < |states[i].heads|
    ensures var s, s' := states[i], states[i + 1];
      var shown := s.heads[view] - |s.returned|;
      && 0 <= shown <= |Queue(s)| && (view == |s.heads| - 1 ==> shown == |Queue(s)|)
      && s'.readerSees == view
      && (if wanted == 0 || shown == 0 then s'.reader.ReaderIdle?
          else s'.reader.Draining? && s'.reader.drained == {}
               && |s'.reader.dest| == if wanted < shown then wanted else shown)
  {
    RunKeepsInvariant(states, actions, i);
    var s := states[i];
    assert Enabled(s, actions[i]) && states[i + 1] == StepBeginRead(s, wanted, view);
    hide PassesPowerOfTwoTest, Sub, Word, BytesOk, WriterOk, ReaderOk, AccountsOk, IsRun;
    Order(s);
    CounterDifference(s.heads[view], |s.returned|);
  }

  /**
   Nothing but its own place in its own operation holds a side up: it may take its next
   step with any look at the other's counter that is not older than its last one, and may
   move the bytes of a copy in any order.
   */
  ghost predicate WriterIsFree(s: State) {
    match s.writer
    case WriterIdle =>
      forall data: seq<byte>, view: nat :: |data| < WORD && s.writerSees <= view < |s.tails| ==> Enabled(s, BeginWrite(data, view))
    case Filling(_, data, filled) =>
      && (forall k: nat :: k < |data| && k !in filled ==> Enabled(s, FillByte(k)))
      && ((forall k: nat :: k < |data| ==> k in filled) ==> Enabled(s, EndWrite))
  }

  ghost predicate ReaderIsFree(s: State) {
    match s.reader
    case ReaderIdle =>
      forall wanted: nat, view: nat :: wanted < WORD && s.readerSees <= view < |s.heads| ==>
        Enabled(s, BeginRead(wanted, view)) && Enabled(s, Poll(view))
    case Draining(_, dest, drained) =>
      && (forall k: nat :: k < |dest| && k !in drained ==> Enabled(s, DrainByte(k)))
      && ((forall k: nat :: k < |dest| ==> k in drained) ==> Enabled(s, EndRead))
  }

  lemma SidesAreFree(s: State)
    requires |s.cells| > 0 && |s.heads| > 0 && |s.tails| > 0
    ensures WriterIsFree(s) && ReaderIsFree(s)
  {
  }

  lemma NeitherSideWaits(states: seq<State>, actions: seq<Action>, i: nat)
    requires IsRun(states, actions) && i < |states|
    ensures WriterIsFree(states[i]) && ReaderIsFree(states[i])
  {
    RunKeepsInvariant(states, actions, i);
    Order(states[i]);
    hide IsRun, WriterIsFree, ReaderIsFree;
    SidesAreFree(states[i]);
  }

  /** Bytes are conserved, and the overrun counter counts the writes that turned bytes away. */
  lemma Conservation(states: seq<State>, actions: seq<Action>, i: nat)
    requires IsRun(states, actions) && i < |states|
    ensures var s := states[i];
      && |s.returned| <= |s.accepted|
      && s.requested == |s.returned| + |Queue(s)| + InFlight(s) + s.dropped
      && s.overruns == Word(s.shortWrites)
  {
    RunKeepsInvariant(states, actions, i);
  }

  // ----- The two sides never touch the same cell -----

  ghost function WriterCells(s: State): set<nat>
    requires |s.cells| > 0
  {
    if s.writer.Filling?
    then set i: nat | i < |s.writer.data| :: CellAt(s.writer.h, i, |s.writer.data|, |s.cells|)
    else {}
  }

  ghost function ReaderCells(s: State): set<nat>
    requires |s.cells| > 0
  {
    if s.reader.Draining?
    then set i: nat | i < |s.reader.dest| :: CellAt(s.reader.t, i, |s.reader.dest|, |s.cells|)
    else {}
  }

  lemma CellBeingFilled(s: State, c: nat) returns (k: nat)
    requires Inv(s) && |s.cells| > 0 && c in WriterCells(s)
    ensures |s.accepted| <= k < s.tails[s.writerSees] + |s.cells| && c == Slot(k, |s.cells|)
  {
    hide PassesPowerOfTwoTest, Word, Slot, CellAt, BytesOk, ReaderOk, AccountsOk, Monotone;
    Order(s);
    var i: nat :| i < |s.writer.data| && c == CellAt(s.writer.h, i, |s.writer.data|, |s.cells|);
    CellAtIsSlot(|s.accepted|, i, |s.writer.data|, |s.cells|);
    k := |s.accepted| + i;
  }

  lemma CellBeingDrained(s: State, c: nat) returns (k: nat)
    requires Inv(s) && |s.cells| > 0 && c in ReaderCells(s)
    ensures |s.returned| <= k < |s.accepted| && c == Slot(k, |s.cells|)
  {
    hide PassesPowerOfTwoTest, Word, Slot, CellAt, BytesOk, WriterOk, AccountsOk, Monotone;
    Order(s);
    var i: nat :| i < |s.reader.dest| && c == CellAt(s.reader.t, i, |s.reader.dest|, |s.cells|);
    CellAtIsSlot(|s.returned|, i, |s.reader.dest|, |s.cells|);
    k := |s.returned| + i;
  }

  /** No copy leaves the cells, and the cells being filled and being drained are disjoint. */
  lemma CopiesNeverCollide(states: seq<State>, actions: seq<Action>, i: nat)
    requires IsRun(states, actions) && i < |states|
    ensures |states[i].cells| > 0
    ensures WriterCells(states[i]) !! ReaderCells(states[i])
    ensures forall c :: c in WriterCells(states[i]) + ReaderCells(states[i]) ==> c < |states[i].cells|
  {
    RunKeepsInvariant(states, actions, i);
    var s := states[i];
    Order(s);
    hide Inv, Slot, WriterCells, ReaderCells, IsRun;
    forall c | c in WriterCells(s) ensures c < |s.cells| && c !in ReaderCells(s) {
      var k := CellBeingFilled(s, c);
      if c in ReaderCells(s) {
        var l := CellBeingDrained(s, c);
        DifferentSlots(l, k, |s.cells|);
      }
    }
    forall c | c in ReaderCells(s) ensures c < |s.cells| {
      var l := CellBeingDrained(s, c);
    }
  }

  // ----- What a poll promises -----

  predicate WriterAction(a: Action) {
    a.BeginWrite? || a.FillByte? || a.EndWrite?
  }

  /** The number of bytes that the last look at the write counter showed as available. */
  function Observed(s: State): nat
    requires |s.tails| > 0 && s.readerSees < |s.heads|
  {
    Sub(Word(s.heads[s.readerSees]), Word(Last(s.tails)))
  }

  /** A poll shows the bytes up to the write counter that it sees, and changes nothing else. */
  lemma PollShows(states: seq<State>, actions: seq<Action>, i: nat, view: nat)
    requires IsRun(states, actions) && i < |actions| && actions[i] == Poll(view)
    ensures Inv(states[i]) && Inv(states[i + 1]) && view < |states[i].heads|
    ensures var s, s' := states[i], states[i + 1];
      && Observed(s') == s.heads[view] - |s.returned|
      && s' == s.(readerSees := view)
  {
    RunKeepsInvariant(states, actions, i);
    RunKeepsInvariant(states, actions, i + 1);
    var s, s' := states[i], states[i + 1];
    assert Enabled(s, actions[i]) && s' == Step(s, actions[i]);
    hide PassesPowerOfTwoTest, Sub, Word, BytesOk, WriterOk, ReaderOk, AccountsOk, IsRun;
    Order(s');
    CounterDifference(s.heads[view], |s.returned|);
  }

  lemma {:induction false} WriterStepsHideNothing(states: seq<State>, actions: seq<Action>, i: nat, j: nat)
    requires IsRun(states, actions) && i <= j < |states|
    requires states[i].reader.ReaderIdle?
    requires forall k :: i <= k < j ==> WriterAction(actions[k])
    ensures states[j].reader.ReaderIdle? && states[j].returned == states[i].returned
    ensures states[i].heads <= states[j].heads && states[j].readerSees == states[i].readerSees
    ensures states[j].tails == states[i].tails
    decreases j
  {
    if i == j {
    } else {
      WriterStepsHideNothing(states, actions, i, j - 1);
      assert states[j] == Step(states[j - 1], actions[j - 1]);
    }
  }

  /**
   Once a poll has shown enough bytes, the next read gives all that is wanted,
   whatever the writer does in between and however stale the read's own look is.
   */
  lemma PolledBytesAreRead(states: seq<State>, actions: seq<Action>, i: nat, j: nat, wanted: nat, view: nat)
    requires IsRun(states, actions) && i <= j < |actions|
    requires states[i].reader.ReaderIdle?
    requires forall k :: i <= k < j ==> WriterAction(actions[k])
    requires actions[j] == BeginRead(wanted, view)
    ensures Inv(states[i])
    ensures 0 < wanted <= Observed(states[i]) ==>
      states[j + 1].reader.Draining? && |states[j + 1].reader.dest| == wanted
  {
    RunKeepsInvariant(states, actions, i);
    RunKeepsInvariant(states, actions, j);
    WriterStepsHideNothing(states, actions, i, j);
    var s, t := states[i], states[j];
    assert states[j + 1] == StepBeginRead(t, wanted, view);
    hide PassesPowerOfTwoTest, Sub, Word, BytesOk, WriterOk, ReaderOk, AccountsOk, IsRun;
    Order(s);
    Order(t);
    CounterDifference(s.heads[s.readerSees], |s.returned|);
    CounterDifference(t.heads[view], |t.returned|);
  }
}
