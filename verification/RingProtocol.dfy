/**
 The ring buffer shared by one writer and one reader that run at the same time.

 A run is an arbitrary interleaving of the two sides' steps: loading the counters,
 copying one byte, publishing. The bytes of one copy may move in any order. A side
 always knows its own counter; of the other side's counter it may see any value stored
 so far that is no older than the one it saw last. Counters are kept unreduced in the
 histories and reduced to words wherever the code looks at them.
 */
module RingProtocol {
  import opened Bits
  import opened Words
  import opened RingBuffer

  datatype Writer = WriterIdle | Filling(h: word, data: seq<byte>, filled: set<nat>)

  datatype Reader = ReaderIdle | Draining(t: word, dest: seq<byte>, drained: set<nat>)

  datatype State = State(
    cells: seq<byte>,
    heads: seq<nat>,        // every value stored to the write counter, in order
    tails: seq<nat>,        // every value stored to the read counter, in order
    overruns: word,
    writerSees: nat,        // which of the tails the writer saw last
    readerSees: nat,        // which of the heads the reader saw last
    writer: Writer,
    reader: Reader,
    accepted: seq<byte>,    // all bytes that completed writes took
    returned: seq<byte>,    // all bytes that completed reads gave
    requested: nat,         // bytes offered to all writes so far
    dropped: nat,           // bytes those writes turned away
    shortWrites: nat)       // writes that turned bytes away

  datatype Action =
    | BeginWrite(data: seq<byte>, view: nat)
    | FillByte(i: nat)
    | EndWrite
    | BeginRead(wanted: nat, view: nat)
    | DrainByte(i: nat)
    | EndRead
    | Poll(view: nat)

  function Last(s: seq<nat>): nat
    requires |s| > 0
  {
    s[|s| - 1]
  }

  /** The cell of byte i of a copy of n bytes that starts at counter c: two chunks. */
  function CellAt(c: word, i: nat, n: nat, cap: nat): nat
    requires cap > 0 && i < n
  {
    var pos := BitAnd(c, cap - 1);
    var first := Min(n, cap - pos);
    if i < first then pos + i else i - first
  }

  /** A store; one outside the cells would have no defined effect. */
  function Store(cells: seq<byte>, c: nat, b: byte): (r: seq<byte>)
    ensures |r| == |cells|
  {
    if c < |cells| then cells[c := b] else cells
  }

  function Load(cells: seq<byte>, c: nat): byte {
    if c < |cells| then cells[c] else 0
  }

  function Initial(cells: seq<byte>): State {
    State(cells, [0], [0], 0, 0, 0, WriterIdle, ReaderIdle, [], [], 0, 0, 0)
  }

  // ----- Steps -----

  ghost predicate Enabled(s: State, a: Action) {
    |s.cells| > 0 && |s.heads| > 0 && |s.tails| > 0 &&
    match a
    case BeginWrite(data, view) => s.writer.WriterIdle? && |data| < WORD && s.writerSees <= view < |s.tails|
    case FillByte(i) => s.writer.Filling? && i < |s.writer.data| && i !in s.writer.filled
    case EndWrite => s.writer.Filling? && forall i: nat :: i < |s.writer.data| ==> i in s.writer.filled
    case BeginRead(wanted, view) => s.reader.ReaderIdle? && wanted < WORD && s.readerSees <= view < |s.heads|
    case DrainByte(i) => s.reader.Draining? && i < |s.reader.dest| && i !in s.reader.drained
    case EndRead => s.reader.Draining? && forall i: nat :: i < |s.reader.dest| ==> i in s.reader.drained
    case Poll(view) => s.reader.ReaderIdle? && s.readerSees <= view < |s.heads|
  }

  ghost function Step(s: State, a: Action): State
    requires Enabled(s, a)
  {
    match a
    case BeginWrite(data, view) => StepBeginWrite(s, data, view)
    case FillByte(i) =>
      var w := s.writer;
      var c := CellAt(w.h, i, |w.data|, |s.cells|);
      s.(cells := Store(s.cells, c, w.data[i]), writer := w.(filled := w.filled + {i}))
    case EndWrite =>
      var n := |s.writer.data|;
      s.(heads := s.heads + [Last(s.heads) + n], accepted := s.accepted + s.writer.data, writer := WriterIdle)
    case BeginRead(wanted, view) => StepBeginRead(s, wanted, view)
    case DrainByte(i) =>
      var r := s.reader;
      var c := CellAt(r.t, i, |r.dest|, |s.cells|);
      s.(reader := r.(dest := r.dest[i := Load(s.cells, c)], drained := r.drained + {i}))
    case EndRead =>
      var n := |s.reader.dest|;
      s.(tails := s.tails + [Last(s.tails) + n], returned := s.returned + s.reader.dest, reader := ReaderIdle)
    case Poll(view) => s.(readerSees := view)
  }

  function StepBeginWrite(s: State, data: seq<byte>, view: nat): State
    requires |s.heads| > 0 && view < |s.tails| && |s.cells| > 0
  {
    var h := Word(Last(s.heads));
    var t := Word(s.tails[view]);
    var freeSpace := Sub(Word(|s.cells|), Sub(h, t));
    var n := if |data| > freeSpace then freeSpace else |data|;
    var s' := s.(
      writerSees := view,
      overruns := if |data| > freeSpace then Add(s.overruns, 1) else s.overruns,
      requested := s.requested + |data|,
      dropped := s.dropped + (|data| - n),
      shortWrites := s.shortWrites + if n < |data| then 1 else 0);
    if n == 0 then s' else s'.(writer := Filling(h, data[..n], {}))
  }

  function StepBeginRead(s: State, wanted: nat, view: nat): State
    requires |s.tails| > 0 && view < |s.heads|
  {
    var t := Word(Last(s.tails));
    var h := Word(s.heads[view]);
    var n := Min(wanted, Sub(h, t));
    var s' := s.(readerSees := view);
    if n == 0 then s' else s'.(reader := Draining(t, seq(n, i => 0), {}))
  }

  // ----- The invariant -----

  ghost predicate Monotone(xs: seq<nat>) {
    |xs| > 0 && forall i, j :: 0 <= i <= j < |xs| ==> xs[i] <= xs[j]
  }

  ghost predicate CountersOk(s: State) {
    && PassesPowerOfTwoTest(|s.cells|) && |s.cells| < WORD
    && Monotone(s.heads) && Monotone(s.tails)
    && s.readerSees < |s.heads| && s.writerSees < |s.tails|
    && Last(s.heads) == |s.accepted| && Last(s.tails) == |s.returned|
    && Last(s.tails) <= s.heads[s.readerSees]
    && Last(s.heads) <= s.tails[s.writerSees] + |s.cells|
  }

  /** The bytes accepted and not yet returned are in their slots, and what was returned is a prefix. */
  ghost predicate BytesOk(s: State)
    requires CountersOk(s)
  {
    && s.returned <= s.accepted
    && forall k: nat :: |s.returned| <= k < |s.accepted| ==> s.cells[Slot(k, |s.cells|)] == s.accepted[k]
  }

  ghost predicate WriterOk(s: State)
    requires CountersOk(s)
  {
    s.writer.Filling? ==>
      var w := s.writer;
      && w.h == Word(|s.accepted|) && w.data != []
      && |s.accepted| + |w.data| <= s.tails[s.writerSees] + |s.cells|
      && forall i: nat :: i in w.filled && i < |w.data| ==> s.cells[Slot(|s.accepted| + i, |s.cells|)] == w.data[i]
  }

  ghost predicate ReaderOk(s: State)
    requires CountersOk(s)
  {
    s.reader.Draining? ==>
      var r := s.reader;
      && r.t == Word(|s.returned|) && r.dest != []
      && |s.returned| + |r.dest| <= s.heads[s.readerSees]
      && forall i: nat :: i in r.drained && i < |r.dest| ==> r.dest[i] == s.accepted[|s.returned| + i]
  }

  function InFlight(s: State): nat {
    if s.writer.Filling? then |s.writer.data| else 0
  }

  ghost predicate AccountsOk(s: State) {
    && s.requested == |s.accepted| + InFlight(s) + s.dropped
    && s.overruns == Word(s.shortWrites)
  }

  ghost predicate Inv(s: State) {
    CountersOk(s) && BytesOk(s) && WriterOk(s) && ReaderOk(s) && AccountsOk(s)
  }

  // ----- Cells -----

  lemma CellAtIsSlot(count: nat, i: nat, n: nat, cap: nat)
    requires PassesPowerOfTwoTest(cap) && cap < WORD && i < n <= cap
    ensures CellAt(Word(count), i, n, cap) == Slot(count + i, cap)
  {
    MaskedCounter(count, cap);
    Turn(count, i, cap);
    hide BitAnd, PassesPowerOfTwoTest, Word;
  }

  /** What the two sides know of each other, spelled out. */
  lemma Order(s: State)
    requires Inv(s)
    ensures s.tails[s.writerSees] <= |s.returned| <= s.heads[s.readerSees] <= |s.accepted|
    ensures |s.accepted| <= s.tails[s.writerSees] + |s.cells|
    ensures |s.cells| > 0
  {
  }

  // ----- Every step keeps the invariant -----

  /** The free space that a writer computes is what its look at the read counter leaves. */
  lemma RoomSeen(s: State, view: nat)
    requires Inv(s) && s.writerSees <= view < |s.tails|
    ensures s.tails[s.writerSees] <= s.tails[view] <= |s.returned| <= |s.accepted| <= s.tails[view] + |s.cells|
    ensures |s.cells| < WORD
    ensures Sub(Word(|s.cells|), Sub(Word(Last(s.heads)), Word(s.tails[view])))
         == |s.cells| - (|s.accepted| - s.tails[view])
  {
    hide PassesPowerOfTwoTest, Sub, Word, BytesOk, WriterOk, ReaderOk, AccountsOk;
    Order(s);
    CounterDifference(|s.accepted|, s.tails[view]);
    WordOfSmall(|s.cells|);
    FreeSpace(|s.cells|, |s.accepted| - s.tails[view]);
  }

  lemma BeginWriteKeeps(s: State, data: seq<byte>, view: nat)
    requires Inv(s) && Enabled(s, BeginWrite(data, view))
    ensures Inv(StepBeginWrite(s, data, view))
  {
    hide PassesPowerOfTwoTest, Sub, Add, Word, Slot, Monotone;
    RoomSeen(s, view);
    CountOne(s.shortWrites);
  }

  lemma WordOfSmall(n: nat)
    requires n < WORD
    ensures Word(n) == n
  {
  }

  lemma CountOne(n: nat)
    ensures Add(Word(n), 1) == Word(n + 1)
  {
  }

  lemma FillByteKeeps(s: State, i: nat)
    requires Inv(s) && Enabled(s, FillByte(i))
    ensures Inv(Step(s, FillByte(i)))
  {
    hide PassesPowerOfTwoTest, Sub, Word, Slot, CellAt;
    Order(s);
    var w, cap, head := s.writer, |s.cells|, |s.accepted|;
    CellAtIsSlot(head, i, |w.data|, cap);
    forall k: nat | |s.returned| <= k < head + |w.data| && k != head + i
      ensures Slot(k, cap) != Slot(head + i, cap)
    {
      if k < head + i {
        DifferentSlots(k, head + i, cap);
      } else {
        DifferentSlots(head + i, k, cap);
      }
    }
  }

  lemma EndWriteKeeps(s: State)
    requires Inv(s) && Enabled(s, EndWrite)
    ensures Inv(Step(s, EndWrite))
  {
    hide PassesPowerOfTwoTest, Sub, Word, Slot;
    Order(s);
    var s' := Step(s, EndWrite);
    forall k: nat | |s'.returned| <= k < |s'.accepted| ensures s'.cells[Slot(k, |s.cells|)] == s'.accepted[k] {
      if k >= |s.accepted| {
        assert s.writer.data[k - |s.accepted|] == s'.accepted[k];
        assert k - |s.accepted| in s.writer.filled;
      }
    }
  }

  lemma BeginReadKeeps(s: State, wanted: nat, view: nat)
    requires Inv(s) && Enabled(s, BeginRead(wanted, view))
    ensures Inv(StepBeginRead(s, wanted, view))
  {
    hide PassesPowerOfTwoTest, Sub, Word, Slot;
    Order(s);
    CounterDifference(s.heads[view], |s.returned|);
  }

  lemma DrainByteKeeps(s: State, i: nat)
    requires Inv(s) && Enabled(s, DrainByte(i))
    ensures Inv(Step(s, DrainByte(i)))
  {
    hide PassesPowerOfTwoTest, Sub, Word, Slot, CellAt;
    Order(s);
    CellAtIsSlot(|s.returned|, i, |s.reader.dest|, |s.cells|);
  }

  lemma EndReadKeeps(s: State)
    requires Inv(s) && Enabled(s, EndRead)
    ensures Inv(Step(s, EndRead))
  {
    hide PassesPowerOfTwoTest, Sub, Word, Slot;
    Order(s);
    var s' := Step(s, EndRead);
    assert s'.returned == s.accepted[..|s'.returned|];
  }

  lemma StepKeepsInvariant(s: State, a: Action)
    requires Inv(s) && Enabled(s, a)
    ensures Inv(Step(s, a))
  {
    match a
    case BeginWrite(data, view) => BeginWriteKeeps(s, data, view);
    case FillByte(i) => FillByteKeeps(s, i);
    case EndWrite => EndWriteKeeps(s);
    case BeginRead(wanted, view) => BeginReadKeeps(s, wanted, view);
    case DrainByte(i) => DrainByteKeeps(s, i);
    case EndRead => EndReadKeeps(s);
    case Poll(view) =>
  }

  // ----- Runs -----

  /** A run of the protocol: any sequence of enabled steps from an empty buffer. */
  ghost predicate IsRun(states: seq<State>, actions: seq<Action>) {
    && |states| == |actions| + 1
    && (exists cells: seq<byte> :: PassesPowerOfTwoTest(|cells|) && |cells| < WORD && states[0] == Initial(cells))
    && forall i :: 0 <= i < |actions| ==> Enabled(states[i], actions[i]) && states[i + 1] == Step(states[i], actions[i])
  }

  lemma {:induction false} RunKeepsInvariant(states: seq<State>, actions: seq<Action>, i: nat)
    requires IsRun(states, actions) && i < |states|
    ensures Inv(states[i])
  {
    if i == 0 {
    } else {
      RunKeepsInvariant(states, actions, i - 1);
      StepKeepsInvariant(states[i - 1], actions[i - 1]);
    }
  }
}
