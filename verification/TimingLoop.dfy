/**
 The timing loop itself: phase accumulator, circular history and loop filter, updated in
 place for every sample. Whatever its configuration, the loop is proved to be the machine
 of its fields as long as it reads within its history; for periods of one to twelve samples
 that machine is proved never to read outside and to emit the symbols of module
 TimingRecovery.
 The callback that receives symbols is the sequence that Process returns.
 */
module TimingLoop {
  import opened Wrappers
  import opened TimingRecovery
  import opened History
  import opened Words

  const HIST_LEN: nat := 8

  /** The conversion to an integer, towards zero. */
  function Truncated(x: real): int {
    if x >= 0.0 then x.Floor else -(-x).Floor
  }

  /** The slot that the code reads for an offset back from the newest sample. */
  function ReadSlot(histIdx: nat, offset: int): int {
    (histIdx - 1 - offset + HIST_LEN * 2) % HIST_LEN
  }

  /** The two reads of an interpolation are inside the history: the farther index does not fall below zero. */
  predicate InReach(histIdx: nat, frac: real) {
    histIdx - 1 - (Truncated(frac) + 1) + HIST_LEN * 2 >= 0
  }

  /** Offsets below the history's length never alias: each finds its own sample. */
  lemma Recall(h: seq<real>, xs: seq<real>, offset: nat)
    requires |h| == HIST_LEN && Remembers(h, xs, 0.0) && offset < HIST_LEN
    ensures 0 <= ReadSlot(|xs| % HIST_LEN, offset) < HIST_LEN
    ensures h[ReadSlot(|xs| % HIST_LEN, offset)] == Sample(xs, |xs| - 1 - offset)
  {
    ReadSlotIsSlot(|xs|, offset);
    hide ReadSlot, Slot;
  }

  lemma ReadSlotIsSlot(n: nat, offset: nat)
    requires offset < HIST_LEN
    ensures ReadSlot(n % HIST_LEN, offset) == Slot(n - 1 - offset, HIST_LEN)
  {
    FullTurns(n - 1 - offset, 2 - n / HIST_LEN, HIST_LEN);
  }

  /** The value `frac` samples before the newest one. */
  function Interpolate(h: seq<real>, histIdx: nat, frac: real): real
    requires |h| == HIST_LEN
  {
    var n0 := Truncated(frac);
    var f := frac - n0 as real;
    Between(h[ReadSlot(histIdx, n0)], h[ReadSlot(histIdx, n0 + 1)], f)
  }

  lemma BetweenReversed(a: real, b: real, f: real)
    ensures Between(a, b, f) == Between(b, a, 1.0 - f)
    ensures Between(a, b, 0.0) == a
  {
    assert f * (b - a) + (1.0 - f) * (b - a) == b - a;
    assert (1.0 - f) * (a - b) == -((1.0 - f) * (b - a));
  }

  /** Where a look back lands: floor and fraction of the time meant. */
  lemma LookBack(newest: int, frac: real)
    requires frac >= 0.0
    ensures var n0, t := Truncated(frac), newest as real - frac;
      if frac == n0 as real then t.Floor == newest - n0 && t - t.Floor as real == 0.0
      else t.Floor == newest - n0 - 1 && t - t.Floor as real == 1.0 - (frac - n0 as real)
  {
  }

  lemma InterpolateIsInterpolant(h: seq<real>, xs: seq<real>, frac: real)
    requires |h| == HIST_LEN && Remembers(h, xs, 0.0) && 0.0 <= frac < (HIST_LEN - 1) as real
    ensures Interpolate(h, |xs| % HIST_LEN, frac) == Interpolant(xs, |xs| as real - 1.0 - frac)
  {
    var n0, newest := Truncated(frac), |xs| - 1;
    LookBack(newest, frac);
    Recall(h, xs, n0);
    Recall(h, xs, n0 + 1);
    hide Remembers, ReadSlot, Between, Sample, Truncated;
    var a, b := Sample(xs, newest - n0), Sample(xs, newest - n0 - 1);
    BetweenReversed(a, b, frac - n0 as real);
    if frac == n0 as real {
      BetweenReversed(a, b, 0.0);
      BetweenReversed(a, Sample(xs, newest - n0 + 1), 0.0);
    }
  }

  /** Between samples the phase stays below the current period. */
  lemma PhaseIsInRange(cfg: Config, xs: seq<real>)
    requires Sane(cfg)
    ensures var l := LoopAt(cfg, xs, Count(cfg, xs));
      0.0 <= |xs| as real - l.time < l.omega
    ensures InBand(cfg) ==> 4.5 <= LoopAt(cfg, xs, Count(cfg, xs)).omega <= 6.0
  {
    hide LoopAt, Count;
    CountIsStrobed(cfg, xs);
    NextPeriod(cfg, xs, Count(cfg, xs));
    if InBand(cfg) {
      PeriodIsBounded(cfg, xs, Count(cfg, xs), 4.5, 6.0);
    }
  }

  /** The phase with which the next strobe would come, if it came with the next sample. */
  function StrobePhase(cfg: Config, xs: seq<real>): real {
    var l := LoopAt(cfg, xs, Count(cfg, xs));
    |xs| as real + 1.0 - l.time - l.omega
  }

  /** At a strobe the phase is below one, and the history is asked for what it still holds. */
  lemma StrobeIsSafe(cfg: Config, xs: seq<real>)
    requires Sane(cfg)
    ensures StrobePhase(cfg, xs) < 1.0
    ensures StrobePhase(cfg, xs) + LoopAt(cfg, xs, Count(cfg, xs)).omega * 0.5 < 7.0
  {
    hide LoopAt, Count;
    CountIsStrobed(cfg, xs);
    NextPeriod(cfg, xs, Count(cfg, xs));
    PeriodIsBounded(cfg, xs, Count(cfg, xs), 1.0, 12.0);
  }

  /**
   In the declared band the two interpolations look back at most four samples, and at
   none from before the first one.
   */
  lemma StrobeInBandIsSafe(cfg: Config, xs: seq<real>)
    requires InBand(cfg)
    ensures StrobePhase(cfg, xs) >= 0.0 ==>
      var farthest := (StrobePhase(cfg, xs) + LoopAt(cfg, xs, Count(cfg, xs)).omega * 0.5).Floor + 1;
      farthest <= 4 && farthest <= |xs|
  {
    hide LoopAt, Count;
    var c := Count(cfg, xs);
    CountIsStrobed(cfg, xs);
    NextPeriod(cfg, xs, c);
    PeriodIsBounded(cfg, xs, c, 4.5, 6.0);
    TimesIncrease(cfg, xs, 0, c);
    LoopStart(cfg, xs);
  }

  /** One more sample: either the next period has passed and gives a symbol, or nothing changes. */
  lemma OneMore(cfg: Config, xs: seq<real>, x: real)
    requires Sane(cfg)
    ensures var c, ys, l := Count(cfg, xs), xs + [x], LoopAt(cfg, xs, Count(cfg, xs));
      var t := l.time + l.omega;
      && l.omega >= 1.0
      && if t <= |ys| as real then
           && Count(cfg, ys) == c + 1
           && LoopAt(cfg, ys, c + 1) == Filter(cfg, l, Interpolant(ys, t - 1.0), Interpolant(ys, t - 1.0 - l.omega * 0.5))
           && Symbols(cfg, ys) == Symbols(cfg, xs) + [Interpolant(ys, t - 1.0)]
         else
           && Count(cfg, ys) == c && LoopAt(cfg, ys, c) == l
           && Symbols(cfg, ys) == Symbols(cfg, xs)
  {
    hide LoopAt, Count, Symbols, Interpolant, Filter, Strobed;
    var c, ys := Count(cfg, xs), xs + [x];
    SymbolsSnoc(cfg, xs, x);
    CountIsStrobed(cfg, xs);
    Settled(cfg, xs, c);
    LoopIsStable(cfg, xs, ys, c);
    NextPeriod(cfg, ys, c);
    PeriodIsBounded(cfg, xs, c, 1.0, 12.0);
    LoopSucc(cfg, ys, c);
  }

  lemma Settled(cfg: Config, xs: seq<real>, c: nat)
    requires Strobed(cfg, xs, c)
    ensures LoopAt(cfg, xs, c).time <= |xs| as real
  {
  }

  // ----- The machine -----

  /** The fields of the loop. */
  datatype Machine = Machine(
    hist: seq<real>, histIdx: nat, mu: real, omega: real, vp: real, prevSym: real, symbolCount: nat)

  predicate Shaped(m: Machine) {
    |m.hist| == HIST_LEN && m.histIdx < HIST_LEN
  }

  function Initial(cfg: Config): Machine {
    Machine(seq(HIST_LEN, i => 0.0), 0, 0.0, cfg.nominalSps, 0.0, 0.0, 0)
  }

  function Pushed(m: Machine, x: real): (r: Machine)
    requires Shaped(m)
    ensures Shaped(r)
  {
    m.(hist := m.hist[m.histIdx := x], histIdx := (m.histIdx + 1) % HIST_LEN, mu := m.mu + 1.0)
  }

  /** A strobe: the phase steps back by a period, and the symbol and its mid-sample set the next one. */
  function Struck(cfg: Config, m: Machine): (r: Machine)
    requires Shaped(m)
    ensures Shaped(r)
  {
    var mu := m.mu - m.omega;
    var symbol, mid := Interpolate(m.hist, m.histIdx, mu), Interpolate(m.hist, m.histIdx, mu + m.omega * 0.5);
    var l := Filter(cfg, Loop(0.0, m.omega, m.vp, m.prevSym), symbol, mid);
    m.(mu := mu, omega := l.omega, vp := l.vp, prevSym := l.prev, symbolCount := m.symbolCount + 1)
  }

  function Step(cfg: Config, m: Machine, x: real): (r: Machine)
    requires Shaped(m)
    ensures Shaped(r)
  {
    var p := Pushed(m, x);
    if p.mu >= p.omega then Struck(cfg, p) else p
  }

  /** The symbol of a step, if it strobes. */
  function Emitted(cfg: Config, m: Machine, x: real): Option<real>
    requires Shaped(m)
  {
    if m.mu + 1.0 >= m.omega then Some(Step(cfg, m, x).prevSym) else None
  }

  /** What the code relies on when the next sample comes: a strobe reads inside the history and clamps to a range. */
  predicate Defined(cfg: Config, m: Machine) {
    var mu, histIdx := m.mu + 1.0 - m.omega, (m.histIdx + 1) % HIST_LEN;
    mu >= 0.0 ==> InReach(histIdx, mu) && InReach(histIdx, mu + m.omega * 0.5) && cfg.omegaMin <= cfg.omegaMax
  }

  function Run(cfg: Config, m: Machine, xs: seq<real>): (r: Machine)
    requires Shaped(m)
    ensures Shaped(r)
  {
    if xs == [] then m else Step(cfg, Run(cfg, m, xs[..|xs| - 1]), xs[|xs| - 1])
  }

  function EmittedBy(cfg: Config, m: Machine, xs: seq<real>): seq<real>
    requires Shaped(m)
  {
    if xs == [] then []
    else
      var before := xs[..|xs| - 1];
      EmittedBy(cfg, m, before) + Emitted(cfg, Run(cfg, m, before), xs[|xs| - 1]).ToSeq()
  }

  predicate RunDefined(cfg: Config, m: Machine, xs: seq<real>)
    requires Shaped(m)
  {
    forall i :: 0 <= i < |xs| ==> Defined(cfg, Run(cfg, m, xs[..i]))
  }

  // ----- The machine follows the reference -----

  /** The conservation law: samples so far, less the phase, is the sum of all periods used. */
  ghost predicate Follows(cfg: Config, m: Machine, xs: seq<real>) {
    var l := LoopAt(cfg, xs, m.symbolCount);
    && Sane(cfg)
    && |m.hist| == HIST_LEN && m.histIdx == |xs| % HIST_LEN && Remembers(m.hist, xs, 0.0)
    && m.symbolCount == Count(cfg, xs)
    && |xs| as real - m.mu == l.time
    && m.omega == l.omega && m.vp == l.vp && m.prevSym == l.prev
  }

  lemma InitialFollows(cfg: Config)
    requires Sane(cfg)
    ensures Follows(cfg, Initial(cfg), [])
  {
  }

  lemma PushedRemembers(m: Machine, xs: seq<real>, x: real)
    requires Shaped(m) && m.histIdx == |xs| % HIST_LEN && Remembers(m.hist, xs, 0.0)
    ensures var p := Pushed(m, x);
      Remembers(p.hist, xs + [x], 0.0) && p.histIdx == |xs + [x]| % HIST_LEN
  {
    hide Remembers;
    RememberMore(m.hist, xs, 0.0, x);
    NextSlot(|xs|, HIST_LEN);
  }

  /** A strobe that looks back less than the history holds is a step of the reference. */
  lemma StruckIsFilter(cfg: Config, m: Machine, xs: seq<real>, time: real)
    requires Shaped(m) && m.histIdx == |xs| % HIST_LEN && Remembers(m.hist, xs, 0.0)
    requires m.mu - m.omega >= 0.0 && m.omega > 0.0 && m.mu - m.omega * 0.5 < 7.0
    ensures InReach(m.histIdx, m.mu - m.omega) && InReach(m.histIdx, m.mu - m.omega + m.omega * 0.5)
    ensures var t, r := |xs| as real - 1.0 - (m.mu - m.omega), Struck(cfg, m);
      && r.prevSym == Interpolant(xs, t)
      && Loop(time + m.omega, r.omega, r.vp, r.prevSym) ==
         Filter(cfg, Loop(time, m.omega, m.vp, m.prevSym), Interpolant(xs, t), Interpolant(xs, t - m.omega * 0.5))
  {
    hide Remembers, Interpolate, Interpolant, GardnerError, Gain, Clamp;
    var mu := m.mu - m.omega;
    InterpolateIsInterpolant(m.hist, xs, mu);
    InterpolateIsInterpolant(m.hist, xs, mu + m.omega * 0.5);
    assert |xs| as real - 1.0 - (mu + m.omega * 0.5) == |xs| as real - 1.0 - mu - m.omega * 0.5;
  }

  /** One sample: the machine keeps following the reference and emits its next symbol iff the reference does. */
  lemma StepFollows(cfg: Config, m: Machine, xs: seq<real>, x: real)
    requires Follows(cfg, m, xs)
    ensures Defined(cfg, m)
    ensures Follows(cfg, Step(cfg, m, x), xs + [x])
    ensures Symbols(cfg, xs + [x]) == Symbols(cfg, xs) + Emitted(cfg, m, x).ToSeq()
  {
    hide LoopAt, Count, Symbols, Remembers, Interpolant, Interpolate, Filter, Symbol, InReach;
    var l := LoopAt(cfg, xs, m.symbolCount);
    OneMore(cfg, xs, x);
    PushedRemembers(m, xs, x);
    if m.mu + 1.0 >= m.omega {
      StrobeIsSafe(cfg, xs);
      StruckIsFilter(cfg, Pushed(m, x), xs + [x], l.time);
    }
  }

  /** No input makes a machine that follows the reference read outside of its history. */
  lemma {:induction false} RunFollows(cfg: Config, m: Machine, xs: seq<real>, ys: seq<real>)
    requires Follows(cfg, m, xs)
    ensures RunDefined(cfg, m, ys)
    ensures Follows(cfg, Run(cfg, m, ys), xs + ys)
    ensures Symbols(cfg, xs + ys) == Symbols(cfg, xs) + EmittedBy(cfg, m, ys)
  {
    hide Follows, Symbols, Step, Emitted, Defined, Run, EmittedBy, RunDefined;
    FollowsIsShaped(cfg, m, xs);
    if ys == [] {
      RunEmpty(cfg, m, ys);
      assert xs + ys == xs && ys[..0] == ys;
    } else {
      var n := |ys| - 1;
      var before := ys[..n];
      RunFollows(cfg, m, xs, before);
      StepFollows(cfg, Run(cfg, m, before), xs + before, ys[n]);
      RunSnoc(cfg, m, ys, n);
      DefinedSnoc(cfg, m, ys);
      assert ys[..n + 1] == ys && xs + before + [ys[n]] == xs + ys;
    }
  }

  lemma DefinedSnoc(cfg: Config, m: Machine, xs: seq<real>)
    requires Shaped(m) && xs != []
    requires RunDefined(cfg, m, xs[..|xs| - 1]) && Defined(cfg, Run(cfg, m, xs[..|xs| - 1]))
    ensures RunDefined(cfg, m, xs)
  {
    hide Run, Defined;
    var before := xs[..|xs| - 1];
    forall i | 0 <= i < |xs| - 1 ensures Defined(cfg, Run(cfg, m, xs[..i])) {
      assert xs[..i] == before[..i];
    }
  }

  lemma FollowsIsShaped(cfg: Config, m: Machine, xs: seq<real>)
    requires Follows(cfg, m, xs)
    ensures Shaped(m)
  {
  }

  lemma RunSnoc(cfg: Config, m: Machine, xs: seq<real>, i: nat)
    requires Shaped(m) && i < |xs|
    ensures Run(cfg, m, xs[..i + 1]) == Step(cfg, Run(cfg, m, xs[..i]), xs[i])
    ensures EmittedBy(cfg, m, xs[..i + 1]) == EmittedBy(cfg, m, xs[..i]) + Emitted(cfg, Run(cfg, m, xs[..i]), xs[i]).ToSeq()
  {
    assert xs[..i + 1][..i] == xs[..i];
  }

  // ----- The loop -----

  class Recovery {
    const cfg: Config
    const hist: array<real>
    var histIdx: nat
    var mu: real
    var omega: real
    var vp: real
    var prevSym: real
    var symbolCount: nat
    ghost var input: seq<real>

    function Now(): Machine
      reads this, hist
    {
      Machine(hist[..], histIdx, mu, omega, vp, prevSym, symbolCount)
    }

    /** The loop follows the reference on the samples so far. */
    ghost predicate Valid()
      reads this, hist
    {
      Follows(cfg, Now(), input)
    }

    constructor (c: Config)
      ensures cfg == c && input == [] && fresh(hist)
      ensures Now() == Initial(c)
      ensures Sane(c) ==> Valid()
    {
      cfg := c;
      hist := new real[HIST_LEN](i => 0.0);
      histIdx, symbolCount, mu, omega, vp, prevSym := 0, 0, 0.0, c.nominalSps, 0.0, 0.0;
      input := [];
      new;
      assert hist[..] == seq(HIST_LEN, i => 0.0);
      if Sane(c) {
        InitialFollows(c);
      }
    }

    /** The work of a strobe. */
    method Strobe() returns (currSym: real)
      requires Shaped(Now())
      requires InReach(histIdx, mu - omega) && InReach(histIdx, mu - omega + omega * 0.5) && cfg.omegaMin <= cfg.omegaMax
      modifies this`mu, this`vp, this`omega, this`prevSym, this`symbolCount
      ensures Now() == Struck(cfg, old(Now())) && currSym == prevSym
    {
      hide Interpolate, GardnerError, Gain, Clamp;
      mu := mu - omega;
      currSym := Interpolate(hist[..], histIdx, mu);
      var midFrac := mu + omega * 0.5;
      var midSamp := Interpolate(hist[..], histIdx, midFrac);
      var e := GardnerError(midSamp, currSym, prevSym);
      vp := vp + Gain(cfg.k2, e);
      omega := omega + (Gain(cfg.k1, e) + vp);
      omega := Clamp(omega, cfg.omegaMin, cfg.omegaMax);
      symbolCount := symbolCount + 1;
      prevSym := currSym;
    }

    method ProcessSample(x: real) returns (symbol: Option<real>)
      requires Shaped(Now()) && Defined(cfg, Now())
      modifies this, hist
      ensures Now() == Step(cfg, old(Now()), x) && symbol == Emitted(cfg, old(Now()), x)
      ensures input == old(input) + [x]
      ensures old(Valid()) ==> Valid() && Symbols(cfg, input) == Symbols(cfg, old(input)) + symbol.ToSeq()
    {
      hide Follows, Symbols, Struck, InReach;
      if Valid() {
        StepFollows(cfg, Now(), input, x);
      }
      hist[histIdx] := x;
      histIdx := (histIdx + 1) % HIST_LEN;
      input := input + [x];
      mu := mu + 1.0;
      assert Now() == Pushed(old(Now()), x);
      symbol := None;
      if mu >= omega {
        var currSym := Strobe();
        symbol := Some(currSym);
      }
    }

    method Process(samples: seq<real>) returns (symbols: seq<real>)
      requires Shaped(Now()) && RunDefined(cfg, Now(), samples)
      modifies this, hist
      ensures Now() == Run(cfg, old(Now()), samples) && symbols == EmittedBy(cfg, old(Now()), samples)
      ensures input == old(input) + samples
      ensures old(Valid()) ==> Valid() && Symbols(cfg, input) == Symbols(cfg, old(input)) + symbols
    {
      hide Follows, Symbols, Step, Emitted, Defined, Run, EmittedBy;
      ghost var m := Now();
      if Valid() {
        RunFollows(cfg, m, input, samples);
      }
      symbols := [];
      RunEmpty(cfg, m, samples);
      for i := 0 to |samples|
        invariant Now() == Run(cfg, m, samples[..i]) && symbols == EmittedBy(cfg, m, samples[..i])
        invariant input == old(input) + samples[..i]
      {
        RunSnoc(cfg, m, samples, i);
        var symbol := ProcessSample(samples[i]);
        symbols := symbols + symbol.ToSeq();
      }
      assert samples[..|samples|] == samples;
    }
  }

  lemma RunEmpty(cfg: Config, m: Machine, xs: seq<real>)
    requires Shaped(m)
    ensures Run(cfg, m, xs[..0]) == m && EmittedBy(cfg, m, xs[..0]) == [] && RunDefined(cfg, m, xs[..0])
  {
  }

  /** A loop that follows the reference can be fed anything. */
  lemma ValidRuns(r: Recovery, samples: seq<real>)
    requires r.Valid()
    ensures Shaped(r.Now()) && RunDefined(r.cfg, r.Now(), samples)
  {
    RunFollows(r.cfg, r.Now(), r.input, samples);
  }
}
