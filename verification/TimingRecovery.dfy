/**
 Symbol timing recovery over the reals: a phase accumulator, a circular history of eight
 samples and a loop filter, fed sample by sample. It is proved to compute a reference
 that has neither: a recursion over symbols, whose i-th symbol is the interpolant of the
 input at the sum of all symbol periods used so far.
 */
module TimingRecovery {
  import History

  datatype Config = Config(nominalSps: real, k1: real, k2: real, omegaMin: real, omegaMax: real)

  const DEFAULT := Config(5.2083, 0.02, 0.002, 4.5, 6.0)

  /** The periods are at least one sample, and half of the longest fits the history. */
  predicate Sane(cfg: Config) {
    1.0 <= cfg.omegaMin <= cfg.omegaMax <= 12.0 && 1.0 <= cfg.nominalSps <= 12.0
  }

  /** The band that the configuration in use declares. */
  predicate InBand(cfg: Config) {
    4.5 <= cfg.omegaMin <= cfg.omegaMax <= 6.0 && 4.5 <= cfg.nominalSps <= 6.0
  }

  lemma DefaultIsInBand()
    ensures InBand(DEFAULT) && Sane(DEFAULT)
  {
  }

  // ----- The reference -----

  /** Sample k of the input, with zeros outside of it. */
  function Sample(xs: seq<real>, k: int): real {
    History.Padded(xs, k, 0.0)
  }

  function Between(a: real, b: real, f: real): real {
    a + f * (b - a)
  }

  /** The input at a time between samples, sample k being at time k. */
  function Interpolant(xs: seq<real>, t: real): real {
    Between(Sample(xs, t.Floor), Sample(xs, t.Floor + 1), t - t.Floor as real)
  }

  function Clamp(x: real, lo: real, hi: real): real {
    if x < lo then lo else if hi < x then hi else x
  }

  /** The loop after a number of symbols; `time` is the sum of the periods used so far. */
  datatype Loop = Loop(time: real, omega: real, vp: real, prev: real)

  /** The detector: the mid-sample times the step from the previous symbol to this one. */
  function GardnerError(mid: real, symbol: real, prev: real): real {
    mid * (symbol - prev)
  }

  function Gain(k: real, e: real): real {
    k * e
  }

  /** The detector and the loop filter: from a symbol and its mid-sample to the next period. */
  function Filter(cfg: Config, l: Loop, symbol: real, mid: real): Loop {
    var e := GardnerError(mid, symbol, l.prev);
    var vp := l.vp + Gain(cfg.k2, e);
    Loop(l.time + l.omega, Clamp(l.omega + (Gain(cfg.k1, e) + vp), cfg.omegaMin, cfg.omegaMax), vp, symbol)
  }

  /** The period update as the documentation writes it, with the integrator before its own update. */
  function DocumentedPeriod(cfg: Config, l: Loop, symbol: real, mid: real): real {
    l.omega + (Gain(cfg.k1, GardnerError(mid, symbol, l.prev)) + l.vp)
  }

  /**
   The code adds the integrator after its update. That gives the documented period exactly
   when the integral step is zero, or when the clamp hides the step: both sums are beyond
   the same end of the range, or the range is a single period.
   */
  lemma PeriodIsDocumentedIff(cfg: Config, l: Loop, symbol: real, mid: real)
    requires cfg.omegaMin <= cfg.omegaMax
    ensures var step, sum := Gain(cfg.k2, GardnerError(mid, symbol, l.prev)), DocumentedPeriod(cfg, l, symbol, mid);
      Filter(cfg, l, symbol, mid).omega == Clamp(sum, cfg.omegaMin, cfg.omegaMax) <==>
        || step == 0.0 || cfg.omegaMin == cfg.omegaMax
        || (sum >= cfg.omegaMax && sum + step >= cfg.omegaMax)
        || (sum <= cfg.omegaMin && sum + step <= cfg.omegaMin)
  {
    hide Gain, GardnerError;
  }

  function Next(cfg: Config, xs: seq<real>, l: Loop): Loop {
    var t := l.time + l.omega - 1.0;
    Filter(cfg, l, Interpolant(xs, t), Interpolant(xs, t - l.omega * 0.5))
  }

  function LoopAt(cfg: Config, xs: seq<real>, i: nat): Loop {
    if i == 0 then Loop(0.0, cfg.nominalSps, 0.0, 0.0) else Next(cfg, xs, LoopAt(cfg, xs, i - 1))
  }

  /** How many symbols end within the input: one more whenever the next period has passed. */
  function Count(cfg: Config, xs: seq<real>): nat {
    if xs == [] then 0
    else
      var c := Count(cfg, xs[..|xs| - 1]);
      if LoopAt(cfg, xs, c + 1).time <= |xs| as real then c + 1 else c
  }

  /** Symbol i is the input at the time at which its period ends, counted in whole samples from one. */
  function Symbol(cfg: Config, xs: seq<real>, i: nat): real {
    Interpolant(xs, LoopAt(cfg, xs, i + 1).time - 1.0)
  }

  function Symbols(cfg: Config, xs: seq<real>): seq<real> {
    seq(Count(cfg, xs), i requires 0 <= i < Count(cfg, xs) => Symbol(cfg, xs, i))
  }

  // ----- Conservation of time -----

  function SumOfPeriods(cfg: Config, xs: seq<real>, i: nat): real {
    if i == 0 then 0.0 else SumOfPeriods(cfg, xs, i - 1) + LoopAt(cfg, xs, i - 1).omega
  }

  lemma {:induction false} TimeIsSumOfPeriods(cfg: Config, xs: seq<real>, i: nat)
    ensures LoopAt(cfg, xs, i).time == SumOfPeriods(cfg, xs, i)
    ensures i > 0 ==> LoopAt(cfg, xs, i).prev == Symbol(cfg, xs, i - 1)
  {
    hide Interpolant, LoopAt, Next, Symbol;
    if i == 0 {
      LoopStart(cfg, xs);
    } else {
      TimeIsSumOfPeriods(cfg, xs, i - 1);
      LoopSucc(cfg, xs, i - 1);
    }
  }

  lemma PeriodIsBounded(cfg: Config, xs: seq<real>, i: nat, lo: real, hi: real)
    requires lo <= cfg.omegaMin <= cfg.omegaMax <= hi && lo <= cfg.nominalSps <= hi
    ensures lo <= LoopAt(cfg, xs, i).omega <= hi
  {
    hide Interpolant;
  }

  // ----- The reference only looks back -----

  lemma InterpolantIsStable(xs: seq<real>, ys: seq<real>, t: real)
    requires xs <= ys && t <= |xs| as real - 1.0
    ensures Interpolant(ys, t) == Interpolant(xs, t)
  {
    var k := t.Floor;
    if k + 1 == |xs| {
      assert t - k as real == 0.0;
    }
  }

  lemma {:induction false} LoopIsStable(cfg: Config, xs: seq<real>, ys: seq<real>, i: nat)
    requires Sane(cfg) && xs <= ys
    requires LoopAt(cfg, xs, i).time <= |xs| as real
    ensures LoopAt(cfg, ys, i) == LoopAt(cfg, xs, i)
    ensures LoopAt(cfg, ys, i + 1).time == LoopAt(cfg, xs, i + 1).time
  {
    hide LoopAt, Next;
    LoopSucc(cfg, xs, i);
    LoopSucc(cfg, ys, i);
    if i == 0 {
      LoopStart(cfg, xs);
      LoopStart(cfg, ys);
    } else {
      LoopSucc(cfg, xs, i - 1);
      LoopSucc(cfg, ys, i - 1);
      PeriodIsBounded(cfg, xs, i - 1, 1.0, 12.0);
      LoopIsStable(cfg, xs, ys, i - 1);
      NextIsStable(cfg, xs, ys, LoopAt(cfg, xs, i - 1));
    }
  }

  lemma LoopStart(cfg: Config, xs: seq<real>)
    ensures LoopAt(cfg, xs, 0) == Loop(0.0, cfg.nominalSps, 0.0, 0.0)
  {
  }

  lemma LoopSucc(cfg: Config, xs: seq<real>, i: nat)
    ensures LoopAt(cfg, xs, i + 1) == Next(cfg, xs, LoopAt(cfg, xs, i))
    ensures LoopAt(cfg, xs, i + 1).time == LoopAt(cfg, xs, i).time + LoopAt(cfg, xs, i).omega
    ensures LoopAt(cfg, xs, i + 1).prev == Symbol(cfg, xs, i)
  {
    hide Interpolant, Clamp, GardnerError, Gain;
  }

  lemma NextIsStable(cfg: Config, xs: seq<real>, ys: seq<real>, l: Loop)
    requires xs <= ys && l.omega >= 0.0 && l.time + l.omega <= |xs| as real
    ensures Next(cfg, ys, l) == Next(cfg, xs, l)
  {
    hide Interpolant, Filter;
    InterpolantIsStable(xs, ys, l.time + l.omega - 1.0);
    InterpolantIsStable(xs, ys, l.time + l.omega - 1.0 - l.omega * 0.5);
  }

  // ----- What is interpolated, and what the loop does with it -----

  /** Between two samples of the input the interpolant is the weighted mean of both; zeros precede the input. */
  lemma InterpolantIsLinear(xs: seq<real>, k: int, t: real)
    requires k as real <= t < k as real + 1.0
    ensures 0 <= k && k + 1 < |xs| ==>
      Interpolant(xs, t) == (1.0 - (t - k as real)) * xs[k] + (t - k as real) * xs[k + 1]
    ensures 0 <= k < |xs| && t == k as real ==> Interpolant(xs, t) == xs[k]
    ensures k == -1 && xs != [] ==> Interpolant(xs, t) == (t + 1.0) * xs[0]
    ensures k < -1 ==> Interpolant(xs, t) == 0.0
  {
    var f := t - k as real;
    assert t.Floor == k;
    if 0 <= k && k + 1 < |xs| {
      Weighted(xs[k], xs[k + 1], f);
    }
  }

  lemma Weighted(a: real, b: real, f: real)
    ensures a + f * (b - a) == (1.0 - f) * a + f * b
  {
  }

  /** The input is a straight line. */
  ghost predicate IsRamp(xs: seq<real>, p: real, q: real) {
    forall k :: 0 <= k < |xs| ==> xs[k] == p + q * k as real
  }

  function Line(p: real, q: real, t: real): real {
    p + q * t
  }

  lemma RampIsFollowed(xs: seq<real>, p: real, q: real, t: real)
    requires IsRamp(xs, p, q) && 0.0 <= t <= |xs| as real - 1.0
    ensures Interpolant(xs, t) == Line(p, q, t)
  {
    var k := t.Floor;
    InterpolantIsLinear(xs, k, t);
    if k + 1 < |xs| {
      var f := t - k as real;
      assert xs[k] == p + q * k as real && xs[k + 1] == p + q * (k + 1) as real;
      assert q * (k + 1) as real == q * k as real + q;
      Weighted(xs[k], xs[k + 1], f);
      assert xs[k + 1] - xs[k] == q;
      assert q * t == q * k as real + q * f;
    }
  }

  lemma SymbolValueOnRamp(cfg: Config, xs: seq<real>, p: real, q: real, i: nat)
    requires Sane(cfg) && IsRamp(xs, p, q) && i < Count(cfg, xs)
    ensures Interpolant(xs, LoopAt(cfg, xs, i + 1).time - 1.0) == Line(p, q, LoopAt(cfg, xs, i + 1).time - 1.0)
  {
    hide LoopAt, Count, Interpolant, IsRamp, Line;
    CountIsExact(cfg, xs, i + 1);
    TimesIncrease(cfg, xs, 0, i);
    LoopStart(cfg, xs);
    NextPeriod(cfg, xs, i);
    RampIsFollowed(xs, p, q, LoopAt(cfg, xs, i + 1).time - 1.0);
  }

  /** On a straight line every symbol is the line's value at the symbol's own time. */
  lemma SymbolsOnRamp(cfg: Config, xs: seq<real>, p: real, q: real, i: nat)
    requires Sane(cfg) && IsRamp(xs, p, q) && i < Count(cfg, xs)
    ensures Symbols(cfg, xs)[i] == Line(p, q, LoopAt(cfg, xs, i + 1).time - 1.0)
  {
    hide LoopAt, Count, Interpolant, IsRamp, Line;
    SymbolValueOnRamp(cfg, xs, p, q, i);
  }

  /**
   The law of the loop, from one symbol to the next: the detector multiplies the value half
   a period back with the step between the symbols, and the filter integrates and clamps.
   */
  lemma LawOfLoop(cfg: Config, xs: seq<real>, i: nat)
    ensures LoopAt(cfg, xs, 0) == Loop(0.0, cfg.nominalSps, 0.0, 0.0)
    ensures var l, n := LoopAt(cfg, xs, i), LoopAt(cfg, xs, i + 1);
      var e := Interpolant(xs, n.time - 1.0 - l.omega / 2.0) * (n.prev - l.prev);
      var sum := l.omega + cfg.k1 * e + n.vp;
      && n.time == l.time + l.omega
      && n.prev == Interpolant(xs, n.time - 1.0)
      && n.vp == l.vp + cfg.k2 * e
      && n.omega == if sum < cfg.omegaMin then cfg.omegaMin else if sum > cfg.omegaMax then cfg.omegaMax else sum
  {
    LoopStart(cfg, xs);
    LoopSucc(cfg, xs, i);
    hide Interpolant, LoopAt;
    var l, n := LoopAt(cfg, xs, i), LoopAt(cfg, xs, i + 1);
    var t := l.time + l.omega - 1.0;
    assert n.time - 1.0 == t && n.time - 1.0 - l.omega / 2.0 == t - l.omega * 0.5;
    assert n == Filter(cfg, l, Interpolant(xs, t), Interpolant(xs, t - l.omega * 0.5));
  }

  /** On a flat input the detector is silent after the first symbol: the integrator rests and the period drifts by it. */
  lemma FlatInputIsSilent(cfg: Config, xs: seq<real>, p: real, i: nat)
    requires Sane(cfg) && IsRamp(xs, p, 0.0) && 0 < i < Count(cfg, xs)
    ensures var l, n := LoopAt(cfg, xs, i), LoopAt(cfg, xs, i + 1);
      n.vp == l.vp && n.omega == Clamp(l.omega + l.vp, cfg.omegaMin, cfg.omegaMax)
  {
    hide LoopAt, Count, Interpolant, IsRamp, Symbols;
    LawOfLoop(cfg, xs, i);
    LawOfLoop(cfg, xs, i - 1);
    SymbolValueOnRamp(cfg, xs, p, 0.0, i);
    SymbolValueOnRamp(cfg, xs, p, 0.0, i - 1);
  }

  // ----- Counting symbols -----

  /** Exactly c symbols end within the input. */
  ghost predicate Strobed(cfg: Config, xs: seq<real>, c: nat) {
    LoopAt(cfg, xs, c).time <= |xs| as real < LoopAt(cfg, xs, c + 1).time
  }

  lemma {:induction false} CountIsStrobed(cfg: Config, xs: seq<real>)
    requires Sane(cfg)
    ensures Strobed(cfg, xs, Count(cfg, xs))
  {
    hide Next;
    if xs == [] {
      NextPeriod(cfg, xs, 0);
    } else {
      var ys := xs[..|xs| - 1];
      CountIsStrobed(cfg, ys);
      var c := Count(cfg, ys);
      LoopIsStable(cfg, ys, xs, c);
      NextPeriod(cfg, xs, c);
      NextPeriod(cfg, xs, c + 1);
    }
  }

  lemma NextPeriod(cfg: Config, xs: seq<real>, i: nat)
    requires Sane(cfg)
    ensures LoopAt(cfg, xs, i + 1).time == LoopAt(cfg, xs, i).time + LoopAt(cfg, xs, i).omega
    ensures LoopAt(cfg, xs, i + 1).time >= LoopAt(cfg, xs, i).time + 1.0
  {
    hide LoopAt, Next;
    LoopSucc(cfg, xs, i);
    PeriodIsBounded(cfg, xs, i, 1.0, 12.0);
  }

  lemma {:induction false} TimesIncrease(cfg: Config, xs: seq<real>, i: nat, j: nat)
    requires Sane(cfg) && i <= j
    ensures LoopAt(cfg, xs, i).time <= LoopAt(cfg, xs, j).time
    decreases j
  {
    hide LoopAt;
    if i == j {
    } else {
      TimesIncrease(cfg, xs, i, j - 1);
      NextPeriod(cfg, xs, j - 1);
    }
  }

  /** Symbol i has been emitted exactly when its period has ended. */
  lemma CountIsExact(cfg: Config, xs: seq<real>, i: nat)
    requires Sane(cfg)
    ensures i <= Count(cfg, xs) <==> LoopAt(cfg, xs, i).time <= |xs| as real
  {
    hide LoopAt, Count;
    var c := Count(cfg, xs);
    CountIsStrobed(cfg, xs);
    if i <= c {
      TimesIncrease(cfg, xs, i, c);
    } else {
      TimesIncrease(cfg, xs, c + 1, i);
    }
  }

  /** Six samples of one: the first symbol's period comes out an integral step longer than documented. */
  lemma PeriodIsNotDocumented()
    ensures var xs := [1.0, 1.0, 1.0, 1.0, 1.0, 1.0];
      && Count(DEFAULT, xs) == 1 && Symbol(DEFAULT, xs, 0) == 1.0
      && LoopAt(DEFAULT, xs, 1).omega == 5.2303
      && Clamp(DocumentedPeriod(DEFAULT, LoopAt(DEFAULT, xs, 0), 1.0, 1.0), DEFAULT.omegaMin, DEFAULT.omegaMax) == 5.2283
  {
    var xs := [1.0, 1.0, 1.0, 1.0, 1.0, 1.0];
    InterpolantOfOnes(xs, 4.2083);
    InterpolantOfOnes(xs, 4.2083 - 5.2083 * 0.5);
    hide Count, Interpolant, Symbol;
    LoopStart(DEFAULT, xs);
    LoopSucc(DEFAULT, xs, 0);
    LoopSucc(DEFAULT, xs, 1);
    CountIsExact(DEFAULT, xs, 1);
    CountIsExact(DEFAULT, xs, 2);
  }

  /** The clamp in use: a strong error of either sign takes the first period to 6.0 or 4.5. */
  lemma PeriodIsClamped()
    ensures LoopAt(DEFAULT, [100.0, 100.0, 100.0, 100.0, 100.0, 100.0], 1).omega == 6.0
    ensures LoopAt(DEFAULT, [-100.0, -100.0, -100.0, 100.0, 100.0, 100.0], 1).omega == 4.5
  {
    var xs, ys := [100.0, 100.0, 100.0, 100.0, 100.0, 100.0], [-100.0, -100.0, -100.0, 100.0, 100.0, 100.0];
    InterpolantIsLinear(xs, 4, 4.2083);
    InterpolantIsLinear(xs, 1, 4.2083 - 5.2083 / 2.0);
    InterpolantIsLinear(ys, 4, 4.2083);
    InterpolantIsLinear(ys, 1, 4.2083 - 5.2083 / 2.0);
    hide Interpolant, LoopAt;
    LawOfLoop(DEFAULT, xs, 0);
    LawOfLoop(DEFAULT, ys, 0);
  }

  /** Between equal samples the interpolant is their value. */
  lemma InterpolantOfOnes(xs: seq<real>, t: real)
    requires 0.0 <= t < |xs| as real - 1.0 && forall k :: 0 <= k < |xs| ==> xs[k] == 1.0
    ensures Interpolant(xs, t) == 1.0
  {
  }

  lemma CountSnoc(cfg: Config, xs: seq<real>, x: real)
    ensures Count(cfg, xs + [x]) ==
      Count(cfg, xs) + if LoopAt(cfg, xs + [x], Count(cfg, xs) + 1).time <= (|xs| + 1) as real then 1 else 0
  {
    hide LoopAt;
    assert (xs + [x])[..|xs|] == xs;
  }

  lemma SymbolIsStable(cfg: Config, xs: seq<real>, ys: seq<real>, i: nat)
    requires Sane(cfg) && xs <= ys && i < Count(cfg, xs)
    ensures Symbol(cfg, ys, i) == Symbol(cfg, xs, i)
  {
    hide LoopAt, Interpolant, Count;
    CountIsExact(cfg, xs, i + 1);
    LoopIsStable(cfg, xs, ys, i + 1);
    InterpolantIsStable(xs, ys, LoopAt(cfg, xs, i + 1).time - 1.0);
  }

  lemma SymbolsSnoc(cfg: Config, xs: seq<real>, x: real)
    requires Sane(cfg)
    ensures var c, ys := Count(cfg, xs), xs + [x];
      if LoopAt(cfg, ys, c + 1).time <= |ys| as real
      then Count(cfg, ys) == c + 1 && Symbols(cfg, ys) == Symbols(cfg, xs) + [Symbol(cfg, ys, c)]
      else Count(cfg, ys) == c && Symbols(cfg, ys) == Symbols(cfg, xs)
  {
    hide LoopAt, Count, Symbol;
    var c, ys := Count(cfg, xs), xs + [x];
    CountSnoc(cfg, xs, x);
    forall i: nat | i < c ensures Symbol(cfg, ys, i) == Symbol(cfg, xs, i) {
      SymbolIsStable(cfg, xs, ys, i);
    }
  }

  // ----- Rates and spacing in the band -----

  lemma {:induction false} TimeIsBounded(cfg: Config, xs: seq<real>, i: nat)
    requires InBand(cfg)
    ensures 4.5 * i as real <= LoopAt(cfg, xs, i).time <= 6.0 * i as real
  {
    if i == 0 {
    } else {
      hide Interpolant, Clamp, GardnerError, Gain;
      TimeIsBounded(cfg, xs, i - 1);
      PeriodIsBounded(cfg, xs, i - 1, 4.5, 6.0);
    }
  }

  /** N samples give more than (N - 6) / 6 and at most N / 4.5 symbols. */
  lemma SymbolRate(cfg: Config, xs: seq<real>)
    requires InBand(cfg)
    ensures var n, c := |xs| as real, Count(cfg, xs) as real;
      n - 6.0 < 6.0 * c && 4.5 * c <= n
  {
    hide LoopAt, Count;
    CountIsStrobed(cfg, xs);
    TimeIsBounded(cfg, xs, Count(cfg, xs));
    TimeIsBounded(cfg, xs, Count(cfg, xs) + 1);
  }

  /** The number of samples with which symbol i, counted from one, is emitted. */
  function StrobeSample(cfg: Config, xs: seq<real>, i: nat): int {
    -(-LoopAt(cfg, xs, i).time).Floor
  }

  /** Strobes come with their sample, no sooner and no later, and are four to six samples apart. */
  lemma StrobeSpacing(cfg: Config, xs: seq<real>, i: nat)
    requires InBand(cfg)
    ensures i <= Count(cfg, xs) <==> StrobeSample(cfg, xs, i) <= |xs|
    ensures 4 <= StrobeSample(cfg, xs, i + 1) - StrobeSample(cfg, xs, i) <= 6
  {
    hide LoopAt, Count;
    CountIsExact(cfg, xs, i);
    NextPeriod(cfg, xs, i);
    PeriodIsBounded(cfg, xs, i, 4.5, 6.0);
  }
}
