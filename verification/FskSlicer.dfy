/**
 The adaptive four-level slicer over the reals: two outer levels tracked by exponential
 averages, three thresholds, one dibit per symbol.
 The callback that receives the dibit is the result of DecideSymbol.
 */
module FskSlicer {
  import opened DibitStream

  datatype Config = Config(emaAlpha: real, initOuter: real, outerThresh: real)

  const DEFAULT := Config(0.01, 0.02, 0.6)

  /** A proper average, and outer levels on their own sides of zero. */
  predicate Sane(cfg: Config) {
    0.0 < cfg.emaAlpha < 1.0 && cfg.initOuter > 0.0 && cfg.outerThresh >= 0.0
  }

  lemma DefaultIsSane()
    ensures Sane(DEFAULT) && DEFAULT.outerThresh >= 0.5
  {
  }

  datatype Peaks = Peaks(pos: real, neg: real)

  predicate Signed(p: Peaks) {
    p.neg < 0.0 < p.pos
  }

  function Times(k: real, x: real): real {
    k * x
  }

  /** One step of an exponential average. */
  function Ema(p: real, v: real, a: real): real {
    p + a * (v - p)
  }

  function Update(cfg: Config, p: Peaks, v: real): Peaks {
    if v > Times(cfg.outerThresh, p.pos) then p.(pos := Ema(p.pos, v, cfg.emaAlpha))
    else if v < Times(cfg.outerThresh, p.neg) then p.(neg := Ema(p.neg, v, cfg.emaAlpha))
    else p
  }

  /** The decision against the thresholds that the outer levels set. */
  function Level(p: Peaks, v: real): dibit {
    if v >= p.pos * 0.5 then 1 else if v >= 0.0 then 0 else if v >= p.neg * 0.5 then 2 else 3
  }

  function PeaksAfter(cfg: Config, vs: seq<real>): Peaks {
    if vs == [] then Peaks(cfg.initOuter, -cfg.initOuter)
    else Update(cfg, PeaksAfter(cfg, vs[..|vs| - 1]), vs[|vs| - 1])
  }

  /** The dibits of a symbol stream: each symbol is decided after it has updated the levels. */
  function Dibits(cfg: Config, vs: seq<real>): (ds: seq<dibit>)
    ensures |ds| == |vs|
  {
    if vs == [] then []
    else Dibits(cfg, vs[..|vs| - 1]) + [Level(PeaksAfter(cfg, vs), vs[|vs| - 1])]
  }

  lemma OneMore(cfg: Config, vs: seq<real>, v: real)
    ensures PeaksAfter(cfg, vs + [v]) == Update(cfg, PeaksAfter(cfg, vs), v)
    ensures Dibits(cfg, vs + [v]) == Dibits(cfg, vs) + [Level(Update(cfg, PeaksAfter(cfg, vs), v), v)]
  {
    hide Update, Level;
    assert (vs + [v])[..|vs|] == vs;
  }

  class Slicer {
    const cfg: Config
    var posPeak: real
    var negPeak: real
    ghost var input: seq<real>

    ghost predicate Valid()
      reads this
    {
      Peaks(posPeak, negPeak) == PeaksAfter(cfg, input)
    }

    constructor (c: Config)
      ensures Valid() && cfg == c && input == []
    {
      cfg := c;
      posPeak, negPeak := c.initOuter, -c.initOuter;
      input := [];
    }

    method DecideSymbol(v: real) returns (d: dibit)
      requires Valid()
      modifies this
      ensures Valid() && input == old(input) + [v]
      ensures Dibits(cfg, input) == Dibits(cfg, old(input)) + [d]
    {
      OneMore(cfg, input, v);
      hide PeaksAfter, Dibits;
      input := input + [v];
      var outerThreshPos := cfg.outerThresh * posPeak;
      var outerThreshNeg := cfg.outerThresh * negPeak;
      if v > outerThreshPos {
        posPeak := posPeak + cfg.emaAlpha * (v - posPeak);
      } else if v < outerThreshNeg {
        negPeak := negPeak + cfg.emaAlpha * (v - negPeak);
      }
      var thrHigh, thrZero, thrLow := posPeak * 0.5, 0.0, negPeak * 0.5;
      if v >= thrHigh {
        d := 1;
      } else if v >= thrZero {
        d := 0;
      } else if v >= thrLow {
        d := 2;
      } else {
        d := 3;
      }
    }
  }

  /** The four nominal deviations, in the ratio three to one, decide as 01, 00, 10 and 11. */
  lemma NominalLevels(p: Peaks)
    requires Signed(p)
    ensures Level(p, p.pos) == 1 && Level(p, p.pos / 3.0) == 0
    ensures Level(p, p.neg / 3.0) == 2 && Level(p, p.neg) == 3
  {
  }

  // ----- The documented comparisons -----

  /** The decision as the documentation writes it, with strict comparisons. */
  function StrictLevel(p: Peaks, v: real): dibit {
    if v > p.pos * 0.5 then 1 else if v > 0.0 then 0 else if v > p.neg * 0.5 then 2 else 3
  }

  predicate OnThreshold(p: Peaks, v: real) {
    v == p.pos * 0.5 || v == 0.0 || v == p.neg * 0.5
  }

  function StrictDibits(cfg: Config, vs: seq<real>): seq<dibit> {
    if vs == [] then []
    else StrictDibits(cfg, vs[..|vs| - 1]) + [StrictLevel(PeaksAfter(cfg, vs), vs[|vs| - 1])]
  }

  /** Symbol i lies on one of the three thresholds against which it is decided. */
  predicate SymbolOnThreshold(cfg: Config, vs: seq<real>, i: nat)
    requires i < |vs|
  {
    OnThreshold(PeaksAfter(cfg, vs[..i + 1]), vs[i])
  }

  lemma LevelIsStrictIff(p: Peaks, v: real)
    requires Signed(p)
    ensures Level(p, v) == StrictLevel(p, v) <==> !OnThreshold(p, v)
  {
  }

  /** The code decides as documented exactly on the streams none of whose symbols lies on a threshold. */
  lemma {:induction false} DibitsAreStrictIff(cfg: Config, vs: seq<real>)
    requires Sane(cfg)
    ensures |StrictDibits(cfg, vs)| == |vs|
    ensures Dibits(cfg, vs) == StrictDibits(cfg, vs) <==>
      forall i :: 0 <= i < |vs| ==> !SymbolOnThreshold(cfg, vs, i)
  {
    if vs == [] {
    } else {
      hide Level, StrictLevel, OnThreshold, PeaksAfter, SymbolOnThreshold;
      var n := |vs| - 1;
      DibitsAreStrictIff(cfg, vs[..n]);
      PeaksKeepSigns(cfg, vs);
      LevelIsStrictIff(PeaksAfter(cfg, vs), vs[n]);
      ThresholdsSnoc(cfg, vs);
      assert Dibits(cfg, vs)[..n] == Dibits(cfg, vs[..n]) && StrictDibits(cfg, vs)[..n] == StrictDibits(cfg, vs[..n]);
      assert Dibits(cfg, vs)[n] == Level(PeaksAfter(cfg, vs), vs[n]);
      assert StrictDibits(cfg, vs)[n] == StrictLevel(PeaksAfter(cfg, vs), vs[n]);
    }
  }

  /** They part at once: a first symbol of zero is documented as 10 and comes out as 00. */
  lemma ZeroIsNotStrict()
    ensures Dibits(DEFAULT, [0.0]) == [0] && StrictDibits(DEFAULT, [0.0]) == [2]
  {
    assert PeaksAfter(DEFAULT, []) == Peaks(0.02, -0.02);
    assert [0.0][..0] == [];
    var p := PeaksAfter(DEFAULT, [0.0]);
    assert p == Update(DEFAULT, Peaks(0.02, -0.02), 0.0);
    assert StrictDibits(DEFAULT, [0.0]) == [StrictLevel(p, 0.0)];
    assert Dibits(DEFAULT, [0.0]) == [Level(p, 0.0)];
  }

  // ----- The levels keep their signs -----

  lemma ProductSign(a: real, b: real)
    ensures a > 0.0 && b > 0.0 ==> a * b > 0.0
    ensures a > 0.0 && b < 0.0 ==> a * b < 0.0
    ensures a >= 0.0 && b >= 0.0 ==> a * b >= 0.0
    ensures a >= 0.0 && b <= 0.0 ==> a * b <= 0.0
  {
  }

  lemma Average(p: real, v: real, a: real)
    ensures p + a * (v - p) == (1.0 - a) * p + a * v
  {
  }

  lemma UpdateKeepsSigns(cfg: Config, p: Peaks, v: real)
    requires Sane(cfg) && Signed(p)
    ensures Signed(Update(cfg, p, v))
  {
    ProductSign(cfg.outerThresh, p.pos);
    ProductSign(cfg.outerThresh, p.neg);
    assert Times(cfg.outerThresh, p.pos) >= 0.0 >= Times(cfg.outerThresh, p.neg);
    hide Times, Ema;
    EmaKeepsSign(p.pos, v, cfg.emaAlpha);
    EmaKeepsSign(p.neg, v, cfg.emaAlpha);
  }

  lemma EmaKeepsSign(p: real, v: real, a: real)
    requires 0.0 < a < 1.0
    ensures p > 0.0 && v > 0.0 ==> Ema(p, v, a) > 0.0
    ensures p < 0.0 && v < 0.0 ==> Ema(p, v, a) < 0.0
  {
    Average(p, v, a);
    ProductSign(1.0 - a, p);
    ProductSign(a, v);
  }

  lemma {:induction false} PeaksKeepSigns(cfg: Config, vs: seq<real>)
    requires Sane(cfg)
    ensures Signed(PeaksAfter(cfg, vs))
  {
    if vs == [] {
    } else {
      hide Update;
      PeaksKeepSigns(cfg, vs[..|vs| - 1]);
      UpdateKeepsSigns(cfg, PeaksAfter(cfg, vs[..|vs| - 1]), vs[|vs| - 1]);
    }
  }

  // ----- A symbol never changes its own decision -----

  /** Updating the levels with a symbol before deciding it makes no difference to its decision. */
  ghost predicate UpdateIsInvisible(cfg: Config) {
    forall p: Peaks, v: real :: Signed(p) ==> Level(Update(cfg, p, v), v) == Level(p, v)
  }

  lemma Expand(p: real, v: real, a: real)
    ensures 2.0 * v - (p + a * (v - p)) == (1.0 - a) * (2.0 * v - p) + a * v
  {
    assert (1.0 - a) * (2.0 * v - p) == 2.0 * v - p - 2.0 * (a * v) + a * p;
    assert a * (v - p) == a * v - a * p;
  }

  lemma OuterStaysOuter(p: real, v: real, a: real, th: real)
    requires p > 0.0 && 0.0 < a < 1.0 && th >= 0.5 && v > th * p
    ensures v >= p * 0.5 && v >= (p + a * (v - p)) * 0.5
  {
    ProductSign(th - 0.5, p);
    assert (th - 0.5) * p == th * p - 0.5 * p;
    ProductSign(1.0 - a, 2.0 * v - p);
    ProductSign(a, v);
    Expand(p, v, a);
  }

  lemma OuterStaysOuterBelow(p: real, v: real, a: real, th: real)
    requires p < 0.0 && 0.0 < a < 1.0 && th >= 0.5 && v < th * p
    ensures v < 0.0 && v < p * 0.5 && v < (p + a * (v - p)) * 0.5
  {
    ProductSign(th - 0.5, p);
    assert (th - 0.5) * p == th * p - 0.5 * p;
    ProductSign(1.0 - a, 2.0 * v - p);
    ProductSign(a, v);
    Expand(p, v, a);
  }

  /**
   The update is invisible exactly when the outer region starts no lower than the
   decision threshold, at half of the outer level.
   */
  lemma UpdateIsInvisibleIff(cfg: Config)
    requires Sane(cfg)
    ensures UpdateIsInvisible(cfg) <==> cfg.outerThresh >= 0.5
  {
    var a, th := cfg.emaAlpha, cfg.outerThresh;
    if th >= 0.5 {
      forall p: Peaks, v: real | Signed(p) ensures Level(Update(cfg, p, v), v) == Level(p, v) {
        ProductSign(th, p.pos);
        ProductSign(th, p.neg);
        if v > th * p.pos {
          OuterStaysOuter(p.pos, v, a, th);
        } else if v < th * p.neg {
          OuterStaysOuterBelow(p.neg, v, a, th);
        }
      }
    } else {
      var v := VisibleBelowHalf(cfg);
      assert Signed(Peaks(1.0, -1.0));
    }
  }

  /** Below one half, a symbol just under the threshold pulls the threshold under itself. */
  lemma VisibleBelowHalf(cfg: Config) returns (v: real)
    requires Sane(cfg) && cfg.outerThresh < 0.5
    ensures Level(Update(cfg, Peaks(1.0, -1.0), v), v) != Level(Peaks(1.0, -1.0), v)
  {
    var a, th := cfg.emaAlpha, cfg.outerThresh;
    var edge := (1.0 - a) / (2.0 - a);
    assert edge * (2.0 - a) == 1.0 - a;
    ProductSign(2.0 - a, edge - 0.5);
    assert (2.0 - a) * (edge - 0.5) == edge * (2.0 - a) - (2.0 - a) * 0.5;
    assert edge < 0.5;
    v := if th > edge then (th + 0.5) * 0.5 else (edge + 0.5) * 0.5;
    var p := Peaks(1.0, -1.0);
    assert th < v < 0.5 && v > edge;
    var q := Update(cfg, p, v);
    assert q.pos == 1.0 + a * (v - 1.0);
    ProductSign(2.0 - a, v - edge);
    assert (2.0 - a) * (v - edge) == v * (2.0 - a) - edge * (2.0 - a);
    assert Level(p, v) == 0 && Level(q, v) == 1;
  }

  /** From one half upwards, each dibit is decided by the symbols before it and its own value. */
  lemma DibitIgnoresOwnUpdate(cfg: Config, vs: seq<real>, v: real)
    requires Sane(cfg) && cfg.outerThresh >= 0.5
    ensures Dibits(cfg, vs + [v]) == Dibits(cfg, vs) + [Level(PeaksAfter(cfg, vs), v)]
  {
    OneMore(cfg, vs, v);
    hide Update, Level;
    PeaksKeepSigns(cfg, vs);
    UpdateIsInvisibleIff(cfg);
  }

  /** Below one half, a first symbol exists that changes its own decision. */
  lemma FirstDibitHasOwnUpdate(cfg: Config) returns (v: real)
    requires Sane(cfg) && cfg.outerThresh < 0.5
    ensures Dibits(cfg, [] + [v]) != Dibits(cfg, []) + [Level(PeaksAfter(cfg, []), v)]
  {
    hide Update, Level, Times, ScalePeaks, Dibits, PeaksAfter;
    var k, unit := cfg.initOuter, Peaks(1.0, -1.0);
    var u := VisibleBelowHalf(cfg);
    v := Times(k, u);
    InitialPeaks(cfg);
    ScaledUpdate(cfg, unit, u, k);
    ScaledLevel(unit, u, k);
    ScaledLevel(Update(cfg, unit, u), u, k);
    OneMore(cfg, [], v);
    var was := Dibits(cfg, []);
    assert Dibits(cfg, [] + [v])[|was|] != (was + [Level(PeaksAfter(cfg, []), v)])[|was|];
  }

  lemma InitialPeaks(cfg: Config)
    ensures PeaksAfter(cfg, []) == ScalePeaks(cfg.initOuter, Peaks(1.0, -1.0))
  {
  }

  /** Every dibit of every stream is decided against the levels that stand before its symbol updates them. */
  ghost predicate IgnoresOwnUpdates(cfg: Config) {
    forall vs: seq<real>, v: real :: Dibits(cfg, vs + [v]) == Dibits(cfg, vs) + [Level(PeaksAfter(cfg, vs), v)]
  }

  lemma IgnoresOwnUpdatesIff(cfg: Config)
    requires Sane(cfg)
    ensures IgnoresOwnUpdates(cfg) <==> cfg.outerThresh >= 0.5
  {
    hide Dibits, PeaksAfter, Level;
    if cfg.outerThresh >= 0.5 {
      forall vs: seq<real>, v: real
        ensures Dibits(cfg, vs + [v]) == Dibits(cfg, vs) + [Level(PeaksAfter(cfg, vs), v)]
      {
        DibitIgnoresOwnUpdate(cfg, vs, v);
      }
    } else {
      var v := FirstDibitHasOwnUpdate(cfg);
    }
  }

  // ----- Mirror images -----

  function Negated(vs: seq<real>): (r: seq<real>)
    ensures |r| == |vs| && forall i :: 0 <= i < |vs| ==> r[i] == -vs[i]
  {
    seq(|vs|, i requires 0 <= i < |vs| => -vs[i])
  }

  /** The dibit of the opposite deviation. */
  function Opposite(d: dibit): dibit {
    match d
    case 0 => 2
    case 1 => 3
    case 2 => 0
    case 3 => 1
  }

  function Opposites(ds: seq<dibit>): (r: seq<dibit>)
    ensures |r| == |ds| && forall i :: 0 <= i < |ds| ==> r[i] == Opposite(ds[i])
  {
    seq<dibit>(|ds|, i requires 0 <= i < |ds| => Opposite(ds[i]))
  }

  function Swapped(p: Peaks): Peaks {
    Peaks(-p.neg, -p.pos)
  }

  lemma NegatedProducts(k: real, p: real, v: real)
    ensures Times(k, -p) == -Times(k, p) && Ema(-p, -v, k) == -Ema(p, v, k)
  {
    var d := v - p;
    assert k * -d == -(k * d);
    assert Ema(-p, -v, k) == -p + k * -d;
  }

  lemma UpdateMirrors(cfg: Config, p: Peaks, v: real)
    requires cfg.outerThresh >= 0.0 && Signed(p)
    ensures Update(cfg, Swapped(p), -v) == Swapped(Update(cfg, p, v))
  {
    ProductSign(cfg.outerThresh, p.pos);
    ProductSign(cfg.outerThresh, p.neg);
    NegatedProducts(cfg.outerThresh, p.pos, v);
    NegatedProducts(cfg.outerThresh, p.neg, v);
    NegatedProducts(cfg.emaAlpha, p.pos, v);
    NegatedProducts(cfg.emaAlpha, p.neg, v);
    assert Times(cfg.outerThresh, p.pos) >= 0.0 >= Times(cfg.outerThresh, p.neg);
    hide Times, Ema;
  }

  lemma LevelMirrorsIff(p: Peaks, v: real)
    requires Signed(p)
    ensures Level(Swapped(p), -v) == Opposite(Level(p, v)) <==> !OnThreshold(p, v)
  {
  }

  /** Negating all symbols swaps and negates the outer levels. */
  lemma {:induction false} PeaksMirror(cfg: Config, vs: seq<real>)
    requires Sane(cfg)
    ensures PeaksAfter(cfg, Negated(vs)) == Swapped(PeaksAfter(cfg, vs))
  {
    if vs == [] {
    } else {
      hide Update;
      var n := |vs| - 1;
      PeaksMirror(cfg, vs[..n]);
      PeaksKeepSigns(cfg, vs[..n]);
      assert Negated(vs)[..n] == Negated(vs[..n]);
      UpdateMirrors(cfg, PeaksAfter(cfg, vs[..n]), vs[n]);
    }
  }

  /** It turns every dibit into its opposite exactly if no symbol lies on a threshold. */
  lemma {:induction false} DibitsMirrorIff(cfg: Config, vs: seq<real>)
    requires Sane(cfg)
    ensures Dibits(cfg, Negated(vs)) == Opposites(Dibits(cfg, vs)) <==>
      forall i :: 0 <= i < |vs| ==> !SymbolOnThreshold(cfg, vs, i)
  {
    DibitsAreStrictIff(cfg, vs);
    if vs == [] {
    } else {
      var n := |vs| - 1;
      var us := vs[..n];
      DibitsMirrorIff(cfg, us);
      PeaksKeepSigns(cfg, vs);
      PeaksMirror(cfg, vs);
      LevelMirrorsIff(PeaksAfter(cfg, vs), vs[n]);
      LastOpposite(cfg, vs);
      ThresholdsSnoc(cfg, vs);
    }
  }

  lemma LastOpposite(cfg: Config, vs: seq<real>)
    requires vs != []
    ensures var n := |vs| - 1;
      Dibits(cfg, Negated(vs)) == Opposites(Dibits(cfg, vs)) <==>
        && Dibits(cfg, Negated(vs[..n])) == Opposites(Dibits(cfg, vs[..n]))
        && Level(PeaksAfter(cfg, Negated(vs)), -vs[n]) == Opposite(Level(PeaksAfter(cfg, vs), vs[n]))
  {
    hide Level, PeaksAfter, Opposite;
    var n := |vs| - 1;
    var a, b := Dibits(cfg, Negated(vs)), Dibits(cfg, vs);
    assert Negated(vs)[..n] == Negated(vs[..n]);
    var a', b', x, y := Dibits(cfg, Negated(vs[..n])), Dibits(cfg, vs[..n]), Level(PeaksAfter(cfg, Negated(vs)), -vs[n]), Level(PeaksAfter(cfg, vs), vs[n]);
    assert a == a' + [x] && b == b' + [y];
    assert Opposites(b) == Opposites(b') + [Opposite(y)];
    assert a[..n] == a' && Opposites(b)[..n] == Opposites(b');
  }

  lemma ThresholdsSnoc(cfg: Config, vs: seq<real>)
    requires vs != []
    ensures var n := |vs| - 1;
      (forall i :: 0 <= i < |vs| ==> !SymbolOnThreshold(cfg, vs, i)) <==>
        && (forall i :: 0 <= i < n ==> !SymbolOnThreshold(cfg, vs[..n], i))
        && !OnThreshold(PeaksAfter(cfg, vs), vs[n])
  {
    hide OnThreshold, PeaksAfter;
    var n := |vs| - 1;
    forall i | 0 <= i < n ensures SymbolOnThreshold(cfg, vs, i) <==> SymbolOnThreshold(cfg, vs[..n], i) {
      assert vs[..i + 1] == vs[..n][..i + 1];
    }
    assert vs[..n + 1] == vs;
    assert SymbolOnThreshold(cfg, vs, n) <==> OnThreshold(PeaksAfter(cfg, vs), vs[n]);
  }

  // ----- How the outer levels follow the symbols -----

  function Power(x: real, n: nat): real {
    if n == 0 then 1.0 else Times(x, Power(x, n - 1))
  }

  function Repeated(v: real, n: nat): (r: seq<real>)
    ensures |r| == n && forall i :: 0 <= i < n ==> r[i] == v
  {
    seq(n, i => v)
  }

  /** A symbol in the inner region leaves both levels alone. */
  lemma InnerLeavesLevels(cfg: Config, vs: seq<real>, v: real)
    requires cfg.outerThresh * PeaksAfter(cfg, vs).neg <= v <= cfg.outerThresh * PeaksAfter(cfg, vs).pos
    ensures PeaksAfter(cfg, vs + [v]) == PeaksAfter(cfg, vs)
  {
    OneMore(cfg, vs, v);
    hide PeaksAfter, Dibits;
  }

  /** A level that has come to v up to a rest of w. */
  function Mixture(level: real, v: real, w: real): real {
    v + w * (level - v)
  }

  lemma EmaOfMixture(level: real, v: real, a: real, w: real)
    ensures Ema(Mixture(level, v, w), v, a) == Mixture(level, v, Times(1.0 - a, w))
    ensures Mixture(level, v, 1.0) == level
    ensures Mixture(-level, -v, w) == -Mixture(level, v, w)
  {
    var e := level - v;
    var d := w * e;
    assert a * -d == -(a * d) && w * -e == -d;
    assert Ema(Mixture(level, v, w), v, a) == v + d + a * -d;
    assert (1.0 - a) * w * e == (1.0 - a) * d == d - a * d;
    assert Mixture(-level, -v, w) == -v + w * -e;
  }

  /** A symbol stays outer while the level moves towards it. */
  lemma StaysOuter(cfg: Config, p: real, v: real)
    requires Sane(cfg) && cfg.outerThresh <= 1.0 && p > 0.0 && v > Times(cfg.outerThresh, p)
    ensures v > Times(cfg.outerThresh, Ema(p, v, cfg.emaAlpha))
  {
    var th, a := cfg.outerThresh, cfg.emaAlpha;
    ProductSign(th, p);
    ProductSign(1.0 - a, v - th * p);
    ProductSign(1.0 - th, v);
    ProductSign(a, (1.0 - th) * v);
    Average(p, v, a);
    assert th * ((1.0 - a) * p + a * v) == (1.0 - a) * (th * p) + a * (th * v);
    assert (1.0 - a) * (v - th * p) == (1.0 - a) * v - (1.0 - a) * (th * p);
    assert a * ((1.0 - th) * v) == a * v - a * (th * v);
  }

  lemma FollowStep(cfg: Config, p: Peaks, q: Peaks, v: real, w: real)
    requires q == Peaks(Mixture(p.pos, v, w), p.neg) && v > Times(cfg.outerThresh, q.pos)
    ensures Update(cfg, q, v) == Peaks(Mixture(p.pos, v, Times(1.0 - cfg.emaAlpha, w)), p.neg)
  {
    hide Times, Ema, Mixture;
    EmaOfMixture(p.pos, v, cfg.emaAlpha, w);
  }

  /** After the stream, v is above the positive outer threshold, or below the negative one. */
  ghost predicate Above(cfg: Config, vs: seq<real>, v: real) {
    v > Times(cfg.outerThresh, PeaksAfter(cfg, vs).pos)
  }

  ghost predicate Below(cfg: Config, vs: seq<real>, v: real) {
    v < Times(cfg.outerThresh, PeaksAfter(cfg, vs).neg)
  }

  /** Each of n equal symbols is an outer one when its turn comes. */
  ghost predicate OuterAbove(cfg: Config, vs: seq<real>, v: real, n: nat) {
    forall k: nat :: k < n ==> Above(cfg, vs + Repeated(v, k), v)
  }

  ghost predicate OuterBelow(cfg: Config, vs: seq<real>, v: real, n: nat) {
    forall k: nat :: k < n ==> Below(cfg, vs + Repeated(v, k), v)
  }

  lemma {:induction false} LevelFollows(cfg: Config, vs: seq<real>, v: real, n: nat)
    requires OuterAbove(cfg, vs, v, n)
    ensures var p := PeaksAfter(cfg, vs);
      PeaksAfter(cfg, vs + Repeated(v, n)) == Peaks(Mixture(p.pos, v, Power(1.0 - cfg.emaAlpha, n)), p.neg)
  {
    hide PeaksAfter, Dibits, Times, Ema, Mixture, Level, Update;
    var p := PeaksAfter(cfg, vs);
    if n == 0 {
      assert vs + Repeated(v, 0) == vs;
      EmaOfMixture(p.pos, v, 0.0, 1.0);
    } else {
      var us := vs + Repeated(v, n - 1);
      assert vs + Repeated(v, n) == us + [v];
      LevelFollows(cfg, vs, v, n - 1);
      OneMore(cfg, us, v);
      FollowStep(cfg, p, PeaksAfter(cfg, us), v, Power(1.0 - cfg.emaAlpha, n - 1));
    }
  }

  /** After n equal outer symbols v, positive ones, the positive level is v + (1 - a)^n (level - v). */
  lemma PositiveLevelFollows(cfg: Config, vs: seq<real>, v: real, n: nat)
    requires Sane(cfg) && OuterAbove(cfg, vs, v, n)
    ensures var p := PeaksAfter(cfg, vs);
      PeaksAfter(cfg, vs + Repeated(v, n)) == Peaks(v + Power(1.0 - cfg.emaAlpha, n) * (p.pos - v), p.neg)
  {
    hide PeaksAfter, Power, OuterAbove;
    LevelFollows(cfg, vs, v, n);
  }

  lemma RunMirrors(cfg: Config, vs: seq<real>, v: real, n: nat)
    requires Sane(cfg)
    ensures Negated(vs + Repeated(v, n)) == Negated(vs) + Repeated(-v, n)
    ensures PeaksAfter(cfg, Negated(vs) + Repeated(-v, n)) == Swapped(PeaksAfter(cfg, vs + Repeated(v, n)))
  {
    hide PeaksAfter;
    assert Negated(vs + Repeated(v, n)) == Negated(vs) + Repeated(-v, n);
    PeaksMirror(cfg, vs + Repeated(v, n));
  }

  lemma BelowMirrors(cfg: Config, vs: seq<real>, v: real, k: nat)
    requires Sane(cfg)
    ensures Below(cfg, vs + Repeated(v, k), v) <==> Above(cfg, Negated(vs) + Repeated(-v, k), -v)
  {
    hide PeaksAfter, Times, Negated, Repeated;
    RunMirrors(cfg, vs, v, k);
    NegatedProducts(cfg.outerThresh, PeaksAfter(cfg, vs + Repeated(v, k)).neg, v);
  }

  lemma OuterMirrors(cfg: Config, vs: seq<real>, v: real, n: nat)
    requires Sane(cfg)
    ensures OuterBelow(cfg, vs, v, n) <==> OuterAbove(cfg, Negated(vs), -v, n)
  {
    hide Above, Below, Negated, Repeated;
    var us, w := Negated(vs), -v;
    forall k: nat | k < n ensures Below(cfg, vs + Repeated(v, k), v) <==> Above(cfg, us + Repeated(w, k), w) {
      BelowMirrors(cfg, vs, v, k);
    }
  }

  /** The negative level follows negative ones in the same way. */
  lemma NegativeLevelFollows(cfg: Config, vs: seq<real>, v: real, n: nat)
    requires Sane(cfg) && OuterBelow(cfg, vs, v, n)
    ensures var p := PeaksAfter(cfg, vs);
      PeaksAfter(cfg, vs + Repeated(v, n)) == Peaks(p.pos, v + Power(1.0 - cfg.emaAlpha, n) * (p.neg - v))
  {
    hide PeaksAfter, Power, OuterAbove, OuterBelow;
    PeaksMirror(cfg, vs);
    RunMirrors(cfg, vs, v, n);
    OuterMirrors(cfg, vs, v, n);
    LevelFollows(cfg, Negated(vs), -v, n);
    EmaOfMixture(PeaksAfter(cfg, vs).neg, v, 0.0, Power(1.0 - cfg.emaAlpha, n));
  }

  lemma {:induction false} AboveForGood(cfg: Config, vs: seq<real>, v: real, n: nat)
    requires Sane(cfg) && cfg.outerThresh <= 1.0 && Above(cfg, vs, v)
    ensures Above(cfg, vs + Repeated(v, n), v)
  {
    hide PeaksAfter, Dibits, Times, Ema, Level;
    if n == 0 {
      assert vs + Repeated(v, 0) == vs;
    } else {
      var us := vs + Repeated(v, n - 1);
      assert vs + Repeated(v, n) == us + [v];
      AboveForGood(cfg, vs, v, n - 1);
      PeaksKeepSigns(cfg, us);
      OneMore(cfg, us, v);
      StaysOuter(cfg, PeaksAfter(cfg, us).pos, v);
    }
  }

  lemma OuterAboveForGood(cfg: Config, vs: seq<real>, v: real, n: nat)
    requires Sane(cfg) && cfg.outerThresh <= 1.0 && Above(cfg, vs, v)
    ensures OuterAbove(cfg, vs, v, n)
  {
    hide Above;
    forall k: nat | k < n ensures Above(cfg, vs + Repeated(v, k), v) {
      AboveForGood(cfg, vs, v, k);
    }
  }

  /** With an outer fraction of at most one, a symbol that is outer stays so however often it is repeated. */
  lemma OuterForGood(cfg: Config, vs: seq<real>, v: real, n: nat)
    requires Sane(cfg) && cfg.outerThresh <= 1.0
    ensures Above(cfg, vs, v) ==> OuterAbove(cfg, vs, v, n)
    ensures Below(cfg, vs, v) ==> OuterBelow(cfg, vs, v, n)
  {
    hide Above, Below, OuterAbove, OuterBelow, Negated;
    if Above(cfg, vs, v) {
      OuterAboveForGood(cfg, vs, v, n);
    }
    if Below(cfg, vs, v) {
      BelowMirrors(cfg, vs, v, 0);
      assert vs + Repeated(v, 0) == vs && Negated(vs) + Repeated(-v, 0) == Negated(vs);
      OuterAboveForGood(cfg, Negated(vs), -v, n);
      OuterMirrors(cfg, vs, v, n);
    }
  }

  /** The first symbol under the configuration in use: outer from 0.012 on, and a step of one hundredth. */
  lemma FirstSymbolOfDefault(v: real)
    ensures PeaksAfter(DEFAULT, [v]) ==
      if v > 0.012 then Peaks(0.02 + 0.01 * (v - 0.02), -0.02)
      else if v < -0.012 then Peaks(0.02, -0.02 + 0.01 * (v + 0.02))
      else Peaks(0.02, -0.02)
  {
    assert PeaksAfter(DEFAULT, []) == Peaks(0.02, -0.02);
    assert [v][..0] == [];
    assert PeaksAfter(DEFAULT, [v]) == Update(DEFAULT, Peaks(0.02, -0.02), v);
  }

  // ----- Scale -----

  function Scale(k: real, vs: seq<real>): (r: seq<real>)
    ensures |r| == |vs| && forall i :: 0 <= i < |vs| ==> r[i] == Times(k, vs[i])
  {
    seq(|vs|, i requires 0 <= i < |vs| => Times(k, vs[i]))
  }

  function ScalePeaks(k: real, p: Peaks): Peaks {
    Peaks(Times(k, p.pos), Times(k, p.neg))
  }

  lemma ScaledOrder(k: real, a: real, b: real)
    requires k > 0.0
    ensures Times(k, a) > Times(k, b) <==> a > b
  {
    if a > b {
      ProductSign(k, a - b);
    } else {
      ProductSign(k, b - a);
    }
    assert k * a - k * b == k * (a - b) && k * b - k * a == k * (b - a);
  }

  lemma ScaledSide(th: real, a: real, p: real, v: real, k: real)
    requires k > 0.0
    ensures Times(k, v) > Times(th, Times(k, p)) <==> v > Times(th, p)
    ensures Times(k, v) < Times(th, Times(k, p)) <==> v < Times(th, p)
    ensures Ema(Times(k, p), Times(k, v), a) == Times(k, Ema(p, v, a))
  {
    assert th * (k * p) == k * (th * p);
    ScaledOrder(k, v, Times(th, p));
    ScaledOrder(k, Times(th, p), v);
    assert k * v - k * p == k * (v - p) && a * (k * (v - p)) == k * (a * (v - p));
    assert k * (p + a * (v - p)) == k * p + k * (a * (v - p));
  }

  lemma ScaledUpdate(cfg: Config, p: Peaks, v: real, k: real)
    requires k > 0.0
    ensures Update(cfg, ScalePeaks(k, p), Times(k, v)) == ScalePeaks(k, Update(cfg, p, v))
  {
    hide Times, Ema;
    ScaledSide(cfg.outerThresh, cfg.emaAlpha, p.pos, v, k);
    ScaledSide(cfg.outerThresh, cfg.emaAlpha, p.neg, v, k);
  }

  lemma ScaledLevel(p: Peaks, v: real, k: real)
    requires k > 0.0
    ensures Level(ScalePeaks(k, p), Times(k, v)) == Level(p, v)
  {
    assert Times(k, p.pos) * 0.5 == Times(k, p.pos * 0.5) && Times(k, p.neg) * 0.5 == Times(k, p.neg * 0.5);
    assert Times(k, 0.0) == 0.0;
    ScaledOrder(k, p.pos * 0.5, v);
    ScaledOrder(k, p.neg * 0.5, v);
    ScaledOrder(k, 0.0, v);
    hide Times;
  }

  /** Scaling the symbols and the initial level by the same factor leaves the dibits alone. */
  lemma {:induction false} DibitsAreScaleFree(cfg: Config, vs: seq<real>, k: real)
    requires k > 0.0
    ensures var c := cfg.(initOuter := Times(k, cfg.initOuter));
      && PeaksAfter(c, Scale(k, vs)) == ScalePeaks(k, PeaksAfter(cfg, vs))
      && Dibits(c, Scale(k, vs)) == Dibits(cfg, vs)
  {
    var c := cfg.(initOuter := Times(k, cfg.initOuter));
    if vs == [] {
      assert Times(k, -cfg.initOuter) == -Times(k, cfg.initOuter);
    } else {
      hide Update, Level, Times, ScalePeaks;
      var n := |vs| - 1;
      DibitsAreScaleFree(cfg, vs[..n], k);
      assert Scale(k, vs)[..n] == Scale(k, vs[..n]);
      var p := PeaksAfter(cfg, vs[..n]);
      ScaledUpdate(cfg, p, vs[n], k);
      SameUpdate(cfg, c, ScalePeaks(k, p), Times(k, vs[n]));
      ScaledLevel(PeaksAfter(cfg, vs), vs[n], k);
    }
  }

  /** The initial level plays no part in an update. */
  lemma SameUpdate(cfg: Config, c: Config, p: Peaks, v: real)
    requires c.emaAlpha == cfg.emaAlpha && c.outerThresh == cfg.outerThresh
    ensures Update(c, p, v) == Update(cfg, p, v)
  {
  }
}
