/**
 The channel filter over the reals: convert a pair of bytes, mix it with the oscillator,
 shift it into the delay line, and on every D-th sample emit the dot product of the taps
 with the delay line. It is proved to emit, in whatever blocks its input comes, the
 decimated convolution of the mixed input.

 The taps, the oscillator's step and the magnitude of a complex number are given: they take
 sines, cosines and square roots. All that is known of them is that the step, a cosine and
 a sine of one angle, lies on the unit circle, and which square the magnitude has.
 */
module ChannelFilter {
  import opened Bits
  import opened Words
  import History

  datatype Complex = Complex(re: real, im: real) {
    function Plus(o: Complex): Complex {
      Complex(re + o.re, im + o.im)
    }

    function Mul(o: Complex): Complex {
      Complex(re * o.re - im * o.im, re * o.im + im * o.re)
    }

    function Scaled(k: real): Complex {
      Complex(k * re, k * im)
    }

    function Over(k: real): Complex
      requires k != 0.0
    {
      Complex(re / k, im / k)
    }

    function Squared(): real {
      re * re + im * im
    }
  }

  const ZERO := Complex(0.0, 0.0)
  const ONE := Complex(1.0, 0.0)
  const RENORM: nat := 1024

  /** What the constructor computes once, and the magnitude of the standard library. */
  datatype Design = Design(taps: seq<real>, decimation: nat, step: Complex, magnitude: Complex -> real)

  ghost predicate IsMagnitude(f: Complex -> real) {
    forall z: Complex :: f(z) >= 0.0 && f(z) * f(z) == z.Squared()
  }

  ghost predicate Usable(d: Design) {
    |d.taps| % 2 == 1 && d.decimation > 0 && d.step.Squared() == 1.0 && IsMagnitude(d.magnitude)
  }

  // ----- The reference -----

  /** The oscillator at sample k: the k-th power of the step. */
  function Oscillator(d: Design, k: nat): Complex {
    if k == 0 then ONE else Oscillator(d, k - 1).Mul(d.step)
  }

  function Converted(i: byte, q: byte): Complex {
    Complex((i as real - 127.5) / 127.5, (q as real - 127.5) / 127.5)
  }

  /** The stream of byte pairs, converted and mixed. */
  function Mixed(d: Design, raw: seq<(byte, byte)>): (zs: seq<Complex>)
    ensures |zs| == |raw|
  {
    seq(|raw|, k requires 0 <= k < |raw| => Converted(raw[k].0, raw[k].1).Mul(Oscillator(d, k)))
  }

  /** Sample k of a stream, zero outside of it. */
  function At(zs: seq<Complex>, k: int): Complex {
    History.Padded(zs, k, ZERO)
  }

  /** The first j taps against the stream, newest sample n. */
  function Convolution(taps: seq<real>, zs: seq<Complex>, n: int, j: nat): Complex
    requires j <= |taps|
  {
    if j == 0 then ZERO else Convolution(taps, zs, n, j - 1).Plus(At(zs, n - (j - 1)).Scaled(taps[j - 1]))
  }

  /** Output m: the convolution at input sample D m + D - 1. */
  function Output(d: Design, zs: seq<Complex>, m: nat): Complex {
    Convolution(d.taps, zs, d.decimation * m + d.decimation - 1, |d.taps|)
  }

  function Decimated(d: Design, zs: seq<Complex>): (out: seq<Complex>)
    requires d.decimation > 0
    ensures |out| == Periods(|zs|, d.decimation)
    ensures forall m :: 0 <= m < |out| ==> out[m] == Output(d, zs, m)
  {
    seq(Periods(|zs|, d.decimation), m requires 0 <= m < Periods(|zs|, d.decimation) => Output(d, zs, m))
  }

  function Outputs(d: Design, raw: seq<(byte, byte)>): seq<Complex>
    requires d.decimation > 0
  {
    Decimated(d, Mixed(d, raw))
  }

  /** How many whole decimation periods n samples make. */
  function Periods(n: nat, period: nat): nat
    requires period > 0
  {
    n / period
  }

  // ----- The oscillator -----

  lemma SquaresMultiply(a: real, b: real, c: real, e: real)
    ensures (a * c - b * e) * (a * c - b * e) + (a * e + b * c) * (a * e + b * c) == (a * a + b * b) * (c * c + e * e)
  {
  }

  lemma UnitsMultiply(z: Complex, w: Complex)
    requires z.Squared() == 1.0 && w.Squared() == 1.0
    ensures z.Mul(w).Squared() == 1.0
  {
    SquaresMultiply(z.re, z.im, w.re, w.im);
  }

  lemma {:induction false} OscillatorIsUnit(d: Design, k: nat)
    requires d.step.Squared() == 1.0
    ensures Oscillator(d, k).Squared() == 1.0
  {
    if k == 0 {
      assert Oscillator(d, k) == ONE;
    } else {
      hide Complex.Squared, Complex.Mul;
      OscillatorIsUnit(d, k - 1);
      UnitsMultiply(Oscillator(d, k - 1), d.step);
    }
  }

  lemma ProductGrows(m: real, k: real)
    requires m >= 0.0
    ensures k <= 1.0 ==> m * k <= m
    ensures k >= 1.0 ==> m * k >= m
  {
  }

  lemma UnitRoot(m: real)
    requires m >= 0.0 && m * m == 1.0
    ensures m == 1.0
  {
    ProductGrows(m, m);
  }

  /** The oscillator stays on the unit circle, so that renormalising it leaves it where it is. */
  lemma OscillatorIsNormal(d: Design, k: nat)
    requires d.step.Squared() == 1.0 && IsMagnitude(d.magnitude)
    ensures d.magnitude(Oscillator(d, k)) != 0.0
    ensures Oscillator(d, k).Over(d.magnitude(Oscillator(d, k))) == Oscillator(d, k)
  {
    OscillatorIsUnit(d, k);
    UnitRoot(d.magnitude(Oscillator(d, k)));
    hide Oscillator, Complex.Squared;
  }

  lemma OscillatorSucc(d: Design, k: nat)
    ensures Oscillator(d, k + 1) == Oscillator(d, k).Mul(d.step)
  {
    hide Complex.Mul;
  }

  // ----- One more sample -----

  lemma {:induction false} ConvolutionIsStable(taps: seq<real>, zs: seq<Complex>, more: seq<Complex>, n: int, j: nat)
    requires j <= |taps| && zs <= more && n < |zs|
    ensures Convolution(taps, more, n, j) == Convolution(taps, zs, n, j)
  {
    if j == 0 {
    } else {
      ConvolutionIsStable(taps, zs, more, n, j - 1);
      assert At(more, n - (j - 1)) == At(zs, n - (j - 1));
    }
  }

  lemma MixedSnoc(d: Design, raw: seq<(byte, byte)>, p: (byte, byte))
    ensures Mixed(d, raw + [p]) == Mixed(d, raw) + [Converted(p.0, p.1).Mul(Oscillator(d, |raw|))]
  {
    hide Converted, Complex.Mul, Oscillator;
  }

  lemma SlotSnoc(n: nat, m: nat)
    requires m > 0
    ensures Slot(n + 1, m) == if Slot(n, m) + 1 == m then 0 else Slot(n, m) + 1
  {
    var q, r := n / m, n % m;
    assert n == m * q + r;
    if r + 1 == m {
      assert n + 1 == m * (q + 1);
      Remainder(n + 1, m, q + 1, 0);
    } else {
      Remainder(n + 1, m, q, r + 1);
    }
  }

  lemma PeriodsSnoc(n: nat, m: nat)
    requires m > 0
    ensures Periods(n + 1, m) == Periods(n, m) + if Slot(n, m) + 1 == m then 1 else 0
  {
    var q, r := n / m, n % m;
    assert n == m * q + r;
    if r + 1 == m {
      assert n + 1 == m * (q + 1);
      Remainder(n + 1, m, q + 1, 0);
    } else {
      Remainder(n + 1, m, q, r + 1);
    }
  }

  lemma OutputIsStable(d: Design, zs: seq<Complex>, more: seq<Complex>, m: nat)
    requires d.decimation > 0 && zs <= more && m < Periods(|zs|, d.decimation)
    ensures Output(d, more, m) == Output(d, zs, m)
  {
    OutputIsPast(|zs|, d.decimation, m);
    ConvolutionIsStable(d.taps, zs, more, d.decimation * m + d.decimation - 1, |d.taps|);
  }

  lemma OutputIsPast(n: nat, period: nat, m: nat)
    requires period > 0 && m < Periods(n, period)
    ensures 0 <= period * m + period - 1 < n
  {
    var q := n / period;
    assert n == period * q + n % period;
    assert period * q == period * m + period * (q - m);
    Product(period, q - m);
    Product(period, m);
  }

  lemma LastOutput(d: Design, zs: seq<Complex>, n: nat)
    requires d.decimation > 0 && Slot(n, d.decimation) + 1 == d.decimation
    ensures Output(d, zs, Periods(n, d.decimation)) == Convolution(d.taps, zs, n, |d.taps|)
  {
    var q := Periods(n, d.decimation);
    assert n == d.decimation * q + Slot(n, d.decimation);
  }

  lemma DecimatedSnoc(d: Design, zs: seq<Complex>, z: Complex)
    requires d.decimation > 0
    ensures Decimated(d, zs + [z]) == Decimated(d, zs) +
      if Slot(|zs|, d.decimation) + 1 == d.decimation then [Convolution(d.taps, zs + [z], |zs|, |d.taps|)] else []
  {
    hide Convolution, Output, Decimated, Periods, Slot;
    var before, after := Decimated(d, zs), Decimated(d, zs + [z]);
    PeriodsSnoc(|zs|, d.decimation);
    assert |zs + [z]| == |zs| + 1;
    assert |after| >= |before|;
    forall m: nat | m < |before| ensures after[m] == before[m] {
      OutputIsStable(d, zs, zs + [z], m);
    }
    if Slot(|zs|, d.decimation) + 1 == d.decimation {
      LastOutput(d, zs + [z], |zs|);
      AtMostOneMore(before, after, [Convolution(d.taps, zs + [z], |zs|, |d.taps|)]);
    } else {
      AtMostOneMore(before, after, []);
    }
  }

  lemma AtMostOneMore<T>(before: seq<T>, after: seq<T>, more: seq<T>)
    requires |more| <= 1 && |after| == |before| + |more|
    requires forall m :: 0 <= m < |before| ==> after[m] == before[m]
    requires more != [] ==> after[|before|] == more[0]
    ensures after == before + more
  {
  }

  lemma OutputsSnoc(d: Design, raw: seq<(byte, byte)>, p: (byte, byte))
    requires d.decimation > 0
    ensures Outputs(d, raw + [p]) == Outputs(d, raw) +
      if Slot(|raw|, d.decimation) + 1 == d.decimation
      then [Convolution(d.taps, Mixed(d, raw + [p]), |raw|, |d.taps|)] else []
  {
    hide Convolution, Decimated, Slot, Mixed, Converted, Complex.Mul, Oscillator;
    MixedSnoc(d, raw, p);
    DecimatedSnoc(d, Mixed(d, raw), Converted(p.0, p.1).Mul(Oscillator(d, |raw|)));
  }

  /** The line holds the newest samples of a stream, the newest first. */
  ghost predicate Holds(zs: seq<Complex>, line: seq<Complex>) {
    forall j :: 0 <= j < |line| ==> line[j] == At(zs, |zs| - 1 - j)
  }

  /** A delay line that holds the newest samples still does after one more is shifted in. */
  lemma DelayLineMoves(zs: seq<Complex>, z: Complex, line: seq<Complex>)
    requires line != [] && Holds(zs, line)
    ensures Holds(zs + [z], [z] + line[..|line| - 1])
  {
  }

  // ----- What the filter does to a stream -----

  function Sum(xs: seq<Complex>, ys: seq<Complex>): (r: seq<Complex>)
    requires |xs| == |ys|
    ensures |r| == |xs| && forall k :: 0 <= k < |xs| ==> r[k] == Complex(xs[k].re + ys[k].re, xs[k].im + ys[k].im)
  {
    seq(|xs|, k requires 0 <= k < |xs| => Complex(xs[k].re + ys[k].re, xs[k].im + ys[k].im))
  }

  lemma ScaledSum(x: Complex, y: Complex, t: real)
    ensures Complex(x.re + y.re, x.im + y.im).Scaled(t) == x.Scaled(t).Plus(y.Scaled(t))
    ensures ZERO.Scaled(t) == ZERO
  {
    assert t * (x.re + y.re) == t * x.re + t * y.re && t * (x.im + y.im) == t * x.im + t * y.im;
  }

  /** The output for a sum of streams is the sum of the outputs. */
  lemma {:induction false} FilterIsAdditive(taps: seq<real>, xs: seq<Complex>, ys: seq<Complex>, n: int, j: nat)
    requires |xs| == |ys| && j <= |taps|
    ensures var x, y := Convolution(taps, xs, n, j), Convolution(taps, ys, n, j);
      Convolution(taps, Sum(xs, ys), n, j) == Complex(x.re + y.re, x.im + y.im)
  {
    if j == 0 {
    } else {
      FilterIsAdditive(taps, xs, ys, n, j - 1);
      var k := n - (j - 1);
      ScaledSum(At(xs, k), At(ys, k), taps[j - 1]);
      assert At(Sum(xs, ys), k) == Complex(At(xs, k).re + At(ys, k).re, At(xs, k).im + At(ys, k).im);
      hide Complex.Scaled, At, Sum;
    }
  }

  /** The stream is zero everywhere but at place k. */
  ghost predicate IsImpulse(zs: seq<Complex>, k: nat) {
    k < |zs| && forall i :: 0 <= i < |zs| && i != k ==> zs[i] == Complex(0.0, 0.0)
  }

  lemma {:induction false} ImpulseUpTo(taps: seq<real>, zs: seq<Complex>, k: nat, n: int, j: nat)
    requires IsImpulse(zs, k) && j <= |taps|
    ensures Convolution(taps, zs, n, j) ==
      if 0 <= n - k < j then Complex(taps[n - k] * zs[k].re, taps[n - k] * zs[k].im) else Complex(0.0, 0.0)
  {
    if j == 0 {
    } else {
      ImpulseUpTo(taps, zs, k, n, j - 1);
      ScaledSum(ZERO, ZERO, taps[j - 1]);
      assert n - (j - 1) != k ==> At(zs, n - (j - 1)) == ZERO;
    }
  }

  /** An impulse z at place k comes out as z times the tap that has reached it, and as zero once none has. */
  lemma ImpulseResponse(d: Design, zs: seq<Complex>, k: nat, m: nat)
    requires IsImpulse(zs, k)
    ensures var j := d.decimation * m + d.decimation - 1 - k;
      Output(d, zs, m) ==
        if 0 <= j < |d.taps| then Complex(d.taps[j] * zs[k].re, d.taps[j] * zs[k].im) else Complex(0.0, 0.0)
  {
    hide Convolution, IsImpulse;
    var n := d.decimation * m + d.decimation - 1;
    ImpulseUpTo(d.taps, zs, k, n, |d.taps|);
  }

  function Total(taps: seq<real>): real {
    if taps == [] then 0.0 else Total(taps[..|taps| - 1]) + taps[|taps| - 1]
  }

  /** A constant stream comes out scaled by the sum of the taps, once it fills the delay line. */
  lemma {:induction false} ConstantResponse(taps: seq<real>, zs: seq<Complex>, z: Complex, n: int, j: nat)
    requires j <= |taps| <= n + 1 <= |zs| && forall k :: 0 <= k < |zs| ==> zs[k] == z
    ensures Convolution(taps, zs, n, j) == Complex(Total(taps[..j]) * z.re, Total(taps[..j]) * z.im)
  {
    if j == 0 {
    } else {
      ConstantResponse(taps, zs, z, n, j - 1);
      assert taps[..j][..j - 1] == taps[..j - 1];
      var a, t := Total(taps[..j - 1]), taps[j - 1];
      assert (a + t) * z.re == a * z.re + t * z.re && (a + t) * z.im == a * z.im + t * z.im;
    }
  }

  // ----- What goes into it -----

  /** The conversion can be undone: I is the real part and Q the imaginary part, from -1 to 1. */
  lemma ConversionInverts(i: byte, q: byte)
    ensures Converted(i, q).re * 127.5 + 127.5 == i as real && Converted(i, q).im * 127.5 + 127.5 == q as real
    ensures -1.0 <= Converted(i, q).re <= 1.0 && -1.0 <= Converted(i, q).im <= 1.0
  {
  }

  /** The product is the one of complex numbers: bilinear, with unit 1 and the square of i being -1. */
  lemma ProductLaws(x: Complex, y: Complex, z: Complex)
    ensures Complex(1.0, 0.0).Mul(z) == z && Complex(0.0, 1.0).Mul(Complex(0.0, 1.0)) == Complex(-1.0, 0.0)
    ensures x.Mul(y) == y.Mul(x)
    ensures x.Plus(y).Mul(z) == x.Mul(z).Plus(y.Mul(z))
  {
    Distributes(x.re, y.re, z.re);
    Distributes(x.im, y.im, z.im);
    Distributes(x.re, y.re, z.im);
    Distributes(x.im, y.im, z.re);
  }

  lemma Distributes(a: real, b: real, c: real)
    ensures (a + b) * c == a * c + b * c && (a - b) * c == a * c - b * c
    ensures c * (a + b) == c * a + c * b && c * (a - b) == c * a - c * b
  {
  }

  lemma ThreeFactors(a: real, b: real, c: real)
    ensures a * b * c == a * (b * c)
  {
  }

  lemma ProductAssociates(x: Complex, y: Complex, z: Complex)
    ensures x.Mul(y).Mul(z) == x.Mul(y.Mul(z))
  {
    RealPart(x.re, x.im, y.re, y.im, z.re, z.im);
    RealPart(x.re, x.im, y.re, y.im, z.im, -z.re);
  }

  lemma RealPart(a: real, b: real, c: real, e: real, f: real, g: real)
    ensures (a * c - b * e) * f - (a * e + b * c) * g == a * (c * f - e * g) - b * (c * g + e * f)
  {
    Distributes(a * c, b * e, f);
    Distributes(a * e, b * c, g);
    Distributes(c * f, e * g, a);
    Distributes(c * g, e * f, b);
    ThreeFactors(a, c, f);
    ThreeFactors(b, e, f);
    ThreeFactors(a, e, g);
    ThreeFactors(b, c, g);
  }

  /** The oscillator starts at one and steps by its step... */
  lemma OscillatorStarts(d: Design)
    ensures Oscillator(d, 0) == Complex(1.0, 0.0) && Oscillator(d, 1) == d.step
  {
    OscillatorSucc(d, 0);
    ProductLaws(ONE, ONE, d.step);
    hide Complex.Mul;
  }

  /** ...so that it turns by equal amounts in equal times. */
  lemma {:induction false} OscillatorTurns(d: Design, j: nat, k: nat)
    ensures Oscillator(d, j + k) == Oscillator(d, j).Mul(Oscillator(d, k))
  {
    hide Complex.Mul, Oscillator;
    if k == 0 {
      OscillatorStarts(d);
      ProductLaws(Oscillator(d, j), ONE, Oscillator(d, j));
    } else {
      OscillatorTurns(d, j, k - 1);
      OscillatorSucc(d, j + k - 1);
      OscillatorSucc(d, k - 1);
      ProductAssociates(Oscillator(d, j), Oscillator(d, k - 1), d.step);
    }
  }

  // ----- The filter -----

  class Filter {
    const design: Design
    const delay: array<Complex>
    var osc: Complex
    var decimCount: nat
    var oscNormCounter: nat
    ghost var input: seq<(byte, byte)>

    ghost predicate Valid()
      reads this, delay
    {
      && Usable(design) && delay.Length == |design.taps|
      && Holds(Mixed(design, input), delay[..])
      && osc == Oscillator(design, |input|)
      && oscNormCounter == |input| % RENORM
      && decimCount == Slot(|input|, design.decimation)
    }

    constructor (d: Design)
      requires Usable(d)
      ensures Valid() && design == d && input == [] && fresh(delay)
    {
      design := d;
      delay := new Complex[|d.taps|](i => ZERO);
      osc := ONE;
      decimCount, oscNormCounter := 0, 0;
      input := [];
      new;
      Remainder(0, d.decimation, 0, 0);
    }

    /** Shift the delay line right by one and put the newest sample first. */
    method ShiftIn(sample: Complex)
      requires delay.Length > 0
      modifies delay
      ensures delay[..] == [sample] + old(delay[..delay.Length - 1])
    {
      for j := delay.Length - 1 downto 0
        invariant delay[..j + 1] == old(delay[..j + 1])
        invariant delay[j + 1..] == old(delay[j..delay.Length - 1])
      {
        delay[j + 1] := delay[j];
      }
      delay[0] := sample;
    }

    method DotProduct() returns (acc: Complex)
      requires delay.Length == |design.taps| && Holds(Mixed(design, input), delay[..])
      ensures acc == Convolution(design.taps, Mixed(design, input), |input| - 1, |design.taps|)
    {
      hide Mixed;
      acc := ZERO;
      for j := 0 to |design.taps|
        invariant acc == Convolution(design.taps, Mixed(design, input), |input| - 1, j)
      {
        assert delay[j] == delay[..][j];
        acc := acc.Plus(delay[j].Scaled(design.taps[j]));
      }
    }

    /** Convert and mix one pair, and advance the oscillator. */
    method Mix(pair: (byte, byte)) returns (sample: Complex)
      requires Usable(design)
      requires osc == Oscillator(design, |input|) && oscNormCounter == |input| % RENORM
      modifies this`osc, this`oscNormCounter
      ensures sample == Converted(pair.0, pair.1).Mul(Oscillator(design, |input|))
      ensures osc == Oscillator(design, |input| + 1) && oscNormCounter == (|input| + 1) % RENORM
    {
      OscillatorIsNormal(design, |input| + 1);
      OscillatorSucc(design, |input|);
      hide *;
      sample := Converted(pair.0, pair.1).Mul(osc);
      osc := osc.Mul(design.step);
      oscNormCounter := oscNormCounter + 1;
      if oscNormCounter >= 1024 {
        oscNormCounter := 0;
        osc := osc.Over(design.magnitude(osc));
      }
    }

    /** A pair enters the delay line. */
    method Enter(pair: (byte, byte))
      requires Valid()
      modifies this`osc, this`oscNormCounter, this`input, delay
      ensures input == old(input) + [pair]
      ensures Holds(Mixed(design, input), delay[..])
      ensures osc == Oscillator(design, |input|) && oscNormCounter == |input| % RENORM
    {
      assert |design.taps| % 2 == 1;
      hide Usable, Holds, Mixed, At, Slot, Converted, Complex.Mul, Oscillator;
      MixedSnoc(design, input, pair);
      ghost var zs, line := Mixed(design, input), delay[..];
      var sample := Mix(pair);
      assert line[..|line| - 1] == delay[..delay.Length - 1];
      ShiftIn(sample);
      DelayLineMoves(zs, sample, line);
      input := input + [pair];
    }

    /** On every D-th sample the convolution is due. */
    method Leave() returns (out: seq<Complex>)
      requires Usable(design) && delay.Length == |design.taps| && Holds(Mixed(design, input), delay[..])
      modifies this`decimCount
      ensures decimCount == if old(decimCount) + 1 >= design.decimation then 0 else old(decimCount) + 1
      ensures out == if old(decimCount) + 1 >= design.decimation
                     then [Convolution(design.taps, Mixed(design, input), |input| - 1, |design.taps|)] else []
    {
      hide Holds, Mixed, Convolution;
      out := [];
      decimCount := decimCount + 1;
      if decimCount >= design.decimation {
        decimCount := 0;
        var acc := DotProduct();
        out := [acc];
      }
    }

    method ProcessPair(pair: (byte, byte)) returns (out: seq<Complex>)
      requires Valid()
      modifies this, delay
      ensures Valid() && input == old(input) + [pair]
      ensures Outputs(design, input) == Outputs(design, old(input)) + out
    {
      assert design.decimation > 0;
      hide Usable, Holds, Mixed, Outputs, Convolution, Oscillator, Slot;
      OutputsSnoc(design, input, pair);
      SlotSnoc(|input|, design.decimation);
      Enter(pair);
      out := Leave();
    }

    method Process(raw: seq<(byte, byte)>) returns (out: seq<Complex>)
      requires Valid()
      modifies this, delay
      ensures Valid() && input == old(input) + raw
      ensures Outputs(design, input) == Outputs(design, old(input)) + out
    {
      hide Outputs, Mixed, Oscillator;
      out := [];
      for k := 0 to |raw|
        invariant Valid() && input == old(input) + raw[..k]
        invariant Outputs(design, input) == Outputs(design, old(input)) + out
      {
        var more := ProcessPair(raw[k]);
        out := out + more;
      }
    }
  }
}
