/**
 The FM discriminator: the imaginary part of each sample times the conjugate of the one
 before it, one output per input, carried across blocks.
 */
module FmDiscriminator {
  import opened ChannelFilter

  function Difference(z: Complex, prev: Complex): real {
    z.im * prev.re - z.re * prev.im
  }

  function Conjugate(z: Complex): Complex {
    Complex(z.re, -z.im)
  }

  /** The difference is the imaginary part of the sample times its predecessor's conjugate. */
  lemma DifferenceIsConjugateProduct(z: Complex, prev: Complex)
    ensures Difference(z, prev) == z.Mul(Conjugate(prev)).im
  {
    assert z.re * -prev.im == -(z.re * prev.im);
  }

  /** The sample before sample n, and one before the first. */
  function Before(zs: seq<Complex>, n: nat): Complex
    requires n <= |zs|
  {
    if n == 0 then ONE else zs[n - 1]
  }

  function Discriminated(zs: seq<Complex>): (r: seq<real>)
    ensures |r| == |zs|
  {
    seq(|zs|, n requires 0 <= n < |zs| => Difference(zs[n], Before(zs, n)))
  }

  lemma DiscriminatedSnoc(zs: seq<Complex>, z: Complex)
    ensures Discriminated(zs + [z]) == Discriminated(zs) + [Difference(z, Before(zs, |zs|))]
  {
    hide Difference;
  }

  /** Each output compares a sample with the one just before it, and the first with one. */
  lemma OutputsCompareNeighbours(zs: seq<Complex>, n: nat)
    requires n < |zs|
    ensures n == 0 ==> Discriminated(zs)[n] == zs[0].im
    ensures n > 0 ==> Discriminated(zs)[n] == zs[n].im * zs[n - 1].re - zs[n].re * zs[n - 1].im
  {
  }

  /**
   A sample that is its predecessor turned by w comes out as the imaginary part of w, which
   grows with the angle of the turn, times the predecessor's squared magnitude.
   */
  lemma TurnIsRecovered(zs: seq<Complex>, w: Complex, n: nat)
    requires 0 < n < |zs| && zs[n] == zs[n - 1].Mul(w)
    ensures Discriminated(zs)[n] == (zs[n - 1].re * zs[n - 1].re + zs[n - 1].im * zs[n - 1].im) * w.im
  {
    var z := zs[n - 1];
    OutputsCompareNeighbours(zs, n);
    CrossTerms(z.re, z.im, w.re, w.im);
  }

  lemma CrossTerms(a: real, b: real, c: real, e: real)
    ensures (a * e + b * c) * a - (a * c - b * e) * b == (a * a + b * b) * e
  {
  }

  class Discriminator {
    var prev: Complex
    ghost var input: seq<Complex>

    ghost predicate Valid()
      reads this
    {
      prev == Before(input, |input|)
    }

    constructor ()
      ensures Valid() && input == []
    {
      prev := ONE;
      input := [];
    }

    method Process(zs: seq<Complex>) returns (out: seq<real>)
      requires Valid()
      modifies this
      ensures Valid() && input == old(input) + zs
      ensures Discriminated(input) == Discriminated(old(input)) + out
    {
      hide Discriminated, Difference;
      out := [];
      for i := 0 to |zs|
        invariant Valid() && input == old(input) + zs[..i]
        invariant Discriminated(input) == Discriminated(old(input)) + out
      {
        var z := zs[i];
        DiscriminatedSnoc(input, z);
        out := out + [Difference(z, prev)];
        input := input + [z];
        prev := z;
      }
    }
  }
}
