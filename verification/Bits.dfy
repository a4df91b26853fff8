/**
 Bits and words of bits.

 The decoder keeps one bit per byte-sized cell, with the value 0 or 1, so a bit
 is an integer below 2 and exclusive-or is a function on such integers.
 */
module Bits {

  type bit = b: int | 0 <= b < 2

  /** An unsigned byte, as the public entry points take them. */
  type byte = b: int | 0 <= b < 256

  function Xor(a: bit, b: bit): bit {
    if a == b then 0 else 1
  }

  /** The exclusive-or of the listed cells of a word, from left to right. */
  function Parity(w: seq<bit>, cells: seq<nat>): bit
    requires forall i :: 0 <= i < |cells| ==> cells[i] < |w|
  {
    if cells == [] then 0
    else Xor(Parity(w, cells[..|cells| - 1]), w[cells[|cells| - 1]])
  }

  /** Position-wise exclusive-or of two words. */
  function Plus(a: seq<bit>, b: seq<bit>): (x: seq<bit>)
    requires |a| == |b|
    ensures |x| == |a|
    ensures forall i :: 0 <= i < |x| ==> x[i] == Xor(a[i], b[i])
  {
    seq(|a|, i requires 0 <= i < |a| => Xor(a[i], b[i]))
  }

  function Zeros(n: nat): (z: seq<bit>)
    ensures |z| == n && forall i :: 0 <= i < n ==> z[i] == 0
  {
    seq(n, i => 0)
  }

  function Flip(a: seq<bit>, p: nat): (x: seq<bit>)
    requires p < |a|
    ensures |x| == |a|
  {
    a[p := Xor(a[p], 1)]
  }

  /** The positions in which two words differ. */
  function Flips(a: seq<bit>, b: seq<bit>): set<nat>
    requires |a| == |b|
  {
    set p: nat | p < |a| && a[p] != b[p]
  }

  /** The words differ in at most one position. */
  ghost predicate Near(a: seq<bit>, b: seq<bit>)
    requires |a| == |b|
  {
    forall p, q :: 0 <= p < q < |a| ==> a[p] == b[p] || a[q] == b[q]
  }

  lemma NearIsEqualOrFlip(a: seq<bit>, b: seq<bit>)
    requires |a| == |b|
    ensures Near(a, b) <==> a == b || exists p: nat :: p < |a| && b == Flip(a, p)
  {
    if Near(a, b) && a != b {
      var p: nat :| p < |a| && a[p] != b[p];
      assert b == Flip(a, p);
    }
  }

  lemma XorLaws(a: bit, b: bit)
    ensures Xor(a, 0) == a && Xor(0, a) == a && Xor(a, a) == 0 && Xor(a, b) == Xor(b, a)
    ensures Xor(Xor(a, b), b) == a
  {
  }

  lemma Interchange(a: bit, b: bit, c: bit, d: bit)
    ensures Xor(Xor(a, b), Xor(c, d)) == Xor(Xor(a, c), Xor(b, d))
  {
  }

  /** Every parity equation is linear. */
  lemma {:induction false} ParityPlus(x: seq<bit>, y: seq<bit>, cells: seq<nat>)
    requires |x| == |y|
    requires forall i :: 0 <= i < |cells| ==> cells[i] < |x|
    ensures Parity(Plus(x, y), cells) == Xor(Parity(x, cells), Parity(y, cells))
  {
    if cells == [] {
    } else {
      var n := |cells| - 1;
      ParityPlus(x, y, cells[..n]);
      Interchange(Parity(x, cells[..n]), Parity(y, cells[..n]), x[cells[n]], y[cells[n]]);
    }
  }

  /** Flipping a cell disturbs exactly the equations that list it. */
  lemma {:induction false} ParityFlip(w: seq<bit>, cells: seq<nat>, p: nat)
    requires p < |w|
    requires forall i :: 0 <= i < |cells| ==> cells[i] < |w|
    requires forall i, j :: 0 <= i < j < |cells| ==> cells[i] != cells[j]
    ensures Parity(Flip(w, p), cells) == Xor(Parity(w, cells), if p in cells then 1 else 0)
  {
    if cells == [] {
    } else {
      var n := |cells| - 1;
      ParityFlip(w, cells[..n], p);
      assert p in cells <==> p in cells[..n] || p == cells[n];
    }
  }

  lemma {:induction false} ParityZeros(n: nat, cells: seq<nat>)
    requires forall i :: 0 <= i < |cells| ==> cells[i] < n
    ensures Parity(Zeros(n), cells) == 0
  {
    if cells == [] {
    } else {
      ParityZeros(n, cells[..|cells| - 1]);
    }
  }

  lemma ParitySnoc(w: seq<bit>, cells: seq<nat>, last: nat)
    requires forall i :: 0 <= i < |cells| ==> cells[i] < |w|
    requires last < |w|
    ensures Parity(w, cells + [last]) == Xor(Parity(w, cells), w[last])
  {
    assert (cells + [last])[..|cells|] == cells;
  }
}
