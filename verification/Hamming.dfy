/**
 The two Hamming codes of the product code: the (15,11) code of the rows and the
 (13,9) code of the columns, with the in-place correctors.

 The correctors are specified by functions on words; those functions are then
 shown to be exact nearest-codeword decoders.
 */
module Hamming {
  import opened Bits

  /** The four parity checks of a word: all zero exactly on codewords. */
  datatype Checks = Checks(c0: bit, c1: bit, c2: bit, c3: bit) {
    /** The syndrome: check i is bit i. */
    function Index(): (s: nat)
      ensures s < 16
    {
      c0 + 2 * c1 + 4 * c2 + 8 * c3
    }

    function Plus(o: Checks): Checks {
      Checks(Xor(c0, o.c0), Xor(c1, o.c1), Xor(c2, o.c2), Xor(c3, o.c3))
    }
  }

  const CLEAR := Checks(0, 0, 0, 0)

  /** The cells of each row equation, the parity cell last. */
  const ROW_P0: seq<nat> := [0, 1, 3, 4, 6, 8, 10, 11]
  const ROW_P1: seq<nat> := [0, 2, 3, 5, 6, 9, 10, 12]
  const ROW_P2: seq<nat> := [1, 2, 3, 7, 8, 9, 10, 13]
  const ROW_P3: seq<nat> := [4, 5, 6, 7, 8, 9, 10, 14]

  /** The cells of each column equation, the parity cell last. */
  const COL_P0: seq<nat> := [0, 1, 3, 4, 6, 8, 9]
  const COL_P1: seq<nat> := [0, 2, 3, 5, 6, 10]
  const COL_P2: seq<nat> := [1, 2, 3, 7, 8, 11]
  const COL_P3: seq<nat> := [4, 5, 6, 7, 8, 12]

  /** Which cell of a row each syndrome blames. */
  const ROW_ERR_POS: seq<int> := [-1, 11, 12, 0, 13, 1, 2, 3, 14, 4, 5, 6, 7, 8, 9, 10]

  /** Which cell of a column each syndrome blames; the shortened code has no cell for 14 and 15. */
  const COL_ERR_POS: seq<int> := [-1, 9, 10, 0, 11, 1, 2, 3, 12, 4, 5, 6, 7, 8, -1, -1]

  /** The syndrome that each cell of a row leaves when it alone is flipped: its Hamming position. */
  const POSITION: seq<nat> := [3, 5, 6, 7, 9, 10, 11, 12, 13, 14, 15, 1, 2, 4, 8]

  function RowChecks(r: seq<bit>): Checks
    requires |r| == 15
  {
    Checks(Parity(r, ROW_P0), Parity(r, ROW_P1), Parity(r, ROW_P2), Parity(r, ROW_P3))
  }

  function ColChecks(c: seq<bit>): Checks
    requires |c| == 13
  {
    Checks(Parity(c, COL_P0), Parity(c, COL_P1), Parity(c, COL_P2), Parity(c, COL_P3))
  }

  predicate RowCode(r: seq<bit>) {
    |r| == 15 && RowChecks(r) == CLEAR
  }

  predicate ColCode(c: seq<bit>) {
    |c| == 13 && ColChecks(c) == CLEAR
  }

  datatype Fixed = Fixed(word: seq<bit>, ok: bool)

  function FixRow(r: seq<bit>): (f: Fixed)
    requires |r| == 15
    ensures |f.word| == 15
  {
    var s := RowChecks(r).Index();
    if s == 0 then Fixed(r, true)
    else
      var pos := ROW_ERR_POS[s];
      if pos < 0 then Fixed(r, false) else Fixed(Flip(r, pos), true)
  }

  function FixCol(c: seq<bit>): (f: Fixed)
    requires |c| == 13
    ensures |f.word| == 13
  {
    var s := ColChecks(c).Index();
    if s == 0 then Fixed(c, true)
    else
      var pos := COL_ERR_POS[s];
      if pos < 0 then Fixed(c, false) else Fixed(Flip(c, pos), true)
  }

  function Xor5(a: bit, b: bit, c: bit, d: bit, e: bit): bit {
    Xor(Xor(Xor(Xor(a, b), c), d), e)
  }

  function Xor6(a: bit, b: bit, c: bit, d: bit, e: bit, f: bit): bit {
    Xor(Xor5(a, b, c, d, e), f)
  }

  function Xor7(a: bit, b: bit, c: bit, d: bit, e: bit, f: bit, g: bit): bit {
    Xor(Xor6(a, b, c, d, e, f), g)
  }

  method CorrectRow(r: array<bit>) returns (ok: bool)
    requires r.Length == 15
    modifies r
    ensures Fixed(r[..], ok) == FixRow(old(r[..]))
  {
    var c0 := Xor7(r[0], r[1], r[3], r[4], r[6], r[8], r[10]);
    var c1 := Xor7(r[0], r[2], r[3], r[5], r[6], r[9], r[10]);
    var c2 := Xor7(r[1], r[2], r[3], r[7], r[8], r[9], r[10]);
    var c3 := Xor7(r[4], r[5], r[6], r[7], r[8], r[9], r[10]);
    var s := Xor(c0, r[11]) + 2 * Xor(c1, r[12]) + 4 * Xor(c2, r[13]) + 8 * Xor(c3, r[14]);
    RowEquations(r[..]);
    hide Xor, Xor7;
    assert s == RowChecks(r[..]).Index();
    if s == 0 {
      return true;
    }
    var pos := ROW_ERR_POS[s];
    if pos < 0 {
      return false;
    }
    r[pos] := Xor(r[pos], 1);
    return true;
  }

  method CorrectCol(c: array<bit>) returns (ok: bool)
    requires c.Length == 13
    modifies c
    ensures Fixed(c[..], ok) == FixCol(old(c[..]))
  {
    var s0 := Xor6(c[0], c[1], c[3], c[4], c[6], c[8]);
    var s1 := Xor5(c[0], c[2], c[3], c[5], c[6]);
    var s2 := Xor5(c[1], c[2], c[3], c[7], c[8]);
    var s3 := Xor5(c[4], c[5], c[6], c[7], c[8]);
    var syn := Xor(s0, c[9]) + 2 * Xor(s1, c[10]) + 4 * Xor(s2, c[11]) + 8 * Xor(s3, c[12]);
    ColEquations(c[..]);
    hide Xor, Xor5, Xor6;
    assert syn == ColChecks(c[..]).Index();
    if syn == 0 {
      return true;
    }
    var pos := COL_ERR_POS[syn];
    if pos < 0 {
      return false;
    }
    c[pos] := Xor(c[pos], 1);
    return true;
  }

  /** A parity equation of six cells is a chain of exclusive-ors. */
  lemma Chain6(w: seq<bit>, cells: seq<nat>)
    requires |cells| == 6 && forall i :: 0 <= i < |cells| ==> cells[i] < |w|
    ensures Parity(w, cells)
         == Xor(Xor5(w[cells[0]], w[cells[1]], w[cells[2]], w[cells[3]], w[cells[4]]), w[cells[5]])
  {
    XorLaws(w[cells[0]], 0);
    hide Xor;
    ParitySnoc(w, [], cells[0]);
    assert [] + [cells[0]] == cells[..1];
    forall n | 1 <= n < 6
      ensures Parity(w, cells[..n + 1]) == Xor(Parity(w, cells[..n]), w[cells[n]])
    {
      ParitySnoc(w, cells[..n], cells[n]);
      assert cells[..n] + [cells[n]] == cells[..n + 1];
    }
    assert cells[..6] == cells;
    assert cells[..1 + 1] == cells[..2] && cells[..2 + 1] == cells[..3];
    assert cells[..3 + 1] == cells[..4] && cells[..4 + 1] == cells[..5];
  }

  lemma Chain7(w: seq<bit>, cells: seq<nat>)
    requires |cells| == 7 && forall i :: 0 <= i < |cells| ==> cells[i] < |w|
    ensures Parity(w, cells)
         == Xor(Xor6(w[cells[0]], w[cells[1]], w[cells[2]], w[cells[3]], w[cells[4]], w[cells[5]]), w[cells[6]])
  {
    hide Xor;
    Chain6(w, cells[..6]);
    ParitySnoc(w, cells[..6], cells[6]);
    assert cells[..6] + [cells[6]] == cells;
  }

  lemma Chain8(w: seq<bit>, cells: seq<nat>)
    requires |cells| == 8 && forall i :: 0 <= i < |cells| ==> cells[i] < |w|
    ensures Parity(w, cells)
         == Xor(Xor7(w[cells[0]], w[cells[1]], w[cells[2]], w[cells[3]], w[cells[4]], w[cells[5]], w[cells[6]]),
                w[cells[7]])
  {
    hide Xor;
    Chain7(w, cells[..7]);
    ParitySnoc(w, cells[..7], cells[7]);
    assert cells[..7] + [cells[7]] == cells;
  }

  lemma RowEquations(r: seq<bit>)
    requires |r| == 15
    ensures RowChecks(r) == Checks(
      Xor(Xor7(r[0], r[1], r[3], r[4], r[6], r[8], r[10]), r[11]),
      Xor(Xor7(r[0], r[2], r[3], r[5], r[6], r[9], r[10]), r[12]),
      Xor(Xor7(r[1], r[2], r[3], r[7], r[8], r[9], r[10]), r[13]),
      Xor(Xor7(r[4], r[5], r[6], r[7], r[8], r[9], r[10]), r[14]))
  {
    hide Xor, Xor7, Parity;
    Chain8(r, ROW_P0);
    Chain8(r, ROW_P1);
    Chain8(r, ROW_P2);
    Chain8(r, ROW_P3);
  }

  lemma ColEquations(c: seq<bit>)
    requires |c| == 13
    ensures ColChecks(c) == Checks(
      Xor(Xor6(c[0], c[1], c[3], c[4], c[6], c[8]), c[9]),
      Xor(Xor5(c[0], c[2], c[3], c[5], c[6]), c[10]),
      Xor(Xor5(c[1], c[2], c[3], c[7], c[8]), c[11]),
      Xor(Xor5(c[4], c[5], c[6], c[7], c[8]), c[12]))
  {
    hide Xor, Xor5, Xor6, Parity;
    Chain7(c, COL_P0);
    Chain6(c, COL_P1);
    Chain6(c, COL_P2);
    Chain6(c, COL_P3);
  }

  // ----- Syndromes -----

  lemma RowChecksPlus(x: seq<bit>, y: seq<bit>)
    requires |x| == |y| == 15
    ensures RowChecks(Plus(x, y)) == RowChecks(x).Plus(RowChecks(y))
  {
    hide Xor;
    ParityPlus(x, y, ROW_P0);
    ParityPlus(x, y, ROW_P1);
    ParityPlus(x, y, ROW_P2);
    ParityPlus(x, y, ROW_P3);
  }

  lemma ColChecksPlus(x: seq<bit>, y: seq<bit>)
    requires |x| == |y| == 13
    ensures ColChecks(Plus(x, y)) == ColChecks(x).Plus(ColChecks(y))
  {
    hide Xor;
    ParityPlus(x, y, COL_P0);
    ParityPlus(x, y, COL_P1);
    ParityPlus(x, y, COL_P2);
    ParityPlus(x, y, COL_P3);
  }

  /** The checks that a single flipped cell of a row disturbs. */
  function RowSignature(p: nat): Checks {
    Checks(if p in ROW_P0 then 1 else 0, if p in ROW_P1 then 1 else 0,
           if p in ROW_P2 then 1 else 0, if p in ROW_P3 then 1 else 0)
  }

  function ColSignature(p: nat): Checks {
    Checks(if p in COL_P0 then 1 else 0, if p in COL_P1 then 1 else 0,
           if p in COL_P2 then 1 else 0, if p in COL_P3 then 1 else 0)
  }

  lemma RowChecksFlip(r: seq<bit>, p: nat)
    requires |r| == 15 && p < 15
    ensures RowChecks(Flip(r, p)) == RowChecks(r).Plus(RowSignature(p))
  {
    hide Xor, Flip;
    ParityFlip(r, ROW_P0, p);
    ParityFlip(r, ROW_P1, p);
    ParityFlip(r, ROW_P2, p);
    ParityFlip(r, ROW_P3, p);
  }

  lemma ColChecksFlip(c: seq<bit>, p: nat)
    requires |c| == 13 && p < 13
    ensures ColChecks(Flip(c, p)) == ColChecks(c).Plus(ColSignature(p))
  {
    hide Xor, Flip;
    ParityFlip(c, COL_P0, p);
    ParityFlip(c, COL_P1, p);
    ParityFlip(c, COL_P2, p);
    ParityFlip(c, COL_P3, p);
  }

  lemma PlusLaws(k: Checks, l: Checks)
    ensures k.Plus(k) == CLEAR
    ensures k.Plus(l) == CLEAR ==> k == l
  {
  }

  lemma IndexOfClear(k: Checks)
    ensures k.Index() == 0 <==> k == CLEAR
  {
  }

  lemma IndexIsInjective(k: Checks, l: Checks)
    ensures k.Index() == l.Index() ==> k == l
  {
  }

  lemma RowPosition(p: nat)
    requires p < 15
    ensures RowSignature(p).Index() == POSITION[p]
  {
  }

  /** The column code is the row code shortened by its last two data cells, 9 and 10. */
  lemma ColPosition(p: nat)
    requires p < 13
    ensures ColSignature(p) == RowSignature(if p < 9 then p else p + 2)
    ensures ColSignature(p).Index() == POSITION[if p < 9 then p else p + 2]
  {
    hide Checks.Index;
    var q := if p < 9 then p else p + 2;
    assert p in COL_P0 <==> q in ROW_P0;
    assert p in COL_P1 <==> q in ROW_P1;
    assert p in COL_P2 <==> q in ROW_P2;
    assert p in COL_P3 <==> q in ROW_P3;
    RowPosition(q);
  }

  /** Every nonzero syndrome blames the one cell of a row that leaves it. */
  lemma RowTable(s: nat, p: nat)
    requires 0 < s < 16 && p < 15
    ensures 0 <= ROW_ERR_POS[s] < 15 && RowSignature(ROW_ERR_POS[s]).Index() == s
    ensures 0 < RowSignature(p).Index() && ROW_ERR_POS[RowSignature(p).Index()] == p
  {
    hide RowSignature, Checks.Index;
    RowPosition(p);
    assert 0 <= ROW_ERR_POS[s] < 15;
    RowPosition(ROW_ERR_POS[s]);
  }

  /** The columns' table does the same, except that no cell leaves 14 or 15. */
  lemma ColTable(s: nat, p: nat)
    requires 0 < s < 16 && p < 13
    ensures -1 <= COL_ERR_POS[s] < 13
    ensures COL_ERR_POS[s] < 0 <==> s >= 14
    ensures COL_ERR_POS[s] >= 0 ==> ColSignature(COL_ERR_POS[s]).Index() == s
    ensures 0 < ColSignature(p).Index() < 14 && COL_ERR_POS[ColSignature(p).Index()] == p
  {
    hide ColSignature, Checks.Index;
    ColPosition(p);
    if COL_ERR_POS[s] >= 0 {
      ColPosition(COL_ERR_POS[s]);
    }
  }

  // ----- Both correctors are exact nearest-codeword decoders -----

  /** The row code is perfect: a row is never rejected, and the result is its nearest codeword. */
  lemma RowIsNearestCodeword(r: seq<bit>)
    requires |r| == 15
    ensures FixRow(r).ok
    ensures RowCode(FixRow(r).word)
    ensures Near(r, FixRow(r).word)
  {
    hide RowChecks, RowSignature, Checks.Plus, Checks.Index, Xor;
    var k := RowChecks(r);
    IndexOfClear(k);
    if k.Index() != 0 {
      RowTable(k.Index(), 0);
      var p := ROW_ERR_POS[k.Index()];
      RowChecksFlip(r, p);
      PlusLaws(k, k);
      IndexIsInjective(k, RowSignature(p));
      NearIsEqualOrFlip(r, Flip(r, p));
    }
  }

  /** No other codeword is within one flip of the row. */
  lemma RowUnique(r: seq<bit>, w: seq<bit>)
    requires |r| == 15 && RowCode(w) && Near(r, w)
    ensures FixRow(r) == Fixed(w, true)
  {
    hide RowChecks, RowSignature, Checks.Plus, Checks.Index, Xor;
    IndexOfClear(RowChecks(r));
    NearIsEqualOrFlip(r, w);
    if r != w {
      var p: nat :| p < 15 && w == Flip(r, p);
      RowChecksFlip(r, p);
      PlusLaws(RowChecks(r), RowSignature(p));
      RowTable(1, p);
    }
  }

  /** So two flips in one row are never detected: they are taken for one flip of another codeword. */
  lemma RowDoubleFlipIsMiscorrected(w: seq<bit>, p: nat, q: nat)
    requires RowCode(w) && p < q < 15
    ensures FixRow(Flip(Flip(w, p), q)).ok
    ensures RowCode(FixRow(Flip(Flip(w, p), q)).word) && FixRow(Flip(Flip(w, p), q)).word != w
  {
    hide RowChecks, FixRow;
    var r := Flip(Flip(w, p), q);
    RowIsNearestCodeword(r);
    assert r[p] != w[p] && r[q] != w[q];
  }

  lemma FixedColIsNear(c: seq<bit>)
    requires |c| == 13
    ensures FixCol(c).ok ==> ColCode(FixCol(c).word) && Near(c, FixCol(c).word)
  {
    hide ColChecks, ColSignature, Checks.Plus, Checks.Index, Xor;
    var k := ColChecks(c);
    IndexOfClear(k);
    if k.Index() != 0 {
      ColTable(k.Index(), 0);
      var p := COL_ERR_POS[k.Index()];
      if p >= 0 {
        ColChecksFlip(c, p);
        PlusLaws(k, k);
        IndexIsInjective(k, ColSignature(p));
        NearIsEqualOrFlip(c, Flip(c, p));
      }
    }
  }

  lemma ColUnique(c: seq<bit>, w: seq<bit>)
    requires |c| == 13 && ColCode(w) && Near(c, w)
    ensures FixCol(c) == Fixed(w, true)
  {
    hide ColChecks, ColSignature, Checks.Plus, Checks.Index, Xor;
    IndexOfClear(ColChecks(c));
    NearIsEqualOrFlip(c, w);
    if c != w {
      var p: nat :| p < 13 && w == Flip(c, p);
      ColChecksFlip(c, p);
      PlusLaws(ColChecks(c), ColSignature(p));
      ColTable(1, p);
    }
  }

  /**
   A column is accepted exactly when some codeword is within one flip of it, which is
   when its syndrome is neither 14 nor 15; the result is then that codeword, and
   otherwise the column is left as it was.
   */
  lemma ColIsNearestCodeword(c: seq<bit>)
    requires |c| == 13
    ensures FixCol(c).ok <==> ColChecks(c).Index() < 14
    ensures FixCol(c).ok <==> exists w :: ColCode(w) && Near(c, w)
    ensures FixCol(c).ok ==> ColCode(FixCol(c).word) && Near(c, FixCol(c).word)
    ensures !FixCol(c).ok ==> FixCol(c).word == c
  {
    hide ColChecks, Checks.Index, Xor;
    var s := ColChecks(c).Index();
    if s != 0 {
      ColTable(s, 0);
    }
    FixedColIsNear(c);
    forall w | ColCode(w) && Near(c, w) ensures FixCol(c).ok {
      ColUnique(c, w);
    }
  }

  /**
   Two flips in a column are noticed exactly when their cells' syndromes add up to 14 or 15;
   otherwise they are taken for one flip of another codeword.
   */
  lemma ColDoubleFlipIsAcceptedIff(w: seq<bit>, p: nat, q: nat)
    requires ColCode(w) && p < q < 13
    ensures var r := FixCol(Flip(Flip(w, p), q));
      && (r.ok <==> ColSignature(p).Plus(ColSignature(q)).Index() < 14)
      && r.word != w
      && (r.ok ==> ColCode(r.word))
  {
    hide ColChecks, ColSignature, FixCol, Checks.Index;
    var c := Flip(Flip(w, p), q);
    ColChecksFlip(w, p);
    ColChecksFlip(Flip(w, p), q);
    ColIsNearestCodeword(c);
    assert c[p] != w[p] && c[q] != w[q];
  }

  /** Both happen to every codeword: cells 0 and 1 flipped go unnoticed, cells 0 and 8 do not. */
  lemma ColDoubleFlipGoesBothWays(w: seq<bit>)
    requires ColCode(w)
    ensures FixCol(Flip(Flip(w, 0), 1)).ok && FixCol(Flip(Flip(w, 0), 1)).word != w
    ensures !FixCol(Flip(Flip(w, 0), 8)).ok
  {
    assert ColSignature(0).Plus(ColSignature(1)).Index() == 6;
    assert ColSignature(0).Plus(ColSignature(8)).Index() == 14;
    hide ColChecks, ColSignature, FixCol, Checks.Index;
    ColDoubleFlipIsAcceptedIff(w, 0, 1);
    ColDoubleFlipIsAcceptedIff(w, 0, 8);
  }

  // ----- Adding a codeword passes through both correctors -----

  lemma FlipPlus(r: seq<bit>, w: seq<bit>, p: nat)
    requires |r| == |w| && p < |r|
    ensures Flip(Plus(r, w), p) == Plus(Flip(r, p), w)
  {
  }

  lemma FixRowPlus(r: seq<bit>, w: seq<bit>)
    requires |r| == 15 && RowCode(w)
    ensures FixRow(Plus(r, w)) == Fixed(Plus(FixRow(r).word, w), FixRow(r).ok)
  {
    RowChecksPlus(r, w);
    assert RowChecks(Plus(r, w)) == RowChecks(r);
    var s := RowChecks(r).Index();
    if s != 0 && ROW_ERR_POS[s] >= 0 {
      FlipPlus(r, w, ROW_ERR_POS[s]);
    }
  }

  lemma FixColPlus(c: seq<bit>, w: seq<bit>)
    requires |c| == 13 && ColCode(w)
    ensures FixCol(Plus(c, w)) == Fixed(Plus(FixCol(c).word, w), FixCol(c).ok)
  {
    ColChecksPlus(c, w);
    assert ColChecks(Plus(c, w)) == ColChecks(c);
    var s := ColChecks(c).Index();
    if s != 0 && COL_ERR_POS[s] >= 0 {
      FlipPlus(c, w, COL_ERR_POS[s]);
    }
  }
}
