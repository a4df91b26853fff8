/**
 What the three-pass decoder can and cannot correct.

 Everything rests on one observation: once the first row pass leaves at most one column
 more than one flip away from the transmitted codeword, the column pass repairs all the
 other columns and the second row pass repairs what is left of that one.
 */
module BptcPower {
  import opened Bits
  import opened Hamming
  import opened Bptc
  import opened BptcEncoder

  // ----- Translation: adding a codeword passes through the decoder -----

  function PlusGrid(x: Grid, e: Grid): Grid {
    seq(13, r requires 0 <= r < 13 => Plus(x[r], e[r]))
  }

  lemma ColumnPlus(x: Grid, e: Grid, c: nat)
    requires c < 15
    ensures Column(PlusGrid(x, e), c) == Plus(Column(x, c), Column(e, c))
  {
  }

  lemma RowPassPlus(x: Grid, e: Grid)
    requires IsCode(e)
    ensures RowPass(PlusGrid(x, e)) == PlusGrid(RowPass(x), e)
    ensures RowsAccepted(PlusGrid(x, e)) <==> RowsAccepted(x)
  {
    hide FixRow, RowCode, ColCode;
    forall r | 0 <= r < 9
      ensures FixRow(PlusGrid(x, e)[r]) == Fixed(Plus(FixRow(x[r]).word, e[r]), FixRow(x[r]).ok)
    {
      FixRowPlus(x[r], e[r]);
    }
  }

  lemma ColPassPlus(x: Grid, e: Grid)
    requires IsCode(e)
    ensures ColPass(PlusGrid(x, e)) == PlusGrid(ColPass(x), e)
    ensures ColsAccepted(PlusGrid(x, e)) <==> ColsAccepted(x)
  {
    hide FixCol, RowCode, ColCode;
    forall c | 0 <= c < 15
      ensures FixCol(Column(PlusGrid(x, e), c)) == Fixed(Plus(FixCol(Column(x, c)).word, Column(e, c)), FixCol(Column(x, c)).ok)
    {
      ColumnPlus(x, e, c);
      FixColPlus(Column(x, c), Column(e, c));
    }
    forall r | 0 <= r < 13 ensures ColPass(PlusGrid(x, e))[r] == PlusGrid(ColPass(x), e)[r] {
    }
  }

  lemma CorrectedPlus(x: Grid, e: Grid)
    requires IsCode(e)
    ensures Corrected(PlusGrid(x, e)) == PlusGrid(Corrected(x), e)
    ensures Accepted(PlusGrid(x, e)) <==> Accepted(x)
  {
    hide RowPass, ColPass, RowsAccepted, ColsAccepted, IsCode, PlusGrid;
    RowPassPlus(x, e);
    ColPassPlus(RowPass(x), e);
    RowPassPlus(ColPass(RowPass(x)), e);
  }

  lemma ReceivedGridPlus(x: seq<byte>, y: seq<byte>, t: seq<byte>)
    requires |x| == |y| == |t| == 98
    requires ReceivedBits(y) == Plus(ReceivedBits(x), ReceivedBits(t))
    ensures ReceivedGrid(y) == PlusGrid(ReceivedGrid(x), ReceivedGrid(t))
  {
    hide ReceivedBits;
    forall r | 0 <= r < 13 ensures ReceivedGrid(y)[r] == PlusGrid(ReceivedGrid(x), ReceivedGrid(t))[r] {
    }
  }

  /**
   Decoding is translation-equivariant: on top of any received word, adding a
   transmitted message leaves the verdict alone and adds the message to the output.
   */
  lemma DecodingIsEquivariant(x: seq<byte>, m: seq<bit>, y: seq<byte>)
    requires |x| == |y| == 98 && |m| == 96
    requires ReceivedBits(y) == Plus(ReceivedBits(x), ReceivedBits(Transmit(m)))
    ensures Decoded(y) == Decoding(Plus(Decoded(x).bits, m), Decoded(x).ok)
  {
    hide ReceivedBits, Transmit, Corrected, Accepted, Encode, IsCode, ReceivedGrid;
    EncodeIsCode(m);
    TransmitIsReceived(m);
    ReceivedGridPlus(x, y, Transmit(m));
    var g := ReceivedGrid(x);
    CorrectedPlus(g, Encode(m));
    forall i | 0 <= i < 96
      ensures Message(PlusGrid(Corrected(g), Encode(m)))[i] == Xor(Message(Corrected(g))[i], Message(Encode(m))[i])
    {
    }
  }

  // ----- The verdict, exactly -----

  /** Some codeword is within one flip of the column. */
  ghost predicate Repairable(col: seq<bit>)
    requires |col| == 13
  {
    exists w :: ColCode(w) && Near(col, w)
  }

  /**
   On every input the decoder rejects exactly when, after the first row pass, the
   syndrome of some column is 14 or 15, that is, when some column is then more than one
   flip away from every column codeword. The row passes never reject.
   */
  lemma VerdictIsColumnSyndrome(dibits: seq<byte>)
    requires |dibits| == 98
    ensures var h := RowPass(ReceivedGrid(dibits));
      && (!Decoded(dibits).ok <==> exists c :: 0 <= c < 15 && ColChecks(Column(h, c)).Index() >= 14)
      && (Decoded(dibits).ok <==> forall c :: 0 <= c < 15 ==> Repairable(Column(h, c)))
  {
    hide FixRow, FixCol, ColChecks, ReceivedGrid, Checks.Index, Near;
    var g := ReceivedGrid(dibits);
    forall r | 0 <= r < 9 ensures FixRow(g[r]).ok {
      RowIsNearestCodeword(g[r]);
    }
    forall c | 0 <= c < 15
      ensures FixCol(Column(RowPass(g), c)).ok <==> ColChecks(Column(RowPass(g), c)).Index() < 14
      ensures FixCol(Column(RowPass(g), c)).ok <==> Repairable(Column(RowPass(g), c))
    {
      ColIsNearestCodeword(Column(RowPass(g), c));
    }
  }

  /** On exit rows 0 to 8 are codewords, each changed in at most one cell by the last pass. */
  lemma RowsEndAsCodewords(g: Grid, r: nat)
    requires r < 9
    ensures RowCode(Corrected(g)[r])
    ensures Near(ColPass(RowPass(g))[r], Corrected(g)[r])
  {
    hide FixRow, RowCode, ColPass, Near;
    RowIsNearestCodeword(ColPass(RowPass(g))[r]);
  }

  // ----- Recovery from one bad column -----

  /** Column c of x is within one flip of column c of e. */
  ghost predicate NearColumn(x: Grid, e: Grid, c: int)
    requires 0 <= c < 15
  {
    Near(Column(x, c), Column(e, c))
  }

  lemma NearRowIsRepaired(x: Grid, e: Grid, r: nat)
    requires IsCode(e) && r < 9 && Near(x[r], e[r])
    ensures RowPass(x)[r] == e[r]
  {
    hide FixRow, RowCode, ColCode, Near;
    RowUnique(x[r], e[r]);
  }

  lemma NearColumnIsRepaired(x: Grid, e: Grid, c: nat)
    requires IsCode(e) && c < 15 && NearColumn(x, e, c)
    ensures FixCol(Column(x, c)).ok
    ensures forall r :: 0 <= r < 13 ==> ColPass(x)[r][c] == e[r][c]
  {
    hide FixCol, ColCode, RowCode, Near;
    ColUnique(Column(x, c), Column(e, c));
    assert forall r :: 0 <= r < 13 ==> Column(e, c)[r] == e[r][c];
  }

  /** One bad column after the first row pass, whatever it holds, is harmless. */
  lemma OneBadColumn(x: Grid, e: Grid, bad: int)
    requires IsCode(e)
    requires forall c :: 0 <= c < 15 && c != bad ==> NearColumn(RowPass(x), e, c)
    ensures Message(Corrected(x)) == Message(e)
  {
    hide FixRow, FixCol, RowPass, ColPass, NearColumn;
    var h := ColPass(RowPass(x));
    forall r, c | 0 <= r < 13 && 0 <= c < 15 && c != bad ensures h[r][c] == e[r][c] {
      NearColumnIsRepaired(RowPass(x), e, c);
    }
    forall r | 0 <= r < 9 ensures Corrected(x)[r] == e[r] {
      NearRowIsRepaired(h, e, r);
    }
  }

  lemma NoBadColumn(x: Grid, e: Grid)
    requires IsCode(e)
    requires forall c :: 0 <= c < 15 ==> NearColumn(RowPass(x), e, c)
    ensures Message(Corrected(x)) == Message(e)
    ensures Accepted(x)
  {
    hide FixRow, FixCol, RowPass, NearColumn, Corrected;
    OneBadColumn(x, e, -1);
    forall r | 0 <= r < 9 ensures FixRow(x[r]).ok {
      RowIsNearestCodeword(x[r]);
    }
    forall c | 0 <= c < 15 ensures FixCol(Column(RowPass(x), c)).ok {
      NearColumnIsRepaired(RowPass(x), e, c);
    }
  }

  // ----- Recoverable patterns -----

  /**
   What rows 9 to 12 may add to a column: nothing if a data row is lost, since that row
   already uses up the column's one correction, and otherwise one flip.
   */
  ghost predicate SparseBelow(x: Grid, e: Grid, lost: int, c: int)
    requires 0 <= c < 15
  {
    if 0 <= lost < 9 then forall r :: 9 <= r < 13 ==> x[r][c] == e[r][c]
    else forall r, r' :: 9 <= r < r' < 13 ==> x[r][c] == e[r][c] || x[r'][c] == e[r'][c]
  }

  /**
   One data row may be lost altogether, one column may hold anything in rows 9 to 12, and
   besides these every data row may have one flip.
   */
  ghost predicate Recoverable(x: Grid, e: Grid, lost: int, bad: int) {
    && (forall r :: 0 <= r < 9 && r != lost ==> Near(x[r], e[r]))
    && (forall c :: 0 <= c < 15 && c != bad ==> SparseBelow(x, e, lost, c))
  }

  lemma RecoverableColumn(x: Grid, e: Grid, lost: int, bad: int, c: nat)
    requires IsCode(e) && Recoverable(x, e, lost, bad) && c < 15 && c != bad
    ensures NearColumn(RowPass(x), e, c)
  {
    hide FixRow, Near;
    forall r | 0 <= r < 9 && r != lost ensures RowPass(x)[r] == e[r] {
      NearRowIsRepaired(x, e, r);
    }
    var a, b := Column(RowPass(x), c), Column(e, c);
    assert SparseBelow(x, e, lost, c);
    assert forall r :: 9 <= r < 13 ==> a[r] == x[r][c];
    assert forall r :: 0 <= r < 13 ==> b[r] == e[r][c];
    assert forall r :: 0 <= r < 9 ==> a[r] == RowPass(x)[r][c];
    OneOfThirteen(a, b, lost);
  }

  lemma OneOfThirteen(a: seq<bit>, b: seq<bit>, lost: int)
    requires |a| == |b| == 13
    requires forall r :: 0 <= r < 9 && r != lost ==> a[r] == b[r]
    requires if 0 <= lost < 9 then forall r :: 9 <= r < 13 ==> a[r] == b[r]
             else forall r, r' :: 9 <= r < r' < 13 ==> a[r] == b[r] || a[r'] == b[r']
    ensures Near(a, b)
  {
  }

  /** Every recoverable pattern is decoded; with no bad column it is also accepted. */
  lemma RecoverableIsDecoded(x: Grid, e: Grid, lost: int, bad: int)
    requires IsCode(e) && Recoverable(x, e, lost, bad)
    ensures Message(Corrected(x)) == Message(e)
    ensures !(0 <= bad < 15) ==> Accepted(x)
  {
    hide Corrected, RowPass, NearColumn, Accepted, Recoverable, IsCode;
    forall c | 0 <= c < 15 && c != bad ensures NearColumn(RowPass(x), e, c) {
      RecoverableColumn(x, e, lost, bad, c);
    }
    OneBadColumn(x, e, bad);
    if !(0 <= bad < 15) {
      NoBadColumn(x, e);
    }
  }

  // ----- Bursts: one row or one column lost -----

  /** Row r lost altogether, one flip in each other row of 0 to 8, rows 9 to 12 otherwise clean. */
  ghost predicate OneRowLost(x: Grid, e: Grid, lost: int) {
    forall r :: 0 <= r < 13 && r != lost ==> if r < 9 then Near(x[r], e[r]) else x[r] == e[r]
  }

  lemma RowBurst(x: Grid, e: Grid, lost: int)
    requires IsCode(e) && OneRowLost(x, e, lost)
    ensures Accepted(x) && Message(Corrected(x)) == Message(e)
  {
    hide Corrected, Accepted, Near, IsCode;
    RecoverableIsDecoded(x, e, lost, -1);
  }

  /** One of the 13 rows lost, and a flip in each other data row: decoded and accepted. */
  lemma RowBurstIsDecoded(m: seq<bit>, rx: seq<byte>, lost: int)
    requires |m| == 96 && |rx| == 98
    requires OneRowLost(ReceivedGrid(rx), Encode(m), lost)
    ensures Decoded(rx) == Decoding(m, true)
  {
    hide Encode, ReceivedGrid, Corrected, Accepted, OneRowLost, IsCode;
    EncodeIsCode(m);
    RowBurst(ReceivedGrid(rx), Encode(m), lost);
  }

  /** One of the 15 columns lost altogether: decoded, whatever the verdict. */
  lemma ColumnBurstIsDecoded(m: seq<bit>, rx: seq<byte>, lost: int)
    requires |m| == 96 && |rx| == 98
    requires forall r, c :: 0 <= r < 13 && 0 <= c < 15 && c != lost ==> ReceivedGrid(rx)[r][c] == Encode(m)[r][c]
    ensures Decoded(rx).bits == m
  {
    hide Encode, ReceivedGrid, Corrected, Accepted, IsCode;
    EncodeIsCode(m);
    RecoverableIsDecoded(ReceivedGrid(rx), Encode(m), -1, lost);
  }

  // ----- Three flips -----

  datatype Place = Place(r: nat, c: nat)

  /** All differences between x and e are among the listed places. */
  ghost predicate DifferOnlyAt(x: Grid, e: Grid, places: set<Place>) {
    forall r: nat, c: nat :: r < 13 && c < 15 && x[r][c] != e[r][c] ==> Place(r, c) in places
  }

  /** Two differences share a data row: that row is lost, and the third's column is bad. */
  lemma SharedRow(x: Grid, e: Grid, a: Place, b: Place, d: Place)
    requires DifferOnlyAt(x, e, {a, b, d}) && a.r == b.r < 9
    ensures Recoverable(x, e, a.r, d.c)
  {
  }

  /** No two differences share a data row: only a column with two of them can be bad. */
  lemma SeparateRows(x: Grid, e: Grid, a: Place, b: Place, d: Place)
    requires DifferOnlyAt(x, e, {a, b, d})
    requires a.r != b.r || a.r >= 9 || a == b
    requires a.r != d.r || a.r >= 9 || a == d
    requires b.r != d.r || b.r >= 9 || b == d
    ensures Recoverable(x, e, -1, if a.c == b.c || a.c == d.c then a.c else b.c)
  {
  }

  lemma ThreeDifferences(x: Grid, e: Grid, a: Place, b: Place, d: Place)
    requires IsCode(e) && DifferOnlyAt(x, e, {a, b, d})
    ensures Message(Corrected(x)) == Message(e)
  {
    hide Recoverable, DifferOnlyAt, Corrected, IsCode;
    if a.r == b.r < 9 && a != b {
      SharedRow(x, e, a, b, d);
      RecoverableIsDecoded(x, e, a.r, d.c);
    } else if a.r == d.r < 9 && a != d {
      assert {a, b, d} == {a, d, b};
      SharedRow(x, e, a, d, b);
      RecoverableIsDecoded(x, e, a.r, b.c);
    } else if b.r == d.r < 9 && b != d {
      assert {a, b, d} == {b, d, a};
      SharedRow(x, e, b, d, a);
      RecoverableIsDecoded(x, e, b.r, a.c);
    } else {
      SeparateRows(x, e, a, b, d);
      RecoverableIsDecoded(x, e, -1, if a.c == b.c || a.c == d.c then a.c else b.c);
    }
  }

  // ----- Two flips -----

  /** Flipping two parity cells of a codeword leaves a syndrome of weight two, never 14 or 15. */
  lemma TwoParityFlips(w: seq<bit>, p: nat, q: nat)
    requires ColCode(w) && 9 <= p < q < 13
    ensures FixCol(Flip(Flip(w, p), q)).ok
  {
    hide ColChecks, ColSignature, Xor;
    var v := Flip(Flip(w, p), q);
    ColChecksFlip(w, p);
    ColChecksFlip(Flip(w, p), q);
    TwoSignatures(p, q);
    ColIsNearestCodeword(v);
  }

  lemma TwoSignatures(p: nat, q: nat)
    requires 9 <= p < q < 13
    ensures CLEAR.Plus(ColSignature(p)).Plus(ColSignature(q)).Index() < 14
  {
    ParityCellSignature(p);
    ParityCellSignature(q);
    hide ColSignature;
  }

  /** A parity cell takes part in its own equation only. */
  lemma ParityCellSignature(p: nat)
    requires 9 <= p < 13
    ensures ColSignature(p) == if p == 9 then Checks(1, 0, 0, 0) else if p == 10 then Checks(0, 1, 0, 0)
                               else if p == 11 then Checks(0, 0, 1, 0) else Checks(0, 0, 0, 1)
  {
  }

  /** After the row pass, a difference sits in rows 9 to 12 or in a row that had two of them. */
  lemma DifferenceAfterRowPass(x: Grid, e: Grid, places: set<Place>, r: nat, c: nat)
    requires IsCode(e) && DifferOnlyAt(x, e, places) && r < 13 && c < 15
    requires RowPass(x)[r][c] != e[r][c]
    ensures r >= 9 ==> Place(r, c) in places
    ensures r < 9 ==> exists c1, c2 :: c1 < c2 && Place(r, c1) in places && Place(r, c2) in places
  {
    hide FixRow;
    if r < 9 && Near(x[r], e[r]) {
      NearRowIsRepaired(x, e, r);
    } else if r < 9 {
      var c1, c2 :| 0 <= c1 < c2 < 15 && x[r][c1] != e[r][c1] && x[r][c2] != e[r][c2];
      assert Place(r, c1) in places && Place(r, c2) in places;
    }
  }

  lemma TwoDifferencesColumn(x: Grid, e: Grid, a: Place, b: Place, c: nat)
    requires IsCode(e) && DifferOnlyAt(x, e, {a, b}) && c < 15
    ensures FixCol(Column(RowPass(x), c)).ok
  {
    hide FixRow, FixCol, RowPass, ColCode, RowCode;
    var h, col, w := RowPass(x), Column(RowPass(x), c), Column(e, c);
    if NearColumn(h, e, c) {
      NearColumnIsRepaired(h, e, c);
    } else {
      var p: nat, q: nat :| p < q < 13 && col[p] != w[p] && col[q] != w[q];
      DifferenceAfterRowPass(x, e, {a, b}, p, c);
      DifferenceAfterRowPass(x, e, {a, b}, q, c);
      assert {a, b} == {Place(p, c), Place(q, c)};
      forall r: nat | r < 13 && r != p && r != q ensures col[r] == w[r] {
        if h[r][c] != e[r][c] {
          DifferenceAfterRowPass(x, e, {a, b}, r, c);
        }
      }
      assert col == Flip(Flip(w, p), q);
      TwoParityFlips(w, p, q);
    }
  }

  lemma TwoDifferences(x: Grid, e: Grid, a: Place, b: Place)
    requires IsCode(e) && DifferOnlyAt(x, e, {a, b})
    ensures Accepted(x)
  {
    hide FixRow, FixCol, RowPass, IsCode;
    forall r | 0 <= r < 9 ensures FixRow(x[r]).ok {
      RowIsNearestCodeword(x[r]);
    }
    forall c | 0 <= c < 15 ensures FixCol(Column(RowPass(x), c)).ok {
      TwoDifferencesColumn(x, e, a, b, c);
    }
  }
}
