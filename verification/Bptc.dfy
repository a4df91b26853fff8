/**
 The BPTC(196,96) decoder: 98 dibits are unpacked into 196 bits, de-interleaved, laid
 out as a matrix of 13 rows and 15 columns with one spare bit, corrected by rows, by
 columns and by rows again, and read out as 96 bits.

 `Decode` works in place on the flat matrix as the program does; `Decoded` is its
 specification, pass by pass, on matrices taken as values.
 */
module Bptc {
  import opened Bits
  import opened Hamming

  type Grid = g: seq<seq<bit>> | |g| == 13 && (forall r :: 0 <= r < 13 ==> |g[r]| == 15)
    witness seq(13, r => Zeros(15))

  type Flat = f: seq<bit> | |f| == 196 witness Zeros(196)

  // ----- Layout -----

  function ReceivedBits(dibits: seq<byte>): Flat
    requires |dibits| == 98
  {
    seq(196, i requires 0 <= i < 196 => if i % 2 == 0 then dibits[i / 2] / 2 % 2 else dibits[i / 2] % 2)
  }

  function Deinterleaved(x: Flat): Flat {
    seq(196, k requires 0 <= k < 196 => x[k * 13 % 196])
  }

  function Cell(f: Flat, r: int, c: int): bit
    requires 0 <= r < 13 && 0 <= c < 15
  {
    f[r * 15 + c]
  }

  function GridOf(f: Flat): Grid {
    seq(13, r requires 0 <= r < 13 => seq(15, c requires 0 <= c < 15 => Cell(f, r, c)))
  }

  function Column(g: Grid, c: int): (col: seq<bit>)
    requires 0 <= c < 15
    ensures |col| == 13
  {
    seq(13, r requires 0 <= r < 13 => g[r][c])
  }

  /** The 96 message bits: rows 0 to 8, cells 0 to 10, without the last three. */
  function Message(g: Grid): (m: seq<bit>)
    ensures |m| == 96
  {
    seq(96, i requires 0 <= i < 96 => g[i / 11][i % 11])
  }

  // ----- The passes -----

  function RowPass(g: Grid): Grid {
    seq(13, r requires 0 <= r < 13 => if r < 9 then FixRow(g[r]).word else g[r])
  }

  function ColPass(g: Grid): Grid {
    seq(13, r requires 0 <= r < 13 => seq(15, c requires 0 <= c < 15 => FixCol(Column(g, c)).word[r]))
  }

  ghost predicate RowsAccepted(g: Grid) {
    forall r :: 0 <= r < 9 ==> FixRow(g[r]).ok
  }

  ghost predicate ColsAccepted(g: Grid) {
    forall c :: 0 <= c < 15 ==> FixCol(Column(g, c)).ok
  }

  /** The matrix after all three passes. */
  function Corrected(g: Grid): Grid {
    RowPass(ColPass(RowPass(g)))
  }

  ghost predicate Accepted(g: Grid) {
    RowsAccepted(g) && ColsAccepted(RowPass(g))
  }

  function ReceivedGrid(dibits: seq<byte>): Grid
    requires |dibits| == 98
  {
    GridOf(Deinterleaved(ReceivedBits(dibits)))
  }

  datatype Decoding = Decoding(bits: seq<bit>, ok: bool)

  ghost function Decoded(dibits: seq<byte>): Decoding
    requires |dibits| == 98
  {
    var g := ReceivedGrid(dibits);
    Decoding(Message(Corrected(g)), Accepted(g))
  }

  // ----- The decoder -----

  method Deinterleave(input: array<bit>, output: array<bit>)
    requires input.Length == output.Length == 196 && input != output
    modifies output
    ensures output[..] == Deinterleaved(input[..])
  {
    for k := 0 to 196
      invariant forall j :: 0 <= j < k ==> output[j] == input[j * 13 % 196]
    {
      output[k] := input[k * 13 % 196];
    }
  }

  method LoadRow(flat: array<bit>, r: nat) returns (row: array<bit>)
    requires flat.Length == 196 && r < 13
    ensures fresh(row) && row.Length == 15 && row[..] == GridOf(flat[..])[r]
  {
    row := new bit[15];
    for c := 0 to 15
      modifies row
      invariant forall j :: 0 <= j < c ==> row[j] == Cell(flat[..], r, j)
    {
      row[c] := flat[r * 15 + c];
    }
  }

  method StoreRow(flat: array<bit>, r: nat, row: array<bit>)
    requires flat.Length == 196 && row.Length == 15 && r < 13 && flat != row
    modifies flat
    ensures GridOf(flat[..]) == GridOf(old(flat[..]))[r := row[..]]
  {
    ghost var f := flat[..];
    for c := 0 to 15
      invariant forall k :: 0 <= k < 196 ==> flat[k] == if r * 15 <= k < r * 15 + c then row[k - r * 15] else f[k]
    {
      flat[r * 15 + c] := row[c];
    }
    assert GridOf(flat[..])[r] == row[..];
    forall i | 0 <= i < 13 && i != r ensures GridOf(flat[..])[i] == GridOf(f)[i] {
      forall j | 0 <= j < 15 ensures Cell(flat[..], i, j) == Cell(f, i, j) {
      }
    }
  }

  method LoadCol(flat: array<bit>, c: nat) returns (col: array<bit>)
    requires flat.Length == 196 && c < 15
    ensures fresh(col) && col.Length == 13 && col[..] == Column(GridOf(flat[..]), c)
  {
    col := new bit[13];
    for r := 0 to 13
      modifies col
      invariant forall i :: 0 <= i < r ==> col[i] == Cell(flat[..], i, c)
    {
      col[r] := flat[r * 15 + c];
    }
  }

  method StoreCol(flat: array<bit>, c: nat, col: array<bit>)
    requires flat.Length == 196 && col.Length == 13 && c < 15 && flat != col
    modifies flat
    ensures forall i, j :: 0 <= i < 13 && 0 <= j < 15 ==>
      GridOf(flat[..])[i][j] == if j == c then col[i] else GridOf(old(flat[..]))[i][j]
  {
    ghost var f := flat[..];
    for r := 0 to 13
      invariant forall i, j :: 0 <= i < 13 && 0 <= j < 15 ==>
        Cell(flat[..], i, j) == if j == c && i < r then col[i] else Cell(f, i, j)
    {
      ghost var before := flat[..];
      flat[r * 15 + c] := col[r];
      forall i, j | 0 <= i < 13 && 0 <= j < 15 && (i != r || j != c)
        ensures Cell(flat[..], i, j) == Cell(before, i, j)
      {
        assert i * 15 + j != r * 15 + c;
      }
    }
  }

  lemma RowPassSnoc(g: Grid, r: nat)
    requires r < 9
    ensures RowPass(g)[..r + 1] + g[r + 1..] == (RowPass(g)[..r] + g[r..])[r := FixRow(g[r]).word]
  {
    hide FixRow;
  }

  lemma RowsEnd(g: Grid)
    ensures RowPass(g)[..9] + g[9..] == RowPass(g)
  {
    hide FixRow;
  }

  /** One pass of row correction over rows 0 to 8. */
  method CorrectRows(flat: array<bit>) returns (ok: bool)
    requires flat.Length == 196
    modifies flat
    ensures GridOf(flat[..]) == RowPass(GridOf(old(flat[..])))
    ensures ok <==> RowsAccepted(GridOf(old(flat[..])))
  {
    hide FixRow, GridOf, RowPass;
    ghost var g := GridOf(flat[..]);
    ok := true;
    for r := 0 to 9
      invariant GridOf(flat[..]) == RowPass(g)[..r] + g[r..]
      invariant ok <==> forall i :: 0 <= i < r ==> FixRow(g[i]).ok
    {
      var row := LoadRow(flat, r);
      assert row[..] == g[r];
      var rowOk := CorrectRow(row);
      if !rowOk {
        ok := false;
      }
      RowPassSnoc(g, r);
      StoreRow(flat, r, row);
    }
    RowsEnd(g);
  }

  /** The pass of column correction over columns 0 to 14. */
  method CorrectCols(flat: array<bit>) returns (ok: bool)
    requires flat.Length == 196
    modifies flat
    ensures GridOf(flat[..]) == ColPass(GridOf(old(flat[..])))
    ensures ok <==> ColsAccepted(GridOf(old(flat[..])))
  {
    hide FixCol, GridOf;
    ghost var g := GridOf(flat[..]);
    ok := true;
    for c := 0 to 15
      invariant forall i, j :: 0 <= i < 13 && 0 <= j < 15 ==>
        GridOf(flat[..])[i][j] == if j < c then ColPass(g)[i][j] else g[i][j]
      invariant ok <==> forall j :: 0 <= j < c ==> FixCol(Column(g, j)).ok
    {
      var col := LoadCol(flat, c);
      assert col[..] == Column(g, c);
      var colOk := CorrectCol(col);
      if !colOk {
        ok := false;
      }
      StoreCol(flat, c, col);
    }
    assert forall i :: 0 <= i < 13 ==> GridOf(flat[..])[i] == ColPass(g)[i];
  }

  method Unpack(dibits: seq<byte>) returns (received: array<bit>)
    requires |dibits| == 98
    ensures fresh(received) && received.Length == 196 && received[..] == ReceivedBits(dibits)
  {
    received := new bit[196];
    for k := 0 to 98
      invariant forall i :: 0 <= i < 2 * k ==> received[i] == ReceivedBits(dibits)[i]
    {
      received[2 * k] := dibits[k] / 2 % 2;
      received[2 * k + 1] := dibits[k] % 2;
    }
  }

  method Extract(matrix: array<bit>, bitsOut: array<bit>)
    requires matrix.Length == 196 && bitsOut.Length == 96 && matrix != bitsOut
    modifies bitsOut
    ensures bitsOut[..] == Message(GridOf(matrix[..]))
  {
    var bitIdx, r := 0, 0;
    while r < 9 && bitIdx < 96
      invariant 0 <= r <= 9 && bitIdx == if r < 9 then 11 * r else 96
      invariant forall i :: 0 <= i < bitIdx ==> bitsOut[i] == Cell(matrix[..], i / 11, i % 11)
    {
      var c := 0;
      while c < 11 && bitIdx < 96
        invariant 0 <= c <= 11 && bitIdx == 11 * r + c <= 96
        invariant forall i :: 0 <= i < bitIdx ==> bitsOut[i] == Cell(matrix[..], i / 11, i % 11)
      {
        bitsOut[bitIdx] := matrix[r * 15 + c];
        bitIdx := bitIdx + 1;
        c := c + 1;
      }
      r := r + 1;
    }
  }

  method Decode(dibits: seq<byte>, bitsOut: array<bit>) returns (ok: bool)
    requires |dibits| == 98 && bitsOut.Length == 96
    modifies bitsOut
    ensures Decoding(bitsOut[..], ok) == Decoded(dibits)
  {
    hide FixRow, FixCol, GridOf, Deinterleaved, ReceivedBits, RowPass, ColPass, Message, RowsAccepted, ColsAccepted;
    var received := Unpack(dibits);
    var matrix := new bit[196];
    Deinterleave(received, matrix);

    ok := CorrectRows(matrix);
    var colsOk := CorrectCols(matrix);
    if !colsOk {
      ok := false;
    }
    var _ := CorrectRows(matrix);  // the verdict of the second row pass is ignored

    Extract(matrix, bitsOut);
  }
}
