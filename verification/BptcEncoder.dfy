/**
 The encoder that the decoder inverts, built from the decoder's own parity equations:
 rows 0 to 8 are row-encoded, then all 15 columns are column-encoded, the matrix is
 read out row by row with a zero in the spare place, interleaved and packed in dibits.
 */
module BptcEncoder {
  import opened Bits
  import opened Hamming
  import opened Bptc
  import Words

  /** The eleven data bits of a row; the last three of row 8 are dummies. */
  function DataRow(m: seq<bit>, r: nat): (d: seq<bit>)
    requires |m| == 96 && r < 9
    ensures |d| == 11
  {
    seq(11, c requires 0 <= c < 11 => if 11 * r + c < 96 then m[11 * r + c] else 0)
  }

  function EncodeRow(d: seq<bit>): (w: seq<bit>)
    requires |d| == 11
    ensures |w| == 15
  {
    d + [Parity(d, ROW_P0[..7]), Parity(d, ROW_P1[..7]), Parity(d, ROW_P2[..7]), Parity(d, ROW_P3[..7])]
  }

  function EncodeCol(d: seq<bit>): (w: seq<bit>)
    requires |d| == 9
    ensures |w| == 13
  {
    d + [Parity(d, COL_P0[..6]), Parity(d, COL_P1[..5]), Parity(d, COL_P2[..5]), Parity(d, COL_P3[..5])]
  }

  function DataColumn(m: seq<bit>, c: nat): (d: seq<bit>)
    requires |m| == 96 && c < 15
    ensures |d| == 9
  {
    seq(9, r requires 0 <= r < 9 => EncodeRow(DataRow(m, r))[c])
  }

  function Encode(m: seq<bit>): Grid
    requires |m| == 96
  {
    seq(13, r requires 0 <= r < 13 => seq(15, c requires 0 <= c < 15 => EncodeCol(DataColumn(m, c))[r]))
  }

  /** Row-major order, with a zero in the spare place. */
  function Flatten(g: Grid): Flat {
    seq(196, k requires 0 <= k < 196 => if k < 195 then g[k / 15][k % 15] else 0)
  }

  function Interleave(f: Flat): Flat {
    seq(196, n requires 0 <= n < 196 => f[n * 181 % 196])
  }

  function Dibit(high: int, low: int): byte
    requires 0 <= high < 2 && 0 <= low < 2
  {
    2 * high + low
  }

  function ToDibits(x: Flat): (d: seq<byte>)
    ensures |d| == 98
  {
    seq(98, k requires 0 <= k < 98 => Dibit(x[2 * k], x[2 * k + 1]))
  }

  function Transmit(m: seq<bit>): (d: seq<byte>)
    requires |m| == 96
    ensures |d| == 98
  {
    ToDibits(Interleave(Flatten(Encode(m))))
  }

  /** The codewords of the product code: rows 0 to 8 and all columns are codewords. */
  ghost predicate IsCode(g: Grid) {
    && (forall r :: 0 <= r < 9 ==> RowCode(g[r]))
    && (forall c :: 0 <= c < 15 ==> ColCode(Column(g, c)))
  }

  // ----- The encoder produces codewords that carry the message -----

  lemma {:induction false} ParityOfPrefix(d: seq<bit>, p: seq<bit>, cells: seq<nat>)
    requires forall i :: 0 <= i < |cells| ==> cells[i] < |d|
    ensures Parity(d + p, cells) == Parity(d, cells)
  {
    if cells == [] {
    } else {
      ParityOfPrefix(d, p, cells[..|cells| - 1]);
    }
  }

  /** An equation holds once its last cell carries the parity of the others. */
  lemma EquationHolds(d: seq<bit>, p: seq<bit>, cells: seq<nat>)
    requires cells != [] && |d| <= cells[|cells| - 1] < |d + p|
    requires forall i :: 0 <= i < |cells| - 1 ==> cells[i] < |d|
    requires (d + p)[cells[|cells| - 1]] == Parity(d, cells[..|cells| - 1])
    ensures Parity(d + p, cells) == 0
  {
    ParityOfPrefix(d, p, cells[..|cells| - 1]);
  }

  lemma EncodeRowIsCode(d: seq<bit>)
    requires |d| == 11
    ensures RowCode(EncodeRow(d)) && EncodeRow(d)[..11] == d
  {
    var p := EncodeRow(d)[11..];
    assert EncodeRow(d) == d + p;
    hide Parity, EncodeRow;
    EquationHolds(d, p, ROW_P0);
    EquationHolds(d, p, ROW_P1);
    EquationHolds(d, p, ROW_P2);
    EquationHolds(d, p, ROW_P3);
  }

  lemma EncodeColIsCode(d: seq<bit>)
    requires |d| == 9
    ensures ColCode(EncodeCol(d)) && EncodeCol(d)[..9] == d
  {
    var p := EncodeCol(d)[9..];
    assert EncodeCol(d) == d + p;
    hide Parity, EncodeCol;
    EquationHolds(d, p, COL_P0);
    EquationHolds(d, p, COL_P1);
    EquationHolds(d, p, COL_P2);
    EquationHolds(d, p, COL_P3);
  }

  lemma EncodeIsCode(m: seq<bit>)
    requires |m| == 96
    ensures IsCode(Encode(m))
    ensures Message(Encode(m)) == m
  {
    hide EncodeRow, EncodeCol, RowCode, ColCode;
    var g := Encode(m);
    forall c | 0 <= c < 15 ensures ColCode(Column(g, c)) && Column(g, c)[..9] == DataColumn(m, c) {
      assert Column(g, c) == EncodeCol(DataColumn(m, c));
      EncodeColIsCode(DataColumn(m, c));
    }
    forall r | 0 <= r < 9 ensures RowCode(g[r]) && g[r][..11] == DataRow(m, r) {
      forall c | 0 <= c < 15 ensures g[r][c] == EncodeRow(DataRow(m, r))[c] {
        assert Column(g, c)[..9][r] == DataColumn(m, c)[r];
      }
      assert g[r] == EncodeRow(DataRow(m, r));
      EncodeRowIsCode(DataRow(m, r));
    }
    forall i | 0 <= i < 96 ensures Message(g)[i] == m[i] {
      assert g[i / 11][i % 11] == g[i / 11][..11][i % 11] == DataRow(m, i / 11)[i % 11];
    }
  }

  // ----- The layout is inverted -----

  /** 13 and 181 are inverse to each other modulo 196. */
  lemma InterleaveIndex(k: nat)
    requires k < 196
    ensures k * 13 % 196 * 181 % 196 == k
    ensures k * 181 % 196 * 13 % 196 == k
  {
    var q, p := k * 13 / 196, k * 181 / 196;
    Words.Remainder(k * 13 % 196 * 181, 196, 12 * k - 181 * q, k);
    Words.Remainder(k * 181 % 196 * 13, 196, 12 * k - 13 * p, k);
  }

  lemma InterleaveInverts(f: Flat)
    ensures Deinterleaved(Interleave(f)) == f
    ensures Interleave(Deinterleaved(f)) == f
  {
    forall k: nat | k < 196 ensures Deinterleaved(Interleave(f))[k] == f[k] && Interleave(Deinterleaved(f))[k] == f[k] {
      InterleaveIndex(k);
    }
  }

  lemma PackingInverts(x: Flat)
    ensures ReceivedBits(ToDibits(x)) == x
  {
    var d := ToDibits(x);
    forall i: nat | i < 196 ensures ReceivedBits(d)[i] == x[i] {
      assert d[i / 2] == Dibit(x[2 * (i / 2)], x[2 * (i / 2) + 1]);
    }
  }

  lemma TransmitIsReceived(m: seq<bit>)
    requires |m| == 96
    ensures ReceivedGrid(Transmit(m)) == Encode(m)
  {
    hide Deinterleaved, Interleave, ToDibits, ReceivedBits, Encode, Flatten, GridOf;
    var f := Flatten(Encode(m));
    PackingInverts(Interleave(f));
    InterleaveInverts(f);
    FlattenInverts(Encode(m));
  }

  lemma FlattenInverts(g: Grid)
    ensures GridOf(Flatten(g)) == g
  {
    forall r | 0 <= r < 13 ensures GridOf(Flatten(g))[r] == g[r] {
      forall c | 0 <= c < 15 ensures GridOf(Flatten(g))[r][c] == g[r][c] {
        assert (r * 15 + c) / 15 == r && (r * 15 + c) % 15 == c;
      }
    }
  }

  // ----- The other reading of the interleaving formula -----

  /** The scatter form of the interleaver: bit n goes to place 181n mod 196. */
  ghost predicate IsScatter(f: Flat, tx: Flat) {
    forall n: nat :: n < 196 ==> tx[n * 181 % 196] == f[n]
  }

  lemma ScatterIsUnique(f: Flat, tx: Flat)
    requires IsScatter(f, tx)
    ensures tx == Deinterleaved(f)
  {
    forall p: nat | p < 196 ensures tx[p] == f[p * 13 % 196] {
      InterleaveIndex(p);
      assert tx[p * 13 % 196 * 181 % 196] == f[p * 13 % 196];
    }
  }

  /**
   Read as a scatter, the interleaving formula is not what the de-interleaver inverts:
   it is inverted exactly on the words that are invariant under k -> 169k mod 196.
   */
  lemma ScatterRoundTrip(f: Flat, tx: Flat)
    requires IsScatter(f, tx)
    ensures Deinterleaved(tx) == f <==> forall k: nat :: k < 196 ==> f[k * 169 % 196] == f[k]
  {
    ScatterIsUnique(f, tx);
    forall k: nat | k < 196 ensures Deinterleaved(tx)[k] == f[k * 169 % 196] {
      var q := k * 13 / 196;
      Words.Remainder(k * 13 % 196 * 13, 196, (k * 169) / 196 - 13 * q, k * 169 % 196);
    }
  }

  /** For example, a word whose only one bit is bit 1 comes back with a different bit set. */
  lemma ScatterIsNotInverted(tx: Flat)
    requires IsScatter(Flip(Zeros(196), 1), tx)
    ensures Deinterleaved(tx) != Flip(Zeros(196), 1)
  {
    var f: Flat := Flip(Zeros(196), 1);
    ScatterRoundTrip(f, tx);
    assert f[1 * 169 % 196] != f[1];
  }
}
