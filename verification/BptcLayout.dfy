/**
 Where each bit of a message travels, and what each pass of the decoder leaves alone.
 */
module BptcLayout {
  import opened Bits
  import opened Hamming
  import opened Bptc
  import opened BptcEncoder

  /** The two bits of a dibit arrive high bit first. */
  lemma DibitIsTwoBits(dibits: seq<byte>, k: nat)
    requires |dibits| == 98 && k < 98
    ensures var high: int, low: int := ReceivedBits(dibits)[2 * k], ReceivedBits(dibits)[2 * k + 1];
      dibits[k] % 4 == 2 * high + low
  {
  }

  /** Bit n of a sequence of dibits, high bits first. */
  function BitAt(dibits: seq<byte>, n: nat): int
    requires n < 2 * |dibits|
  {
    if n % 2 == 0 then dibits[n / 2] / 2 % 2 else dibits[n / 2] % 2
  }

  /** The place in the transmission of the cell in row r and column c. */
  function TravelPlace(r: nat, c: nat): (n: nat)
    ensures n < 196
  {
    13 * (15 * r + c) % 196
  }

  /** Cell (r, c) of the encoded matrix is sent as bit 13 (15 r + c) mod 196. */
  lemma CellTravels(m: seq<bit>, r: nat, c: nat)
    requires |m| == 96 && r < 13 && c < 15
    ensures BitAt(Transmit(m), TravelPlace(r, c)) == Encode(m)[r][c]
  {
    hide Encode, Interleave, Flatten, ToDibits;
    var f := Flatten(Encode(m));
    FlatCell(Encode(m), r, c);
    BitMoves(f, 15 * r + c);
    DibitHolds(Interleave(f), TravelPlace(r, c));
  }

  lemma FlatCell(g: Grid, r: nat, c: nat)
    requires r < 13 && c < 15
    ensures 15 * r + c < 195 && Flatten(g)[15 * r + c] == g[r][c]
  {
    assert (15 * r + c) / 15 == r && (15 * r + c) % 15 == c;
  }

  lemma BitMoves(f: Flat, k: nat)
    requires k < 196
    ensures Interleave(f)[13 * k % 196] == f[k]
  {
    InterleaveIndex(k);
  }

  lemma DibitHolds(x: Flat, n: nat)
    requires n < 196
    ensures BitAt(ToDibits(x), n) == x[n]
  {
    assert ToDibits(x)[n / 2] == Dibit(x[2 * (n / 2)], x[2 * (n / 2) + 1]);
  }

  /** Message bit i is sent unchanged, from row i / 11 and column i mod 11. */
  lemma MessageBitTravels(m: seq<bit>, i: nat)
    requires |m| == 96 && i < 96
    ensures BitAt(Transmit(m), TravelPlace(i / 11, i % 11)) == m[i]
  {
    hide Encode, Transmit;
    EncodeIsCode(m);
    CellTravels(m, i / 11, i % 11);
    assert Message(Encode(m))[i] == Encode(m)[i / 11][i % 11];
  }

  /** A row pass makes codewords of rows 0 to 8, each by at most one flip, and leaves rows 9 to 12 alone. */
  lemma RowPassMeaning(g: Grid, r: nat)
    requires r < 13
    ensures r < 9 ==> RowCode(RowPass(g)[r]) && Near(g[r], RowPass(g)[r])
    ensures r >= 9 ==> RowPass(g)[r] == g[r]
  {
    hide FixRow, RowCode;
    RowIsNearestCodeword(g[r]);
  }

  /** A column pass moves a column to a codeword within one flip if there is one, and leaves it alone if not. */
  lemma ColPassMeaning(g: Grid, c: nat)
    requires c < 15
    ensures var before, after := Column(g, c), Column(ColPass(g), c);
      if exists w :: ColCode(w) && Near(before, w) then ColCode(after) && Near(before, after) else after == before
  {
    hide FixCol, ColCode, Near;
    ColIsNearestCodeword(Column(g, c));
    assert Column(ColPass(g), c) == FixCol(Column(g, c)).word;
  }
}
