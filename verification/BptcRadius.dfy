/**
 The correcting radius of the decoder, counted in flipped bits among the 196 received.
 */
module BptcRadius {
  import opened Bits
  import opened Hamming
  import opened Bptc
  import opened BptcEncoder
  import opened BptcPower

  /** The bits in which what was received differs from what was transmitted. */
  function BitErrors(rx: seq<byte>, tx: seq<byte>): set<nat>
    requires |rx| == |tx| == 98
  {
    Flips(ReceivedBits(rx), ReceivedBits(tx))
  }

  /** Where the de-interleaver puts received bit p. */
  function PlaceOf(p: nat): Place {
    var k := p * 181 % 196;
    Place(k / 15, k % 15)
  }

  lemma ErrorsInGrid(rx: seq<byte>, tx: seq<byte>, places: set<Place>)
    requires |rx| == |tx| == 98
    requires forall p :: p in BitErrors(rx, tx) ==> PlaceOf(p) in places
    ensures DifferOnlyAt(ReceivedGrid(rx), ReceivedGrid(tx), places)
  {
    hide ReceivedBits;
    var x, e := ReceivedGrid(rx), ReceivedGrid(tx);
    forall r: nat, c: nat | r < 13 && c < 15 && x[r][c] != e[r][c] ensures Place(r, c) in places {
      var k := r * 15 + c;
      InterleaveIndex(k);
      assert k * 13 % 196 in BitErrors(rx, tx);
      assert k / 15 == r && k % 15 == c;
    }
  }

  lemma Enumerate(s: set<nat>) returns (a: nat, b: nat, d: nat)
    requires |s| <= 3
    ensures s <= {a, b, d}
    ensures |s| <= 2 ==> b == d
  {
    a, b, d := 0, 0, 0;
    if s != {} {
      a :| a in s;
      var t := s - {a};
      if t != {} {
        b :| b in t;
        d := b;
        var u := t - {b};
        if u != {} {
          d :| d in u;
          assert |u - {d}| == |s| - 3;
        }
      }
    }
  }

  /**
   Any three flipped bits are corrected; with at most two the verdict is also positive.
   */
  lemma ThreeFlipsAreCorrected(m: seq<bit>, rx: seq<byte>)
    requires |m| == 96 && |rx| == 98
    ensures |BitErrors(rx, Transmit(m))| <= 3 ==> Decoded(rx).bits == m
    ensures |BitErrors(rx, Transmit(m))| <= 2 ==> Decoded(rx).ok
  {
    hide BitErrors, PlaceOf, Transmit, ReceivedGrid, Encode, Corrected, Accepted, IsCode, DifferOnlyAt;
    var tx, e := Transmit(m), Encode(m);
    EncodeIsCode(m);
    TransmitIsReceived(m);
    if |BitErrors(rx, tx)| > 3 {
      return;
    }
    var a, b, d := Enumerate(BitErrors(rx, tx));
    var places := {PlaceOf(a), PlaceOf(b), PlaceOf(d)};
    ErrorsInGrid(rx, tx, places);
    ThreeDifferences(ReceivedGrid(rx), e, PlaceOf(a), PlaceOf(b), PlaceOf(d));
    if |BitErrors(rx, tx)| <= 2 {
      assert places == {PlaceOf(a), PlaceOf(b)};
      TwoDifferences(ReceivedGrid(rx), e, PlaceOf(a), PlaceOf(b));
    }
  }

  // ----- The radius is exactly three -----

  function Pattern(errors: set<nat>): Flat {
    seq(196, p requires 0 <= p < 196 => if p in errors then 1 else 0)
  }

  /** Message m as transmitted, with the listed bits flipped on the way. */
  function Disturbed(m: seq<bit>, errors: set<nat>): (rx: seq<byte>)
    requires |m| == 96
    ensures |rx| == 98
  {
    ToDibits(Plus(Pattern(errors), ReceivedBits(Transmit(m))))
  }

  lemma DisturbedHasErrors(m: seq<bit>, errors: set<nat>)
    requires |m| == 96
    requires forall p :: p in errors ==> p < 196
    ensures BitErrors(Disturbed(m, errors), Transmit(m)) == errors
    ensures ReceivedBits(Disturbed(m, errors)) == Plus(ReceivedBits(ToDibits(Pattern(errors))), ReceivedBits(Transmit(m)))
  {
    hide ToDibits, Transmit, ReceivedBits;
    var t := ReceivedBits(Transmit(m));
    PackingInverts(Plus(Pattern(errors), t));
    PackingInverts(Pattern(errors));
    forall p: nat | p < 196 ensures Plus(Pattern(errors), t)[p] != t[p] <==> p in errors {
    }
  }

  /** The corners of rows 0, 1 and columns 0, 1, as received bits. */
  const CORNERS: set<nat> := {0, 12, 13, 195}

  /** The block of rows 0 to 2 and columns 0 to 2: the codeword that the corners are taken for. */
  const BLOCK: Grid := seq(13, r => seq(15, c => if r < 3 && c < 3 then 1 else 0))

  lemma ZerosAreACode()
    ensures RowCode(Zeros(15)) && ColCode(Zeros(13))
  {
    hide Parity;
    ParityZeros(15, ROW_P0);
    ParityZeros(15, ROW_P1);
    ParityZeros(15, ROW_P2);
    ParityZeros(15, ROW_P3);
    ParityZeros(13, COL_P0);
    ParityZeros(13, COL_P1);
    ParityZeros(13, COL_P2);
    ParityZeros(13, COL_P3);
  }

  /** The signatures of the first three data cells cancel. */
  lemma FirstSignatures()
    ensures RowSignature(0) == Checks(1, 1, 0, 0) && RowSignature(1) == Checks(1, 0, 1, 0)
    ensures RowSignature(2) == Checks(0, 1, 1, 0)
  {
  }

  lemma ThreeOnesInARow()
    ensures RowCode(Flip(Flip(Flip(Zeros(15), 0), 1), 2))
  {
    ZerosAreACode();
    hide RowChecks;
    RowChecksFlip(Zeros(15), 0);
    RowChecksFlip(Flip(Zeros(15), 0), 1);
    RowChecksFlip(Flip(Flip(Zeros(15), 0), 1), 2);
    FirstSignatures();
    hide RowSignature, Flip;
  }

  lemma ThreeOnesInAColumn()
    ensures ColCode(Flip(Flip(Flip(Zeros(13), 0), 1), 2))
  {
    ZerosAreACode();
    hide ColChecks;
    ColChecksFlip(Zeros(13), 0);
    ColChecksFlip(Flip(Zeros(13), 0), 1);
    ColChecksFlip(Flip(Flip(Zeros(13), 0), 1), 2);
  }

  lemma BlockIsCode()
    ensures IsCode(BLOCK)
  {
    ZerosAreACode();
    ThreeOnesInARow();
    ThreeOnesInAColumn();
    hide RowChecks, ColChecks;
    forall r | 0 <= r < 9 ensures RowCode(BLOCK[r]) {
      assert BLOCK[r] == if r < 3 then Flip(Flip(Flip(Zeros(15), 0), 1), 2) else Zeros(15);
    }
    forall c | 0 <= c < 15 ensures ColCode(Column(BLOCK, c)) {
      assert Column(BLOCK, c) == if c < 3 then Flip(Flip(Flip(Zeros(13), 0), 1), 2) else Zeros(13);
    }
  }

  /** The decoder takes the four corners for the block with its third row lost. */
  lemma CornersDecodeToBlock()
    ensures Decoded(ToDibits(Pattern(CORNERS))) == Decoding(Message(BLOCK), true)
  {
    hide ToDibits, ReceivedBits, Corrected, Accepted, IsCode;
    BlockIsCode();
    PackingInverts(Pattern(CORNERS));
    var x := ReceivedGrid(ToDibits(Pattern(CORNERS)));
    forall r, c | 0 <= r < 13 && 0 <= c < 15
      ensures x[r][c] == if r < 2 && c < 2 then 1 else 0
    {
      CornerPositions(r, c);
    }
    assert OneRowLost(x, BLOCK, 2);
    RowBurst(x, BLOCK, 2);
  }

  /** Received bit p ends up in matrix cell 181p mod 196. */
  lemma ReceivedAs(k: nat, p: nat)
    requires k < 196 && p < 196
    ensures k * 13 % 196 == p <==> k == p * 181 % 196
  {
    InterleaveIndex(k);
    InterleaveIndex(p);
  }

  lemma CornerPositions(r: nat, c: nat)
    requires r < 13 && c < 15
    ensures (r * 15 + c) * 13 % 196 in CORNERS <==> r < 2 && c < 2
  {
    var k := r * 15 + c;
    ReceivedAs(k, 0);
    ReceivedAs(k, 12);
    ReceivedAs(k, 13);
    ReceivedAs(k, 195);
    assert k in {0, 1, 15, 16} <==> r < 2 && c < 2;
  }

  /** Four flips can turn any message into another one that the decoder accepts. */
  lemma FourFlipsCanDeceive(m: seq<bit>)
    requires |m| == 96
    ensures exists rx :: |rx| == 98 && |BitErrors(rx, Transmit(m))| == 4 && Decoded(rx).ok && Decoded(rx).bits != m
  {
    hide ToDibits, ReceivedBits, Decoded, Transmit, BitErrors;
    var rx := Disturbed(m, CORNERS);
    DisturbedHasErrors(m, CORNERS);
    CornersDecodeToBlock();
    DecodingIsEquivariant(ToDibits(Pattern(CORNERS)), m, rx);
    assert Decoded(rx).bits[0] == Xor(1, m[0]);
    assert |CORNERS| == 4;
  }

  /** The parity cells of column 0 in rows 10, 11 and 12, as received bits. */
  const STACK: set<nat> := {184, 185, 186}

  lemma StackPositions(r: nat, c: nat)
    requires r < 13 && c < 15
    ensures (r * 15 + c) * 13 % 196 in STACK <==> r >= 10 && c == 0
  {
    var k := r * 15 + c;
    ReceivedAs(k, 184);
    ReceivedAs(k, 185);
    ReceivedAs(k, 186);
    assert k in {150, 165, 180} <==> r >= 10 && c == 0;
  }

  lemma StackIsRejected()
    ensures !Decoded(ToDibits(Pattern(STACK))).ok
  {
    hide ToDibits, ReceivedBits;
    PackingInverts(Pattern(STACK));
    var d := ToDibits(Pattern(STACK));
    var x := ReceivedGrid(d);
    forall r, c | 0 <= r < 13 && 0 <= c < 15
      ensures x[r][c] == if r >= 10 && c == 0 then 1 else 0
    {
      StackPositions(r, c);
    }
    ZerosAreACode();
    hide RowChecks, ColChecks, FixRow, ReceivedGrid;
    forall r | 0 <= r < 13 ensures RowPass(x)[r] == x[r] {
      if r < 9 {
        assert x[r] == Zeros(15);
        RowUnique(x[r], Zeros(15));
      }
    }
    StackSyndrome();
    assert Column(RowPass(x), 0) == Flip(Flip(Flip(Zeros(13), 10), 11), 12);
    VerdictIsColumnSyndrome(d);
  }

  lemma StackSyndrome()
    ensures ColChecks(Flip(Flip(Flip(Zeros(13), 10), 11), 12)).Index() == 14
  {
    ZerosAreACode();
    ColChecksFlip(Zeros(13), 10);
    ColChecksFlip(Flip(Zeros(13), 10), 11);
    ColChecksFlip(Flip(Flip(Zeros(13), 10), 11), 12);
    ParityCellSignature(10);
    ParityCellSignature(11);
    ParityCellSignature(12);
    hide ColChecks, RowChecks, ColSignature;
  }

  /** Three flips are corrected, but can cost the positive verdict. */
  lemma ThreeFlipsCanBeRejected(m: seq<bit>)
    requires |m| == 96
    ensures exists rx :: |rx| == 98 && |BitErrors(rx, Transmit(m))| == 3 && !Decoded(rx).ok
  {
    hide ToDibits, ReceivedBits, Decoded, Transmit, BitErrors;
    var rx := Disturbed(m, STACK);
    DisturbedHasErrors(m, STACK);
    StackIsRejected();
    DecodingIsEquivariant(ToDibits(Pattern(STACK)), m, rx);
    assert |STACK| == 3;
  }

  /** An undisturbed message is decoded and accepted. */
  lemma RoundTrip(m: seq<bit>)
    requires |m| == 96
    ensures Decoded(Transmit(m)) == Decoding(m, true)
  {
    hide ReceivedBits, Transmit, Decoded;
    assert BitErrors(Transmit(m), Transmit(m)) == {};
    ThreeFlipsAreCorrected(m, Transmit(m));
  }
}
