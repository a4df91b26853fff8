/**
 Dibit streams and the shift register that remembers their last 24 dibits.
 */
module DibitStream {
  import opened SyncWords
  import History

  type dibit = d: int | 0 <= d < 4

  /** Dibit i of the stream, with zeros before its start. */
  function At(s: seq<dibit>, i: int): dibit {
    History.Padded(s, i, 0)
  }

  /** The count dibits of the stream from place `from`, with zeros before its start. */
  function Slice(s: seq<dibit>, from: int, count: nat): (r: seq<dibit>)
    ensures |r| == count
    ensures forall i :: 0 <= i < count ==> r[i] == At(s, from + i)
  {
    seq<dibit>(count, i requires 0 <= i < count => At(s, from + i))
  }

  function ToWord(d: dibit): bv64 {
    if d == 0 then 0 else if d == 1 then 1 else if d == 2 then 2 else 3
  }

  /** One step of the register: two bits in at the bottom, two out at bit 48. */
  function Shift(reg: bv64, d: dibit): bv64 {
    ((reg << 2) | ToWord(d)) & MASK48
  }

  /** The register after a run of dibits. */
  function Feed(reg: bv64, w: seq<dibit>): bv64 {
    if w == [] then reg else Shift(Feed(reg, w[..|w| - 1]), w[|w| - 1])
  }

  /** The register that holds exactly the given dibits. */
  function Pack(w: seq<dibit>): bv64 {
    Feed(0, w)
  }

  lemma {:induction false} FeedConcat(reg: bv64, v: seq<dibit>, w: seq<dibit>)
    ensures Feed(reg, v + w) == Feed(Feed(reg, v), w)
  {
    if w == [] {
      assert v + w == v;
    } else {
      var n := |w| - 1;
      assert (v + w)[..|v + w| - 1] == v + w[..n];
      FeedConcat(reg, v, w[..n]);
    }
  }

  lemma FeedSnoc(reg: bv64, w: seq<dibit>, d: dibit)
    ensures Feed(reg, w + [d]) == Shift(Feed(reg, w), d)
  {
    assert (w + [d])[..|w + [d]| - 1] == w;
  }

  lemma {:induction false} FeedZeros(n: nat)
    ensures Feed(0, seq<dibit>(n, i => 0)) == 0
  {
    if n == 0 {
    } else {
      FeedZeros(n - 1);
      assert seq<dibit>(n, i => 0)[..n - 1] == seq<dibit>(n - 1, i => 0);
      assert Shift(0, 0) == 0;
    }
  }

  // ----- Masks and agreement; the bit-level facts are proved on plain words -----

  function Grow(low: bv64): bv64 {
    (low << 2) | 3
  }

  /** The mask of the lowest k dibits. */
  function Low(k: nat): bv64 {
    if k == 0 then 0 else Grow(Low(k - 1))
  }

  predicate AgreeOn(a: bv64, b: bv64, low: bv64) {
    (a ^ b) & low == 0
  }

  predicate Within(a: bv64, low: bv64) {
    a & low == a
  }

  lemma WordAgrees(a: bv64, b: bv64, low: bv64, w: bv64)
    requires (a ^ b) & low == 0
    ensures ((((a << 2) | w) & MASK48) ^ (((b << 2) | w) & MASK48)) & ((low << 2) | 3) == 0
  {
  }

  lemma WordWithin(x: bv64, low: bv64, w: bv64)
    requires x & low == x && w & 3 == w
    ensures (((x << 2) | w) & MASK48) & ((low << 2) | 3) == ((x << 2) | w) & MASK48
  {
  }

  lemma EqualUnderMask(a: bv64, b: bv64)
    requires Within(a, MASK48) && Within(b, MASK48) && AgreeOn(a, b, MASK48)
    ensures a == b
  {
  }

  lemma BelowForty(x: bv64)
    requires Within(x, 0xFF_FFFF_FFFF)
    ensures x >> 40 == 0
  {
  }

  lemma ShiftAgrees(a: bv64, b: bv64, low: bv64, d: dibit)
    requires AgreeOn(a, b, low)
    ensures AgreeOn(Shift(a, d), Shift(b, d), Grow(low))
  {
    hide ToWord;
    WordAgrees(a, b, low, ToWord(d));
  }

  lemma ToWordIsSmall(d: dibit)
    ensures ToWord(d) & 3 == ToWord(d)
  {
  }

  lemma ShiftWithin(x: bv64, low: bv64, d: dibit)
    requires Within(x, low)
    ensures Within(Shift(x, d), Grow(low))
  {
    hide ToWord;
    ToWordIsSmall(d);
    WordWithin(x, low, ToWord(d));
  }

  lemma LowSteps(k: nat, a: bv64, b: bv64, c: bv64)
    requires Low(k) == a && b == Grow(a) && c == Grow(b)
    ensures Low(k + 2) == c
  {
    hide Grow;
    assert Low(k + 1) == b;
  }

  lemma LowTwenty()
    ensures Low(20) == 0xFF_FFFF_FFFF
  {
    LowSteps(0, 0x0, 0x3, 0xF);
    hide Low;
    LowSteps(2, 0xF, 0x3F, 0xFF);
    LowSteps(4, 0xFF, 0x3FF, 0xFFF);
    LowSteps(6, 0xFFF, 0x3FFF, 0xFFFF);
    LowSteps(8, 0xFFFF, 0x3_FFFF, 0xF_FFFF);
    LowSteps(10, 0xF_FFFF, 0x3F_FFFF, 0xFF_FFFF);
    LowSteps(12, 0xFF_FFFF, 0x3FF_FFFF, 0xFFF_FFFF);
    LowSteps(14, 0xFFF_FFFF, 0x3FFF_FFFF, 0xFFFF_FFFF);
    LowSteps(16, 0xFFFF_FFFF, 0x3_FFFF_FFFF, 0xF_FFFF_FFFF);
    LowSteps(18, 0xF_FFFF_FFFF, 0x3F_FFFF_FFFF, 0xFF_FFFF_FFFF);
  }

  lemma LowTwentyFour()
    ensures Low(24) == MASK48
  {
    LowTwenty();
    hide Low;
    LowSteps(20, 0xFF_FFFF_FFFF, 0x3FF_FFFF_FFFF, 0xFFF_FFFF_FFFF);
    LowSteps(22, 0xFFF_FFFF_FFFF, 0x3FFF_FFFF_FFFF, 0xFFFF_FFFF_FFFF);
  }

  // ----- The register forgets all but the last 24 dibits -----

  lemma {:induction false} FeedAgrees(a: bv64, b: bv64, w: seq<dibit>)
    ensures AgreeOn(Feed(a, w), Feed(b, w), Low(|w|))
  {
    if w == [] {
      assert (a ^ b) & 0 == 0;
    } else {
      hide Shift, Grow, AgreeOn;
      var n := |w| - 1;
      FeedAgrees(a, b, w[..n]);
      ShiftAgrees(Feed(a, w[..n]), Feed(b, w[..n]), Low(n), w[n]);
    }
  }

  lemma {:induction false} FeedWithin(w: seq<dibit>)
    ensures Within(Feed(0, w), Low(|w|))
  {
    if w == [] {
    } else {
      hide Shift, Grow, Within;
      var n := |w| - 1;
      FeedWithin(w[..n]);
      ShiftWithin(Feed(0, w[..n]), Low(n), w[n]);
    }
  }

  lemma ShiftIsMasked(x: bv64, d: dibit)
    ensures Within(Shift(x, d), MASK48)
  {
    hide ToWord;
  }

  lemma Forgets(a: bv64, b: bv64, w: seq<dibit>)
    requires |w| == 24
    ensures Feed(a, w) == Feed(b, w)
  {
    hide Low, Shift, Within, AgreeOn;
    FeedAgrees(a, b, w);
    LowTwentyFour();
    ShiftIsMasked(Feed(a, w[..23]), w[23]);
    ShiftIsMasked(Feed(b, w[..23]), w[23]);
    EqualUnderMask(Feed(a, w), Feed(b, w));
  }

  /** After any stream the register holds its last 24 dibits, padded with zeros at the front. */
  lemma RegisterHoldsLast24(s: seq<dibit>)
    ensures Feed(0, s) == Pack(Slice(s, |s| - 24, 24))
  {
    hide Feed;
    var zeros := seq<dibit>(24, i => 0);
    var v, w := Slice(s, -24, |s|), Slice(s, |s| - 24, 24);
    PaddedSplits(s);
    FeedConcat(0, zeros, s);
    FeedZeros(24);
    FeedConcat(0, v, w);
    Forgets(Feed(0, v), 0, w);
  }

  lemma PaddedSplits(s: seq<dibit>)
    ensures seq<dibit>(24, i => 0) + s == Slice(s, -24, |s|) + Slice(s, |s| - 24, 24)
  {
  }

  /** After at most twenty dibits the top byte of the register is still zero. */
  lemma RegisterAfterTwenty(s: seq<dibit>)
    requires |s| <= 20
    ensures Feed(0, s) >> 40 == 0
  {
    var zeros := seq<dibit>(20 - |s|, i => 0);
    hide Feed, Low, Within;
    FeedConcat(0, zeros, s);
    FeedZeros(20 - |s|);
    FeedWithin(zeros + s);
    LowTwenty();
    BelowForty(Feed(0, s));
  }

  // ----- The dibits can be read back -----

  const LOW46: bv64 := 0x3FFF_FFFF_FFFF

  lemma LowTwentyThree()
    ensures Low(23) == LOW46
  {
    LowTwenty();
    hide Low;
    LowSteps(20, 0xFF_FFFF_FFFF, 0x3FF_FFFF_FFFF, 0xFFF_FFFF_FFFF);
    LowStep(22, 0xFFF_FFFF_FFFF);
  }

  lemma LowStep(k: nat, a: bv64)
    requires Low(k) == a
    ensures Low(k + 1) == Grow(a)
  {
  }

  lemma RoomForOneMore(w: seq<dibit>)
    requires |w| <= 23
    ensures Within(Feed(0, w), LOW46)
  {
    var zeros := seq<dibit>(23 - |w|, i => 0);
    hide Feed, Low, Within;
    FeedConcat(0, zeros, w);
    FeedZeros(23 - |w|);
    FeedWithin(zeros + w);
    LowTwentyThree();
  }

  /** The dibit in the lowest two bits of a register... */
  function LastDibit(reg: bv64): dibit {
    if reg & 3 == 0 then 0 else if reg & 3 == 1 then 1 else if reg & 3 == 2 then 2 else 3
  }

  /** ...and what is above it. */
  function Earlier(reg: bv64): bv64 {
    reg >> 2
  }

  lemma WordBack(x: bv64, w: bv64)
    requires x & LOW46 == x && w & 3 == w
    ensures (((x << 2) | w) & MASK48) >> 2 == x && (((x << 2) | w) & MASK48) & 3 == w
  {
  }

  lemma ShiftBack(x: bv64, d: dibit)
    requires Within(x, LOW46)
    ensures Earlier(Shift(x, d)) == x && LastDibit(Shift(x, d)) == d
  {
    ToWordIsSmall(d);
    WordBack(x, ToWord(d));
  }

  /** Up to 24 dibits can be read back from their register, from the last to the first. */
  lemma PackIsReadBack(w: seq<dibit>, d: dibit)
    requires |w| <= 23
    ensures LastDibit(Pack(w + [d])) == d && Earlier(Pack(w + [d])) == Pack(w)
  {
    FeedSnoc(0, w, d);
    hide Feed, Shift, LastDibit, Earlier, Within;
    RoomForOneMore(w);
    ShiftBack(Feed(0, w), d);
  }

  /** So they are determined by it. */
  lemma {:induction false} PackIsInjective(v: seq<dibit>, w: seq<dibit>)
    requires |v| == |w| <= 24 && Pack(v) == Pack(w)
    ensures v == w
  {
    if v == [] {
    } else {
      var n := |v| - 1;
      assert v[..n] + [v[n]] == v && w[..n] + [w[n]] == w;
      hide Pack, LastDibit, Earlier;
      PackIsReadBack(v[..n], v[n]);
      PackIsReadBack(w[..n], w[n]);
      PackIsInjective(v[..n], w[..n]);
    }
  }
}
