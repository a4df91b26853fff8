/**
 The four sync words, the bit distance, and the classification of a 48-bit register.
 Registers are 64-bit machine words of which the lowest 48 bits are used.
 */
module SyncWords {

  datatype BurstType = BS_VOICE | MS_VOICE | BS_DATA | MS_DATA | UNKNOWN

  const MASK48: bv64 := 0x0000_FFFF_FFFF_FFFF
  const SYNC_BS_VOICE: bv64 := 0x755F_D7DF_75F7
  const SYNC_MS_VOICE: bv64 := 0xDFF5_7D75_5FF7
  const SYNC_BS_DATA: bv64 := 0xD5D7_F77F_D757
  const SYNC_MS_DATA: bv64 := 0x7F7D_55F5_DF5D
  const MAX_ERRORS: nat := 4

  /** One if x has the bit of mask m, zero otherwise. */
  function Bit(x: bv64, m: bv64): (n: nat)
    ensures n <= 1
  {
    if x & m == 0 then 0 else 1
  }

  /** How many of the masked bits are one. */
  function Weight(x: bv64, masks: seq<bv64>): (n: nat)
    ensures n <= |masks|
  {
    if masks == [] then 0 else Weight(x, masks[..|masks| - 1]) + Bit(x, masks[|masks| - 1])
  }

  /** The eight masks from m upwards. */
  function ByteMasks(m: bv64): (r: seq<bv64>)
    ensures |r| == 8
  {
    [m, m << 1, m << 2, m << 3, m << 4, m << 5, m << 6, m << 7]
  }

  /** The masks of the lowest 48 bits. */
  function Masks48(): (r: seq<bv64>)
    ensures |r| == 48
  {
    ByteMasks(0x1) + ByteMasks(0x100) + ByteMasks(0x1_0000)
    + ByteMasks(0x100_0000) + ByteMasks(0x1_0000_0000) + ByteMasks(0x100_0000_0000)
  }

  /** The number of ones among the lowest 48 bits. */
  function PopCount48(x: bv64): (n: nat)
    ensures n <= 48
  {
    Weight(x, Masks48())
  }

  function Hamming48(a: bv64, b: bv64): nat {
    PopCount48((a ^ b) & MASK48)
  }

  function MatchSync(word: bv64): BurstType {
    var w := word & MASK48;
    if Hamming48(w, SYNC_BS_VOICE) <= MAX_ERRORS then BS_VOICE
    else if Hamming48(w, SYNC_MS_VOICE) <= MAX_ERRORS then MS_VOICE
    else if Hamming48(w, SYNC_BS_DATA) <= MAX_ERRORS then BS_DATA
    else if Hamming48(w, SYNC_MS_DATA) <= MAX_ERRORS then MS_DATA
    else UNKNOWN
  }

  function SyncWord(t: BurstType): bv64
    requires t != UNKNOWN
  {
    match t
    case BS_VOICE => SYNC_BS_VOICE
    case MS_VOICE => SYNC_MS_VOICE
    case BS_DATA => SYNC_BS_DATA
    case MS_DATA => SYNC_MS_DATA
  }

  // ----- What the distance counts -----

  /** The masks are the 48 lowest bits one by one, eight to a byte. */
  lemma MasksAreTheBits()
    ensures ByteMasks(0x1) == [0x1, 0x2, 0x4, 0x8, 0x10, 0x20, 0x40, 0x80]
    ensures ByteMasks(0x100) == [0x100, 0x200, 0x400, 0x800, 0x1000, 0x2000, 0x4000, 0x8000]
    ensures ByteMasks(0x1_0000) == [0x1_0000, 0x2_0000, 0x4_0000, 0x8_0000, 0x10_0000, 0x20_0000, 0x40_0000, 0x80_0000]
    ensures ByteMasks(0x100_0000) == [0x100_0000, 0x200_0000, 0x400_0000, 0x800_0000, 0x1000_0000, 0x2000_0000, 0x4000_0000, 0x8000_0000]
    ensures ByteMasks(0x1_0000_0000) == [0x1_0000_0000, 0x2_0000_0000, 0x4_0000_0000, 0x8_0000_0000, 0x10_0000_0000, 0x20_0000_0000, 0x40_0000_0000, 0x80_0000_0000]
    ensures ByteMasks(0x100_0000_0000) == [0x100_0000_0000, 0x200_0000_0000, 0x400_0000_0000, 0x800_0000_0000, 0x1000_0000_0000, 0x2000_0000_0000, 0x4000_0000_0000, 0x8000_0000_0000]
    ensures Masks48() == ByteMasks(0x1) + ByteMasks(0x100) + ByteMasks(0x1_0000) + ByteMasks(0x100_0000) + ByteMasks(0x1_0000_0000) + ByteMasks(0x100_0000_0000)
  {
  }

  predicate HasBit(x: bv64, m: bv64) {
    (x & m) != 0
  }

  /** For each mask, whether x has its bit. */
  function Flags(x: bv64, masks: seq<bv64>): (f: seq<bool>)
    ensures |f| == |masks|
  {
    seq(|masks|, i requires 0 <= i < |masks| => HasBit(x, masks[i]))
  }

  /** The places at which a flag is set. */
  function Places(flags: seq<bool>): set<nat> {
    set i: nat | i < |flags| && flags[i]
  }

  lemma PlacesSnoc(flags: seq<bool>, flag: bool)
    ensures |Places(flags + [flag])| == |Places(flags)| + if flag then 1 else 0
  {
    if flag {
      assert Places(flags + [flag]) == Places(flags) + {|flags|};
    } else {
      assert Places(flags + [flag]) == Places(flags);
    }
  }

  lemma {:induction false} WeightCounts(x: bv64, masks: seq<bv64>)
    ensures Weight(x, masks) == |Places(Flags(x, masks))|
  {
    if masks == [] {
      assert Places(Flags(x, masks)) == {};
    } else {
      hide HasBit, Bit, Places, Flags;
      var n := |masks| - 1;
      WeightCounts(x, masks[..n]);
      BitIsOne(x, masks[n]);
      FlagsSnoc(x, masks, n);
      PlacesSnoc(Flags(x, masks[..n]), HasBit(x, masks[n]));
    }
  }

  lemma FlagsSnoc(x: bv64, masks: seq<bv64>, n: nat)
    requires n + 1 == |masks|
    ensures Flags(x, masks) == Flags(x, masks[..n]) + [HasBit(x, masks[n])]
  {
    hide HasBit;
  }

  lemma BitIsOne(x: bv64, m: bv64)
    ensures Bit(x, m) == if HasBit(x, m) then 1 else 0
  {
  }

  /** The distance is the number of the 48 bits in which two words differ. */
  lemma HammingCounts(a: bv64, b: bv64)
    ensures Hamming48(a, b) == |Places(Flags((a ^ b) & MASK48, Masks48()))|
  {
    hide Masks48, Weight, Places, Flags;
    WeightCounts((a ^ b) & MASK48, Masks48());
  }

  // ----- The distance satisfies the triangle inequality -----

  lemma BitOfXor(x: bv64, y: bv64, m: bv64)
    ensures Bit(x ^ y, m) <= Bit(x, m) + Bit(y, m)
  {
    assert (x ^ y) & m == (x & m) ^ (y & m);
  }

  lemma {:induction false} WeightOfXor(x: bv64, y: bv64, masks: seq<bv64>)
    ensures Weight(x ^ y, masks) <= Weight(x, masks) + Weight(y, masks)
  {
    if masks == [] {
    } else {
      hide Bit;
      WeightOfXor(x, y, masks[..|masks| - 1]);
      BitOfXor(x, y, masks[|masks| - 1]);
    }
  }

  lemma MaskedXor(a: bv64, b: bv64, w: bv64)
    ensures (a ^ b) & MASK48 == ((w ^ a) & MASK48) ^ ((w ^ b) & MASK48)
  {
  }

  lemma Triangle(a: bv64, b: bv64, w: bv64)
    ensures Hamming48(a, b) <= Hamming48(w, a) + Hamming48(w, b)
  {
    hide Weight, Masks48;
    MaskedXor(a, b, w);
    WeightOfXor((w ^ a) & MASK48, (w ^ b) & MASK48, Masks48());
  }

  // ----- Counting byte by byte -----

  /** The number of ones in the byte whose lowest bit has mask m. */
  function PopByte(x: bv64, m: bv64): nat {
    Bit(x, m) + Bit(x, m << 1) + Bit(x, m << 2) + Bit(x, m << 3)
    + Bit(x, m << 4) + Bit(x, m << 5) + Bit(x, m << 6) + Bit(x, m << 7)
  }

  function PopBytes(x: bv64): nat {
    PopByte(x, 0x1) + PopByte(x, 0x100) + PopByte(x, 0x1_0000)
    + PopByte(x, 0x100_0000) + PopByte(x, 0x1_0000_0000) + PopByte(x, 0x100_0000_0000)
  }

  lemma WeightSnoc(x: bv64, masks: seq<bv64>, m: bv64)
    ensures Weight(x, masks + [m]) == Weight(x, masks) + Bit(x, m)
  {
    hide Bit;
    assert (masks + [m])[..|masks|] == masks;
  }

  lemma WeightOfFour(x: bv64, masks: seq<bv64>, a: bv64, b: bv64, c: bv64, d: bv64)
    ensures Weight(x, masks + [a, b, c, d]) == Weight(x, masks) + Bit(x, a) + Bit(x, b) + Bit(x, c) + Bit(x, d)
  {
    hide Bit, Weight;
    WeightSnoc(x, masks, a);
    WeightSnoc(x, masks + [a], b);
    WeightSnoc(x, masks + [a] + [b], c);
    WeightSnoc(x, masks + [a] + [b] + [c], d);
    assert masks + [a] + [b] + [c] + [d] == masks + [a, b, c, d];
  }

  lemma WeightOfByte(x: bv64, masks: seq<bv64>, m: bv64)
    ensures Weight(x, masks + ByteMasks(m)) == Weight(x, masks) + PopByte(x, m)
  {
    hide Bit, Weight;
    WeightOfFour(x, masks, m, m << 1, m << 2, m << 3);
    WeightOfFour(x, masks + [m, m << 1, m << 2, m << 3], m << 4, m << 5, m << 6, m << 7);
    assert masks + [m, m << 1, m << 2, m << 3] + [m << 4, m << 5, m << 6, m << 7] == masks + ByteMasks(m);
  }

  lemma PopCountByBytes(x: bv64)
    ensures PopCount48(x) == PopBytes(x)
  {
    hide Bit, PopByte, ByteMasks;
    var m1 := ByteMasks(0x1);
    var m2 := m1 + ByteMasks(0x100);
    var m3 := m2 + ByteMasks(0x1_0000);
    var m4 := m3 + ByteMasks(0x100_0000);
    var m5 := m4 + ByteMasks(0x1_0000_0000);
    assert [] + m1 == m1;
    assert Weight(x, []) == 0;
    hide Weight;
    WeightOfByte(x, [], 0x1);
    WeightOfByte(x, m1, 0x100);
    WeightOfByte(x, m2, 0x1_0000);
    WeightOfByte(x, m3, 0x100_0000);
    WeightOfByte(x, m4, 0x1_0000_0000);
    WeightOfByte(x, m5, 0x100_0000_0000);
  }

  lemma HammingByBytes(a: bv64, b: bv64)
    ensures Hamming48(a, b) == PopBytes((a ^ b) & MASK48)
  {
    hide PopCount48, PopBytes;
    PopCountByBytes((a ^ b) & MASK48);
  }

  lemma Symmetric(a: bv64, b: bv64)
    ensures Hamming48(a, b) == Hamming48(b, a)
  {
    hide PopCount48;
    assert a ^ b == b ^ a;
  }

  lemma DistancesOfBsVoice()
    ensures PopBytes((SYNC_BS_VOICE ^ SYNC_MS_VOICE) & MASK48) == 19
    ensures PopBytes((SYNC_BS_VOICE ^ SYNC_BS_DATA) & MASK48) == 12
    ensures PopBytes((SYNC_BS_VOICE ^ SYNC_MS_DATA) & MASK48) == 17
  {
  }

  lemma OtherDistances()
    ensures PopBytes((SYNC_MS_VOICE ^ SYNC_BS_DATA) & MASK48) == 13
    ensures PopBytes((SYNC_MS_VOICE ^ SYNC_MS_DATA) & MASK48) == 12
    ensures PopBytes((SYNC_BS_DATA ^ SYNC_MS_DATA) & MASK48) == 17
  {
  }

  /** Any two sync words differ in at least twelve bits. */
  lemma SyncWordsAreApart(t: BurstType, u: BurstType)
    requires t != UNKNOWN && u != UNKNOWN && t != u
    ensures Hamming48(SyncWord(t), SyncWord(u)) >= 12
  {
    hide PopBytes, Hamming48;
    DistancesOfBsVoice();
    OtherDistances();
    HammingByBytes(SyncWord(t), SyncWord(u));
    HammingByBytes(SyncWord(u), SyncWord(t));
    Symmetric(SyncWord(t), SyncWord(u));
  }

  // ----- Classification -----

  lemma NotNearTwo(w: bv64, t: BurstType, u: BurstType)
    requires t != UNKNOWN && u != UNKNOWN && t != u
    ensures Hamming48(w, SyncWord(t)) + Hamming48(w, SyncWord(u)) >= 12
  {
    hide Hamming48;
    Triangle(SyncWord(t), SyncWord(u), w);
    SyncWordsAreApart(t, u);
  }

  lemma MaskIsIdempotent(w: bv64, s: bv64)
    ensures Hamming48(w & MASK48, s) == Hamming48(w, s)
  {
    assert ((w & MASK48) ^ s) & MASK48 == (w ^ s) & MASK48;
    hide PopCount48;
  }

  /**
   The order of the comparisons does not matter: a register is classified as a type
   exactly when it is within four bits of that type's word.
   */
  lemma MatchIsExact(w: bv64, t: BurstType)
    requires t != UNKNOWN
    ensures MatchSync(w) == t <==> Hamming48(w, SyncWord(t)) <= MAX_ERRORS
  {
    hide Hamming48;
    MaskIsIdempotent(w, SYNC_BS_VOICE);
    MaskIsIdempotent(w, SYNC_MS_VOICE);
    MaskIsIdempotent(w, SYNC_BS_DATA);
    MaskIsIdempotent(w, SYNC_MS_DATA);
    forall u: BurstType | u != UNKNOWN && u != t
      ensures Hamming48(w, SyncWord(t)) + Hamming48(w, SyncWord(u)) >= 12
    {
      NotNearTwo(w, t, u);
    }
    assert SyncWord(BS_VOICE) == SYNC_BS_VOICE && SyncWord(MS_VOICE) == SYNC_MS_VOICE;
    assert SyncWord(BS_DATA) == SYNC_BS_DATA && SyncWord(MS_DATA) == SYNC_MS_DATA;
  }

  /** The same in numbers: the four words and the tolerance of four bits. */
  lemma MatchInNumbers(w: bv64)
    ensures MatchSync(w) == BS_VOICE <==> Hamming48(w, 0x755F_D7DF_75F7) <= 4
    ensures MatchSync(w) == MS_VOICE <==> Hamming48(w, 0xDFF5_7D75_5FF7) <= 4
    ensures MatchSync(w) == BS_DATA <==> Hamming48(w, 0xD5D7_F77F_D757) <= 4
    ensures MatchSync(w) == MS_DATA <==> Hamming48(w, 0x7F7D_55F5_DF5D) <= 4
  {
    hide Hamming48, MatchSync;
    MatchIsExact(w, BS_VOICE);
    MatchIsExact(w, MS_VOICE);
    MatchIsExact(w, BS_DATA);
    MatchIsExact(w, MS_DATA);
  }

  /** A sync word with up to seven flipped bits is never taken for another type. */
  lemma SevenErrorsNeverConfuse(w: bv64, t: BurstType)
    requires t != UNKNOWN && Hamming48(w, SyncWord(t)) <= 7
    ensures MatchSync(w) == if Hamming48(w, SyncWord(t)) <= 4 then t else UNKNOWN
  {
    hide Hamming48, MatchSync;
    MatchIsExact(w, t);
    var u := MatchSync(w);
    if u != t && u != UNKNOWN {
      MatchIsExact(w, u);
      NotNearTwo(w, t, u);
    }
  }

  // ----- How much of a word must have arrived -----

  /** A register that holds nothing above bit 39, the first twenty dibits, matches nothing. */
  lemma TwentyDibitsNeverMatch(w: bv64)
    requires w >> 40 == 0
    ensures MatchSync(w) == UNKNOWN
  {
    hide PopByte, Hamming48;
    TopBytesOfSyncWords();
    TopByte(w, SYNC_BS_VOICE);
    TopByte(w, SYNC_MS_VOICE);
    TopByte(w, SYNC_BS_DATA);
    TopByte(w, SYNC_MS_DATA);
  }

  lemma TopBytesOfSyncWords()
    ensures PopByte(SYNC_BS_VOICE, 0x100_0000_0000) == 5 && PopByte(SYNC_MS_VOICE, 0x100_0000_0000) == 7
    ensures PopByte(SYNC_BS_DATA, 0x100_0000_0000) == 5 && PopByte(SYNC_MS_DATA, 0x100_0000_0000) == 7
  {
  }

  lemma TopByte(w: bv64, s: bv64)
    requires w >> 40 == 0
    ensures Hamming48(w & MASK48, s) >= PopByte(s, 0x100_0000_0000)
  {
    HammingByBytes(w & MASK48, s);
    hide Hamming48;
    var x := ((w & MASK48) ^ s) & MASK48;
    assert PopByte(x, 0x100_0000_0000) == PopByte(s, 0x100_0000_0000);
    hide PopByte;
  }
}
