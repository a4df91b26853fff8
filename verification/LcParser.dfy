/**
 The link-control parser: bit fields of the 96 decoded bits, big-endian, and the
 position report. Coordinates are taken over the reals.
 */
module LcParser {
  import opened Bits
  import opened Words

  datatype LcResult = LcResult(valid: bool, flco: nat, group: bool, srcId: nat, dstId: nat)

  datatype GpsResult = GpsResult(valid: bool, lat: real, lon: real)

  // ----- Bit fields -----

  /** The big-endian value of a field, counting the lowest bit of each cell. */
  function Value(bits: seq<byte>): nat {
    if bits == [] then 0 else 2 * Value(bits[..|bits| - 1]) + bits[|bits| - 1] % 2
  }

  /** The big-endian field of width k that carries n. */
  function Field(n: nat, k: nat): (bits: seq<byte>)
    ensures |bits| == k
  {
    if k == 0 then [] else Field(n / 2, k - 1) + [n % 2]
  }

  lemma {:induction false} ValueIsBounded(bits: seq<byte>)
    ensures Value(bits) < Pow2(|bits|)
  {
    if bits == [] {
    } else {
      ValueIsBounded(bits[..|bits| - 1]);
    }
  }

  lemma {:induction false} ValueOfField(n: nat, k: nat)
    requires n < Pow2(k)
    ensures Value(Field(n, k)) == n
  {
    if k == 0 {
    } else {
      ValueOfField(n / 2, k - 1);
      assert Field(n, k)[..k - 1] == Field(n / 2, k - 1);
    }
  }

  /** A field of clean bits is determined by its value. */
  lemma {:induction false} FieldOfValue(bits: seq<byte>)
    requires forall i :: 0 <= i < |bits| ==> bits[i] < 2
    ensures Field(Value(bits), |bits|) == bits
  {
    if bits == [] {
    } else {
      FieldOfValue(bits[..|bits| - 1]);
    }
  }

  lemma {:induction false} ValueConcat(a: seq<byte>, b: seq<byte>)
    ensures Value(a + b) == Value(a) * Pow2(|b|) + Value(b)
  {
    if b == [] {
      assert a + b == a;
    } else {
      var n := |b| - 1;
      assert (a + b)[..|a + b| - 1] == a + b[..n];
      ValueConcat(a, b[..n]);
      assert 2 * (Value(a) * Pow2(n)) == Value(a) * (2 * Pow2(n));
    }
  }

  lemma TwoMoreBits(bits: seq<byte>, i: nat)
    requires i + 2 <= |bits|
    ensures Value(bits[0..i + 2]) == 4 * Value(bits[0..i]) + 2 * (bits[i] % 2) + bits[i + 1] % 2
  {
    hide Value;
    ValueStep(bits, 0, i);
    ValueStep(bits, 0, i + 1);
  }

  /** The first bit of a byte counts 128, and the last counts one. */
  lemma ValueOfByte(bits: seq<byte>)
    requires |bits| == 8
    ensures Value(bits) == 128 * (bits[0] % 2) + 64 * (bits[1] % 2) + 32 * (bits[2] % 2) + 16 * (bits[3] % 2)
                           + 8 * (bits[4] % 2) + 4 * (bits[5] % 2) + 2 * (bits[6] % 2) + bits[7] % 2
  {
    assert Value(bits[0..0]) == 0;
    assert bits[0..8] == bits;
    hide Value;
    TwoMoreBits(bits, 0);
    TwoMoreBits(bits, 2);
    TwoMoreBits(bits, 4);
    TwoMoreBits(bits, 6);
  }

  lemma SmallPowers()
    ensures Pow2(6) == 64 && Pow2(8) == 0x100 && Pow2(16) == 0x1_0000 && Pow2(24) == 0x100_0000
  {
    assert Pow2(4) == 16;
    Pow2Sum(2, 4);
    hide Pow2;
    Pow2Square(4, 16);
    Pow2Square(8, 0x100);
    Pow2Sum(8, 16);
  }

  method ExtractU8(bits: seq<byte>, offset: nat) returns (val: byte)
    requires offset + 8 <= |bits|
    ensures val == Value(bits[offset..offset + 8])
  {
    val := 0;
    SmallPowers();
    for i := 0 to 8
      invariant val == Value(bits[offset..offset + i])
    {
      ValueStep(bits, offset, i);
      FieldFits(bits, offset, i + 1, 8);
      val := (val * 2 + bits[offset + i] % 2) % 0x100;
    }
  }

  method ExtractU24(bits: seq<byte>, offset: nat) returns (val: nat)
    requires offset + 24 <= |bits|
    ensures val == Value(bits[offset..offset + 24])
  {
    val := 0;
    SmallPowers();
    for i := 0 to 24
      invariant val == Value(bits[offset..offset + i])
    {
      ValueStep(bits, offset, i);
      FieldFits(bits, offset, i + 1, 24);
      val := (val * 2 + bits[offset + i] % 2) % 0x1_0000_0000;
    }
  }

  lemma ValueStep(bits: seq<byte>, offset: nat, i: nat)
    requires offset + i < |bits|
    ensures Value(bits[offset..offset + i + 1]) == 2 * Value(bits[offset..offset + i]) + bits[offset + i] % 2
  {
    assert bits[offset..offset + i + 1][..i] == bits[offset..offset + i];
  }

  lemma FieldFits(bits: seq<byte>, offset: nat, i: nat, k: nat)
    requires offset + i <= |bits| && i <= k
    ensures Value(bits[offset..offset + i]) < Pow2(k)
  {
    ValueIsBounded(bits[offset..offset + i]);
    Pow2Sum(k - i, i);
    Product(Pow2(i), Pow2(k - i));
  }

  /** Two's complement: bits from the sign bit upwards are filled, and the word is read as signed. */
  function SignExtend(val: nat, nbits: nat): int
    requires 0 < nbits < 32 && val < 0x1_0000_0000
  {
    var filled := if val / Pow2(nbits - 1) % 2 == 1
                  then val % Pow2(nbits) + (0x1_0000_0000 - Pow2(nbits)) else val;
    if filled >= 0x8000_0000 then filled - 0x1_0000_0000 else filled
  }

  lemma SignExtend24(val: nat)
    requires val < 0x100_0000
    ensures SignExtend(val, 24) == if val < 0x80_0000 then val else val - 0x100_0000
  {
    SmallPowers();
    assert Pow2(23) == 0x80_0000;
  }

  // ----- Voice link control -----

  /** What a voice payload says: opcode, destination and source, at their places. */
  function VoiceLc(bits: seq<byte>): LcResult
    requires |bits| == 96
  {
    var flco, dst, src := Value(bits[2..8]), Value(bits[24..48]), Value(bits[48..72]);
    if flco != 0x00 && flco != 0x03 then LcResult(false, flco, false, 0, 0)
    else LcResult(!(src == 0 && dst == 0), flco, flco == 0x00, src, dst)
  }

  method ParseVoiceLc(bits: seq<byte>) returns (r: LcResult)
    requires |bits| == 96
    ensures r == VoiceLc(bits)
  {
    r := LcResult(false, 0xFF, false, 0, 0);
    var flco: nat := 0;
    SmallPowers();
    for i := 0 to 6
      invariant flco == Value(bits[2..2 + i])
    {
      ValueStep(bits, 2, i);
      FieldFits(bits, 2, i + 1, 6);
      flco := (flco * 2 + bits[2 + i] % 2) % 0x100;
    }
    r := r.(flco := flco);
    if r.flco != 0x00 && r.flco != 0x03 {
      return;
    }
    r := r.(group := r.flco == 0x00);
    var dst := ExtractU24(bits, 24);
    r := r.(dstId := dst);
    var src := ExtractU24(bits, 48);
    r := r.(srcId := src);
    if r.srcId == 0 && r.dstId == 0 {
      return;
    }
    r := r.(valid := true);
  }

  /** The payload carries a voice link control with the given opcode and identities. */
  predicate Carries(bits: seq<byte>, flco: nat, dst: nat, src: nat) {
    && |bits| == 96
    && bits[2..8] == Field(flco, 6) && bits[24..48] == Field(dst, 24) && bits[48..72] == Field(src, 24)
  }

  /** The parser recovers exactly what a payload carries, whatever its other bits. */
  lemma VoiceLcIsRecovered(bits: seq<byte>, flco: nat, dst: nat, src: nat)
    requires flco == 0x00 || flco == 0x03
    requires dst < 0x100_0000 && src < 0x100_0000
    requires |bits| == 96
    requires bits[2..8] == Field(flco, 6) && bits[24..48] == Field(dst, 24) && bits[48..72] == Field(src, 24)
    ensures VoiceLc(bits) == LcResult(!(src == 0 && dst == 0), flco, flco == 0x00, src, dst)
  {
    SmallPowers();
    ValueOfField(flco, 6);
    ValueOfField(dst, 24);
    ValueOfField(src, 24);
    hide Field, Value, Pow2;
  }

  /** Any other opcode is reported as it is, but the payload is not valid and gives no identities. */
  lemma OtherOpcodesAreRefused(bits: seq<byte>)
    requires |bits| == 96
    ensures var flco := Value(bits[2..8]);
      flco != 0 && flco != 3 ==> VoiceLc(bits) == LcResult(false, flco, false, 0, 0)
  {
    hide Value;
  }

  /** Conversely, an accepted payload carries what the parser says. */
  lemma AcceptedVoiceLcIsCarried(bits: seq<byte>)
    requires |bits| == 96 && VoiceLc(bits).valid
    requires forall i :: 0 <= i < 96 ==> bits[i] < 2
    ensures var r := VoiceLc(bits);
      Carries(bits, r.flco, r.dstId, r.srcId) && (r.flco == 0x00 || r.flco == 0x03) && (r.group <==> r.flco == 0x00)
  {
    FieldOfValue(bits[2..8]);
    FieldOfValue(bits[24..48]);
    FieldOfValue(bits[48..72]);
    hide Field, Value;
  }

  // ----- Position reports -----

  const LAT_UNIT: real := 90.0 / 8388607.0
  const LON_UNIT: real := 180.0 / 8388607.0

  function Gps(bits: seq<byte>): GpsResult
    requires |bits| == 96
  {
    var kind := Value(bits[0..8]);
    if kind != 0x00 && kind != 0x20 then GpsResult(false, 0.0, 0.0)
    else
      var rawLat, rawLon := RawCoordinate(bits, 8), RawCoordinate(bits, 32);
      var lat := SignExtend(rawLat, 24) as real * LAT_UNIT;
      var lon := SignExtend(rawLon, 24) as real * LON_UNIT;
      GpsResult(-90.0 <= lat <= 90.0 && -180.0 <= lon <= 180.0 && !(lat == 0.0 && lon == 0.0), lat, lon)
  }

  /** The 24-bit field at an offset. */
  function RawCoordinate(bits: seq<byte>, offset: nat): (raw: nat)
    requires offset + 24 <= |bits|
    ensures raw < 0x100_0000
  {
    SmallPowers();
    ValueIsBounded(bits[offset..offset + 24]);
    Value(bits[offset..offset + 24])
  }

  /** Three bytes, big-endian. */
  function Join(a: nat, b: nat, c: nat): nat {
    a * 0x1_0000 + b * 0x100 + c
  }

  lemma ThreeBytes(bits: seq<byte>, offset: nat)
    requires offset + 24 <= |bits|
    ensures RawCoordinate(bits, offset) ==
      Join(Value(bits[offset..offset + 8]), Value(bits[offset + 8..offset + 16]), Value(bits[offset + 16..offset + 24]))
  {
    var a, b, c := bits[offset..offset + 8], bits[offset + 8..offset + 16], bits[offset + 16..offset + 24];
    assert bits[offset..offset + 24] == a + (b + c);
    SmallPowers();
    hide Value, Pow2;
    ValueConcat(b, c);
    ValueConcat(a, b + c);
  }

  method ParseGps(bits: seq<byte>) returns (g: GpsResult)
    requires |bits| == 96
    ensures g == Gps(bits)
  {
    hide Value, Join, SignExtend, RawCoordinate;
    g := GpsResult(false, 0.0, 0.0);
    var bytes := new byte[12];
    for i := 0 to 12
      invariant forall j :: 0 <= j < i ==> bytes[j] == Value(bits[j * 8..j * 8 + 8])
    {
      bytes[i] := ExtractU8(bits, i * 8);
    }
    var pktType := bytes[0];
    if pktType != 0x00 && pktType != 0x20 {
      return;
    }
    ThreeBytes(bits, 8);
    var rawLat := Join(bytes[1], bytes[2], bytes[3]);
    var slat := SignExtend(rawLat, 24);
    g := g.(lat := slat as real * (90.0 / 8388607.0));
    ThreeBytes(bits, 32);
    var rawLon := Join(bytes[4], bytes[5], bytes[6]);
    var slon := SignExtend(rawLon, 24);
    g := g.(lon := slon as real * (180.0 / 8388607.0));
    if g.lat < -90.0 || g.lat > 90.0 {
      return;
    }
    if g.lon < -180.0 || g.lon > 180.0 {
      return;
    }
    if g.lat == 0.0 && g.lon == 0.0 {
      return;
    }
    g := g.(valid := true);
  }

  /**
   A report is valid exactly when its type is known, neither coordinate is the one 24-bit
   value without a counterpart, and the coordinates are not both zero.
   */
  lemma GpsValidity(bits: seq<byte>)
    requires |bits| == 96
    ensures var kind, rawLat, rawLon := Value(bits[0..8]), RawCoordinate(bits, 8), RawCoordinate(bits, 32);
      Gps(bits).valid <==>
        && (kind == 0x00 || kind == 0x20)
        && rawLat != 0x80_0000 && rawLon != 0x80_0000
        && !(rawLat == 0 && rawLon == 0)
  {
    hide SignExtend, Value, RawCoordinate;
    SignExtend24(RawCoordinate(bits, 8));
    SignExtend24(RawCoordinate(bits, 32));
    Scaled(SignExtend(RawCoordinate(bits, 8), 24), 90.0);
    Scaled(SignExtend(RawCoordinate(bits, 32), 24), 180.0);
  }

  /** Scaling by a span over 0x7FFFFF maps the symmetric 24-bit range onto the span. */
  lemma Scaled(n: int, span: real)
    requires span > 0.0
    ensures -span <= n as real * (span / 8388607.0) <= span <==> -8388607 <= n <= 8388607
    ensures n as real * (span / 8388607.0) == 0.0 <==> n == 0
  {
    var unit := span / 8388607.0;
    assert unit * 8388607.0 == span && unit > 0.0;
    Ordered(n as real, 8388607.0, unit);
    Ordered(-8388607.0, n as real, unit);
    Ordered(0.0, n as real, unit);
    Ordered(n as real, 0.0, unit);
  }

  lemma Ordered(a: real, b: real, unit: real)
    requires unit > 0.0
    ensures a <= b <==> a * unit <= b * unit
  {
    if a <= b {
      assert (b - a) * unit >= 0.0;
    } else {
      assert (a - b) * unit > 0.0;
    }
  }

  /** The 24-bit two's complement of a coordinate. */
  function TwosComplement(n: int): nat
    requires -0x80_0000 <= n < 0x80_0000
  {
    if n < 0 then n + 0x100_0000 else n
  }

  /** The payload carries a report of the given kind with two signed coordinates, neither of them 0x800000. */
  predicate CarriesPosition(bits: seq<byte>, kind: nat, lat: int, lon: int) {
    && |bits| == 96
    && -0x7F_FFFF <= lat <= 0x7F_FFFF && -0x7F_FFFF <= lon <= 0x7F_FFFF
    && bits[0..8] == Field(kind, 8)
    && bits[8..32] == Field(TwosComplement(lat), 24) && bits[32..56] == Field(TwosComplement(lon), 24)
  }

  /** The parser recovers exactly the position that a payload carries, scaled, whatever its other bits. */
  lemma PositionIsRecovered(bits: seq<byte>, kind: nat, lat: int, lon: int)
    requires kind == 0x00 || kind == 0x20
    requires |bits| == 96 && -0x7F_FFFF <= lat <= 0x7F_FFFF && -0x7F_FFFF <= lon <= 0x7F_FFFF
    requires bits[0..8] == Field(kind, 8)
    requires bits[8..32] == Field(if lat < 0 then lat + 0x100_0000 else lat, 24)
    requires bits[32..56] == Field(if lon < 0 then lon + 0x100_0000 else lon, 24)
    ensures Gps(bits) ==
      GpsResult(!(lat == 0 && lon == 0), lat as real * (90.0 / 8388607.0), lon as real * (180.0 / 8388607.0))
  {
    SmallPowers();
    ValueOfField(kind, 8);
    ValueOfField(TwosComplement(lat), 24);
    ValueOfField(TwosComplement(lon), 24);
    assert RawCoordinate(bits, 8) == TwosComplement(lat) && RawCoordinate(bits, 32) == TwosComplement(lon);
    hide Field, Value, Pow2, SignExtend, RawCoordinate;
    SignExtend24(TwosComplement(lat));
    SignExtend24(TwosComplement(lon));
    Scaled(lat, 90.0);
    Scaled(lon, 180.0);
  }

  /** Among reports of a known type, the coordinates determine the two raw fields. */
  lemma GpsIsInjective(a: seq<byte>, b: seq<byte>)
    requires |a| == |b| == 96
    ensures Gps(a).valid && Gps(b).valid && Gps(a).lat == Gps(b).lat && Gps(a).lon == Gps(b).lon ==>
      RawCoordinate(a, 8) == RawCoordinate(b, 8) && RawCoordinate(a, 32) == RawCoordinate(b, 32)
  {
    if !(Gps(a).valid && Gps(b).valid && Gps(a).lat == Gps(b).lat && Gps(a).lon == Gps(b).lon) {
      return;
    }
    hide SignExtend, Value, RawCoordinate;
    SignExtend24(RawCoordinate(a, 8));
    SignExtend24(RawCoordinate(b, 8));
    SignExtend24(RawCoordinate(a, 32));
    SignExtend24(RawCoordinate(b, 32));
    SameScale(SignExtend(RawCoordinate(a, 8), 24), SignExtend(RawCoordinate(b, 8), 24), LAT_UNIT);
    SameScale(SignExtend(RawCoordinate(a, 32), 24), SignExtend(RawCoordinate(b, 32), 24), LON_UNIT);
  }

  lemma SameScale(m: int, n: int, unit: real)
    requires unit > 0.0 && m as real * unit == n as real * unit
    ensures m == n
  {
    Ordered(m as real, n as real, unit);
    Ordered(n as real, m as real, unit);
  }
}
