/**
 The layer-2 handler: every completed burst is decoded, and its payload is reported as a
 voice call or as a position. The end-to-end theorem follows a message from the encoder
 through a noisy stream, the burst synchroniser, the decoder and the parser.
 */
module Layer2 {
  import opened Bits
  import opened Wrappers
  import opened SyncWords
  import opened DibitStream
  import opened BurstScan
  import opened Bptc
  import opened BptcEncoder
  import opened BptcRadius
  import opened BptcPower
  import opened Hamming
  import opened LcParser
  import SlotManager

  datatype Report =
    | VoiceCall(slot: int, src: nat, dst: nat, group: bool)
    | Position(slot: int, lat: real, lon: real)

  function Payload(b: Burst): seq<byte> {
    seq(|b.dibits|, i requires 0 <= i < |b.dibits| => b.dibits[i])
  }

  /** What is reported about a decoded payload. */
  function ReportOfBits(b: Burst, bits: seq<byte>): Option<Report>
    requires |bits| == 96
  {
    if SlotManager.IsVoice(b.kind) then
      var lc := VoiceLc(bits);
      if lc.valid then Some(VoiceCall(b.timeslot, lc.srcId, lc.dstId, lc.group)) else None
    else if SlotManager.IsData(b.kind) then
      var gps := Gps(bits);
      if gps.valid then Some(Position(b.timeslot, gps.lat, gps.lon)) else None
    else None
  }

  /** What is reported about a burst: nothing if the decoder rejects it. */
  ghost function ReportOf(b: Burst): Option<Report>
    requires |b.dibits| == 98
  {
    var d := Decoded(Payload(b));
    if d.ok then ReportOfBits(b, d.bits) else None
  }

  /** Type by type: voice bursts are parsed as link control, data bursts as positions, others not at all. */
  lemma ReportInWords(b: Burst, bits: seq<byte>)
    requires |bits| == 96
    ensures var lc := VoiceLc(bits);
      b.kind == BS_VOICE || b.kind == MS_VOICE ==>
        ReportOfBits(b, bits) == if lc.valid then Some(VoiceCall(b.timeslot, lc.srcId, lc.dstId, lc.group)) else None
    ensures var gps := Gps(bits);
      b.kind == BS_DATA || b.kind == MS_DATA ==>
        ReportOfBits(b, bits) == if gps.valid then Some(Position(b.timeslot, gps.lat, gps.lon)) else None
    ensures b.kind == UNKNOWN ==> ReportOfBits(b, bits) == None
  {
    hide VoiceLc, Gps;
  }

  /** A payload that the decoder cannot repair, as its column syndromes tell, is not reported, whatever its burst's type. */
  lemma RejectedIsSilent(b: Burst)
    requires |b.dibits| == 98
    ensures var h := RowPass(ReceivedGrid(Payload(b)));
      (exists c :: 0 <= c < 15 && ColChecks(Column(h, c)).Index() >= 14) ==> ReportOf(b) == None
  {
    assert |Payload(b)| == 98;
    hide Decoded, ReportOfBits, RowPass, ReceivedGrid, ColChecks, Payload;
    VerdictIsColumnSyndrome(Payload(b));
  }

  method Handle(b: Burst) returns (r: Option<Report>)
    requires |b.dibits| == 98
    ensures r == ReportOf(b)
  {
    hide VoiceLc, Gps, Decoded;
    var lcBits := new bit[96];
    var ok := Decode(Payload(b), lcBits);
    if !ok {
      return None;
    }
    var bits: seq<byte> := lcBits[..];
    if SlotManager.IsVoice(b.kind) {
      var lc := ParseVoiceLc(bits);
      if !lc.valid {
        return None;
      }
      return Some(VoiceCall(b.timeslot, lc.srcId, lc.dstId, lc.group));
    }
    if SlotManager.IsData(b.kind) {
      var gps := ParseGps(bits);
      if gps.valid {
        return Some(Position(b.timeslot, gps.lat, gps.lon));
      }
    }
    return None;
  }

  // ----- From stream to burst -----

  /** Until its span ends, a started burst is the last one started. */
  lemma {:induction false} NothingStartsWithin(s: seq<dibit>, more: seq<dibit>)
    requires Starts(s) != [] && Starts(s)[|Starts(s)| - 1] == |s| && |more| < SPAN
    ensures Starts(s + more) == Starts(s)
  {
    if more == [] {
      assert s + more == s;
    } else {
      hide TypeAt, Starts;
      var n := |more| - 1;
      NothingStartsWithin(s, more[..n]);
      StartsSnoc(s + more[..n], more[n]);
      assert s + more[..n] + [more[n]] == s + more;
    }
  }

  /**
   A burst heard by a hunting synchroniser: with at most four bit errors in its sync
   word, it is emitted with the last of its guard dibits, with its type and both halves.
   */
  lemma HeardBurst(before: seq<dibit>, first: seq<dibit>, sync: seq<dibit>, second: seq<dibit>, guard: seq<dibit>,
                   t: BurstType, channel: int)
    requires |first| == 49 && |sync| == 24 && |second| == 49 && |guard| == 10
    requires t != UNKNOWN && Hamming48(Pack(sync), SyncWord(t)) <= 4
    requires !UnderWay(before + first + sync[..SYNC - 1])
    ensures var s := before + first + sync + second + guard;
      Bursts(s, channel) == Bursts(s[..|s| - 1], channel) + [
        Burst(t, if |Starts(before + first + sync[..SYNC - 1])| % 2 == 0 then 1 else 2, channel, Pack(sync), first + second)]
  {
    var h, heard := before + first + sync[..SYNC - 1], before + first + sync;
    var u := heard + (second + guard[..GUARD - 1]);
    var s := before + first + sync + second + guard;
    StreamSplits(before, first, sync, second, guard);
    hide Starts, Pack, MatchSync, Hamming48, BurstOf, Bursts, Slice, SyncWord;
    HeardSync(h, sync[SYNC - 1], sync, t);
    hide UnderWay, TypeAt;
    NothingStartsWithin(heard, second + guard[..GUARD - 1]);
    BurstsSnoc(u, guard[GUARD - 1], channel);
    BurstContents(before, first, sync, second, guard, |Starts(h)|, channel);
  }

  /** A hunting synchroniser that hears the last dibit of a sync word starts a burst of its type. */
  lemma HeardSync(h: seq<dibit>, last: dibit, sync: seq<dibit>, t: BurstType)
    requires !UnderWay(h) && Slice(h + [last], |h| + 1 - SYNC, SYNC) == sync
    requires t != UNKNOWN && Hamming48(Pack(sync), SyncWord(t)) <= MAX_ERRORS
    ensures MatchSync(Pack(sync)) == t
    ensures Starts(h + [last]) == Starts(h) + [|h| + 1]
  {
    hide Starts, Pack, MatchSync, Hamming48, Slice, SyncWord;
    MatchIsExact(Pack(sync), t);
    StartsSnoc(h, last);
  }

  lemma StreamSplits(before: seq<dibit>, first: seq<dibit>, sync: seq<dibit>, second: seq<dibit>, guard: seq<dibit>)
    requires |first| == FIRST_HALF && |sync| == SYNC && |second| == SECOND_HALF && |guard| == GUARD
    ensures var h, heard := before + first + sync[..SYNC - 1], before + first + sync;
      var u, s := heard + (second + guard[..GUARD - 1]), before + first + sync + second + guard;
      && h + [sync[SYNC - 1]] == heard
      && u == s[..|s| - 1] && u + [guard[GUARD - 1]] == s
      && Slice(heard, |heard| - SYNC, SYNC) == sync
  {
  }

  lemma BurstContents(before: seq<dibit>, first: seq<dibit>, sync: seq<dibit>, second: seq<dibit>, guard: seq<dibit>,
                      i: nat, channel: int)
    requires |first| == FIRST_HALF && |sync| == SYNC && |second| == SECOND_HALF
    ensures var s := before + first + sync + second + guard;
      BurstOf(s, |before| + FIRST_HALF + SYNC, i, channel)
      == Burst(MatchSync(Pack(sync)), if i % 2 == 0 then 1 else 2, channel, Pack(sync), first + second)
  {
    hide Pack, MatchSync;
    var s := before + first + sync + second + guard;
    var n := |before| + FIRST_HALF + SYNC;
    assert Slice(s, n - SYNC, SYNC) == sync;
    assert Slice(s, n - SYNC - FIRST_HALF, FIRST_HALF) == first;
    assert Slice(s, n, SECOND_HALF) == second;
  }

  // ----- From burst to report -----

  /**
   A payload that differs from the transmitted message in at most two bits is reported as
   the message would be; with three, as the message would be or not at all.
   */
  lemma PayloadIsReported(b: Burst, m: seq<bit>)
    requires |b.dibits| == 98 && |m| == 96
    ensures |BitErrors(Payload(b), Transmit(m))| <= 3 ==> ReportOf(b) == ReportOfBits(b, m) || ReportOf(b) == None
    ensures |BitErrors(Payload(b), Transmit(m))| <= 2 ==> ReportOf(b) == ReportOfBits(b, m)
  {
    assert |Payload(b)| == 98;
    hide Decoded, BitErrors, Transmit, Payload, ReportOfBits;
    ThreeFlipsAreCorrected(m, Payload(b));
  }

  /** A voice burst that carries two identities is reported as their call. */
  lemma VoicePayloadIsReported(b: Burst, m: seq<bit>, flco: nat, dst: nat, src: nat)
    requires |b.dibits| == 98 && b.kind in {BS_VOICE, MS_VOICE} && |m| == 96
    requires flco == 0x00 || flco == 0x03
    requires dst < 0x100_0000 && src < 0x100_0000 && !(src == 0 && dst == 0)
    requires Carries(m, flco, dst, src)
    ensures var call := Some(VoiceCall(b.timeslot, src, dst, flco == 0x00));
      && (|BitErrors(Payload(b), Transmit(m))| <= 3 ==> ReportOf(b) == call || ReportOf(b) == None)
      && (|BitErrors(Payload(b), Transmit(m))| <= 2 ==> ReportOf(b) == call)
  {
    hide ReportOf, BitErrors, Transmit, Payload, VoiceLc, Field;
    PayloadIsReported(b, m);
    VoiceLcIsRecovered(m, flco, dst, src);
  }

  /** A data burst that carries two coordinates is reported as their position. */
  lemma PositionPayloadIsReported(b: Burst, m: seq<bit>, kind: nat, lat: int, lon: int)
    requires |b.dibits| == 98 && b.kind in {BS_DATA, MS_DATA} && |m| == 96
    requires kind == 0x00 || kind == 0x20
    requires CarriesPosition(m, kind, lat, lon) && !(lat == 0 && lon == 0)
    ensures var position := Some(Position(b.timeslot, lat as real * (90.0 / 8388607.0), lon as real * (180.0 / 8388607.0)));
      && (|BitErrors(Payload(b), Transmit(m))| <= 3 ==> ReportOf(b) == position || ReportOf(b) == None)
      && (|BitErrors(Payload(b), Transmit(m))| <= 2 ==> ReportOf(b) == position)
  {
    hide ReportOf, BitErrors, Transmit, Payload, Gps, Field;
    PayloadIsReported(b, m);
    PositionIsRecovered(m, kind, lat, lon);
  }

  // ----- End to end: encoder, noisy stream, synchroniser, decoder, parser -----

  /** The dibits of one burst as they arrive, in place within the stream. */
  datatype Arrival = Arrival(before: seq<dibit>, first: seq<dibit>, sync: seq<dibit>, second: seq<dibit>, guard: seq<dibit>) {
    function Stream(): seq<dibit> {
      before + first + sync + second + guard
    }

    /** Up to the last dibit but one of the sync word. */
    function Lead(): seq<dibit>
      requires |sync| == SYNC
    {
      before + first + sync[..SYNC - 1]
    }

    /** The slot that the toggle gives to the burst: slot 1 to the first of the stream, and in turn. */
    function TimeSlot(): int
      requires |sync| == SYNC
    {
      if |Starts(Lead())| % 2 == 0 then 1 else 2
    }
  }

  /**
   A burst of type t with at most four bit errors in its sync word and at most two in its
   payload, which is the transmission of m, arrives at a synchroniser that is hunting.
   */
  ghost predicate Arrives(a: Arrival, t: BurstType, m: seq<bit>) {
    && |a.first| == 49 && |a.sync| == 24 && |a.second| == 49 && |a.guard| == 10
    && t != UNKNOWN && Hamming48(Pack(a.sync), SyncWord(t)) <= 4
    && !UnderWay(a.Lead())
    && |m| == 96 && |BitErrors(a.first + a.second, Transmit(m))| <= 2
  }

  /** The report of the burst that the last dibit of a stream completes, if it completes one. */
  ghost function ReportAt(s: seq<dibit>, channel: int): Option<Report>
    requires s != []
  {
    var bs, n := Bursts(s, channel), |Bursts(s[..|s| - 1], channel)|;
    if |bs| == n + 1 && |bs[n].dibits| == 98 then ReportOf(bs[n]) else None
  }

  /** Whatever the message, what is reported is what the sender's own bits say. */
  lemma EndToEnd(a: Arrival, t: BurstType, channel: int, m: seq<bit>)
    requires Arrives(a, t, m)
    ensures ReportAt(a.Stream(), channel) ==
      ReportOfBits(Burst(t, a.TimeSlot(), channel, Pack(a.sync), a.first + a.second), m)
  {
    hide Starts, Pack, MatchSync, Hamming48, BitErrors, Transmit, ReportOf, ReportOfBits, Bursts, UnderWay, SyncWord;
    HeardBurst(a.before, a.first, a.sync, a.second, a.guard, t, channel);
    var b := Burst(t, a.TimeSlot(), channel, Pack(a.sync), a.first + a.second);
    assert Payload(b) == a.first + a.second;
    PayloadIsReported(b, m);
  }

  /** A voice call is reported with the sender's identities. */
  lemma VoiceEndToEnd(a: Arrival, t: BurstType, channel: int, m: seq<bit>, flco: nat, dst: nat, src: nat)
    requires Arrives(a, t, m) && t in {BS_VOICE, MS_VOICE}
    requires Carries(m, flco, dst, src) && (flco == 0x00 || flco == 0x03)
    requires dst < 0x100_0000 && src < 0x100_0000 && !(src == 0 && dst == 0)
    ensures ReportAt(a.Stream(), channel) ==
      Some(VoiceCall(a.TimeSlot(), src, dst, flco == 0x00))
  {
    hide Starts, Arrives, ReportAt, VoiceLc, Field;
    EndToEnd(a, t, channel, m);
    VoiceLcIsRecovered(m, flco, dst, src);
  }

  /** A position is reported with the sender's coordinates, scaled. */
  lemma PositionEndToEnd(a: Arrival, t: BurstType, channel: int, m: seq<bit>, kind: nat, lat: int, lon: int)
    requires Arrives(a, t, m) && t in {BS_DATA, MS_DATA}
    requires CarriesPosition(m, kind, lat, lon) && (kind == 0x00 || kind == 0x20) && !(lat == 0 && lon == 0)
    ensures ReportAt(a.Stream(), channel) ==
      Some(Position(a.TimeSlot(), lat as real * (90.0 / 8388607.0), lon as real * (180.0 / 8388607.0)))
  {
    hide Starts, Arrives, ReportAt, Gps, Field;
    EndToEnd(a, t, channel, m);
    PositionIsRecovered(m, kind, lat, lon);
  }
}
