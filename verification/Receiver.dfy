/**
 The whole receiver of one channel, from raw bytes to reports: the demodulation chain
 followed by the layer-2 handler.
 */
module Receiver {
  import opened Bits
  import opened Wrappers
  import opened SyncWords
  import opened DibitStream
  import opened BurstScan
  import opened BurstTiming
  import opened BptcEncoder
  import opened BptcRadius
  import opened DemodChain
  import opened Layer2
  import ChannelFilter
  import FmDiscriminator
  import TimingRecovery
  import FskSlicer
  import SlotManager

  /** What the air carries, as the front of the chain sees it: filtered, discriminated, timed and sliced. */
  function Heard(c: Config, raw: Raw): seq<dibit>
    requires Usable(c)
  {
    FskSlicer.Dibits(c.slicer, TimingRecovery.Symbols(c.timing, FmDiscriminator.Discriminated(ChannelFilter.Outputs(c.design, raw))))
  }

  /** Event i of an input carries burst i of what is heard, and the count and the state of its slot. */
  lemma EventsOfInput(c: Config, raw: Raw, i: nat)
    requires Usable(c)
    ensures |EventsOf(c, raw)| == |Bursts(Heard(c, raw), c.channel)|
    ensures i < |EventsOf(c, raw)| ==>
      var bs, ev := Bursts(Heard(c, raw), c.channel), EventsOf(c, raw)[i];
      && ev.burst == bs[i] && ev.burstCount == i / 2 + 1
      && ev.state == if bs[i].kind in {BS_VOICE, MS_VOICE} then SlotManager.VOICE
                     else if i >= 2 && bs[i - 2].kind in {BS_VOICE, MS_VOICE} then SlotManager.IDLE
                     else SlotManager.DATA
  {
    hide FskSlicer.Dibits, TimingRecovery.Symbols, FmDiscriminator.Discriminated, ChannelFilter.Outputs;
    hide Usable, Bursts, SlotManager.Events;
    var s := Heard(c, raw);
    if Bursts(s, c.channel) == [] {
      NoEvents(Bursts(s, c.channel));
    } else {
      SlotManager.EventInStream(s, c.channel, if i < |Bursts(s, c.channel)| then i else 0);
    }
  }

  lemma NoEvents(bs: seq<Burst>)
    requires bs == []
    ensures SlotManager.Events(bs) == []
  {
  }

  /** The frame carries message m as a burst of type t, with at most four and two bit errors. */
  ghost predicate Sends(f: Frame, t: BurstType, m: seq<bit>) {
    && f.Whole() && |m| == 96
    && t != UNKNOWN && Hamming48(Pack(f.sync), SyncWord(t)) <= 4
    && |BitErrors(f.first + f.second, Transmit(m))| <= 2
  }

  lemma SentIsReported(f: Frame, t: BurstType, m: seq<bit>, k: nat, channel: int)
    requires Sends(f, t, m)
    ensures var b := BurstOfFrame(f, k, channel);
      b.kind == t && b.timeslot == (if k % 2 == 0 then 1 else 2) && |b.dibits| == 98 && ReportOf(b) == ReportOfBits(b, m)
  {
    hide Pack, MatchSync, Hamming48, SyncWord, BitErrors, Transmit, ReportOf, ReportOfBits;
    MatchIsExact(Pack(f.sync), t);
    var b := BurstOfFrame(f, k, channel);
    assert Payload(b) == f.first + f.second;
    PayloadIsReported(b, m);
  }

  /** Frame by frame, the messages of a transmission. */
  ghost predicate AllSent(frames: seq<Frame>, ts: seq<BurstType>, ms: seq<seq<bit>>) {
    |frames| == |ts| == |ms| && forall j :: 0 <= j < |frames| ==> Sends(frames[j], ts[j], ms[j])
  }

  lemma FrameIsRecognised(f: Frame, t: BurstType, m: seq<bit>)
    requires Sends(f, t, m)
    ensures f.Whole() && MatchSync(Pack(f.sync)) != UNKNOWN
  {
    hide Pack, MatchSync, Hamming48, SyncWord, BitErrors, Transmit;
    MatchIsExact(Pack(f.sync), t);
  }

  lemma AllAreRecognised(frames: seq<Frame>, ts: seq<BurstType>, ms: seq<seq<bit>>)
    requires AllSent(frames, ts, ms)
    ensures AllMatch(frames)
  {
    hide Sends, Pack, MatchSync;
    forall j | 0 <= j < |frames| ensures frames[j].Whole() && MatchSync(Pack(frames[j].sync)) != UNKNOWN {
      FrameIsRecognised(frames[j], ts[j], ms[j]);
    }
  }

  /** An event reports, in its turn, a burst of type t on whose payload m was sent. */
  ghost predicate Delivers(b: Burst, t: BurstType, m: seq<bit>, k: nat) {
    && b.kind == t && b.timeslot == (if k % 2 == 0 then 1 else 2)
    && |b.dibits| == 98 && |m| == 96 && ReportOf(b) == ReportOfBits(b, m)
  }

  lemma SentIsDelivered(f: Frame, t: BurstType, m: seq<bit>, k: nat, channel: int)
    requires Sends(f, t, m)
    ensures Delivers(BurstOfFrame(f, k, channel), t, m, k)
  {
    hide Pack, Hamming48, SyncWord, BitErrors, Transmit, ReportOf, ReportOfBits, BurstOfFrame;
    SentIsReported(f, t, m, k, channel);
  }

  /**
   From raw bytes to reports: if what is heard is a succession of frames without a pause,
   each of which carries a message, then every message is reported, in order, as the
   sender's own bits say, the slots taking turns.
   */
  lemma EveryMessageIsReported(c: Config, raw: Raw, frames: seq<Frame>, ts: seq<BurstType>, ms: seq<seq<bit>>, k: nat)
    requires Usable(c) && Heard(c, raw) == Joined(frames) && Quiet(Joined(frames))
    requires AllSent(frames, ts, ms) && k < |frames|
    ensures |EventsOf(c, raw)| == |frames|
    ensures Delivers(EventsOf(c, raw)[k].burst, ts[k], ms[k], k)
  {
    AllAreRecognised(frames, ts, ms);
    hide Heard, Joined, Quiet, Usable, Sends, Bursts, BurstOfFrame, EventsOf, Delivers, AllMatch;
    BackToBack(frames, c.channel);
    EventsOfInput(c, raw, k);
    SentIsDelivered(frames[k], ts[k], ms[k], k, c.channel);
  }
}
