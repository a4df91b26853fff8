/**
 Burst synchronisation, dibit by dibit: a shift register, a circular history and a
 machine that hunts for a sync word and then collects the second half of its burst.
 The machine is proved to compute the scan of module BurstScan. The callback that
 receives a completed burst is the result of the push that completes it.
 */
module BurstSync {
  import opened Bits
  import opened Wrappers
  import opened SyncWords
  import opened DibitStream
  import opened BurstScan
  import opened History
  import opened Words

  const HIST_LEN: nat := 128

  /** The index that the extraction loop computes is the place of the dibit it wants. */
  lemma ReadPlace(n: nat, i: nat)
    ensures ((n % HIST_LEN - 73 + HIST_LEN * 2) % HIST_LEN + i) % HIST_LEN == Slot(n - 73 + i, HIST_LEN)
  {
    var q, h := n / HIST_LEN, n % HIST_LEN;
    var start := (h - 73 + HIST_LEN * 2) % HIST_LEN;
    if h >= 73 {
      assert start == h - 73;
      FullTurns(start + i, q, HIST_LEN);
    } else {
      assert start == h + 55;
      FullTurns(start + i, q - 1, HIST_LEN);
    }
  }

  /** A burst that starts now: the first half is behind, the second half still to come. */
  lemma BurstStarts(t: seq<dibit>, i: nat, channel: int)
    ensures BurstOf(t, |t|, i, channel) ==
      Burst(TypeAt(t, |t|), if i % 2 == 1 then 2 else 1, channel, Feed(0, t) & MASK48,
            Slice(t, |t| - SYNC - FIRST_HALF, FIRST_HALF) + seq<dibit>(49, i => 0))
  {
    hide TypeAt, Feed;
    RegisterHoldsLast24(t);
    PackIsMasked(Slice(t, |t| - SYNC, SYNC));
    assert Slice(t, |t|, SECOND_HALF) == seq<dibit>(49, i => 0);
  }

  lemma PackIsMasked(w: seq<dibit>)
    requires w != []
    ensures Pack(w) & MASK48 == Pack(w)
  {
    hide Shift, Within;
    ShiftIsMasked(Feed(0, w[..|w| - 1]), w[|w| - 1]);
    MaskOf(Pack(w));
  }

  lemma MaskOf(x: bv64)
    requires Within(x, MASK48)
    ensures x & MASK48 == x
  {
  }

  /** A burst under way: one more dibit fills the next place of the second half, if any is left. */
  lemma BurstGrows(s: seq<dibit>, d: dibit, n: nat, i: nat, channel: int)
    requires n <= |s|
    ensures var b := BurstOf(s, n, i, channel);
      BurstOf(s + [d], n, i, channel) ==
        if |s| - n < SECOND_HALF then b.(dibits := b.dibits[FIRST_HALF + |s| - n := d]) else b
  {
    hide TypeAt, Feed;
    var t := s + [d];
    MatchIsStable(s, t, n);
    SliceIsStable(s, t, n - SYNC, SYNC);
    SliceIsStable(s, t, n - SYNC - FIRST_HALF, FIRST_HALF);
    SecondHalfGrows(s, d, n);
  }

  lemma SecondHalfGrows(s: seq<dibit>, d: dibit, n: nat)
    requires n <= |s|
    ensures Slice(s + [d], n, SECOND_HALF) ==
      if |s| - n < SECOND_HALF then Slice(s, n, SECOND_HALF)[|s| - n := d] else Slice(s, n, SECOND_HALF)
  {
  }

  // ----- The machine's progress -----

  datatype Progress = Progress(collecting: bool, collectIdx: nat, current: Burst,
                               tsToggle: nat, burstCount: nat, syncMatches: nat)

  /** The machine's state after a stream, in terms of the stream's scan. */
  ghost predicate Tracks(s: seq<dibit>, channel: int, p: Progress) {
    var ms := Starts(s);
    && p.collecting == UnderWay(s)
    && (p.collecting ==>
          && p.collectIdx == |s| - ms[|ms| - 1]
          && p.current == BurstOf(s, ms[|ms| - 1], |ms| - 1, channel))
    && p.syncMatches == p.tsToggle == |ms|
    && p.burstCount == Completed(s)
  }

  lemma StillHunting(s: seq<dibit>, d: dibit, channel: int, p: Progress)
    requires Tracks(s, channel, p) && !p.collecting && TypeAt(s + [d], |s| + 1) == UNKNOWN
    ensures Tracks(s + [d], channel, p)
    ensures Bursts(s + [d], channel) == Bursts(s, channel)
  {
    hide Starts, TypeAt, BurstOf, Bursts;
    StartsSnoc(s, d);
    BurstsSnoc(s, d, channel);
  }

  lemma SyncFound(s: seq<dibit>, d: dibit, channel: int, p: Progress)
    requires Tracks(s, channel, p) && !p.collecting && TypeAt(s + [d], |s| + 1) != UNKNOWN
    ensures Tracks(s + [d], channel, p.(
      collecting := true, collectIdx := 0, current := BurstOf(s + [d], |s| + 1, p.tsToggle, channel),
      tsToggle := p.tsToggle + 1, syncMatches := p.syncMatches + 1))
    ensures Bursts(s + [d], channel) == Bursts(s, channel)
  {
    hide Starts, TypeAt, BurstOf, Bursts;
    StartsSnoc(s, d);
    BurstsSnoc(s, d, channel);
  }

  /** Collecting one dibit: the second half fills up, the guard is counted, and the burst is done. */
  function Collected(p: Progress, d: dibit): Progress
    requires |p.current.dibits| == FIRST_HALF + SECOND_HALF
  {
    var next := if p.collectIdx < SECOND_HALF
                then p.current.(dibits := p.current.dibits[FIRST_HALF + p.collectIdx := d]) else p.current;
    var done := p.collectIdx + 1 >= SECOND_HALF + GUARD;
    Progress(!done, p.collectIdx + 1, next, p.tsToggle, p.burstCount + if done then 1 else 0, p.syncMatches)
  }

  lemma DibitCollected(s: seq<dibit>, d: dibit, channel: int, p: Progress)
    requires Tracks(s, channel, p) && p.collecting
    ensures |p.current.dibits| == FIRST_HALF + SECOND_HALF
    ensures Tracks(s + [d], channel, Collected(p, d))
    ensures Bursts(s + [d], channel) ==
      Bursts(s, channel) + if Collected(p, d).collecting then [] else [Collected(p, d).current]
  {
    hide Starts, TypeAt, BurstOf, Bursts, UnderWay, Completed;
    var ms := Starts(s);
    UnderWaySnoc(s, d);
    BurstGrows(s, d, ms[|ms| - 1], |ms| - 1, channel);
    BurstHasBothHalves(s, ms[|ms| - 1], |ms| - 1, channel);
    BurstsSnoc(s, d, channel);
  }

  /** While a burst is under way nothing starts, and it ends with its 59th dibit. */
  lemma UnderWaySnoc(s: seq<dibit>, d: dibit)
    requires UnderWay(s)
    ensures var ms, t := Starts(s), s + [d];
      && ms != [] && ms[|ms| - 1] <= |s| < ms[|ms| - 1] + SPAN - 1
      && Starts(t) == ms
      && (UnderWay(t) <==> |t| < ms[|ms| - 1] + SPAN - 1)
      && Completed(s) == |ms| - 1 && Completed(t) == if UnderWay(t) then |ms| - 1 else |ms|
  {
    hide Starts, TypeAt;
    StartsSnoc(s, d);
    StartsIsScan(s);
  }

  lemma BurstHasBothHalves(s: seq<dibit>, n: nat, i: nat, channel: int)
    ensures |BurstOf(s, n, i, channel).dibits| == FIRST_HALF + SECOND_HALF
  {
    hide TypeAt, Pack;
  }

  class Sync {
    const hist: array<dibit>
    const channel: int
    var histHead: nat
    var syncReg: bv64
    var collecting: bool
    var collectIdx: nat
    var current: Burst
    var tsToggle: nat
    var burstCount: nat
    var syncMatches: nat
    ghost var stream: seq<dibit>

    ghost predicate Valid()
      reads this, hist
    {
      Fed() && Tracks(stream, channel, Now())
    }

    /** The history and the register hold the end of the stream. */
    ghost predicate Fed()
      reads this, hist
    {
      && hist.Length == HIST_LEN && histHead == |stream| % HIST_LEN
      && Remembers(hist[..], stream, 0)
      && syncReg == Feed(0, stream)
    }

    ghost function Now(): Progress
      reads this
    {
      Progress(collecting, collectIdx, current, tsToggle, burstCount, syncMatches)
    }

    constructor (channelIdx: int)
      ensures Valid() && stream == [] && channel == channelIdx && fresh(hist)
    {
      hist := new dibit[HIST_LEN](i => 0);
      channel := channelIdx;
      histHead, syncReg, collecting, collectIdx, tsToggle, burstCount, syncMatches := 0, 0, false, 0, 0, 0, 0;
      current := Burst(UNKNOWN, 1, 0, 0, seq<dibit>(98, i => 0));
      stream := [];
    }

    method ExtractFirstHalf() returns (out: seq<dibit>)
      requires Fed()
      ensures out == Slice(stream, |stream| - SYNC - FIRST_HALF, FIRST_HALF)
    {
      var start := (histHead - 73 + HIST_LEN * 2) % HIST_LEN;
      out := [];
      for i := 0 to 49
        invariant out == Slice(stream, |stream| - 73, i)
      {
        ReadPlace(|stream|, i);
        hide Slot;
        out := out + [hist[(start + i) % HIST_LEN]];
      }
    }

    /** The part of a push that both states share. */
    method Remember(d: dibit)
      requires Fed()
      modifies hist, this`histHead, this`syncReg, this`stream
      ensures Fed() && stream == old(stream) + [d]
    {
      hide Remembers, Feed, Shift;
      RememberMore(hist[..], stream, 0, d);
      NextSlot(|stream|, HIST_LEN);
      FeedSnoc(0, stream, d);
      hist[histHead] := d;
      assert hist[..] == old(hist[..])[Slot(|stream|, HIST_LEN) := d];
      histHead := (histHead + 1) % HIST_LEN;
      syncReg := Shift(syncReg, d);
      stream := stream + [d];
    }

    /** The hunting half of a push: s is the stream before the dibit. */
    method Hunt(ghost s: seq<dibit>, ghost d: dibit)
      requires Fed() && stream == s + [d] && Tracks(s, channel, Now()) && !collecting
      modifies this`syncMatches, this`current, this`tsToggle, this`collectIdx, this`collecting
      ensures Valid() && Bursts(stream, channel) == Bursts(s, channel)
    {
      hide Tracks, TypeAt, Feed, MatchSync, BurstOf, Bursts, Remembers, Slice;
      ghost var p := Now();
      var kind := MatchSync(syncReg);
      TypeOfRegister(stream);
      if kind == UNKNOWN {
        StillHunting(s, d, channel, p);
      } else {
        SyncFound(s, d, channel, p);
        BurstStarts(stream, tsToggle, channel);
        syncMatches := syncMatches + 1;
        var firstHalf := ExtractFirstHalf();
        current := Burst(kind, if tsToggle % 2 == 1 then 2 else 1, channel, syncReg & MASK48,
                         firstHalf + seq<dibit>(49, i => 0));
        tsToggle := tsToggle + 1;
        collectIdx := 0;
        collecting := true;
      }
    }

    /** The collecting half of a push. */
    method Collect(ghost s: seq<dibit>, d: dibit) returns (emitted: Option<Burst>)
      requires Fed() && stream == s + [d] && Tracks(s, channel, Now()) && collecting
      modifies this`current, this`collectIdx, this`burstCount, this`collecting
      ensures Valid() && Bursts(stream, channel) == Bursts(s, channel) + emitted.ToSeq()
    {
      hide Tracks, Feed, Bursts, Remembers;
      ghost var p := Now();
      DibitCollected(s, d, channel, p);
      emitted := None;
      if collectIdx < 49 {
        current := current.(dibits := current.dibits[49 + collectIdx := d]);
      }
      collectIdx := collectIdx + 1;
      if collectIdx >= 59 {
        burstCount := burstCount + 1;
        emitted := Some(current);
        collecting := false;
      }
      assert Now() == Collected(p, d);
    }

    method PushDibit(raw: byte) returns (emitted: Option<Burst>)
      requires Valid()
      modifies this, hist
      ensures Valid() && stream == old(stream) + [raw % 4]
      ensures Bursts(stream, channel) == Bursts(old(stream), channel) + emitted.ToSeq()
    {
      hide Tracks, Bursts, Fed;
      var d: dibit := raw % 4;
      ghost var s := stream;
      Remember(d);
      if !collecting {
        Hunt(s, d);
        return None;
      }
      emitted := Collect(s, d);
    }
  }

  lemma TypeOfRegister(t: seq<dibit>)
    ensures MatchSync(Feed(0, t)) == TypeAt(t, |t|)
  {
    hide MatchSync, Feed;
    RegisterHoldsLast24(t);
  }
}
