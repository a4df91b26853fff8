/**
 When bursts start and end, in numbers of dibits, and what that means for bursts that
 follow each other without a pause.
 */
module BurstTiming {
  import opened SyncWords
  import opened DibitStream
  import opened BurstScan

  /** A burst as it is sent: 132 dibits. */
  datatype Frame = Frame(first: seq<dibit>, sync: seq<dibit>, second: seq<dibit>, guard: seq<dibit>) {
    predicate Whole() {
      |first| == 49 && |sync| == 24 && |second| == 49 && |guard| == 10
    }

    function Dibits(): seq<dibit> {
      first + sync + second + guard
    }
  }

  /** The burst that a frame should give as number k. */
  function BurstOfFrame(f: Frame, k: nat, channel: int): Burst {
    Burst(MatchSync(Pack(f.sync)), if k % 2 == 0 then 1 else 2, channel, Pack(f.sync), f.first + f.second)
  }

  // ----- Starts -----

  /** A start is a match of 24 dibits, and the next one comes 60 dibits later at the soonest. */
  lemma StartsAreSixtyApart(s: seq<dibit>, i: nat)
    requires i < |Starts(s)|
    ensures var n: int := Starts(s)[i];
      0 < n <= |s| && MatchSync(Pack(Slice(s, n - 24, 24))) != UNKNOWN
    ensures i + 1 < |Starts(s)| ==> Starts(s)[i] + 60 <= Starts(s)[i + 1]
  {
    StartsIsScan(s);
    hide Starts, MatchSync, Pack, Slice, Covered;
    assert MatchAt(s, Starts(s)[i]);
  }

  /** A match that does not start a burst comes within 59 dibits of one that does. */
  lemma OnlySixtyAreSkipped(s: seq<dibit>, n: nat)
    requires 0 < n <= |s| && MatchSync(Pack(Slice(s, n - 24, 24))) != UNKNOWN
    ensures exists i :: 0 <= i < |Starts(s)| && Starts(s)[i] <= n < Starts(s)[i] + 60
  {
    hide Starts, MatchSync, Pack, Slice, Spaced;
    StartsIsScan(s);
    assert MatchAt(s, n);
    hide TypeAt, MatchAt;
    var i :| 0 <= i < |Starts(s)| && Starts(s)[i] <= n < Starts(s)[i] + SPAN;
  }

  /** So the 60th dibit after a start is the first that may match again, and if it matches it starts a burst. */
  lemma SixtiethMayMatch(s: seq<dibit>, i: nat)
    requires i < |Starts(s)| && Starts(s)[i] + 60 <= |s|
    requires MatchSync(Pack(Slice(s, Starts(s)[i] + 60 - 24, 24))) != UNKNOWN
    ensures i + 1 < |Starts(s)| && Starts(s)[i + 1] == Starts(s)[i] + 60
  {
    StartsIsScan(s);
    hide Starts, MatchSync, Pack, Slice, Covered;
    var ms, n := Starts(s), Starts(s)[i] + 60;
    OnlySixtyAreSkipped(s, n);
    var j :| 0 <= j < |ms| && ms[j] <= n < ms[j] + 60;
    TwoSpans(ms, i, j);
  }

  lemma TwoSpans(ms: seq<nat>, i: nat, j: nat)
    requires Spaced(ms) && i < j < |ms|
    ensures ms[i] + 60 <= ms[i + 1] && (i + 1 < j ==> ms[i] + 120 <= ms[j])
  {
    assert ms[i] + SPAN <= ms[i + 1];
  }

  // ----- Ends -----

  /** The starts of a prefix are the starts of the stream that it has reached. */
  lemma {:induction false} StartsOfPrefix(s: seq<dibit>, k: nat)
    requires k <= |s|
    ensures Starts(s[..k]) <= Starts(s)
    ensures forall i :: |Starts(s[..k])| <= i < |Starts(s)| ==> Starts(s)[i] > k
  {
    hide TypeAt;
    if k == |s| {
      assert s[..k] == s;
    } else {
      var n := |s| - 1;
      assert s[..n][..k] == s[..k];
      StartsOfPrefix(s[..n], k);
      assert s[..n] + [s[n]] == s;
      StartsSnoc(s[..n], s[n]);
      hide Starts;
    }
  }

  lemma CompletedIff(s: seq<dibit>, i: nat)
    ensures i < Completed(s) <==> i < |Starts(s)| && Starts(s)[i] + 59 <= |s|
  {
    StartsIsScan(s);
    hide Starts, TypeAt, MatchAt, Covered;
    var ms := Starts(s);
    if i + 1 < |ms| {
      assert ms[i] + SPAN <= ms[|ms| - 1];
    }
  }

  /** Burst i is out exactly when 59 dibits have followed its sync word. */
  lemma BurstIsOutIff(s: seq<dibit>, k: nat, i: nat, channel: int)
    requires k <= |s|
    ensures i < |Bursts(s[..k], channel)| <==> i < |Starts(s)| && Starts(s)[i] + 59 <= k
  {
    hide Starts, BurstOf, Completed;
    StartsOfPrefix(s, k);
    CompletedIff(s[..k], i);
  }

  /** The frame whose sync word ends at place n of a stream. */
  function FrameAt(s: seq<dibit>, n: int): Frame {
    Frame(Slice(s, n - 73, 49), Slice(s, n - 24, 24), Slice(s, n, 49), [])
  }

  /** What a burst holds: the 24 dibits of its sync word, the 49 before them and the 49 after them. */
  lemma BurstHolds(s: seq<dibit>, i: nat, channel: int)
    requires i < |Bursts(s, channel)|
    ensures i < |Starts(s)|
    ensures Bursts(s, channel)[i] == BurstOfFrame(FrameAt(s, Starts(s)[i]), i, channel)
  {
    hide Starts, MatchSync, Pack, Slice;
  }

  // ----- Bursts without a pause between them -----

  function Joined(frames: seq<Frame>): seq<dibit> {
    if frames == [] then [] else Joined(frames[..|frames| - 1]) + frames[|frames| - 1].Dibits()
  }

  lemma {:induction false} JoinedLength(frames: seq<Frame>)
    requires forall k :: 0 <= k < |frames| ==> frames[k].Whole()
    ensures |Joined(frames)| == 132 * |frames|
  {
    if frames == [] {
    } else {
      JoinedLength(frames[..|frames| - 1]);
    }
  }

  lemma {:induction false} FrameInPlace(frames: seq<Frame>, k: nat)
    requires forall j :: 0 <= j < |frames| ==> frames[j].Whole()
    requires k < |frames|
    ensures |Joined(frames)| == 132 * |frames|
    ensures Joined(frames)[132 * k..132 * k + 132] == frames[k].Dibits()
  {
    var n := |frames| - 1;
    JoinedLength(frames);
    JoinedLength(frames[..n]);
    if k == n {
    } else {
      FrameInPlace(frames[..n], k);
      hide Frame.Dibits;
      var before := Joined(frames[..n]);
      assert before[132 * k..132 * k + 132] == Joined(frames)[132 * k..132 * k + 132];
    }
  }

  /** The parts of a frame, cut out of the stream. */
  lemma PartsInPlace(frames: seq<Frame>, k: nat)
    requires forall j :: 0 <= j < |frames| ==> frames[j].Whole()
    requires k < |frames|
    ensures var s, n := Joined(frames), 132 * k + 73;
      && n + 59 <= |s|
      && Slice(s, n - 24, 24) == frames[k].sync
      && Slice(s, n - 73, 49) == frames[k].first && Slice(s, n, 49) == frames[k].second
  {
    FrameInPlace(frames, k);
    var s, f, at := Joined(frames), frames[k], 132 * k;
    hide Joined, Frame.Dibits, Slice;
    CutOut(s, at, f.Dibits(), 0, 49);
    CutOut(s, at, f.Dibits(), 49, 24);
    CutOut(s, at, f.Dibits(), 73, 49);
    PartsOfFrame(f);
  }

  lemma CutOut(s: seq<dibit>, at: nat, d: seq<dibit>, from: nat, count: nat)
    requires at + 132 <= |s| && s[at..at + 132] == d && from + count <= 132
    ensures Slice(s, at + from, count) == d[from..from + count]
  {
    var a, b := Slice(s, at + from, count), d[from..from + count];
    forall j | 0 <= j < count ensures a[j] == b[j] {
      assert s[at..at + 132][from + j] == s[at + from + j];
    }
  }

  lemma PartsOfFrame(f: Frame)
    requires f.Whole()
    ensures var d := f.Dibits();
      |d| == 132 && d[0..49] == f.first && d[49..73] == f.sync && d[73..122] == f.second
  {
  }

  /** The last dibit but 59 of a frame is the last of its sync word, and is recognised... */
  ghost predicate AllMatch(frames: seq<Frame>) {
    forall k :: 0 <= k < |frames| ==> frames[k].Whole() && MatchSync(Pack(frames[k].sync)) != UNKNOWN
  }

  /** ...and nothing that ends in the first 72 dibits of a frame passes for a sync word. */
  ghost predicate Quiet(s: seq<dibit>) {
    forall n: nat :: MatchAt(s, n) ==> (n - 1) % 132 >= 72
  }

  /** Where the sync words of frames without a pause end. */
  function SyncEnds(count: nat): (ms: seq<nat>)
    ensures |ms| == count && forall k :: 0 <= k < count ==> ms[k] == 132 * k + 73
  {
    seq(count, k requires 0 <= k < count => 132 * k + 73)
  }

  lemma SyncEndsAreScan(s: seq<dibit>, count: nat)
    requires Quiet(s) && |s| == 132 * count
    requires forall k :: 0 <= k < count ==> MatchAt(s, SyncEnds(count)[k])
    ensures Starts(s) == SyncEnds(count)
  {
    hide MatchAt, Starts;
    var ms := SyncEnds(count);
    forall n: nat | MatchAt(s, n) ensures Covered(ms, n) {
      MatchIsInside(s, n);
      var k := (n - 1) / 132;
      assert ms[k] <= n < ms[k] + SPAN;
    }
    ScanIsUnique(s, ms);
  }

  lemma MatchIsInside(s: seq<dibit>, n: nat)
    requires MatchAt(s, n)
    ensures 0 < n <= |s|
  {
    hide TypeAt;
  }

  lemma FrameMatches(frames: seq<Frame>, k: nat)
    requires AllMatch(frames) && k < |frames|
    ensures MatchAt(Joined(frames), 132 * k + 73)
  {
    hide MatchSync, Pack, Slice, Joined;
    PartsInPlace(frames, k);
  }

  lemma CleanStarts(frames: seq<Frame>)
    requires AllMatch(frames) && Quiet(Joined(frames))
    ensures |Joined(frames)| == 132 * |frames| && Starts(Joined(frames)) == SyncEnds(|frames|)
  {
    hide MatchAt, Joined, Starts, Quiet, MatchSync, Pack;
    JoinedLength(frames);
    forall k | 0 <= k < |frames| ensures MatchAt(Joined(frames), SyncEnds(|frames|)[k]) {
      FrameMatches(frames, k);
    }
    SyncEndsAreScan(Joined(frames), |frames|);
  }

  /** Of bursts that follow each other without a pause, burst k is out exactly with its own last guard dibit. */
  lemma BackToBackIsOutIff(frames: seq<Frame>, k: nat, m: nat, channel: int)
    requires AllMatch(frames) && Quiet(Joined(frames)) && m <= |Joined(frames)|
    ensures k < |Bursts(Joined(frames)[..m], channel)| <==> 132 * (k + 1) <= m
  {
    hide Joined, Starts, Quiet, AllMatch, Bursts;
    CleanStarts(frames);
    BurstIsOutIff(Joined(frames), m, k, channel);
  }

  lemma FrameComesBack(frames: seq<Frame>, k: nat, channel: int)
    requires AllMatch(frames) && k < |frames|
    ensures BurstOfFrame(FrameAt(Joined(frames), 132 * k + 73), k, channel) == BurstOfFrame(frames[k], k, channel)
  {
    hide Joined, MatchSync, Pack, Slice;
    PartsInPlace(frames, k);
  }

  lemma BackToBackAt(frames: seq<Frame>, k: nat, channel: int)
    requires AllMatch(frames) && Quiet(Joined(frames)) && k < |frames|
    ensures k < |Bursts(Joined(frames), channel)|
    ensures Bursts(Joined(frames), channel)[k] == BurstOfFrame(frames[k], k, channel)
  {
    hide Joined, Starts, Bursts, Quiet, AllMatch, BurstOfFrame, FrameAt;
    var s := Joined(frames);
    CleanStarts(frames);
    BackToBackIsOutIff(frames, k, |s|, channel);
    assert s[..|s|] == s;
    BurstHolds(s, k, channel);
    FrameComesBack(frames, k, channel);
  }

  /** None of them is lost, and each comes out as it was sent. */
  lemma BackToBack(frames: seq<Frame>, channel: int)
    requires AllMatch(frames) && Quiet(Joined(frames))
    ensures |Bursts(Joined(frames), channel)| == |frames|
    ensures forall k :: 0 <= k < |frames| ==> Bursts(Joined(frames), channel)[k] == BurstOfFrame(frames[k], k, channel)
  {
    var s := Joined(frames);
    assert s[..|s|] == s;
    hide Joined, Bursts, Quiet, AllMatch, BurstOfFrame, Starts;
    CleanStarts(frames);
    BackToBackIsOutIff(frames, |frames|, |s|, channel);
    forall k | 0 <= k < |frames|
      ensures k < |Bursts(s, channel)| && Bursts(s, channel)[k] == BurstOfFrame(frames[k], k, channel)
    {
      BackToBackAt(frames, k, channel);
    }
  }
}
