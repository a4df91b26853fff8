/**
 What burst synchronisation computes, stated on whole dibit streams: which places of the
 stream start a burst, and what each burst holds.
 */
module BurstScan {
  import opened SyncWords
  import opened DibitStream

  const FIRST_HALF: nat := 49
  const SECOND_HALF: nat := 49
  const GUARD: nat := 10
  const SYNC: nat := 24

  /** From a sync match, the pushes up to and including the next one that may match again. */
  const SPAN: nat := SECOND_HALF + GUARD + 1

  datatype Burst = Burst(kind: BurstType, timeslot: int, channel: int, syncBits: bv64, dibits: seq<dibit>)

  /** The classification of the 24 dibits that end at place n. */
  function TypeAt(s: seq<dibit>, n: nat): BurstType {
    MatchSync(Pack(Slice(s, n - SYNC, SYNC)))
  }

  ghost predicate MatchAt(s: seq<dibit>, n: nat) {
    0 < n <= |s| && TypeAt(s, n) != UNKNOWN
  }

  /**
   A scan of the stream: matches, at least a span apart, such that every match of the
   stream is one of them or falls within the span of one of them.
   */
  ghost predicate IsScan(s: seq<dibit>, ms: seq<nat>) {
    && (forall i :: 0 <= i < |ms| ==> MatchAt(s, ms[i]))
    && Spaced(ms)
    && (forall n: nat :: MatchAt(s, n) ==> Covered(ms, n))
  }

  ghost predicate Spaced(ms: seq<nat>) {
    forall i, j :: 0 <= i < j < |ms| ==> ms[i] + SPAN <= ms[j]
  }

  /** Place n falls within the span of one of the places. */
  ghost predicate Covered(ms: seq<nat>, n: nat) {
    exists i :: 0 <= i < |ms| && ms[i] <= n < ms[i] + SPAN
  }

  /** The scan, dibit by dibit: the next match that is not within the span of the last one. */
  function Starts(s: seq<dibit>): seq<nat> {
    if s == [] then []
    else
      var ms := Starts(s[..|s| - 1]);
      if (ms == [] || |s| >= ms[|ms| - 1] + SPAN) && TypeAt(s, |s|) != UNKNOWN then ms + [|s|] else ms
  }

  /** A burst is under way after the stream. */
  function UnderWay(s: seq<dibit>): bool {
    var ms := Starts(s);
    ms != [] && |s| < ms[|ms| - 1] + SPAN - 1
  }

  function Completed(s: seq<dibit>): nat {
    if UnderWay(s) then |Starts(s)| - 1 else |Starts(s)|
  }

  /** The burst whose sync word ends at place n, as number i of the channel: timeslots alternate. */
  function BurstOf(s: seq<dibit>, n: nat, i: nat, channel: int): Burst {
    Burst(TypeAt(s, n), if i % 2 == 0 then 1 else 2, channel, Pack(Slice(s, n - SYNC, SYNC)),
          Slice(s, n - SYNC - FIRST_HALF, FIRST_HALF) + Slice(s, n, SECOND_HALF))
  }

  /** All bursts completed in the stream. */
  function Bursts(s: seq<dibit>, channel: int): seq<Burst> {
    seq(Completed(s), i requires 0 <= i < Completed(s) => BurstOf(s, Starts(s)[i], i, channel))
  }

  // ----- Starts is the one and only scan -----

  lemma SliceIsStable(s: seq<dibit>, t: seq<dibit>, from: int, count: nat)
    requires s <= t && from + count <= |s|
    ensures Slice(t, from, count) == Slice(s, from, count)
  {
    forall i | 0 <= i < count ensures Slice(t, from, count)[i] == Slice(s, from, count)[i] {
      assert At(t, from + i) == At(s, from + i);
    }
  }

  lemma MatchIsStable(s: seq<dibit>, t: seq<dibit>, n: nat)
    requires s <= t && n <= |s|
    ensures TypeAt(t, n) == TypeAt(s, n)
  {
    SliceIsStable(s, t, n - SYNC, SYNC);
  }

  lemma {:induction false} StartsIsScan(s: seq<dibit>)
    ensures IsScan(s, Starts(s))
    ensures forall i :: 0 <= i < |Starts(s)| ==> Starts(s)[i] <= |s|
  {
    hide TypeAt, Covered;
    if s == [] {
    } else {
      hide Spaced;
      var t := s[..|s| - 1];
      StartsIsScan(t);
      var ms, ms' := Starts(t), Starts(s);
      forall n: nat | n <= |t| ensures MatchAt(s, n) <==> MatchAt(t, n) {
        MatchIsStable(t, s, n);
      }
      if |ms'| > |ms| {
        SpacedSnoc(ms, |s|);
      }
      forall n: nat | MatchAt(s, n) ensures Covered(ms', n) {
        if n <= |t| {
          assert Covered(ms, n);
          CoveredMore(ms, ms', n);
        } else {
          LastCovers(ms', n);
        }
      }
    }
  }

  lemma SpacedSnoc(ms: seq<nat>, n: nat)
    requires Spaced(ms) && (ms == [] || ms[|ms| - 1] + SPAN <= n)
    ensures Spaced(ms + [n])
  {
  }

  lemma CoveredMore(ms: seq<nat>, ms': seq<nat>, n: nat)
    requires ms <= ms' && Covered(ms, n)
    ensures Covered(ms', n)
  {
    var i :| 0 <= i < |ms| && ms[i] <= n < ms[i] + SPAN;
    assert ms'[i] == ms[i];
  }

  lemma LastCovers(ms: seq<nat>, n: nat)
    requires ms != [] && ms[|ms| - 1] <= n < ms[|ms| - 1] + SPAN
    ensures Covered(ms, n)
  {
  }

  /** Two scans that agree up to place i have the same place i. */
  lemma NextIsForced(ms: seq<nat>, ms': seq<nat>, i: nat)
    requires Spaced(ms) && Spaced(ms') && i < |ms|
    requires i <= |ms'| && ms[..i] == ms'[..i]
    requires Covered(ms', ms[i])
    ensures i < |ms'| && ms'[i] <= ms[i]
  {
    forall k | 0 <= k < i ensures ms'[k] + SPAN <= ms[i] {
      assert ms'[..i][k] == ms[..i][k];
    }
    var j :| 0 <= j < |ms'| && ms'[j] <= ms[i] < ms'[j] + SPAN;
    if i < j {
      assert ms'[i] + SPAN <= ms'[j];
    }
  }

  lemma {:induction false} ScansAgree(s: seq<dibit>, ms: seq<nat>, ms': seq<nat>, i: nat)
    requires IsScan(s, ms) && IsScan(s, ms') && i <= |ms|
    ensures i <= |ms'| && ms'[..i] == ms[..i]
  {
    hide TypeAt, Covered, Spaced, MatchAt;
    if i == 0 {
    } else {
      ScansAgree(s, ms, ms', i - 1);
      assert MatchAt(s, ms[i - 1]);
      NextIsForced(ms, ms', i - 1);
      assert MatchAt(s, ms'[i - 1]);
      NextIsForced(ms', ms, i - 1);
      assert ms[..i] == ms[..i - 1] + [ms[i - 1]] && ms'[..i] == ms'[..i - 1] + [ms'[i - 1]];
    }
  }

  /** Every scan of the stream is Starts. */
  lemma ScanIsUnique(s: seq<dibit>, ms: seq<nat>)
    requires IsScan(s, ms)
    ensures ms == Starts(s)
  {
    hide IsScan;
    var ms' := Starts(s);
    StartsIsScan(s);
    ScansAgree(s, ms, ms', |ms|);
    ScansAgree(s, ms', ms, |ms'|);
  }

  /** No stream matches before its 21st dibit. */
  lemma NoEarlyMatch(s: seq<dibit>, n: nat)
    requires MatchAt(s, n)
    ensures n >= 21
  {
    if n <= 20 {
      hide Feed;
      RegisterHoldsLast24(s[..n]);
      SliceIsStable(s[..n], s, n - SYNC, SYNC);
      RegisterAfterTwenty(s[..n]);
      TwentyDibitsNeverMatch(Feed(0, s[..n]));
    }
  }

  /** A burst is under way only where something has matched before. */
  lemma QuietStreamHasNoBurst(s: seq<dibit>)
    ensures UnderWay(s) ==> exists n: nat :: MatchAt(s, n)
  {
    hide TypeAt, MatchAt;
    StartsIsScan(s);
    if Starts(s) != [] {
      assert MatchAt(s, Starts(s)[0]);
    }
  }

  // ----- One more dibit -----

  lemma StartsSnoc(s: seq<dibit>, d: dibit)
    ensures var ms, t := Starts(s), s + [d];
      Starts(t) == if (ms == [] || |t| >= ms[|ms| - 1] + SPAN) && TypeAt(t, |t|) != UNKNOWN then ms + [|t|] else ms
  {
    assert (s + [d])[..|s|] == s;
  }

  lemma BurstIsStable(s: seq<dibit>, t: seq<dibit>, n: nat, i: nat, channel: int)
    requires s <= t && n + SECOND_HALF <= |s|
    ensures BurstOf(t, n, i, channel) == BurstOf(s, n, i, channel)
  {
    MatchIsStable(s, t, n);
    SliceIsStable(s, t, n - SYNC, SYNC);
    SliceIsStable(s, t, n - SYNC - FIRST_HALF, FIRST_HALF);
    SliceIsStable(s, t, n, SECOND_HALF);
  }

  /** A burst completes with the 59th dibit after its sync word, and at no other time. */
  lemma BurstsSnoc(s: seq<dibit>, d: dibit, channel: int)
    ensures var ms, t := Starts(s), s + [d];
      Bursts(t, channel) == Bursts(s, channel) +
        if ms != [] && |t| == ms[|ms| - 1] + SPAN - 1 then [BurstOf(t, ms[|ms| - 1], |ms| - 1, channel)] else []
  {
    hide TypeAt, BurstOf, MatchAt, Covered, Starts;
    var ms, t := Starts(s), s + [d];
    StartsSnoc(s, d);
    StartsIsScan(s);
    forall i: nat | i < Completed(s) ensures ms[i] + SPAN <= |t| && BurstOf(t, ms[i], i, channel) == BurstOf(s, ms[i], i, channel) {
      CompletedInTime(s, i);
      BurstIsStable(s, t, ms[i], i, channel);
    }
  }

  lemma CompletedInTime(s: seq<dibit>, i: nat)
    requires i < Completed(s)
    ensures Starts(s)[i] + SPAN <= |s| + 1
  {
    hide TypeAt, MatchAt, Covered, Starts;
    StartsIsScan(s);
    var ms := Starts(s);
    if i < |ms| - 1 {
      assert ms[i] + SPAN <= ms[|ms| - 1];
    }
  }
}
