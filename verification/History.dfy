/**
 Circular histories: a buffer in which item k of a stream is kept in place k modulo the
 buffer's length until it is overwritten.
 */
module History {
  import opened Words

  /** Item k of the stream, and a filler outside of it. */
  function Padded<T>(s: seq<T>, k: int, filler: T): T {
    if 0 <= k < |s| then s[k] else filler
  }

  /** The buffer holds the last items of the stream, preceded by the filler. */
  ghost predicate Remembers<T>(h: seq<T>, s: seq<T>, filler: T) {
    |h| > 0 && forall k :: |s| - |h| <= k < |s| ==> h[Slot(k, |h|)] == Padded(s, k, filler)
  }

  /** Overwriting the oldest item with the next one keeps the others. */
  lemma RememberMore<T>(h: seq<T>, s: seq<T>, filler: T, x: T)
    requires Remembers(h, s, filler)
    ensures Remembers(h[Slot(|s|, |h|) := x], s + [x], filler)
  {
    hide Slot;
    var t := s + [x];
    forall k | |t| - |h| <= k < |t|
      ensures h[Slot(|s|, |h|) := x][Slot(k, |h|)] == Padded(t, k, filler)
    {
      if k < |s| {
        DifferentSlots(k, |s|, |h|);
      }
    }
  }

  /** Stepping the write index round the buffer follows the stream. */
  lemma NextSlot(n: nat, length: nat)
    requires length > 1
    ensures n % length == Slot(n, length) && (n % length + 1) % length == (n + 1) % length
  {
    Turn(n, 1, length);
    if n % length + 1 < length {
      Remainder(n % length + 1, length, 0, n % length + 1);
    } else {
      Remainder(n % length + 1, length, 1, 0);
    }
  }

  /** Whole turns of the buffer change nothing. */
  lemma FullTurns(x: int, k: int, length: nat)
    requires length > 0
    ensures (x + length * k) % length == x % length
  {
    var q, r := x / length, x % length;
    assert length * (q + k) == length * q + length * k;
    Remainder(x + length * k, length, q + k, r);
  }
}
