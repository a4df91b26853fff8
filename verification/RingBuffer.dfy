/**
 The ring buffer as each of its operations runs on its own: two word counters that only
 ever grow, masked to find the cell, and copies in at most two chunks.
 Interleaved runs of one writer and one reader are the subject of RingProtocol.
 */
module RingBuffer {
  import opened Bits
  import opened Words

  function Min(a: nat, b: nat): nat {
    if a < b then a else b
  }

  // ----- Copies -----

  function Overwritten(cells: seq<byte>, at: nat, src: seq<byte>): (r: seq<byte>)
    requires at + |src| <= |cells|
    ensures |r| == |cells|
  {
    cells[..at] + src + cells[at + |src|..]
  }

  /** The cells after a copy in two chunks that starts at pos and may wrap around the end. */
  function CopiedIn(cells: seq<byte>, pos: nat, data: seq<byte>): (r: seq<byte>)
    requires pos < |cells| && |data| <= |cells|
    ensures |r| == |cells|
  {
    var first := Min(|data|, |cells| - pos);
    var once := Overwritten(cells, pos, data[..first]);
    if first < |data| then Overwritten(once, 0, data[first..]) else once
  }

  /** Cell by cell, what the two chunks leave behind. */
  lemma CopiedInAt(cells: seq<byte>, pos: nat, data: seq<byte>, k: nat)
    requires pos < |cells| && |data| <= |cells| && k < |cells|
    ensures CopiedIn(cells, pos, data)[k] ==
      if pos <= k < pos + |data| then data[k - pos]
      else if k < pos + |data| - |cells| then data[k + |cells| - pos] else cells[k]
  {
  }

  /** The copy puts the bytes in consecutive slots... */
  lemma CopiedInPlaces(cells: seq<byte>, start: nat, data: seq<byte>, j: nat)
    requires |data| <= |cells| && j < |data|
    ensures CopiedIn(cells, Slot(start, |cells|), data)[Slot(start + j, |cells|)] == data[j]
  {
    hide CopiedIn;
    Turn(start, j, |cells|);
    CopiedInAt(cells, Slot(start, |cells|), data, Slot(start + j, |cells|));
  }

  /** ...and leaves the slots before them, back to a full turn, as they were. */
  lemma CopiedInSpares(cells: seq<byte>, start: nat, data: seq<byte>, d: nat)
    requires 0 < d <= start && d + |data| <= |cells|
    ensures CopiedIn(cells, Slot(start, |cells|), data)[Slot(start - d, |cells|)] == cells[Slot(start - d, |cells|)]
  {
    hide CopiedIn;
    var back: int := d;
    CopiedInAt(cells, Slot(start, |cells|), data, Slot(start - d, |cells|));
    if d < |cells| {
      Turn(start, -back, |cells|);
    }
  }

  /** What a copy out in two chunks that starts at pos and may wrap around the end collects. */
  function CopiedOut(cells: seq<byte>, pos: nat, n: nat): (r: seq<byte>)
    requires pos < |cells| && n <= |cells|
    ensures |r| == n
  {
    var first := Min(n, |cells| - pos);
    if first < n then cells[pos..pos + first] + cells[..n - first] else cells[pos..pos + first]
  }

  lemma CopiedOutAt(cells: seq<byte>, pos: nat, n: nat, i: nat)
    requires pos < |cells| && i < n <= |cells|
    ensures CopiedOut(cells, pos, n)[i] == cells[if pos + i < |cells| then pos + i else pos + i - |cells|]
  {
  }

  lemma CopiedOutPlaces(cells: seq<byte>, start: nat, n: nat, i: nat)
    requires i < n <= |cells|
    ensures CopiedOut(cells, Slot(start, |cells|), n)[i] == cells[Slot(start + i, |cells|)]
  {
    hide CopiedOut;
    Turn(start, i, |cells|);
    CopiedOutAt(cells, Slot(start, |cells|), n, i);
  }

  // ----- Counters -----

  lemma FreeSpace(cap: nat, used: nat)
    requires used <= cap < WORD
    ensures Sub(cap, used) == cap - used
  {
  }

  lemma Advance(head: word, tail: word, n: nat)
    requires Sub(head, tail) + n < WORD
    ensures Sub(Add(head, n), tail) == Sub(head, tail) + n
    ensures head == Word(tail + Sub(head, tail))
  {
    if head >= tail {
      assert Sub(head, tail) == head - tail;
    } else {
      assert Sub(head, tail) == head - tail + WORD;
    }
  }

  lemma Retreat(head: word, tail: word, n: nat)
    requires n <= Sub(head, tail)
    ensures Sub(head, Add(tail, n)) == Sub(head, tail) - n
  {
  }

  /** Counters that are equal as words have the same slot, so wrap-around moves no byte. */
  lemma SameSlot(a: nat, b: nat, i: nat, cap: nat)
    requires PassesPowerOfTwoTest(cap) && cap < WORD && a == Word(b)
    ensures Slot(a + i, cap) == Slot(b + i, cap)
  {
    hide BitAnd, PassesPowerOfTwoTest, Word;
    WordShift(b, i);
    MaskedCounter(a + i, cap);
    MaskedCounter(b + i, cap);
  }

  lemma WordShift(b: nat, i: nat)
    ensures Word(Word(b) + i) == Word(b + i)
  {
    var q, q' := b / WORD, (Word(b) + i) / WORD;
    Remainder(b + i, WORD, q + q', Word(Word(b) + i));
  }

  lemma MaskedSlot(n: word, cap: nat)
    requires PassesPowerOfTwoTest(cap) && cap < WORD
    ensures BitAnd(n, cap - 1) == Slot(n, cap)
  {
    assert Word(n) == n;
    hide BitAnd, PassesPowerOfTwoTest, Word;
    MaskedCounter(n, cap);
  }

  // ----- The contents -----

  ghost predicate Consistent(cells: seq<byte>, head: word, tail: word) {
    PassesPowerOfTwoTest(|cells|) && |cells| < WORD && Sub(head, tail) <= |cells|
  }

  /** The bytes between the two counters, oldest first. */
  ghost function Stored(cells: seq<byte>, head: word, tail: word): (s: seq<byte>)
    requires |cells| > 0
    ensures |s| == Sub(head, tail)
  {
    seq(Sub(head, tail), i requires 0 <= i < Sub(head, tail) => cells[Slot(tail + i, |cells|)])
  }

  lemma StoredAt(cells: seq<byte>, head: word, tail: word, i: nat)
    requires |cells| > 0 && i < Sub(head, tail)
    ensures Stored(cells, head, tail)[i] == cells[Slot(tail + i, |cells|)]
  {
    hide Sub, Slot;
  }

  /** Byte by byte: what was stored stays in its slot, and the new bytes follow it. */
  lemma SlotAfterWrite(cells: seq<byte>, head: word, tail: word, data: seq<byte>, i: nat)
    requires Consistent(cells, head, tail) && Sub(head, tail) + |data| <= |cells|
    requires i < Sub(head, tail) + |data|
    ensures CopiedIn(cells, Slot(head, |cells|), data)[Slot(tail + i, |cells|)] ==
      if i < Sub(head, tail) then cells[Slot(tail + i, |cells|)] else data[i - Sub(head, tail)]
  {
    hide CopiedIn, PassesPowerOfTwoTest, Sub, Add, Slot, Word;
    var occupied := Sub(head, tail);
    var start: nat := tail + occupied;
    Advance(head, tail, |data|);
    SameSlot(head, start, 0, |cells|);
    if i < occupied {
      CopiedInSpares(cells, start, data, occupied - i);
    } else {
      CopiedInPlaces(cells, start, data, i - occupied);
    }
  }

  lemma WriteAppends(cells: seq<byte>, head: word, tail: word, data: seq<byte>)
    requires Consistent(cells, head, tail) && Sub(head, tail) + |data| <= |cells|
    ensures Consistent(cells, Add(head, |data|), tail)
    ensures Stored(CopiedIn(cells, Slot(head, |cells|), data), Add(head, |data|), tail)
         == Stored(cells, head, tail) + data
  {
    assert |cells| > 0;
    hide CopiedIn, PassesPowerOfTwoTest, Sub, Add, Slot, Stored, Word;
    Advance(head, tail, |data|);
    var after, occupied := CopiedIn(cells, Slot(head, |cells|), data), Sub(head, tail);
    var was, now := Stored(cells, head, tail), Stored(after, Add(head, |data|), tail);
    forall i: nat | i < occupied + |data| ensures now[i] == (was + data)[i] {
      SlotAfterWrite(cells, head, tail, data, i);
      StoredAt(after, Add(head, |data|), tail, i);
      if i < occupied {
        StoredAt(cells, head, tail, i);
      }
    }
  }

  /** Byte by byte: what is taken is the front, and the rest stays in its slots. */
  lemma SlotAfterRead(cells: seq<byte>, head: word, tail: word, n: nat, i: nat)
    requires Consistent(cells, head, tail) && n <= Sub(head, tail) && i < Sub(head, tail)
    ensures i < n ==> CopiedOut(cells, Slot(tail, |cells|), n)[i] == Stored(cells, head, tail)[i]
    ensures n <= i ==> i - n < Sub(head, Add(tail, n))
                       && Stored(cells, head, Add(tail, n))[i - n] == Stored(cells, head, tail)[i]
  {
    hide CopiedOut, PassesPowerOfTwoTest, Sub, Add, Slot, Word, Stored;
    Retreat(head, tail, n);
    StoredAt(cells, head, tail, i);
    if i < n {
      CopiedOutPlaces(cells, tail, n, i);
    } else {
      AddIsWord(tail, n);
      SameSlot(Add(tail, n), tail + n, i - n, |cells|);
      StoredAt(cells, head, Add(tail, n), i - n);
    }
  }

  lemma ReadTakes(cells: seq<byte>, head: word, tail: word, n: nat)
    requires Consistent(cells, head, tail) && n <= Sub(head, tail)
    ensures Consistent(cells, head, Add(tail, n))
    ensures CopiedOut(cells, Slot(tail, |cells|), n) == Stored(cells, head, tail)[..n]
    ensures Stored(cells, head, Add(tail, n)) == Stored(cells, head, tail)[n..]
  {
    assert |cells| > 0;
    hide CopiedOut, PassesPowerOfTwoTest, Sub, Add, Slot, Word, Stored;
    Retreat(head, tail, n);
    var out, whole, rest := CopiedOut(cells, Slot(tail, |cells|), n), Stored(cells, head, tail), Stored(cells, head, Add(tail, n));
    forall i: nat | i < n ensures out[i] == whole[i] {
      SlotAfterRead(cells, head, tail, n, i);
    }
    forall i: nat | i < |rest| ensures rest[i] == whole[n..][i] {
      SlotAfterRead(cells, head, tail, n, n + i);
    }
  }

  lemma AddIsWord(a: word, b: word)
    ensures Add(a, b) == Word(a + b)
  {
  }

  // ----- The buffer -----

  class Ring {
    const capacity: nat
    const mask: nat
    const buf: array<byte>
    var head: word
    var tail: word
    var overruns: word

    ghost predicate Valid()
      reads this, buf
    {
      mask == capacity - 1 && buf.Length == capacity && Consistent(buf[..], head, tail)
    }

    /** The bytes written and not yet read, oldest first. */
    ghost function Contents(): (s: seq<byte>)
      requires Valid()
      reads this, buf
      ensures |s| == Sub(head, tail) <= capacity
    {
      Stored(buf[..], head, tail)
    }

    constructor (capacityBytes: nat)
      requires capacityBytes < WORD && PassesPowerOfTwoTest(capacityBytes)
      ensures Valid() && fresh(buf) && capacity == capacityBytes
      ensures Contents() == [] && overruns == 0
    {
      capacity := capacityBytes;
      mask := capacityBytes - 1;
      buf := new byte[capacityBytes](i => 0);
      head, tail, overruns := 0, 0, 0;
    }

    /** Construction fails exactly when the capacity is not a power of two. */
    static method Make(capacityBytes: nat) returns (r: Ring?)
      requires capacityBytes < WORD
      ensures r != null <==> IsPowerOfTwo(capacityBytes)
      ensures r != null ==> fresh(r) && fresh(r.buf) && r.Valid() && r.capacity == capacityBytes
      ensures r != null ==> r.Contents() == [] && r.overruns == 0
    {
      PowerOfTwoTest(capacityBytes);
      if !PassesPowerOfTwoTest(capacityBytes) {
        return null;
      }
      r := new Ring(capacityBytes);
    }

    method CopyIn(at: nat, src: seq<byte>)
      requires at + |src| <= buf.Length
      modifies buf
      ensures buf[..] == Overwritten(old(buf[..]), at, src)
    {
      ghost var cells := buf[..];
      for i := 0 to |src|
        invariant forall k :: 0 <= k < |cells| ==> buf[k] == if at <= k < at + i then src[k - at] else cells[k]
      {
        buf[at + i] := src[i];
      }
    }

    method CopyChunks(pos: nat, data: seq<byte>)
      requires pos < buf.Length && |data| <= buf.Length
      modifies buf
      ensures buf[..] == CopiedIn(old(buf[..]), pos, data)
    {
      hide Overwritten;
      var firstChunk := Min(|data|, buf.Length - pos);
      CopyIn(pos, data[..firstChunk]);
      if firstChunk < |data| {
        CopyIn(0, data[firstChunk..]);
      }
    }

    /** Copy bytes that are known to fit, then publish them. */
    method Append(data: seq<byte>)
      requires Valid() && |Contents()| + |data| <= capacity
      modifies this`head, buf
      ensures Valid() && Contents() == old(Contents()) + data
    {
      hide Stored, PassesPowerOfTwoTest, Sub, Add, BitAnd, CopiedIn, Slot;
      MaskedSlot(head, capacity);
      ghost var cells := buf[..];
      var writePos := BitAnd(head, mask);
      CopyChunks(writePos, data);
      WriteAppends(cells, head, tail, data);
      head := Add(head, |data|);
    }

    method Write(data: seq<byte>) returns (written: nat)
      requires Valid() && |data| < WORD
      modifies this, buf
      ensures Valid()
      ensures written == Min(|data|, capacity - |old(Contents())|)
      ensures Contents() == old(Contents()) + data[..written]
      ensures overruns == if written < |data| then Add(old(overruns), 1) else old(overruns)
    {
      FreeSpace(capacity, Sub(head, tail));
      hide Stored, PassesPowerOfTwoTest, Sub, Add;
      var freeSpace := Sub(capacity, Sub(head, tail));
      var len := |data|;
      if len > freeSpace {
        overruns := Add(overruns, 1);
        len := freeSpace;
      }
      if len == 0 {
        return 0;
      }
      Append(data[..len]);
      return len;
    }

    method Read(wanted: nat) returns (dest: seq<byte>)
      requires Valid() && wanted < WORD
      modifies this`tail
      ensures Valid()
      ensures dest == old(Contents())[..Min(wanted, |old(Contents())|)]
      ensures Contents() == old(Contents())[|dest|..]
    {
      hide Stored, PassesPowerOfTwoTest, Sub, Add, BitAnd, Slot;
      var avail := Sub(head, tail);
      var len := Min(wanted, avail);
      if len == 0 {
        return [];
      }
      MaskedSlot(tail, capacity);
      var readPos := BitAnd(tail, mask);
      var firstChunk := Min(len, capacity - readPos);
      dest := buf[readPos..readPos + firstChunk];
      if firstChunk < len {
        dest := dest + buf[..len - firstChunk];
      }
      assert dest == CopiedOut(buf[..], readPos, len);
      ReadTakes(buf[..], head, tail, len);
      tail := Add(tail, len);
    }

    method Available() returns (n: nat)
      requires Valid()
      ensures n == |Contents()|
    {
      n := Sub(head, tail);
    }

    method Reset()
      requires Valid()
      modifies this
      ensures Valid() && Contents() == [] && overruns == 0
    {
      head, tail, overruns := 0, 0, 0;
    }
  }
}
