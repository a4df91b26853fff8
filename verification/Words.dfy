/**
 Machine words: 64-bit counters that wrap around, the power-of-two test and masking.
 A word is an integer below 2^64; bitwise "and" is defined bit by bit.
 */
module Words {

  const WORD: nat := 0x1_0000_0000_0000_0000

  type word = w: int | 0 <= w < WORD

  function Word(n: int): word {
    n % WORD
  }

  function Add(a: word, b: word): word {
    (a + b) % WORD
  }

  function Sub(a: word, b: word): word {
    (a - b) % WORD
  }

  /** Where the n-th item falls when counting round a capacity. */
  function Slot(n: int, capacity: nat): (c: nat)
    requires capacity > 0
    ensures c < capacity
  {
    n % capacity
  }

  function Pow2(k: nat): (p: nat)
    ensures p > 0
  {
    if k == 0 then 1 else 2 * Pow2(k - 1)
  }

  function BitAnd(a: nat, b: nat): (r: nat)
    ensures r <= b
  {
    if a == 0 || b == 0 then 0
    else 2 * BitAnd(a / 2, b / 2) + (if a % 2 == 1 && b % 2 == 1 then 1 else 0)
  }

  /** The test the buffer applies to its capacity. */
  predicate PassesPowerOfTwoTest(v: nat) {
    v != 0 && BitAnd(v, v - 1) == 0
  }

  ghost predicate IsPowerOfTwo(v: nat) {
    exists k: nat :: v == Pow2(k)
  }

  lemma {:induction false} BitAndSelf(a: nat)
    ensures BitAnd(a, a) == a
  {
    if a == 0 {
    } else {
      BitAndSelf(a / 2);
    }
  }

  /** The test accepts exactly the powers of two. */
  lemma {:induction false} PowerOfTwoTest(v: nat)
    ensures PassesPowerOfTwoTest(v) <==> IsPowerOfTwo(v)
  {
    if v == 1 {
      assert v == Pow2(0);
    } else if v != 0 && v % 2 == 1 {
      BitAndSelf(v / 2);
      assert BitAnd(v, v - 1) == 2 * BitAnd(v / 2, v / 2);
      forall k: nat ensures v != Pow2(k) {
      }
    } else if v != 0 {
      PowerOfTwoTest(v / 2);
      assert (v - 1) / 2 == v / 2 - 1;
      if IsPowerOfTwo(v / 2) {
        var k: nat :| v / 2 == Pow2(k);
        assert v == Pow2(k + 1);
      }
      if IsPowerOfTwo(v) {
        var k: nat :| v == Pow2(k);
        assert v / 2 == Pow2(k - 1);
      }
    }
  }

  /** Masking with one less than a power of two is the remainder. */
  lemma {:induction false} MaskIsRemainder(n: nat, k: nat)
    ensures BitAnd(n, Pow2(k) - 1) == n % Pow2(k)
  {
    if k == 0 {
      assert n % 1 == 0;
    } else if n == 0 {
      Remainder(0, Pow2(k), 0, 0);
    } else {
      var p := Pow2(k - 1);
      MaskIsRemainder(n / 2, k - 1);
      HalvedRemainder(n, p);
      OddMask(n, p);
    }
  }

  lemma OddMask(n: nat, p: nat)
    requires n > 0 && p > 0
    ensures BitAnd(n, 2 * p - 1) == 2 * BitAnd(n / 2, p - 1) + n % 2
  {
    var m := 2 * p - 1;
    assert m / 2 == p - 1 && m % 2 == 1;
  }

  lemma HalvedRemainder(n: nat, p: nat)
    requires p > 0
    ensures n % (2 * p) == 2 * (n / 2 % p) + n % 2
  {
    var h := n / 2;
    var q, r := h / p, h % p;
    assert h == p * q + r;
    assert 2 * (p * q) == 2 * p * q;
    Remainder(n, 2 * p, q, 2 * r + n % 2);
  }

  lemma Product(m: int, x: int)
    requires m >= 0
    ensures x >= 1 ==> m * x >= m
    ensures x <= -1 ==> m * x <= -m
  {
    if x >= 1 {
      assert m * x == m * (x - 1) + m;
    } else if x <= -1 {
      assert m * x == m * (x + 1) - m;
    }
  }

  /** The quotient and remainder of a division are unique. */
  lemma Remainder(a: int, m: nat, q: int, r: nat)
    requires r < m && a == m * q + r
    ensures a % m == r && a / m == q
  {
    var q' := a / m;
    assert m * (q - q') == m * q - m * q';
    Product(m, q - q');
  }

  /** Two places less than a full turn apart are in different cells. */
  lemma DistinctCells(a: int, b: int, m: nat)
    requires a < b < a + m
    ensures a % m != b % m
  {
    var q, q' := a / m, b / m;
    assert m * (q' - q) == m * q' - m * q;
    Product(m, q' - q);
  }

  /** Moving by less than a full turn from n moves the cell by as much, with at most one wrap. */
  lemma Turn(n: int, x: int, m: nat)
    requires -x < m && x < m
    ensures (n + x) % m == if n % m + x < 0 then n % m + x + m else if n % m + x < m then n % m + x else n % m + x - m
  {
    var q, y := n / m, n % m + x;
    assert n == m * q + n % m;
    assert m * (q - 1) == m * q - m && m * (q + 1) == m * q + m;
    if y < 0 {
      Remainder(n + x, m, q - 1, y + m);
    } else if y < m {
      Remainder(n + x, m, q, y);
    } else {
      Remainder(n + x, m, q + 1, y - m);
    }
  }

  lemma {:induction false} Pow2Sum(j: nat, k: nat)
    ensures Pow2(j + k) == Pow2(j) * Pow2(k)
  {
    if j == 0 {
    } else {
      Pow2Sum(j - 1, k);
      assert 2 * (Pow2(j - 1) * Pow2(k)) == 2 * Pow2(j - 1) * Pow2(k);
    }
  }

  lemma Pow2Square(k: nat, v: nat)
    requires Pow2(k) == v
    ensures Pow2(k + k) == v * v
  {
    Pow2Sum(k, k);
  }

  lemma WordIsPow2()
    ensures Pow2(64) == WORD
  {
    assert Pow2(4) == 16;
    hide Pow2;
    Pow2Square(4, 0x10);
    Pow2Square(8, 0x100);
    Pow2Square(16, 0x1_0000);
    Pow2Square(32, 0x1_0000_0000);
  }

  /** A capacity that passes the test divides the range of a word. */
  lemma CapacityDividesWord(cap: nat) returns (c: nat)
    requires PassesPowerOfTwoTest(cap) && cap < WORD
    ensures WORD == c * cap && c >= 2
  {
    PowerOfTwoTest(cap);
    var k: nat :| cap == Pow2(k);
    WordIsPow2();
    if k >= 64 {
      Pow2Sum(k - 64, 64);
      Product(WORD, Pow2(k - 64));
      assert false;
    }
    Pow2Sum(64 - k, k);
    c := Pow2(64 - k);
    assert c == 2 * Pow2(63 - k);
  }

  /** Wrap-around is harmless: the masked counter is the true position modulo the capacity. */
  lemma MaskedCounter(n: int, cap: nat)
    requires PassesPowerOfTwoTest(cap) && cap < WORD
    ensures BitAnd(Word(n), cap - 1) == n % cap
  {
    PowerOfTwoTest(cap);
    var k: nat :| cap == Pow2(k);
    MaskIsRemainder(Word(n), k);
    var c := CapacityDividesWord(cap);
    RemainderOfRemainder(n, cap, c);
  }

  lemma RemainderOfRemainder(n: int, m: nat, c: nat)
    requires m > 0 && c > 0
    ensures c * m > 0
    ensures n % (c * m) % m == n % m
  {
    Product(m, c);
    var q, w := n / (c * m), n % (c * m);
    var q', r := w / m, w % m;
    assert n == c * m * q + w;
    assert w == m * q' + r;
    assert c * m * q == m * (c * q);
    assert m * (c * q + q') == m * (c * q) + m * q';
    Remainder(n, m, c * q + q', r);
  }

  /** ...and so is the difference of two counters less than a full range apart. */
  lemma CounterDifference(a: int, b: int)
    requires 0 <= a - b < WORD
    ensures Sub(Word(a), Word(b)) == a - b
  {
    var q, q' := a / WORD, b / WORD;
    Remainder(Word(a) - Word(b), WORD, q' - q, a - b);
  }

  lemma DifferentSlots(a: int, b: int, capacity: nat)
    requires a < b < a + capacity
    ensures Slot(a, capacity) != Slot(b, capacity)
  {
    DistinctCells(a, b, capacity);
  }
}
