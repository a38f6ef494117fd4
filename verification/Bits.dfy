/** Bit masks and fixed-width counters on natural numbers: the arithmetic meaning of the
    `& (n - 1)` and `& ~(align - 1)` forms and of the free-running 16-bit indices. */
module Bits {

  function Pow2(k: nat): (r: nat)
    ensures 1 <= r
  {
    if k == 0 then 1 else 2 * Pow2(k - 1)
  }

  /** Bitwise conjunction, digit by digit. */
  function And(x: nat, y: nat): nat
  {
    if x == 0 || y == 0 then 0
    else (if x % 2 == 1 && y % 2 == 1 then 1 else 0) + 2 * And(x / 2, y / 2)
  }

  /** Bitwise disjunction, digit by digit. */
  function Or(x: nat, y: nat): nat
  {
    if x == 0 then y else if y == 0 then x
    else (if x % 2 == 1 || y % 2 == 1 then 1 else 0) + 2 * Or(x / 2, y / 2)
  }

  const WORD16: nat := 65536

  /** Conversion to uint16_t. */
  function U16(x: int): (r: nat)
    ensures r < WORD16
  {
    x % WORD16
  }

  ghost predicate RingSize(n: nat) {
    exists k: nat :: k <= 15 && n == Pow2(k)
  }

  /** The ring slot of a 16-bit index, as the code computes it. */
  function Slot(idx: nat, n: nat): nat
    requires 1 <= n
  {
    And(idx, n - 1)
  }

  lemma {:induction false} Halve(x: nat, m: nat)
    requires 1 <= m
    ensures x % (2 * m) == x % 2 + 2 * ((x / 2) % m)
  {
    var q, r := (x / 2) / m, (x / 2) % m;
    assert x == 2 * (q * m + r) + x % 2;
    assert x == (2 * m) * q + (2 * r + x % 2) by {
      assert 2 * (q * m + r) == (2 * m) * q + 2 * r;
    }
    DivModUnique(x, 2 * m, q, 2 * r + x % 2);
  }

  lemma Multiples(d: int, k: int)
    requires 1 <= d
    ensures k >= 1 ==> d * k >= d
    ensures k <= -1 ==> d * k <= -d
  {
    assert d * k == d * (k - 1) + d == d * (k + 1) - d;
    assert k >= 1 ==> d * (k - 1) >= 0;
    assert k <= -1 ==> d * (k + 1) <= 0;
  }

  lemma {:induction false} DivModUnique(x: int, d: nat, q: int, r: nat)
    requires 1 <= d && r < d && x == d * q + r
    ensures x / d == q && x % d == r
  {
    var q', r' := x / d, x % d;
    assert d * (q - q') == r' - r;
    Multiples(d, q - q');
  }

  /** `x & (2^k - 1)` is `x mod 2^k`. */
  lemma {:induction false} AndLowMask(x: nat, k: nat)
    ensures And(x, Pow2(k) - 1) == x % Pow2(k)
    decreases k
  {
    if k > 0 {
      var p := Pow2(k - 1);
      AndLowMask(x / 2, k - 1);
      Halve(x, p);
      OddMask(x, p);
    }
  }

  lemma OddMask(x: nat, p: nat)
    requires 1 <= p
    ensures And(x, 2 * p - 1) == x % 2 + 2 * And(x / 2, p - 1)
  {
    assert (2 * p - 1) / 2 == p - 1 && (2 * p - 1) % 2 == 1;
  }

  /** In a w-bit word, `x & ~(2^k - 1)` rounds x down to a multiple of 2^k. */
  lemma {:induction false} AndHighMask(x: nat, k: nat, w: nat)
    requires k <= w && x < Pow2(w)
    ensures Pow2(k) <= Pow2(w)
    ensures And(x, Pow2(w) - Pow2(k)) == x - x % Pow2(k)
    decreases w
  {
    if k == 0 {
      Pow2Mono(0, w);
      AndLowMask(x, w);
      Small(x, Pow2(w));
    } else {
      AndHighMask(x / 2, k - 1, w - 1);
      Halve(x, Pow2(k - 1));
      assert (Pow2(w) - Pow2(k)) / 2 == Pow2(w - 1) - Pow2(k - 1);
      assert (Pow2(w) - Pow2(k)) % 2 == 0;
    }
  }

  /** `x & ~m` in a w-bit word takes from x exactly what `x & m` keeps. */
  lemma {:induction false} AndNot(x: nat, m: nat, w: nat)
    requires x < Pow2(w) && m < Pow2(w)
    ensures And(x, Pow2(w) - 1 - m) == x - And(x, m)
    decreases w
  {
    if w > 0 && x != 0 {
      var n := Pow2(w) - 1 - m;
      AndNot(x / 2, m / 2, w - 1);
      assert n / 2 == Pow2(w - 1) - 1 - m / 2 && n % 2 == 1 - m % 2;
      AndDigits(x, n);
      AndDigits(x, m);
    }
  }

  lemma AndDigits(x: nat, y: nat)
    ensures And(x, y) == (if x % 2 == 1 && y % 2 == 1 then 1 else 0) + 2 * And(x / 2, y / 2)
  {}

  /** The disjunction of words without a common digit is their sum. */
  lemma {:induction false} OrDisjoint(x: nat, y: nat)
    requires And(x, y) == 0
    ensures Or(x, y) == x + y
  {
    if x != 0 && y != 0 { OrDisjoint(x / 2, y / 2); }
  }

  /** Only the low k digits of x matter to a mask of k digits. */
  lemma {:induction false} AndModulo(x: nat, m: nat, k: nat)
    requires m < Pow2(k)
    ensures And(x, m) == And(x % Pow2(k), m)
    decreases k
  {
    if k > 0 {
      AndModulo(x / 2, m / 2, k - 1);
      Halve(x, Pow2(k - 1));
      AndDigits(x, m);
      AndDigits(x % Pow2(k), m);
    }
  }

  lemma Small(x: nat, m: nat)
    requires x < m
    ensures x % m == x
  {}

  lemma {:induction false} Pow2Mono(j: nat, k: nat)
    requires j <= k
    ensures Pow2(j) <= Pow2(k)
    decreases k
  {
    if j < k {
      Pow2Mono(j, k - 1);
    }
  }

  lemma MultipleMod(p: nat, c: nat)
    requires 1 <= p
    ensures (p * c) % p == 0
  {
    DivModUnique(p * c, p, c, 0);
  }

  lemma {:induction false} Pow2Divides(j: nat, k: nat) returns (c: nat)
    requires j <= k
    ensures Pow2(k) == Pow2(j) * c && Pow2(k) % Pow2(j) == 0
    decreases k
  {
    if j == k {
      c := 1;
    } else {
      var c' := Pow2Divides(j, k - 1);
      c := 2 * c';
      assert Pow2(j) * c == 2 * (Pow2(j) * c');
    }
    MultipleMod(Pow2(j), c);
  }

  /** Reducing first modulo a multiple does not change the remainder. */
  lemma {:induction false} ModMod(x: nat, m: nat, d: nat)
    requires 1 <= d && 1 <= m && m % d == 0
    ensures (x % m) % d == x % d
  {
    var q, r, e := x / m, x % m, m / d;
    assert x == d * (e * q + r / d) + r % d by {
      assert m == d * e;
      assert x == (d * e) * q + (d * (r / d) + r % d);
      assert (d * e) * q == d * (e * q);
    }
    DivModUnique(x, d, e * q + r / d, r % d);
  }

  lemma Pow2Values()
    ensures Pow2(8) == 256 && Pow2(12) == 4096 && Pow2(15) == 32768 && Pow2(16) == 65536
  {
    assert Pow2(1) == 2 && Pow2(2) == 4 && Pow2(3) == 8 && Pow2(4) == 16;
    assert Pow2(5) == 32 && Pow2(6) == 64 && Pow2(7) == 128 && Pow2(8) == 256;
    assert Pow2(9) == 512 && Pow2(10) == 1024 && Pow2(11) == 2048 && Pow2(12) == 4096;
    assert Pow2(13) == 8192 && Pow2(14) == 16384 && Pow2(15) == 32768;
  }

  lemma RingSizeFacts(n: nat)
    requires RingSize(n)
    ensures 1 <= n <= 32768 && WORD16 % n == 0
  {
    var k: nat :| k <= 15 && n == Pow2(k);
    Pow2Mono(k, 15);
    var _ := Pow2Divides(k, 16);
    Pow2Values();
  }

  /** The slot computed from the wrapped 16-bit index is the slot of the unbounded counter. */
  lemma SlotOfCounter(c: nat, n: nat)
    requires RingSize(n)
    ensures 1 <= n && Slot(U16(c), n) == c % n
  {
    RingSizeFacts(n);
    var k: nat :| k <= 15 && n == Pow2(k);
    AndLowMask(U16(c), k);
    ModMod(c, WORD16, n);
  }

  lemma U16Unique(x: int, q: int, r: nat)
    requires r < WORD16 && x == WORD16 * q + r
    ensures U16(x) == r
  {
    DivModUnique(x, WORD16, q, r);
  }

  /** Subtracting from a wrapped counter wraps the difference. */
  lemma WrapDiff(c: int, k: int)
    ensures U16(U16(c) - k) == U16(c - k)
  {
    var d := c - k;
    assert U16(c) - k == WORD16 * (d / WORD16 - c / WORD16) + d % WORD16;
    U16Unique(U16(c) - k, d / WORD16 - c / WORD16, d % WORD16);
  }

  /** Counters less than a word apart agree as 16-bit values only if they are equal. */
  lemma CounterEq(a: nat, b: nat)
    requires a <= b < a + WORD16
    ensures U16(a) == U16(b) <==> a == b
    ensures U16(U16(b) - U16(a)) == b - a
  {
    var d := b - a;
    assert U16(b) - U16(a) == WORD16 * (a / WORD16 - b / WORD16) + d;
    U16Unique(U16(b) - U16(a), a / WORD16 - b / WORD16, d);
  }

  lemma CounterNext(c: nat)
    ensures U16(U16(c) + 1) == U16(c + 1)
  {
    WrapDiff(c, -1);
  }

  /** Counters in one window of n occupy different slots. */
  lemma SlotsDistinct(a: nat, b: nat, n: nat)
    requires 1 <= n && a % n == b % n && a <= b < a + n
    ensures a == b
  {
    var d := b - a;
    assert b == n * (b / n) + b % n && a == n * (a / n) + a % n;
    assert d == n * (b / n - a / n);
    Multiples(n, b / n - a / n);
  }
}
