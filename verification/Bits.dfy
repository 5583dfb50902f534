/** Natural-number arithmetic behind C's shifts and bitwise operators.

    `And` and `Or` are defined one bit at a time, so that they work at every width.
    Proofs about addresses use the lemmas below and hide the divisions.
 */
module Bits {

  function Pow2(n: nat): (r: nat)
    ensures r > 0
    ensures n > 0 ==> r % 2 == 0
  {
    if n == 0 then 1 else 2 * Pow2(n - 1)
  }

  /** C's `x >> n`. */
  function Shr(x: nat, n: nat): nat {
    DivNonnegative(x, Pow2(n));
    x / Pow2(n)
  }

  /** C's `x << n`, where nothing is shifted out. */
  function Shl(x: nat, n: nat): nat { x * Pow2(n) }

  /** The low `n` bits. */
  function Low(x: nat, n: nat): nat { x % Pow2(n) }

  predicate Multiple(x: int, n: nat) { x % Pow2(n) == 0 }

  /** C's `x & y`. */
  function And(x: nat, y: nat): nat {
    if x == 0 || y == 0 then 0 else (if x % 2 == 1 && y % 2 == 1 then 1 else 0) + 2 * And(x / 2, y / 2)
  }

  /** C's `x | y`. */
  function Or(x: nat, y: nat): nat {
    if x == 0 then y
    else if y == 0 then x
    else (if x % 2 == 1 || y % 2 == 1 then 1 else 0) + 2 * Or(x / 2, y / 2)
  }

  /** Bit `pos` of `x`. */
  function BitAt(x: nat, pos: nat): (b: nat)
    ensures b <= 1
  {
    Shr(x, pos) % 2
  }

  // ----- division -----

  /** A nonzero multiple of `m` is at least `m` away from zero. */
  lemma MultipleSize(q: int, m: int)
    requires m > 0
    ensures q >= 1 ==> q * m >= m
    ensures q <= 0 ==> q * m <= 0
    ensures q <= -1 ==> q * m <= -m
  {
    if q >= 1 {
      assert (q - 1) * m >= 0;
    } else if q <= -1 {
      assert (q + 1) * m <= 0;
    }
  }

  lemma DivUnique(x: int, m: int, q: int, r: int)
    requires m > 0 && 0 <= r < m && x == q * m + r
    ensures x / m == q && x % m == r
  {
    assert x == (x / m) * m + x % m;
    assert (x / m - q) * m == r - x % m;
    MultipleSize(x / m - q, m);
  }

  lemma DivNonnegative(x: nat, m: nat)
    requires m > 0
    ensures x / m >= 0
  {
    assert x == (x / m) * m + x % m;
    MultipleSize(x / m, m);
  }

  /** Dividing by `m` and then by 2. */
  lemma DivThenHalve(x: nat, m: nat)
    requires m > 0
    ensures x / m / 2 == x / (2 * m)
    ensures x % (2 * m) == (if x / m % 2 == 1 then m else 0) + x % m
  {
    var q := x / m;
    assert x == q * m + x % m;
    var p, odd := q / 2, q % 2 == 1;
    assert q == p + p + if odd then 1 else 0;
    assert q * m == p * m + p * m + if odd then m else 0;
    assert p * (2 * m) == p * m + p * m;
    DivUnique(x, 2 * m, p, (if odd then m else 0) + x % m);
  }

  /** Dividing by 2 and then by `m`. */
  lemma HalveThenDiv(x: nat, m: nat)
    requires m > 0
    ensures x / (2 * m) == x / 2 / m
    ensures x % (2 * m) == 2 * (x / 2 % m) + x % 2
  {
    var h := x / 2;
    assert h == (h / m) * m + h % m;
    assert 2 * h == (h / m) * (2 * m) + 2 * (h % m);
    DivUnique(x, 2 * m, h / m, 2 * (h % m) + x % 2);
  }

  lemma RoundDown(x: nat, m: nat)
    requires m > 0
    ensures x / m * m == x - x % m
    ensures 0 <= x / m * m <= x < x / m * m + m
    ensures x / m * m % m == 0
  {
    var q := x / m;
    assert x == q * m + x % m;
    DivUnique(q * m, m, q, 0);
  }

  // ----- powers of two -----

  lemma {:induction false} Pow2Monotone(a: nat, b: nat)
    requires a <= b
    ensures Pow2(a) <= Pow2(b)
    decreases b
  {
    if a < b {
      Pow2Monotone(a, b - 1);
    }
  }

  lemma {:induction false} Pow2Add(a: nat, b: nat)
    ensures Pow2(a + b) == Pow2(a) * Pow2(b)
  {
    if a > 0 {
      Pow2Add(a - 1, b);
      assert Pow2(a + b) == 2 * Pow2(a - 1 + b);
      assert 2 * (Pow2(a - 1) * Pow2(b)) == 2 * Pow2(a - 1) * Pow2(b);
    }
  }

  lemma Pow2Of31()
    ensures Pow2(31) == 0x8000_0000
  {
    assert Pow2(4) == 16;
    Pow2Add(4, 4);
    Pow2Add(8, 8);
    Pow2Add(8, 16);
    Pow2Add(4, 24);
    assert Pow2(28) == 0x1000_0000;
    assert Pow2(29) == 2 * Pow2(28) && Pow2(30) == 2 * Pow2(29) && Pow2(31) == 2 * Pow2(30);
  }

  // ----- shifts and low bits -----

  /** One more bit: `Shr` loses it and `Low` gains it. */
  lemma OneMoreBit(x: nat, n: nat)
    ensures Shr(x, n) == 2 * Shr(x, n + 1) + BitAt(x, n)
    ensures Low(x, n + 1) == Low(x, n) + if BitAt(x, n) == 1 then Pow2(n) else 0
  {
    DivThenHalve(x, Pow2(n));
  }

  /** Everything about `x` at bit `n + 1` is about `x / 2` at bit `n`. */
  lemma HalveBits(x: nat, n: nat)
    ensures Shr(x, n + 1) == Shr(x / 2, n) && BitAt(x, n + 1) == BitAt(x / 2, n)
    ensures Low(x, n + 1) == 2 * Low(x / 2, n) + x % 2
  {
    HalveThenDiv(x, Pow2(n));
    HalveThenDiv(x, 2 * Pow2(n));
    DivThenHalve(x, 2 * Pow2(n));
    DivThenHalve(x / 2, Pow2(n));
  }

  lemma NoBits(x: nat)
    ensures Shr(x, 0) == x && Low(x, 0) == 0
  {
    assert Pow2(0) == 1;
  }

  lemma AllLow(x: nat, n: nat)
    requires x < Pow2(n)
    ensures Shr(x, n) == 0 && Low(x, n) == x
  {
    DivUnique(x, Pow2(n), 0, x);
  }

  /** Rounding down to a multiple of `2^n`. */
  function Floor(x: nat, n: nat): (f: nat)
    ensures f <= x < f + Pow2(n) && Multiple(f, n)
    ensures x == f + Low(x, n)
    ensures f == Shl(Shr(x, n), n)
  {
    var m := Pow2(n);
    RoundDown(x, m);
    x / m * m
  }

  lemma FloorOfMultiple(x: nat, n: nat)
    ensures Multiple(x, n) <==> Low(x, n) == 0
    ensures Multiple(x, n) <==> Floor(x, n) == x
  {
  }

  /** Distinct multiples of `2^n` are at least that far apart. */
  lemma MultiplesApart(a: int, b: int, n: nat)
    requires Multiple(a, n) && Multiple(b, n) && a < b
    ensures a + Pow2(n) <= b
  {
    var m := Pow2(n);
    assert a == (a / m) * m && b == (b / m) * m;
    assert (b / m - a / m) * m == b - a;
    MultipleSize(b / m - a / m, m);
  }

  /** The only multiple of `2^n` within `2^n` below `x` is its floor. */
  lemma FloorUnique(x: nat, n: nat, f: nat)
    requires Multiple(f, n) && f <= x < f + Pow2(n)
    ensures Floor(x, n) == f
  {
    if Floor(x, n) < f {
      MultiplesApart(Floor(x, n), f, n);
    } else if f < Floor(x, n) {
      MultiplesApart(f, Floor(x, n), n);
    }
  }

  lemma NextMultiple(a: int, n: nat)
    requires Multiple(a, n)
    ensures Multiple(a + Pow2(n), n)
  {
    var m := Pow2(n);
    assert a == (a / m) * m;
    DivUnique(a + m, m, a / m + 1, 0);
  }

  /** A multiple of a larger power of two is a multiple of a smaller one. */
  lemma {:induction false} MultipleOfSmaller(x: nat, a: nat, b: nat)
    requires a <= b && Multiple(x, b)
    ensures Multiple(x, a)
    decreases b
  {
    if a < b {
      OneMoreBit(x, b - 1);
      MultipleOfSmaller(x, a, b - 1);
    }
  }

  /** Just below a multiple of `2^(n+1)`, bit `n` is set. */
  lemma BelowMultiple(x: nat, n: nat)
    requires Multiple(x + 1, n + 1)
    ensures BitAt(x, n) == 1
  {
    var m := Pow2(n);
    var q := (x + 1) / (2 * m);
    assert x + 1 == q * (2 * m);
    DivUnique(x, m, 2 * q - 1, m - 1);
  }

  // ----- the bitwise operators on the operands the programs use -----

  /** `x & (1 << n)` isolates bit `n`. */
  lemma {:induction false} AndPow2(x: nat, n: nat)
    ensures And(x, Pow2(n)) == if BitAt(x, n) == 1 then Pow2(n) else 0
  {
    if n == 0 {
      NoBits(x);
      assert Pow2(0) == 1 && And(x / 2, 0) == 0;
    } else {
      HalveBits(x, n - 1);
      AndPow2(x / 2, n - 1);
      var half := Pow2(n - 1);
      assert Pow2(n) == 2 * half && 2 * half / 2 == half;
      assert x > 0 ==> And(x, 2 * half) == 2 * And(x / 2, half);
    }
  }

  /** Where the set bits do not meet, `|` adds. */
  lemma {:induction false} OrDisjoint(x: nat, y: nat, n: nat)
    requires Multiple(x, n) && y < Pow2(n)
    ensures Or(x, y) == x + y
  {
    if x != 0 && y != 0 {
      assert n > 0;
      HalveBits(x, n - 1);
      FloorOfMultiple(x, n);
      FloorOfMultiple(x / 2, n - 1);
      OrDisjoint(x / 2, y / 2, n - 1);
    }
  }

  /** Masking with all but the low `n` of `w` bits rounds down. */
  lemma {:induction false} AndMask(w: nat, n: nat, x: nat)
    requires n <= w && x < Pow2(w)
    ensures Pow2(n) <= Pow2(w)
    ensures And(Pow2(w) - Pow2(n), x) == Floor(x, n)
    decreases w
  {
    Pow2Monotone(n, w);
    if x == 0 {
    } else if n == w {
      AllLow(x, w);
    } else if n == 0 {
      NoBits(x);
      NoBits(x / 2);
      AndMask(w - 1, 0, x / 2);
      assert (Pow2(w) - 1) / 2 == Pow2(w - 1) - Pow2(0);
    } else {
      HalveBits(x, n - 1);
      AndMask(w - 1, n - 1, x / 2);
      assert (Pow2(w) - Pow2(n)) / 2 == Pow2(w - 1) - Pow2(n - 1);
    }
  }
}
