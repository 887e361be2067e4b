/** Powers of two and the bitwise conjunction of unbounded naturals. */
module Bits {

  const U64: nat := 0x1_0000_0000_0000_0000

  /** An unsigned 64-bit result. */
  function Wrap(x: int): (w: nat)
    ensures 0 <= x < U64 ==> w == x
  {
    x % U64
  }

  function Pow2(n: nat): (p: nat)
    ensures p >= 1
  {
    if n == 0 then 1 else 2 * Pow2(n - 1)
  }

  /** a & b. */
  function And(a: nat, b: nat): nat {
    if a == 0 || b == 0 then 0 else (a % 2) * (b % 2) + 2 * And(a / 2, b / 2)
  }

  lemma {:induction false} Pow2Add(m: nat, n: nat)
    ensures Pow2(m + n) == Pow2(m) * Pow2(n)
  {
    if m > 0 {
      Pow2Add(m - 1, n);
      assert Pow2(m + n) == 2 * Pow2(m - 1 + n);
      assert 2 * (Pow2(m - 1) * Pow2(n)) == (2 * Pow2(m - 1)) * Pow2(n);
    }
  }

  lemma Pow2Sizes()
    ensures Pow2(6) == 64 && Pow2(16) == 0x1_0000 && Pow2(32) == 0x1_0000_0000 && Pow2(64) == U64
  {
    assert Pow2(2) == 4 && Pow2(4) == 16 && Pow2(6) == 64;
    Pow2Add(4, 4);
    Pow2Add(8, 8);
    Pow2Add(16, 16);
    Pow2Add(32, 32);
  }

  lemma {:induction false} Pow2Monotone(m: nat, n: nat)
    requires m < n
    ensures 2 * Pow2(m) <= Pow2(n)
  {
    if m + 1 < n {
      Pow2Monotone(m, n - 1);
    }
  }

  lemma MulSign(m: int, d: int)
    requires m > 0
    ensures d >= 1 ==> m * d >= m
    ensures d <= -1 ==> m * d <= -m
  {
  }

  /** Division with remainder has one answer. */
  lemma DivModUnique(a: int, m: int, q: int, r: int)
    requires m > 0 && a == m * q + r && 0 <= r < m
    ensures a / m == q && a % m == r
  {
    var d := a / m - q;
    assert a == m * (a / m) + a % m;
    assert m * d == r - a % m;
    MulSign(m, d);
  }

  lemma ModDouble(a: nat, m: nat)
    requires m > 0
    ensures a % (2 * m) == a % 2 + 2 * ((a / 2) % m)
    ensures a / (2 * m) == (a / 2) / m
  {
    var q, r := (a / 2) / m, (a / 2) % m;
    assert a / 2 == m * q + r;
    assert a == (2 * m) * q + (2 * r + a % 2) by {
      assert 2 * (m * q) == (2 * m) * q;
    }
    DivModUnique(a, 2 * m, q, 2 * r + a % 2);
  }

  lemma AndOdd(a: nat, m: nat)
    requires m > 0
    ensures And(a, 2 * m - 1) == a % 2 + 2 * And(a / 2, m - 1)
  {
    assert (2 * m - 1) % 2 == 1 && (2 * m - 1) / 2 == m - 1;
  }

  /** Masking with the k low ones is the remainder by 2^k. */
  lemma {:induction false} AndLow(a: nat, k: nat)
    ensures And(a, Pow2(k) - 1) == a % Pow2(k)
  {
    if k > 0 {
      var m := Pow2(k - 1);
      AndLow(a / 2, k - 1);
      ModDouble(a, m);
      AndOdd(a, m);
    }
  }

  lemma AndEven(a: nat, b: nat)
    ensures And(a, 2 * b) == 2 * And(a / 2, b)
  {
    assert (2 * b) % 2 == 0 && (2 * b) / 2 == b;
  }

  lemma AndHighStep(a: nat, m: nat, d: nat)
    requires 0 < m && And(a / 2, d) == a / 2 - (a / 2) % m
    ensures And(a, 2 * d) == a - a % (2 * m)
  {
    AndEven(a, d);
    Halve(a, m, And(a / 2, d));
  }

  lemma Halve(a: nat, m: nat, x: int)
    requires 0 < m && x == a / 2 - (a / 2) % m
    ensures 2 * x == a - a % (2 * m)
  {
    ModDouble(a, m);
  }

  lemma AndAll(a: nat, n: nat)
    requires a < Pow2(n)
    ensures And(a, Pow2(n) - 1) == a
  {
    AndLow(a, n);
    DivModUnique(a, Pow2(n), 0, a);
  }

  lemma {:induction false} Pow2NotLess(m: nat, n: nat)
    requires m <= n
    ensures Pow2(m) <= Pow2(n)
  {
    if m < n {
      Pow2Monotone(m, n);
    }
  }

  /** Masking with ones from bit k up to bit n - 1 removes that remainder. */
  lemma {:induction false} AndHigh(a: nat, k: nat, n: nat, d: nat)
    requires k <= n && a < Pow2(n) && d == Pow2(n) - Pow2(k)
    ensures And(a, d) == a - a % Pow2(k)
    decreases k
  {
    if k == 0 {
      AndAll(a, n);
    } else {
      var m, h := Pow2(k - 1), Pow2(n - 1);
      Pow2NotLess(k - 1, n - 1);
      assert d == 2 * (h - m) && a / 2 < h;
      AndHigh(a / 2, k - 1, n - 1, h - m);
      AndHighStep(a, m, h - m);
    }
  }

  /** Testing one bit. */
  lemma {:induction false} AndPow2(k: nat, m: nat)
    ensures And(Pow2(k), m) != 0 <==> (m / Pow2(k)) % 2 == 1
    decreases k
  {
    if k == 0 {
      assert And(1, m) == if m == 0 then 0 else m % 2 + 2 * And(0, m / 2);
    } else {
      AndPow2(k - 1, m / 2);
      ModDouble(m, Pow2(k - 1));
      assert Pow2(k) / 2 == Pow2(k - 1) && Pow2(k) % 2 == 0;
    }
  }

  function TrailingOnes(a: nat): nat {
    if a % 2 == 0 then 0 else 1 + TrailingOnes(a / 2)
  }

  lemma {:induction false} OnesBounded(a: nat, n: nat)
    requires a < Pow2(n)
    ensures TrailingOnes(a) <= n
  {
    if a % 2 != 0 {
      OnesBounded(a / 2, n - 1);
    }
  }

  /** The k low bits are all ones exactly up to the count of trailing ones. */
  lemma {:induction false} OnesMask(a: nat, k: nat)
    ensures And(a, Pow2(k) - 1) == Pow2(k) - 1 <==> k <= TrailingOnes(a)
    decreases k
  {
    AndLow(a, k);
    OnesRemainder(a, k);
  }

  lemma {:induction false} OnesRemainder(a: nat, k: nat)
    ensures a % Pow2(k) == Pow2(k) - 1 <==> k <= TrailingOnes(a)
    decreases k
  {
    if k > 0 {
      ModDouble(a, Pow2(k - 1));
      OnesRemainder(a / 2, k - 1);
    }
  }
}
