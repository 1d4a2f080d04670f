/** Machine-width constants, powers, and the modular identities every other
    module leans on. Residues are canonical integers in `0 .. p`. */
module Arithmetic {
  const TWO32 := 0x1_0000_0000
  const TWO64 := 0x1_0000_0000_0000_0000
  const TWO128 := TWO64 * TWO64

  function Min(a: int, b: int): int { if a <= b then a else b }

  function Max(a: int, b: int): int { if a >= b then a else b }

  function Pow(b: int, e: nat): int {
    if e == 0 then 1 else b * Pow(b, e - 1)
  }

  function Pow2(e: nat): nat {
    if e == 0 then 1 else 2 * Pow2(e - 1)
  }

  // ----- Multiplication -----

  lemma MulMono(a: int, b: int, c: int)
    requires a <= b && 0 <= c
    ensures a * c <= b * c
  {
    assert (b - a) * c >= 0;
  }

  /** Cell `row * width + col` of a row-major grid lies inside the grid. */
  lemma CellBound(row: int, rows: int, col: int, width: int)
    requires 0 <= row < rows && 0 <= col < width
    ensures 0 <= row * width + col < rows * width
    ensures (row + 1) * width == row * width + width <= rows * width
  {
    MulMono(0, row, width);
    MulMono(row + 1, rows, width);
  }

  lemma Associate(a: int, b: int, c: int)
    ensures (a * b) * c == a * (b * c)
  {
  }

  // ----- Division and remainder -----

  lemma DivModUnique(a: int, q: int, r: int, p: int)
    requires 0 <= r < p
    requires a == q * p + r
    ensures a / p == q && a % p == r
  {
    var d := q - a / p;
    assert a == (a / p) * p + a % p;
    assert d * p == a % p - r by {
      assert d * p == q * p - (a / p) * p;
    }
    if d >= 1 {
      MulMono(1, d, p);
    } else if d <= -1 {
      MulMono(d, -1, p);
    }
  }

  lemma ModShift(a: int, k: int, p: int)
    requires p > 0
    ensures (a + k * p) % p == a % p
  {
    assert a + k * p == (a / p + k) * p + a % p by {
      assert a == (a / p) * p + a % p;
      assert (a / p + k) * p == (a / p) * p + k * p;
    }
    DivModUnique(a + k * p, a / p + k, a % p, p);
  }

  lemma ModAdd(a: int, b: int, p: int)
    requires p > 0
    ensures (a % p + b % p) % p == (a + b) % p
    ensures (a % p + b) % p == (a + b) % p
    ensures (a + b % p) % p == (a + b) % p
  {
    var i, j := a / p, b / p;
    assert a == i * p + a % p && b == j * p + b % p;
    ModShift(a % p + b, i, p);
    ModShift(a + b % p, j, p);
    ModShift(a % p + b % p, j, p);
  }

  lemma ModSub(a: int, b: int, p: int)
    requires p > 0
    ensures (a % p - b % p) % p == (a - b) % p
  {
    var i, j := a / p, b / p;
    assert a == i * p + a % p && b == j * p + b % p;
    assert a % p - b % p + (i - j) * p == a - b by {
      assert (i - j) * p == i * p - j * p;
    }
    ModShift(a % p - b % p, i - j, p);
  }

  lemma ModMul(a: int, b: int, p: int)
    requires p > 0
    ensures ((a % p) * (b % p)) % p == (a * b) % p
    ensures ((a % p) * b) % p == (a * b) % p
    ensures (a * (b % p)) % p == (a * b) % p
  {
    ModMulLeft(a, b, p);
    ModMulRight(a, b, p);
    ModMulRight(a % p, b, p);
  }

  lemma ModMulRight(a: int, b: int, p: int)
    requires p > 0
    ensures (a * (b % p)) % p == (a * b) % p
  {
    ModMulLeft(b, a, p);
    Commute(a, b);
    Commute(a, b % p);
  }

  lemma Commute(a: int, b: int)
    ensures a * b == b * a
  {
  }

  lemma ModMulLeft(a: int, b: int, p: int)
    requires p > 0
    ensures ((a % p) * b) % p == (a * b) % p
  {
    var i := a / p;
    assert a == i * p + a % p;
    assert a * b == (a % p) * b + (i * b) * p by {
      assert a * b == (i * p + a % p) * b == (i * p) * b + (a % p) * b;
      assert (i * p) * b == (i * b) * p;
    }
    ModShift((a % p) * b, i * b, p);
  }

  lemma ModSmall(a: int, p: int)
    requires 0 <= a < p
    ensures a % p == a
  {
  }

  /** Congruence is congruence of differences. */
  lemma ModEqDiff(a: int, b: int, p: int)
    requires p > 0
    ensures a % p == b % p <==> (a - b) % p == 0
  {
    ModSub(a, b, p);
    if (a - b) % p == 0 {
      var k := (a - b) / p;
      assert a == b + k * p;
      ModShift(b, k, p);
    }
  }

  ghost predicate Congruent(a: int, b: int, p: int)
    requires p > 0
  {
    a % p == b % p
  }

  lemma CongruentSum(a: int, b: int, c: int, d: int, p: int)
    requires p > 0 && Congruent(a, b, p) && Congruent(c, d, p)
    ensures Congruent(a + c, b + d, p)
  {
    ModAdd(a, c, p);
    ModAdd(b, d, p);
  }

  lemma CongruentProduct(a: int, b: int, c: int, d: int, p: int)
    requires p > 0 && Congruent(a, b, p) && Congruent(c, d, p)
    ensures Congruent(a * c, b * d, p)
  {
    ModMul(a, c, p);
    ModMul(b, d, p);
  }

  lemma CongruentResidue(a: int, p: int)
    requires p > 0
    ensures Congruent(a % p, a, p) && Congruent(a, a % p, p)
  {
    ModAdd(a, 0, p);
  }

  // ----- Powers -----

  lemma {:induction false} PowAdd(b: int, m: nat, n: nat)
    ensures Pow(b, m + n) == Pow(b, m) * Pow(b, n)
  {
    if m > 0 {
      PowAdd(b, m - 1, n);
      Associate(b, Pow(b, m - 1), Pow(b, n));
    }
  }

  lemma {:induction false} PowMul(b: int, m: nat, n: nat)
    ensures m * n >= 0
    ensures Pow(b, m * n) == Pow(Pow(b, m), n)
  {
    if n == 0 {
      assert m * n == 0;
    } else {
      PowMul(b, m, n - 1);
      assert m * n == m * (n - 1) + m;
      PowAdd(b, m * (n - 1), m);
    }
  }

  lemma {:induction false} PowMod(b: int, e: nat, p: int)
    requires p > 0
    ensures Pow(b % p, e) % p == Pow(b, e) % p
  {
    if e > 0 {
      PowMod(b, e - 1, p);
      ModMul(b, Pow(b % p, e - 1), p);
      ModMul(b, Pow(b, e - 1), p);
    }
  }

  lemma {:induction false} PowOne(e: nat)
    ensures Pow(1, e) == 1
  {
    if e > 0 { PowOne(e - 1); }
  }

  lemma {:induction false} Pow2Add(m: nat, n: nat)
    ensures Pow2(m + n) == Pow2(m) * Pow2(n)
  {
    if m > 0 {
      Pow2Add(m - 1, n);
      Associate(2, Pow2(m - 1), Pow2(n));
    }
  }

  lemma {:induction false} Pow2Positive(e: nat)
    ensures Pow2(e) >= 1
  {
    if e > 0 { Pow2Positive(e - 1); }
  }

  lemma {:induction false} Pow2Mono(m: nat, n: nat)
    requires m <= n
    ensures Pow2(m) <= Pow2(n)
    ensures m < n ==> Pow2(m) < Pow2(n)
  {
    if m < n {
      Pow2Positive(n - 1);
      Pow2Mono(m, n - 1);
    }
  }

  lemma {:induction false} Pow2IsPow(e: nat)
    ensures Pow(2, e) == Pow2(e)
  {
    if e > 0 { Pow2IsPow(e - 1); }
  }
}
