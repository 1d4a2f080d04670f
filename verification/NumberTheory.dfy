/** The number theory behind the field constants: Fermat's theorem, a bound on
    the roots of a polynomial, elements of exact two-power order, and a
    primality certificate. */
module NumberTheory {
  import opened Arithmetic
  import opened Sums

  ghost predicate Prime(p: int) {
    p >= 2 && forall d | 1 < d < p :: p % d != 0
  }

  /** Euclid's lemma for a factor already reduced below the prime. */
  lemma {:induction false} EuclidReduced(p: int, m: int, b: int)
    requires Prime(p) && 0 < m < p
    requires (m * b) % p == 0
    ensures b % p == 0
    decreases m
  {
    if m > 1 {
      var q, r := p / m, p % m;
      assert p == q * m + r;
      RemainderMultiple(p, m, b, q, r);
      EuclidReduced(p, r, b);
    }
  }

  lemma RemainderMultiple(p: int, m: int, b: int, q: int, r: int)
    requires p > 0 && p == q * m + r && (m * b) % p == 0
    ensures (r * b) % p == 0
  {
    var t := (m * b) / p;
    assert m * b == t * p;
    Associate(q, m, b);
    Associate(q, t, p);
    Distribute(p, q * m, b);
    Distribute(b, q * t, p);
    Commute(p, b);
    DivModUnique(r * b, b - q * t, 0, p);
  }

  lemma Distribute(a: int, b: int, c: int)
    ensures (a - b) * c == a * c - b * c
  {
  }

  lemma Euclid(p: int, a: int, b: int)
    requires Prime(p)
    requires (a * b) % p == 0 && a % p != 0
    ensures b % p == 0
  {
    ModMul(a, b, p);
    EuclidReduced(p, a % p, b);
  }

  // ----- Fermat's theorem -----

  function Residues(p: nat): (s: seq<int>)
    requires p >= 1
  {
    seq(p - 1, i => i + 1)
  }

  function Multiples(a: int, p: nat): (s: seq<int>)
    requires p >= 1
  {
    seq(p - 1, i => (a * (i + 1)) % p)
  }

  lemma UnitMultiple(a: int, p: nat, i: int)
    requires Prime(p) && a % p != 0 && 0 < i < p
    ensures 1 <= (a * i) % p < p
  {
    if (a * i) % p == 0 { Euclid(p, a, i); }
  }

  lemma UnitMultiplesDiffer(a: int, p: nat, i: int, j: int)
    requires Prime(p) && a % p != 0 && 0 < i < j < p
    ensures (a * i) % p != (a * j) % p
  {
    if (a * i) % p == (a * j) % p {
      ModEqDiff(a * j, a * i, p);
      Distribute(j, i, a);
      Commute(a, j);
      Commute(a, i);
      Commute(a, j - i);
      Euclid(p, a, j - i);
    }
  }

  /** Multiplication by a unit permutes the nonzero residues. */
  lemma MultiplesPermute(a: int, p: nat)
    requires Prime(p) && a % p != 0
    ensures Distinct(Multiples(a, p))
    ensures forall x :: x in Multiples(a, p) <==> x in Residues(p)
  {
    var s := Multiples(a, p);
    forall i | 0 <= i < p - 1 ensures 1 <= s[i] < p { UnitMultiple(a, p, i + 1); }
    forall i, j | 0 <= i < j < p - 1 ensures s[i] != s[j] { UnitMultiplesDiffer(a, p, i + 1, j + 1); }
    SameResidues(s, p);
  }

  lemma SameResidues(s: seq<int>, p: nat)
    requires p >= 1 && |s| == p - 1 && Distinct(s)
    requires forall i | 0 <= i < p - 1 :: 1 <= s[i] < p
    ensures forall x :: x in s <==> x in Residues(p)
  {
    var t := seq(p - 1, i requires 0 <= i < p - 1 => s[i] - 1);
    PermutesHitsAll(t, p - 1);
    forall x ensures x in s <==> x in Residues(p) {
      if x in Residues(p) {
        assert x - 1 in t;
        var i :| 0 <= i < p - 1 && t[i] == x - 1;
        assert s[i] == x;
      }
      if x in s { assert Residues(p)[x - 1] == x; }
    }
  }

  ghost function Product(s: seq<int>): int { Fold(Multiplicative, x => x, s) }

  lemma {:induction false} ProductIsUnit(s: seq<int>, p: int)
    requires Prime(p)
    requires forall i | 0 <= i < |s| :: s[i] % p != 0
    ensures Product(s) % p != 0
  {
    if s != [] {
      ProductIsUnit(s[1..], p);
      if Product(s) % p == 0 { Euclid(p, s[0], Product(s[1..])); }
    }
  }

  lemma {:induction false} ProductScaled(a: int, p: int, s: seq<int>, t: seq<int>)
    requires p > 0 && |s| == |t|
    requires forall i | 0 <= i < |s| :: t[i] % p == (a * s[i]) % p
    ensures Product(t) % p == (Pow(a, |s|) * Product(s)) % p
  {
    if s != [] {
      ProductScaled(a, p, s[1..], t[1..]);
      var u, v := Product(s[1..]), Product(t[1..]);
      ModMul(t[0], v, p);
      ModMul(a * s[0], Pow(a, |s| - 1) * u, p);
      assert (a * s[0]) * (Pow(a, |s| - 1) * u) == (a * Pow(a, |s| - 1)) * (s[0] * u);
    }
  }

  /** A unit may be cancelled from a congruence. */
  lemma CancelUnit(u: int, x: int, p: nat)
    requires Prime(p) && u % p != 0
    requires (x * u) % p == u % p
    ensures x % p == 1
  {
    ModEqDiff(x * u, u, p);
    assert u * (x - 1) == x * u - u;
    Euclid(p, u, x - 1);
    ModEqDiff(x, 1, p);
  }

  lemma Fermat(a: int, p: nat)
    requires Prime(p) && a % p != 0
    ensures Pow(a, p - 1) % p == 1
  {
    hide Multiples, Pow, Fold;
    var s, t := Residues(p), Multiples(a, p);
    MultiplesPermute(a, p);
    FoldSameElements(Multiplicative, x => x, s, t);
    MultiplesScaled(a, p);
    ProductIsUnit(s, p);
    CancelUnit(Product(s), Pow(a, p - 1), p);
  }

  lemma {:induction false} MultiplesScaled(a: int, p: nat)
    requires p >= 1
    ensures Product(Multiples(a, p)) % p == (Pow(a, p - 1) * Product(Residues(p))) % p
  {
    hide Pow, Product;
    ProductScaled(a, p, Residues(p), Multiples(a, p));
  }

  /** Modulo a prime, one has only the two obvious square roots. */
  lemma SquareRootsOfOne(x: int, p: nat)
    requires Prime(p)
    requires (x * x) % p == 1
    ensures x % p == 1 || x % p == p - 1
  {
    ModEqDiff(x * x, 1, p);
    DifferenceOfSquares(x);
    if (x - 1) % p != 0 { Euclid(p, x - 1, x + 1); }
    OneOrMinusOne(x, p);
  }

  lemma OneOrMinusOne(x: int, p: int)
    requires p > 1
    ensures (x - 1) % p == 0 <==> x % p == 1
    ensures (x + 1) % p == 0 <==> x % p == p - 1
  {
    ModEqDiff(x, 1, p);
    ModEqDiff(x, -1, p);
    MinusOne(p);
  }

  lemma DifferenceOfSquares(x: int)
    ensures (x - 1) * (x + 1) == x * x - 1
  {
  }

  lemma MinusOne(p: int)
    requires p > 1
    ensures (-1) % p == p - 1
  {
    DivModUnique(-1, -1, p - 1, p);
  }

  // ----- A polynomial has no more roots than its degree -----

  /** Little-endian coefficients, evaluated by Horner's rule. */
  function Eval(c: seq<int>, x: int): int {
    if c == [] then 0 else c[0] + x * Eval(c[1..], x)
  }

  function AddScaled(a: seq<int>, r: int, b: seq<int>): seq<int> {
    seq(|a|, i requires 0 <= i < |a| => a[i] + r * At(b, i))
  }

  lemma {:induction false} EvalAddScaled(a: seq<int>, r: int, b: seq<int>, x: int)
    requires |b| <= |a|
    ensures Eval(AddScaled(a, r, b), x) == Eval(a, x) + r * Eval(b, x)
  {
    if b == [] {
      assert AddScaled(a, r, b) == a;
    } else {
      EvalAddScaled(a[1..], r, b[1..], x);
      assert AddScaled(a, r, b)[1..] == AddScaled(a[1..], r, b[1..]);
      HornerLinear(a[0], b[0], r, x, Eval(a[1..], x), Eval(b[1..], x));
    }
  }

  lemma HornerLinear(a: int, b: int, r: int, x: int, u: int, v: int)
    ensures (a + r * b) + x * (u + r * v) == (a + x * u) + r * (b + x * v)
  {
    assert x * (u + r * v) == x * u + r * (x * v);
    assert r * (b + x * v) == r * b + r * (x * v);
  }

  /** The quotient of `c(X) - c(r)` by `X - r`. */
  function Quotient(c: seq<int>, r: int): (q: seq<int>)
    requires c != []
    ensures |q| == |c| - 1
  {
    if |c| == 1 then [] else AddScaled(c[1..], r, Quotient(c[1..], r))
  }

  lemma {:induction false} QuotientLeading(c: seq<int>, r: int)
    requires |c| >= 2
    ensures Quotient(c, r)[|c| - 2] == c[|c| - 1]
  {
    assert At(Quotient(c[1..], r), |c| - 2) == 0;
    assert r * 0 == 0;
  }

  lemma {:induction false} QuotientDivides(c: seq<int>, r: int, x: int)
    requires c != []
    ensures Eval(c, x) - Eval(c, r) == (x - r) * Eval(Quotient(c, r), x)
  {
    if |c| > 1 {
      var q := Quotient(c[1..], r);
      QuotientDivides(c[1..], r, x);
      EvalAddScaled(c[1..], r, q, x);
      SyntheticStep(x, r, Eval(c[1..], x), Eval(c[1..], r), Eval(q, x));
    } else {
      assert c[1..] == [];
    }
  }

  lemma SyntheticStep(x: int, r: int, u: int, v: int, w: int)
    requires u - v == (x - r) * w
    ensures x * u - r * v == (x - r) * (u + r * w)
  {
    assert (x - r) * (u + r * w) == (x - r) * u + r * ((x - r) * w);
    assert r * (u - v) == r * u - r * v;
    assert (x - r) * u == x * u - r * u;
  }

  /** Another root of `c` is a root of the quotient by a first root. */
  lemma {:induction false} OtherRoot(p: nat, c: seq<int>, r: int, x: int)
    requires Prime(p) && c != [] && 0 <= r < p && 0 <= x < p && x != r
    requires Eval(c, x) % p == 0 && Eval(c, r) % p == 0
    ensures Eval(Quotient(c, r), x) % p == 0
  {
    hide Eval, Prime, Quotient;
    QuotientDivides(c, r, x);
    ModEqDiff(Eval(c, x), Eval(c, r), p);
    ModSmall(x, p);
    ModSmall(r, p);
    ModEqDiff(x, r, p);
    Euclid(p, x - r, Eval(Quotient(c, r), x));
  }

  lemma {:induction false} RootBound(p: nat, c: seq<int>, roots: seq<int>)
    requires Prime(p) && c != [] && c[|c| - 1] % p != 0
    requires Distinct(roots)
    requires forall i | 0 <= i < |roots| :: 0 <= roots[i] < p && Eval(c, roots[i]) % p == 0
    ensures |roots| < |c|
    decreases |roots|
  {
    if roots != [] {
      var r := roots[0];
      if |c| == 1 {
        ConstantHasNoRoot(p, c, r);
      } else {
        var rest := roots[1..];
        forall i | 0 <= i < |rest| ensures Eval(Quotient(c, r), rest[i]) % p == 0 {
          OtherRoot(p, c, r, rest[i]);
        }
        QuotientLeading(c, r);
        RootBound(p, Quotient(c, r), rest);
      }
    }
  }

  lemma {:induction false} ConstantHasNoRoot(p: nat, c: seq<int>, r: int)
    requires p > 0 && |c| == 1 && c[0] % p != 0
    ensures Eval(c, r) % p != 0
  {
    assert c[1..] == [];
    assert Eval(c, r) == c[0] + r * 0;
  }

  function Monomial(m: nat): (c: seq<int>)
    ensures |c| == m + 1 && c[m] == 1
  {
    if m == 0 then [1] else [0] + Monomial(m - 1)
  }

  lemma {:induction false} EvalMonomial(m: nat, x: int)
    ensures Eval(Monomial(m), x) == Pow(x, m)
  {
    if m == 0 {
      assert Monomial(0)[1..] == [];
      assert Eval(Monomial(0), x) == 1 + x * 0;
    } else {
      EvalMonomial(m - 1, x);
      assert Monomial(m)[1..] == Monomial(m - 1);
    }
  }

  ghost predicate NonResidue(x: int, p: nat)
    requires p >= 1
  {
    1 <= x < p && Pow(x, (p - 1) / 2) % p != 1
  }

  /** `X^m - 1`. */
  function EulerPolynomial(m: nat): (c: seq<int>)
    requires m >= 1
    ensures |c| == m + 1 && c[m] == 1
  {
    [-1] + Monomial(m - 1)
  }

  lemma {:induction false} EulerPolynomialRoot(m: nat, y: int, p: nat)
    requires m >= 1 && p > 1 && Pow(y, m) % p == 1
    ensures Eval(EulerPolynomial(m), y) % p == 0
  {
    assert EulerPolynomial(m)[1..] == Monomial(m - 1);
    EvalMonomial(m - 1, y);
    assert Eval(EulerPolynomial(m), y) == Pow(y, m) - 1;
    hide *;
    ModEqDiff(Pow(y, m), 1, p);
    ModSmall(1, p);
  }

  /** Not every residue satisfies Euler's criterion: `X^((p-1)/2) - 1` has too
      few roots. */
  lemma NonResidueExists(p: nat)
    requires Prime(p) && p > 2
    ensures exists x :: NonResidue(x, p)
  {
    if forall y :: !NonResidue(y, p) {
      var m := (p - 1) / 2;
      var c := EulerPolynomial(m);
      var roots := Residues(p);
      forall i | 0 <= i < |roots| ensures Eval(c, roots[i]) % p == 0 {
        assert !NonResidue(roots[i], p);
        EulerPolynomialRoot(m, roots[i], p);
      }
      RootBound(p, c, roots);
      assert false;
    }
  }

  /** Euler's criterion takes only the values `1` and `-1`. */
  lemma EulerValues(x: int, p: nat)
    requires Prime(p) && p > 2 && x % p != 0
    ensures var h := Pow(x, (p - 1) / 2) % p; h == 1 || h == p - 1
  {
    OddPrime(p);
    var m := (p - 1) / 2;
    var h := Pow(x, m);
    PowAdd(x, m, m);
    Fermat(x, p);
    SquareRootsOfOne(h, p);
  }

  lemma OddPrime(p: nat)
    requires Prime(p) && p > 2
    ensures p % 2 == 1
  {
    assert p % 2 != 0;
  }

  // ----- Elements of exact two-power order -----

  ghost predicate HasOrder(r: int, n: nat, p: nat)
    requires p >= 1
  {
    && n >= 1
    && Pow(r, n) % p == 1
    && forall e: nat | 0 < e < n :: Pow(r, e) % p != 1
  }

  lemma MinusOneTimes(h: int, w: int, p: nat)
    requires p > 2 && h % p == p - 1
    ensures Congruent(h * w, -w, p)
  {
    MinusOne(p);
    CongruentProduct(h, -1, w, w, p);
    assert -1 * w == -w;
  }

  lemma MinusOneSquared(h: int, p: nat)
    requires p > 2 && h % p == p - 1
    ensures (h * h) % p == 1
  {
    MinusOneTimes(h, h, p);
    MinusOneTimes(h, -1, p);
    assert h * -1 == -h;
    ModSmall(1, p);
  }

  lemma MinusOneCubed(h: int, w: int, p: nat)
    requires p > 2 && h % p == p - 1 && w % p == p - 1
    ensures (h * (h * w)) % p == p - 1
  {
    MinusOneSquared(h, p);
    CongruentProduct(h * h, 1, w, w, p);
    Associate(h, h, w);
  }

  lemma {:induction false} PowMinusOneOdd(h: int, e: nat, p: nat)
    requires p > 2 && h % p == p - 1 && e % 2 == 1
    ensures Pow(h, e) % p == p - 1
    decreases e
  {
    if e > 1 {
      PowMinusOneOdd(h, e - 2, p);
      assert Pow(h, e - 1) == h * Pow(h, e - 2);
      MinusOneCubed(h, Pow(h, e - 2), p);
    } else {
      assert Pow(h, 1) == h * Pow(h, 0);
    }
  }

  lemma {:induction false} NotOneBelowOrder(r: int, s: nat, e: nat, p: nat)
    requires p > 2 && s >= 1
    requires Pow(r, Pow2(s - 1)) % p == p - 1
    requires 0 < e < Pow2(s)
    ensures Pow(r, e) % p != 1
    decreases s
  {
    if e % 2 == 1 {
      if Pow(r, e) % p == 1 {
        var k := Pow2(s - 1);
        PowMul(r, e, k);
        PowMul(r, k, e);
        assert e * k == k * e;
        PowMod(Pow(r, e), k, p);
        PowOne(k);
        PowMinusOneOdd(Pow(r, k), e, p);
        assert false;
      }
    } else {
      assert s >= 2;
      PowMul(r, 2, e / 2);
      PowMul(r, 2, Pow2(s - 2));
      assert Pow(r, 2) == r * (r * 1) by { assert Pow(r, 1) == r * Pow(r, 0); }
      NotOneBelowOrder(r * r, s - 1, e / 2, p);
    }
  }

  lemma {:induction false} TwoPowerOrder(r: int, s: nat, p: nat)
    requires p > 2 && s >= 1
    requires Pow(r, Pow2(s - 1)) % p == p - 1
    ensures HasOrder(r, Pow2(s), p)
  {
    var h := Pow(r, Pow2(s - 1));
    PowAdd(r, Pow2(s - 1), Pow2(s - 1));
    MinusOneSquared(h, p);
    forall e: nat | 0 < e < Pow2(s) ensures Pow(r, e) % p != 1 {
      NotOneBelowOrder(r, s, e, p);
    }
  }

  // ----- A primality certificate -----

  lemma {:induction false} ModThroughDivisor(a: int, n: int, q: int)
    requires q > 0 && n > 0 && n % q == 0
    ensures (a % n) % q == a % q
  {
    var k, t := a / n, n / q;
    assert a == a % n + (k * t) * q by {
      assert a == k * n + a % n && n == t * q;
      assert k * (t * q) == (k * t) * q;
    }
    ModShift(a % n, k * t, q);
  }

  ghost predicate NoDivisorBelow(n: nat, bound: nat) { forall d | 1 < d < bound :: n % d != 0 }

  lemma NextDivisor(n: nat, from: nat)
    requires 2 <= from <= n && NoDivisorBelow(n, from) && n % from != 0
    ensures NoDivisorBelow(n, from + 1) && from < n
  {
    if from == n { ModSmall(0, n); }
  }

  lemma LeastIsPrime(n: nat, q: nat)
    requires q >= 2 && n > 0 && n % q == 0 && NoDivisorBelow(n, q)
    ensures Prime(q)
  {
    forall d | 1 < d < q ensures q % d != 0 {
      if q % d == 0 { ThroughDivisor(n, q, d); }
    }
  }

  lemma ThroughDivisor(n: nat, q: nat, d: nat)
    requires q > 0 && d > 0 && n % q == 0 && q % d == 0
    ensures n % d == 0
  {
    ModThroughDivisor(n, q, d);
    ModSmall(0, d);
  }

  /** The least divisor above one is prime and at most the square root of a
      composite number. */
  lemma {:induction false} LeastDivisor(n: nat, from: nat) returns (q: nat)
    requires n >= 2 && 2 <= from <= n && NoDivisorBelow(n, from)
    ensures Prime(q) && n % q == 0
    ensures q == n || q * q <= n
    decreases n - from
  {
    hide Prime, NoDivisorBelow;
    if n % from == 0 {
      q := from;
      LeastIsPrime(n, q);
      if q < n { ProperDivisor(n, q); }
    } else {
      NextDivisor(n, from);
      q := LeastDivisor(n, from + 1);
    }
  }

  lemma ProperDivisor(n: nat, q: nat)
    requires 2 <= q < n && n % q == 0 && NoDivisorBelow(n, q)
    ensures q * q <= n
  {
    var t := n / q;
    assert n == t * q;
    if t <= 1 { MulMono(t, 1, q); }
    Commute(t, q);
    DivModUnique(n, q, 0, t);
    MulMono(q, t, q);
  }

  /** An element whose `2^(s-1)`-th power is minus one needs `2^s < q`. */
  lemma TwoPowerFitsPrime(q: nat, h: int, s: nat)
    requires Prime(q) && q > 2 && s >= 1
    requires Pow(h, Pow2(s - 1)) % q == q - 1
    ensures Pow2(s) < q
  {
    hide Pow, Pow2, Prime;
    TwoPowerOrder(h, s, q);
    Pow2Positive(s - 1);
    if h % q == 0 { ZeroPower(h, Pow2(s - 1), q); }
    Fermat(h, q);
  }

  lemma {:induction false} ZeroPower(h: int, e: nat, q: nat)
    requires q > 1 && e > 0 && h % q == 0
    ensures Pow(h, e) % q == 0
  {
    PowMod(h, e, q);
    assert Pow(0, e) == 0 * Pow(0, e - 1);
  }

  lemma MinusOneThroughDivisor(k: int, n: nat, q: nat)
    requires q > 1 && n > 0 && n % q == 0 && k % n == n - 1
    ensures k % q == q - 1
  {
    OneOrMinusOne(k, n);
    DivisorOfMultiple(k + 1, n, q);
    OneOrMinusOne(k, q);
  }

  lemma DivisorOfMultiple(a: int, n: int, q: int)
    requires q > 0 && n > 0 && n % q == 0 && a % n == 0
    ensures a % q == 0
  {
    ModThroughDivisor(a, n, q);
  }

  /** If some power of `h` with exponent `2^(s-1)` is minus one modulo `n` and
      `4^s > n`, then `n` is prime: a prime factor at most the square root would
      need an element of order `2^s`, which is too large for it. */
  lemma TwoPowerCertificate(n: nat, h: int, s: nat)
    requires n > 2 && n % 2 == 1 && s >= 1
    requires Pow(h, Pow2(s - 1)) % n == n - 1
    requires Pow2(s) * Pow2(s) > n
    ensures Prime(n)
  {
    var q := LeastDivisor(n, 2);
    if q != n {
      MinusOneThroughDivisor(Pow(h, Pow2(s - 1)), n, q);
      TwoPowerFitsPrime(q, h, s);
      MulMono(Pow2(s), q, Pow2(s));
      MulMono(Pow2(s), q, q);
      assert false;
    }
  }
}
