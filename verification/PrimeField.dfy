/** Compile-time field constants: binary exponentiation, the deterministic
    Miller-Rabin check, the Montgomery constant, the two-adic root and the roots
    of unity derived from it, and Montgomery reduction itself. */
module PrimeField {
  import opened Arithmetic
  import opened NumberTheory

  datatype RootResult = Root(value: nat) | UnsupportedTransformLength(length: nat)

  // ----- Splitting off the power of two -----

  function Twos(n: nat): nat
    requires n > 0
  {
    if n % 2 == 1 then 0 else 1 + Twos(n / 2)
  }

  function OddPart(n: nat): (r: nat)
    requires n > 0
    ensures r % 2 == 1
  {
    if n % 2 == 1 then n else OddPart(n / 2)
  }

  lemma {:induction false} SplitTwos(n: nat)
    requires n > 0
    ensures n == Pow2(Twos(n)) * OddPart(n)
  {
    if n % 2 == 0 {
      SplitTwos(n / 2);
      var k, o := Pow2(Twos(n / 2)), OddPart(n / 2);
      assert 2 * (k * o) == (2 * k) * o;
    }
  }

  /** `n >> trailing_zeros(n)` together with the shift distance. */
  method TrailingZeros(n: nat) returns (shifts: nat, odd: nat)
    requires n > 0
    ensures shifts == Twos(n) && odd == OddPart(n)
  {
    shifts, odd := 0, n;
    while odd % 2 == 0
      invariant odd > 0
      invariant Twos(n) == shifts + Twos(odd) && OddPart(n) == OddPart(odd)
      decreases odd
    {
      shifts, odd := shifts + 1, odd / 2;
    }
  }

  // ----- Binary exponentiation -----

  lemma {:induction false} SquareStep(base: nat, e: nat, modulus: nat)
    requires modulus > 0
    ensures Pow((base * base) % modulus, e) % modulus == Pow(base, 2 * e) % modulus
  {
    PowMod(base * base, e, modulus);
    PowMul(base, 2, e);
    assert Pow(base, 2) == base * (base * 1) by { assert Pow(base, 1) == base * Pow(base, 0); }
  }

  /** `result * base^exponent` is the value still to be computed. */
  ghost predicate Pending(result: nat, base: nat, exponent: nat, modulus: nat, target: nat)
    requires modulus > 0
  {
    (result * Pow(base, exponent)) % modulus == target
  }

  lemma PowStep(result: nat, base: nat, e: nat, modulus: nat, target: nat)
    requires modulus > 0 && e > 0
    requires Pending(result, base, e, modulus, target)
    ensures e % 2 == 0 ==> Pending(result, (base * base) % modulus, e / 2, modulus, target)
    ensures e % 2 == 1 ==> Pending((result * base) % modulus, (base * base) % modulus, e / 2, modulus, target)
  {
    var next := Pow((base * base) % modulus, e / 2);
    var h := Pow(base, 2 * (e / 2));
    SquareStep(base, e / 2, modulus);
    ModMul(result, next, modulus);
    ModMul(result, h, modulus);
    if e % 2 == 1 {
      ModMul(result * base, next, modulus);
      ModMul(result * base, h, modulus);
      assert Pow(base, e) == base * h;
      assert (result * base) * h == result * (base * h);
    }
  }

  lemma PendingDone(result: nat, base: nat, modulus: nat, target: nat)
    requires modulus > 0 && result < modulus && Pending(result, base, 0, modulus, target)
    ensures result == target
  {
    assert result * 1 == result;
  }

  function MulMod(a: nat, b: nat, modulus: nat): (r: nat)
    requires modulus > 0
    ensures r < modulus
  {
    a * b % modulus
  }

  /** No intermediate product leaves the 64-bit range, so nothing wraps. */
  method ModularPow(base0: nat, exponent0: nat, modulus: nat) returns (result: nat)
    requires 1 < modulus <= TWO32 && base0 < modulus
    ensures result == Pow(base0, exponent0) % modulus
  {
    var base: nat, exponent: nat := base0, exponent0;
    ghost var target := Pow(base0, exponent0) % modulus;
    result := 1;
    while exponent != 0
      invariant result < modulus && base < modulus
      invariant Pending(result, base, exponent, modulus, target)
      decreases exponent
    {
      PowStep(result, base, exponent, modulus, target);
      WideProduct(result, base, modulus);
      WideProduct(base, base, modulus);
      if exponent % 2 == 1 {
        result := MulMod(result, base, modulus);
      }
      exponent := exponent / 2;
      if exponent != 0 {
        base := MulMod(base, base, modulus);
      }
    }
    PendingDone(result, base, modulus, target);
  }

  lemma WideProduct(a: nat, b: nat, modulus: nat)
    requires a < modulus && b < modulus <= TWO32
    ensures 0 <= a * b < TWO64
  {
    MulMono(a, modulus, b);
    MulMono(b, modulus, modulus);
    MulMono(modulus, TWO32, modulus);
    MulMono(modulus, TWO32, TWO32);
  }

  // ----- The primality check -----

  const SMALL_PRIMES: seq<nat> := [2, 3, 5, 7, 11, 13, 17, 19, 23, 29, 31, 37]
  const BASES: seq<nat> := [2, 7, 61]

  /** `base` does not witness that `n` is composite. */
  ghost predicate StrongProbablePrime(n: nat, base: nat)
    requires n > 1
  {
    var odd, shifts := OddPart(n - 1), Twos(n - 1);
    || Pow(base, odd) % n == 1
    || exists i: nat :: i < Max(shifts, 1) && Pow(Pow(base, odd), Pow2(i)) % n == n - 1
  }

  ghost predicate NoSmallDivisor(n: nat) {
    forall i | 0 <= i < |SMALL_PRIMES| :: n % SMALL_PRIMES[i] != 0
  }

  lemma SquareOfPower(h: int, i: nat, n: nat)
    requires n > 0
    ensures MulMod(Chain(h, i, n), Chain(h, i, n), n) == Chain(h, i + 1, n)
  {
    PowAdd(h, Pow2(i), Pow2(i));
    ModMul(Pow(h, Pow2(i)), Pow(h, Pow2(i)), n);
  }

  /** One squaring chain of the check, run until it meets minus one. */
  method PassesBase(value: nat, base: nat, shifts: nat, odd: nat) returns (passed: bool)
    requires 1 < value <= TWO32 && base < value
    requires shifts == Twos(value - 1) && odd == OddPart(value - 1)
    ensures passed <==> StrongProbablePrime(value, base)
  {
    hide StrongProbablePrime, Chain, MulMod, Pow;
    var power := ModularPow(base, odd, value);
    ghost var h := Pow(base, odd);
    ChainStart(h, value);
    if power == 1 {
      ChainVerdict(value, base, shifts, h, 0);
      return true;
    }
    var shift := 0;
    while power != value - 1 && shift + 1 < shifts
      invariant shift <= Max(shifts - 1, 0)
      invariant power < value && power == Chain(h, shift, value)
      invariant forall i: nat | i < shift :: Chain(h, i, value) != value - 1
      decreases shifts - shift
    {
      SquareOfPower(h, shift, value);
      power := MulMod(power, power, value);
      shift := shift + 1;
    }
    ChainVerdict(value, base, shifts, h, shift);
    passed := power == value - 1;
  }

  ghost function Chain(h: int, i: nat, n: nat): nat
    requires n > 0
  {
    Pow(h, Pow2(i)) % n
  }

  lemma ChainStart(h: int, n: nat)
    requires n > 0
    ensures Chain(h, 0, n) == h % n
  {
    assert Pow(h, 1) == h * Pow(h, 0);
  }

  /** The squaring chain meets minus one within its length, starts at one, or
      convicts the number. */
  lemma {:induction false} ChainVerdict(value: nat, base: nat, shifts: nat, h: int, last: nat)
    requires value > 1 && shifts == Twos(value - 1) && h == Pow(base, OddPart(value - 1))
    requires last <= Max(shifts - 1, 0)
    ensures h % value == 1 ==> StrongProbablePrime(value, base)
    ensures Chain(h, last, value) == value - 1 ==> StrongProbablePrime(value, base)
    ensures h % value != 1 && last == Max(shifts - 1, 0) && (forall i: nat | i <= last :: Chain(h, i, value) != value - 1)
            ==> !StrongProbablePrime(value, base)
  {
    assert forall i: nat :: Chain(h, i, value) == Pow(h, Pow2(i)) % value;
  }

  /** The check accepts exactly the listed small primes and the numbers without
      small divisors that no base convicts. */
  method IsPrime(value: nat) returns (r: bool)
    requires value < TWO32
    ensures r <==> value in SMALL_PRIMES || (value > 1 && NoSmallDivisor(value) && forall i | 0 <= i < |BASES| :: BASES[i] < value ==> StrongProbablePrime(value, BASES[i]))
  {
    var index := 0;
    while index < |SMALL_PRIMES|
      invariant 0 <= index <= |SMALL_PRIMES|
      invariant forall i | 0 <= i < index :: value % SMALL_PRIMES[i] != 0
    {
      var prime := SMALL_PRIMES[index];
      if value % prime == 0 {
        SmallPrimesApart(value, index);
        return value == prime;
      }
      index := index + 1;
    }
    assert value !in SMALL_PRIMES;
    if value < 2 { return false; }
    var shifts, odd := TrailingZeros(value - 1);
    var b := 0;
    while b < |BASES|
      invariant 0 <= b <= |BASES|
      invariant forall i | 0 <= i < b :: BASES[i] < value ==> StrongProbablePrime(value, BASES[i])
    {
      var base := BASES[b];
      if base < value {
        var passed := PassesBase(value, base, shifts, odd);
        if !passed { return false; }
      }
      b := b + 1;
    }
    return true;
  }

  /** A number divisible by the listed prime at `k` is on the list only there. */
  lemma SmallPrimesApart(value: nat, k: nat)
    requires k < |SMALL_PRIMES| && value % SMALL_PRIMES[k] == 0
    requires forall i | 0 <= i < k :: value % SMALL_PRIMES[i] != 0
    ensures value in SMALL_PRIMES <==> value == SMALL_PRIMES[k]
  {
  }

  /** Every squaring chain of a prime meets one or minus one. */
  lemma {:induction false} ChainMeetsMinusOne(h: int, s: nat, p: nat)
    requires Prime(p)
    requires Pow(h, Pow2(s)) % p == 1 && h % p != 1
    ensures exists i: nat :: i < s && Pow(h, Pow2(i)) % p == p - 1
    decreases s
  {
    assert Pow(h, 1) == h * Pow(h, 0);
    assert s > 0;
    var w := Pow(h, Pow2(s - 1));
    PowAdd(h, Pow2(s - 1), Pow2(s - 1));
    SquareRootsOfOne(w, p);
    if w % p == 1 { ChainMeetsMinusOne(h, s - 1, p); }
  }

  lemma FullChain(p: nat, base: nat)
    requires Prime(p) && p > 2 && base % p != 0
    ensures Pow(Pow(base, OddPart(p - 1)), Pow2(Twos(p - 1))) % p == 1
  {
    hide Pow;
    SplitTwos(p - 1);
    PowMul(base, OddPart(p - 1), Pow2(Twos(p - 1)));
    Commute(OddPart(p - 1), Pow2(Twos(p - 1)));
    Fermat(base, p);
  }

  lemma PrimeIsStrongProbable(p: nat, base: nat)
    requires Prime(p) && p > 2 && base % p != 0
    ensures StrongProbablePrime(p, base)
  {
    var odd, shifts := OddPart(p - 1), Twos(p - 1);
    var h := Pow(base, odd);
    FullChain(p, base);
    if h % p != 1 { ChainMeetsMinusOne(h, shifts, p); }
  }

  /** The right-hand side of `IsPrime` holds of every prime: no prime is
      rejected. */
  lemma PrimesAreAccepted(p: nat)
    requires Prime(p)
    ensures p in SMALL_PRIMES || (NoSmallDivisor(p) && forall i | 0 <= i < |BASES| :: BASES[i] < p ==> StrongProbablePrime(p, BASES[i]))
  {
    if p !in SMALL_PRIMES {
      forall i | 0 <= i < |SMALL_PRIMES| ensures p % SMALL_PRIMES[i] != 0 {
        assert SMALL_PRIMES[i] in SMALL_PRIMES;
      }
      forall i | 0 <= i < |BASES| && BASES[i] < p ensures StrongProbablePrime(p, BASES[i]) {
        assert p != 2;
        PrimeIsStrongProbable(p, BASES[i]);
      }
    }
  }

  // ----- The Montgomery constant -----

  /** One Newton step squares the error `1 - m * x`. */
  lemma NewtonSquaresError(m: int, x: int)
    ensures 1 - m * (x * (2 - m * x)) == (1 - m * x) * (1 - m * x)
  {
    var y := m * x;
    assert m * (x * (2 - y)) == y * (2 - y);
    assert (1 - y) * (1 - y) == 1 - 2 * y + y * y;
    assert y * (2 - y) == 2 * y - y * y;
  }

  /** `m * x == 1` modulo `2^t`. */
  ghost predicate InverseTo(m: int, x: int, t: nat) {
    exists k :: 1 - m * x == k * Pow2(t)
  }

  lemma NewtonDoubles(m: int, x: int, t: nat)
    requires InverseTo(m, x, t)
    ensures InverseTo(m, x * (2 - m * x), 2 * t)
  {
    var k :| 1 - m * x == k * Pow2(t);
    NewtonSquaresError(m, x);
    Pow2Add(t, t);
    SquareOfProduct(k, Pow2(t));
    assert 1 - m * (x * (2 - m * x)) == (k * k) * Pow2(2 * t);
  }

  lemma SquareOfProduct(k: int, w: int)
    ensures (k * w) * (k * w) == (k * k) * (w * w)
  {
  }

  /** Fewer bits, and any representative modulo `2^32`. */
  lemma InverseToWrapped(m: int, x: int, y: int, t: nat, u: nat)
    requires InverseTo(m, x, t) && u <= t && u <= 32
    requires x % TWO32 == y % TWO32
    ensures InverseTo(m, y, u)
  {
    var k :| 1 - m * x == k * Pow2(t);
    var d := (x - y) / TWO32;
    ModEqDiff(x, y, TWO32);
    assert x == y + d * TWO32;
    Pow2Add(u, t - u);
    Pow2Add(u, 32 - u);
    Word();
    assert m * y == m * x - (m * d) * TWO32 by {
      assert m * (y + d * TWO32) == m * y + (m * d) * TWO32;
    }
    CommonFactor(k, Pow2(t - u), m * d, Pow2(32 - u), Pow2(u));
    assert 1 - m * y == (k * Pow2(t - u) + (m * d) * Pow2(32 - u)) * Pow2(u);
  }

  lemma CommonFactor(k: int, a: int, c: int, b: int, w: int)
    ensures k * (w * a) + c * (w * b) == (k * a + c * b) * w
  {
    assert k * (w * a) == (k * a) * w;
    assert c * (w * b) == (c * b) * w;
  }

  lemma Word()
    ensures Pow2(32) == TWO32
  {
    assert Pow2(8) == 256;
    Pow2Add(8, 8);
    Pow2Add(16, 16);
  }

  /** The low bits that are right after some Newton steps. */
  ghost function CorrectBits(steps: nat): nat { Min(3 * Pow2(steps), 32) }

  lemma FiveDoublings()
    ensures CorrectBits(0) == 3 && CorrectBits(5) == 32
    ensures forall steps: nat :: CorrectBits(steps) <= CorrectBits(steps + 1) <= Min(2 * CorrectBits(steps), 32)
  {
    assert Pow2(5) == 32;
    forall steps: nat ensures CorrectBits(steps) <= CorrectBits(steps + 1) <= Min(2 * CorrectBits(steps), 32) {
      Pow2Positive(steps);
    }
  }

  /** Five wrapping Newton steps from the modulus itself invert it modulo
      `2^32`: an odd square is one modulo eight, and every step doubles the
      correct low bits. */
  method MontgomeryNegInv(modulus: nat) returns (negInv: nat)
    requires modulus < TWO32 && modulus % 2 == 1
    ensures negInv < TWO32
    ensures (modulus * negInv) % TWO32 == TWO32 - 1
  {
    hide InverseTo, Pow2;
    FiveDoublings();
    var inverse: nat := modulus;
    OddSquare(modulus);
    var iteration := 0;
    ghost var bits: nat := 3;
    while iteration < 5
      invariant 0 <= iteration <= 5 && inverse < TWO32
      invariant bits == CorrectBits(iteration)
      invariant InverseTo(modulus, inverse, bits)
    {
      var factor := (2 - (modulus * inverse) % TWO32) % TWO32;
      var next := MulMod(inverse, factor, TWO32);
      NewtonDoubles(modulus, inverse, bits);
      WrappedStep(modulus, inverse);
      ghost var doubled := CorrectBits(iteration + 1);
      InverseToWrapped(modulus, inverse * (2 - modulus * inverse), next, 2 * bits, doubled);
      inverse, bits := next, doubled;
      iteration := iteration + 1;
    }
    negInv := (0 - inverse) % TWO32;
    NegatedInverse(modulus, inverse);
  }

  lemma OddSquare(m: nat)
    requires m % 2 == 1
    ensures InverseTo(m, m, 3)
  {
    var j := m / 2;
    assert m * m == 4 * (j * (j + 1)) + 1 by { assert m == 2 * j + 1; }
    assert (j * (j + 1)) % 2 == 0 by {
      if j % 2 == 0 { ModMul(j, j + 1, 2); } else { ModMul(j, j + 1, 2); }
    }
    var h := (j * (j + 1)) / 2;
    assert Pow2(3) == 8;
    assert 1 - m * m == (-h) * Pow2(3);
  }

  lemma WrappedStep(m: int, x: int)
    ensures (x * ((2 - (m * x) % TWO32) % TWO32)) % TWO32 == (x * (2 - m * x)) % TWO32
  {
    ModSub(2, m * x, TWO32);
    assert (2 - (m * x) % TWO32) % TWO32 == (2 - m * x) % TWO32;
    ModMul(x, 2 - m * x, TWO32);
  }

  lemma NegatedInverse(m: int, x: int)
    requires InverseTo(m, x, 32)
    ensures (m * ((-x) % TWO32)) % TWO32 == TWO32 - 1
  {
    Word();
    var k :| 1 - m * x == k * Pow2(32);
    ModMul(m, -x, TWO32);
    assert m * (-x) == -(m * x);
    ModShift(-1, k, TWO32);
  }

  // ----- Montgomery reduction -----

  lemma RedcBounds(product: nat, adjustment: nat, modulus: nat)
    requires 1 < modulus < TWO32 && adjustment < TWO32
    requires product < TWO32 * modulus
    ensures 0 <= product + adjustment * modulus < 2 * (TWO32 * modulus)
  {
    MulMono(adjustment, TWO32, modulus);
  }

  /** `lhs * rhs / 2^32` in the field, for a reduced right operand. */
  method MontgomeryMul(lhs: nat, rhs: nat, modulus: nat, negInv: nat) returns (r: nat)
    requires 1 < modulus < TWO32 && lhs < TWO32 && rhs < modulus && negInv < TWO32
    requires (modulus * negInv) % TWO32 == TWO32 - 1
    ensures r < modulus
    ensures (r * TWO32) % modulus == (lhs * rhs) % modulus
  {
    var product := WideMul(lhs, rhs, modulus);
    var adjustment := MulMod(product % TWO32, negInv, TWO32);
    RedcBounds(product, adjustment, modulus);
    RedcCancels(product, modulus, negInv);
    r := ShiftAndSubtract(product, adjustment, modulus);
  }

  method WideMul(lhs: nat, rhs: nat, ghost modulus: nat) returns (product: nat)
    requires lhs < TWO32 && rhs < modulus
    ensures product == lhs * rhs < TWO32 * modulus
  {
    product := lhs * rhs;
    MulMono(lhs, TWO32, rhs);
    MulMono(rhs + 1, modulus, TWO32);
  }

  /** The 64-bit sum may carry; `sum / 2^32` is the shifted word with the carry
      put back into bit 32. */
  method ShiftAndSubtract(product: nat, adjustment: nat, modulus: nat) returns (r: nat)
    requires 1 < modulus < TWO32 && 0 <= product + adjustment * modulus < 2 * (TWO32 * modulus)
    requires (product + adjustment * modulus) % TWO32 == 0
    ensures r < modulus && (r * TWO32) % modulus == product % modulus
  {
    var sum := product + adjustment * modulus;
    var carry := if sum >= TWO64 then 1 else 0;
    var reduced := (sum - carry * TWO64) / TWO32 + carry * TWO32;
    assert reduced == sum / TWO32;
    assert sum == reduced * TWO32;
    ModShift(product, adjustment, modulus);
    r := if reduced >= modulus then reduced - modulus else reduced;
    if reduced >= modulus {
      assert r * TWO32 == sum + (-TWO32) * modulus;
      ModShift(sum, -TWO32, modulus);
    }
  }

  /** The adjustment clears the low word. */
  lemma RedcCancels(product: nat, modulus: nat, negInv: nat)
    requires (modulus * negInv) % TWO32 == TWO32 - 1
    ensures (product + MulMod(product % TWO32, negInv, TWO32) * modulus) % TWO32 == 0
  {
    var low := product % TWO32;
    ModMul(low * negInv, modulus, TWO32);
    assert (low * negInv) * modulus == low * (modulus * negInv);
    ModMul(low, modulus * negInv, TWO32);
    assert low * (TWO32 - 1) == -low + low * TWO32;
    ModShift(-low, low, TWO32);
    var adjusted := ((low * negInv) % TWO32) * modulus;
    assert adjusted % TWO32 == (-low) % TWO32;
    ModAdd(product, adjusted, TWO32);
    ModAdd(product, -low, TWO32);
    ModSub(product, product, TWO32);
  }

  lemma {:induction false} PowIsUnit(x: int, e: nat, p: int)
    requires Prime(p) && x % p != 0
    ensures Pow(x, e) % p != 0
  {
    if e > 0 {
      PowIsUnit(x, e - 1, p);
      if Pow(x, e) % p == 0 { Euclid(p, x, Pow(x, e - 1)); }
    }
  }

  lemma WordIsUnit(p: int)
    requires Prime(p) && p > 2
    ensures TWO32 % p != 0
  {
    PowIsUnit(2, 32, p);
    Pow2IsPow(32);
    Word();
  }

  /** `word` stores the residue `value` in Montgomery form. */
  ghost predicate Stores(word: int, value: int, p: int)
    requires p > 0
  {
    word % p == (value * TWO32) % p
  }

  /** Montgomery multiplication of stored residues stores their product, so a
      field element may be identified with its canonical residue. */
  lemma MontgomeryMulStoresProduct(a: int, b: int, r: int, x: int, y: int, p: int)
    requires Prime(p) && p > 2
    requires Stores(a, x, p) && Stores(b, y, p)
    requires (r * TWO32) % p == (a * b) % p
    ensures Stores(r, x * y, p)
  {
    ModMul(a, b, p);
    ModMul(x * TWO32, y * TWO32, p);
    var z := (x * y) * TWO32;
    assert (x * TWO32) * (y * TWO32) == z * TWO32;
    ModEqDiff(r * TWO32, z * TWO32, p);
    assert TWO32 * (r - z) == r * TWO32 - z * TWO32;
    WordIsUnit(p);
    Euclid(p, TWO32, r - z);
    ModEqDiff(r, z, p);
  }

  // ----- The two-adic root -----

  function Euler(x: int, p: nat): int
    requires p > 0
  {
    Pow(x, (p - 1) / 2) % p
  }

  /** `h` generates the two-power part of the multiplicative group: its
      `2^(level-1)`-th power is minus one. */
  ghost predicate HalfTurn(h: int, level: nat, p: nat) {
    p > 2 && level >= 1 && Pow(h, Pow2(level - 1)) % p == p - 1
  }

  function TwoAdicity(modulus: nat): nat
    requires modulus > 1
  {
    Twos(modulus - 1)
  }

  lemma {:induction false} HalfTurnOrder(h: nat, level: nat, p: nat)
    requires HalfTurn(h, level, p)
    ensures HasOrder(h, Pow2(level), p) && h > 0
  {
    TwoPowerOrder(h, level, p);
    ZeroHasNoHalfTurn(level, p);
  }

  lemma ZeroHasNoHalfTurn(level: nat, p: nat)
    ensures !HalfTurn(0, level, p)
  {
    if p > 2 && level >= 1 {
      Pow2Positive(level - 1);
      assert Pow(0, Pow2(level - 1)) == 0;
    }
  }

  lemma MinusOneHalfTurn(p: nat)
    requires p > 2
    ensures HalfTurn(p - 1, 1, p)
  {
    assert Pow(p - 1, 1) == (p - 1) * Pow(p - 1, 0);
  }

  /** The search for a non-residue terminates, and the element it leads to has
      order exactly `2^two_adicity`. */
  method TwoAdicRoot(modulus: nat) returns (root: nat)
    requires Prime(modulus) && 2 < modulus < TWO32
    ensures 0 < root < modulus
    ensures HasOrder(root, Pow2(TwoAdicity(modulus)), modulus)
    ensures HalfTurn(root, TwoAdicity(modulus), modulus)
  {
    var shifts, odd := TrailingZeros(modulus - 1);
    if shifts == 1 {
      root := modulus - 1;
      MinusOneHalfTurn(modulus);
    } else {
      var nonResidue := FindNonResidue(modulus);
      root := ModularPow(nonResidue, odd, modulus);
      NonResidueHalfTurn(nonResidue, modulus);
    }
    HalfTurnOrder(root, TwoAdicity(modulus), modulus);
  }

  method FindNonResidue(modulus: nat) returns (nonResidue: nat)
    requires Prime(modulus) && 2 < modulus < TWO32
    ensures 2 <= nonResidue < modulus && Euler(nonResidue, modulus) != 1
    ensures forall x | 1 <= x < nonResidue :: Euler(x, modulus) == 1
  {
    hide Euler;
    ghost var bound := EulerWitness(modulus);
    nonResidue := 2;
    var criterion := EulerCriterion(nonResidue, modulus);
    while criterion == 1
      invariant 2 <= nonResidue <= bound
      invariant criterion == Euler(nonResidue, modulus)
      invariant forall x | 1 <= x < nonResidue :: Euler(x, modulus) == 1
      decreases bound - nonResidue
    {
      nonResidue := nonResidue + 1;
      criterion := EulerCriterion(nonResidue, modulus);
    }
  }

  method EulerCriterion(x: nat, modulus: nat) returns (criterion: nat)
    requires 2 < modulus < TWO32 && x < modulus
    ensures criterion == Euler(x, modulus)
  {
    criterion := ModularPow(x, (modulus - 1) / 2, modulus);
  }

  lemma EulerWitness(p: nat) returns (bound: nat)
    requires Prime(p) && p > 2
    ensures 2 <= bound < p && Euler(bound, p) != 1 && Euler(1, p) == 1
  {
    hide Pow;
    NonResidueExists(p);
    bound :| NonResidue(bound, p);
    PowOne((p - 1) / 2);
    ModSmall(1, p);
  }

  lemma {:induction false} HalfOfEven(n: nat)
    requires n > 0 && n % 2 == 0
    ensures Twos(n) >= 1 && n / 2 == OddPart(n) * Pow2(Twos(n) - 1)
  {
    SplitTwos(n / 2);
    assert Pow2(Twos(n) - 1) * OddPart(n) == OddPart(n) * Pow2(Twos(n) - 1);
  }

  lemma {:induction false} PowOfPowMod(x: int, o: nat, w: nat, p: nat)
    requires p > 0
    ensures 0 <= o * w && Pow(Pow(x, o) % p, w) % p == Pow(x, o * w) % p
  {
    PowMul(x, o, w);
    PowMod(Pow(x, o), w, p);
  }

  lemma {:induction false} NonResidueHalfTurn(x: nat, p: nat)
    requires Prime(p) && p > 2 && 0 < x < p && Euler(x, p) != 1
    ensures HalfTurn(Pow(x, OddPart(p - 1)) % p, TwoAdicity(p), p)
  {
    OddPrime(p);
    HalfOfEven(p - 1);
    EulerIsMinusOne(x, p);
    RootOfEuler(x, OddPart(p - 1), Pow2(Twos(p - 1) - 1), p);
  }

  lemma EulerIsMinusOne(x: nat, p: nat)
    requires Prime(p) && p > 2 && 0 < x < p && Euler(x, p) != 1
    ensures Euler(x, p) == p - 1
  {
    hide Pow;
    EulerValues(x, p);
  }

  lemma {:induction false} RootOfEuler(x: nat, o: nat, w: nat, p: nat)
    requires p > 2 && (p - 1) / 2 == o * w && Euler(x, p) == p - 1
    ensures Pow(Pow(x, o) % p, w) % p == p - 1
  {
    PowOfPowMod(x, o, w, p);
  }

  ghost predicate PowerOfTwo(n: nat) { n > 0 && n == Pow2(Twos(n)) }

  /** An element of exact order `length`, for every power of two dividing
      `modulus - 1`; every other length is refused. */
  method RootOfUnity(length: nat, modulus: nat, twoAdicRoot: nat) returns (r: RootResult)
    requires Prime(modulus) && 2 < modulus < TWO32 && twoAdicRoot < modulus
    requires HalfTurn(twoAdicRoot, TwoAdicity(modulus), modulus)
    ensures r.Root? <==> PowerOfTwo(length) && Twos(length) <= TwoAdicity(modulus)
    ensures r.Root? ==> r.value < modulus && HasOrder(r.value, length, modulus)
  {
    if length == 0 { return UnsupportedTransformLength(length); }
    var lengthLog, lengthOdd := TrailingZeros(length);
    var adicity, _ := TrailingZeros(modulus - 1);
    OddPartOfPower(length);
    if lengthOdd != 1 || lengthLog > adicity {
      return UnsupportedTransformLength(length);
    }
    var root := SquareDown(twoAdicRoot, adicity, lengthLog, modulus);
    r := Root(root);
  }

  /** Repeated squaring lowers the order from `2^high` to `2^low`. */
  method SquareDown(top: nat, high: nat, low: nat, modulus: nat) returns (root: nat)
    requires 2 < modulus && top < modulus && low <= high
    requires HalfTurn(top, high, modulus)
    ensures root < modulus && HasOrder(root, Pow2(low), modulus)
  {
    root := top;
    var level := high;
    while level > low
      invariant low <= level <= high && root < modulus
      invariant if level == 0 then root == 1 else HalfTurn(root, level, modulus)
      decreases level
    {
      SquaredHalfTurn(root, level, modulus);
      root := MulMod(root, root, modulus);
      level := level - 1;
    }
    if level == 0 {
      assert Pow(1, 1) == 1 * Pow(1, 0);
    } else {
      HalfTurnOrder(root, level, modulus);
    }
  }

  lemma {:induction false} OddPartOfPower(n: nat)
    requires n > 0
    ensures PowerOfTwo(n) <==> OddPart(n) == 1
  {
    SplitTwos(n);
    Pow2Positive(Twos(n));
    hide Pow2, Twos, OddPart;
    var w, o := Pow2(Twos(n)), OddPart(n);
    assert w * 1 == w;
    if o != 1 { MulMono(2, o, w); Commute(o, w); }
  }

  lemma SquaredHalfTurn(h: nat, level: nat, p: nat)
    requires HalfTurn(h, level, p)
    ensures if level == 1 then MulMod(h, h, p) == 1 else HalfTurn(MulMod(h, h, p), level - 1, p)
  {
    if level >= 2 {
      SquareStep(h, Pow2(level - 2), p);
    } else {
      assert Pow(h, 1) == h * Pow(h, 0);
      MinusOneSquared(h, p);
    }
  }
}
