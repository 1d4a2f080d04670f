/** Field inverses: one by Fermat exponentiation, many by the batch pass that
    inverts only the total product. */
module Inversion {
  import opened Arithmetic
  import opened Kernels
  import opened NumberTheory
  import opened PrimeField

  datatype InversionResult = Inverted | LengthsDiffer | DivisionByZero

  ghost predicate Inverses(a: int, b: int, p: int)
    requires p > 0
  {
    (a * b) % p == 1
  }

  /** The canonical inverse of a unit. */
  function Inverse(a: int, p: nat): int
    requires p >= 2
  {
    Pow(a, p - 2) % p
  }

  lemma InverseCancels(a: int, p: nat)
    requires Prime(p) && a % p != 0
    ensures Inverses(a, Inverse(a, p), p) && 0 <= Inverse(a, p) < p
  {
    Fermat(a, p);
    ModMul(a, Pow(a, p - 2), p);
  }

  lemma InverseUnique(a: int, x: int, y: int, p: nat)
    requires Prime(p) && 0 <= x < p && 0 <= y < p
    requires Inverses(a, x, p) && Inverses(a, y, p)
    ensures x == y
  {
    // x == x * (a * y) == y * (a * x) == y, modulo p
    TimesOne(x, a * y, p);
    TimesOne(y, a * x, p);
    assert x * (a * y) == y * (a * x);
  }

  lemma TimesOne(x: int, u: int, p: int)
    requires p > 0 && u % p == 1 && 0 <= x < p
    ensures (x * u) % p == x
  {
    ModMul(x, u, p);
    assert x * 1 == x;
    ModSmall(x, p);
  }

  // ----- Batch inversion -----

  /** The product of `values[0 ..= i]`. */
  ghost function Running(values: seq<int>, i: nat): int
    requires i < |values|
  {
    if i == 0 then values[0] else Running(values, i - 1) * values[i]
  }

  lemma {:induction false} RunningIsUnit(values: seq<int>, i: nat, p: nat)
    requires Prime(p) && i < |values|
    requires forall j | 0 <= j < |values| :: values[j] % p != 0
    ensures Running(values, i) % p != 0
  {
    if i > 0 {
      RunningIsUnit(values, i - 1, p);
      if Running(values, i) % p == 0 { Euclid(p, Running(values, i - 1), values[i]); }
    }
  }

  lemma RunningStep(values: seq<int>, i: nat, p: int)
    requires p > 0 && 0 < i < |values|
    ensures FMul(Running(values, i - 1) % p, values[i], p) == Running(values, i) % p
  {
    ModMul(Running(values, i - 1), values[i], p);
  }

  /** Peeling the last factor off the inverse of a running product. */
  lemma Peel(inverse: int, values: seq<int>, i: nat, p: int)
    requires p > 0 && 0 < i < |values|
    requires Inverses(inverse, Running(values, i), p)
    ensures Inverses(FMul(inverse, Running(values, i - 1) % p, p), values[i], p)
    ensures Inverses(FMul(inverse, values[i], p), Running(values, i - 1), p)
  {
    var prefix, last := Running(values, i - 1), values[i];
    ModMul(inverse, prefix, p);
    ModMul(inverse * prefix, last, p);
    ModMul(inverse * last, prefix, p);
    assert inverse * (prefix * last) == (inverse * prefix) * last == (inverse * last) * prefix;
  }

  lemma InverseOfResidue(value: int, inverse: int, p: int)
    requires p > 0 && Inverses(value % p, inverse, p)
    ensures Inverses(inverse, value, p)
  {
    ModMul(value, inverse, p);
    assert value * inverse == inverse * value;
  }

  lemma CanonicalUnits(values: seq<int>, p: int)
    requires p > 0 && Canonical(values, p) && 0 !in values
    ensures forall j | 0 <= j < |values| :: values[j] % p != 0
  {
    forall j | 0 <= j < |values| ensures values[j] % p != 0 {
      assert values[j] in values;
      ModSmall(values[j], p);
    }
  }

  method Invert(value: nat, p: nat) returns (r: int)
    requires Prime(p) && p <= TWO32 && value < p && value != 0
    ensures r == Inverse(value, p)
  {
    r := ModularPow(value, p - 2, p);
  }

  /** Every element of the batch is replaced by its own inverse. */
  method BatchInvert(values: seq<int>, output: array<int>, p: nat) returns (r: InversionResult)
    requires Prime(p) && p <= TWO32 && Canonical(values, p)
    modifies output
    ensures r == if |values| != output.Length then LengthsDiffer else if 0 in values then DivisionByZero else Inverted
    ensures !r.Inverted? ==> output[..] == old(output[..])
    ensures r.Inverted? ==> forall i | 0 <= i < |values| :: output[i] == Inverse(values[i], p)
  {
    if |values| != output.Length { return LengthsDiffer; }
    if 0 in values { return DivisionByZero; }
    if values == [] { return Inverted; }
    CanonicalUnits(values, p);
    Prefixes(values, output, p);
    RunningIsUnit(values, |values| - 1, p);
    var inverse := InvertTotal(output[|values| - 1], Running(values, |values| - 1), p);
    Unwind(values, output, inverse, p);
    r := Inverted;
  }

  method InvertTotal(last: int, ghost total: int, p: nat) returns (inverse: int)
    requires Prime(p) && p <= TWO32 && total % p != 0 && last == total % p
    ensures 0 <= inverse < p && Inverses(inverse, total, p)
  {
    inverse := Invert(last, p);
    ModSmall(last, p);
    InverseCancels(last, p);
    InverseOfResidue(total, inverse, p);
  }

  method Prefixes(values: seq<int>, output: array<int>, p: nat)
    requires p >= 2 && |values| == output.Length > 0 && Canonical(values, p)
    modifies output
    ensures forall j: nat | j < |values| :: output[j] == Running(values, j) % p
  {
    ModSmall(values[0], p);
    output[0] := values[0];
    var i := 1;
    while i < |values|
      invariant 1 <= i <= |values|
      invariant forall j: nat | j < i :: output[j] == Running(values, j) % p
    {
      RunningStep(values, i, p);
      output[i] := FMul(output[i - 1], values[i], p);
      i := i + 1;
    }
  }

  method Unwind(values: seq<int>, output: array<int>, total: int, p: nat)
    requires Prime(p) && |values| == output.Length > 0 && 0 <= total < p
    requires forall j | 0 <= j < |values| :: values[j] % p != 0
    requires forall j: nat | j < |values| :: output[j] == Running(values, j) % p
    requires Inverses(total, Running(values, |values| - 1), p)
    modifies output
    ensures forall i | 0 <= i < |values| :: output[i] == Inverse(values[i], p)
  {
    var inverse, i := total, |values| - 1;
    while i > 0
      invariant 0 <= i < |values| && 0 <= inverse < p
      invariant Inverses(inverse, Running(values, i), p)
      invariant forall j: nat | j < i :: output[j] == Running(values, j) % p
      invariant forall j | i < j < |values| :: output[j] == Inverse(values[j], p)
    {
      Peel(inverse, values, i, p);
      var own := FMul(inverse, output[i - 1], p);
      IsInverse(values[i], own, p);
      inverse := FMul(inverse, values[i], p);
      output[i] := own;
      i := i - 1;
    }
    IsInverse(values[0], inverse, p);
    output[0] := inverse;
  }

  lemma IsInverse(value: int, x: int, p: nat)
    requires Prime(p) && value % p != 0 && 0 <= x < p && Inverses(x, value, p)
    ensures x == Inverse(value, p)
  {
    InverseCancels(value, p);
    assert x * value == value * x;
    InverseUnique(value, x, Inverse(value, p), p);
  }
}
