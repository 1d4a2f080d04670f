/** The exact big-integer comparison `factor * base^exp >= 2^lambda` behind the
    attack-cost bound of a parameter set. */
module ExactPower {
  import opened Arithmetic
  import opened Sums

  const POW_MAX_LAMBDA := 4096
  const U64_MAX := TWO64 - 1

  // ----- Bit lengths -----

  function BitLen(n: nat): nat {
    if n == 0 then 0 else 1 + BitLen(n / 2)
  }

  lemma {:induction false} BitLenBounds(n: nat)
    requires n > 0
    ensures BitLen(n) >= 1 && Pow2(BitLen(n) - 1) <= n < Pow2(BitLen(n))
  {
    if n > 1 { BitLenBounds(n / 2); }
  }

  lemma BitLenUnique(n: nat, bits: nat)
    requires bits >= 1 && Pow2(bits - 1) <= n < Pow2(bits)
    ensures BitLen(n) == bits
  {
    Pow2Positive(bits - 1);
    BitLenBounds(n);
    if BitLen(n) < bits { Pow2Mono(BitLen(n), bits - 1); }
    if bits < BitLen(n) { Pow2Mono(bits, BitLen(n) - 1); }
  }

  lemma {:induction false} BitLenThreshold(n: nat, bits: nat)
    requires n > 0
    ensures BitLen(n) > bits <==> n >= Pow2(bits)
  {
    BitLenBounds(n);
    if BitLen(n) > bits { Pow2Mono(bits, BitLen(n) - 1); } else { Pow2Mono(BitLen(n), bits); }
  }

  // ----- Little-endian limbs -----

  ghost predicate Limbs(s: seq<nat>) { forall i | 0 <= i < |s| :: s[i] < TWO64 }

  function LimbValue(s: seq<nat>): nat {
    if s == [] then 0 else s[0] + TWO64 * LimbValue(s[1..])
  }

  lemma {:induction false} LimbAppend(s: seq<nat>, x: nat)
    ensures LimbValue(s + [x]) == LimbValue(s) + x * Pow2(64 * |s|)
  {
    if s == [] {
      assert (s + [x])[1..] == [];
      assert x * 1 == x;
    } else {
      LimbAppend(s[1..], x);
      assert (s + [x])[1..] == s[1..] + [x];
      WordPower();
      Pow2Add(64, 64 * |s[1..]|);
      var w := Pow2(64 * |s[1..]|);
      assert TWO64 * (x * w) == x * (TWO64 * w);
    }
  }

  lemma WordPower()
    ensures Pow2(64) == TWO64
  {
    assert Pow2(8) == 256;
    hide Pow2;
    Pow2Add(8, 8);
    Pow2Add(16, 16);
    Pow2Add(32, 32);
  }

  lemma {:induction false} LimbBound(s: seq<nat>)
    requires Limbs(s)
    ensures LimbValue(s) < Pow2(64 * |s|)
  {
    if s != [] {
      LimbBound(s[1..]);
      WordPower();
      Pow2Add(64, 64 * |s[1..]|);
    }
  }

  /** The bit length read off the top limb is the bit length of the value. */
  lemma {:induction false} TopLimbBitLen(s: seq<nat>)
    requires s != [] && Limbs(s) && s[|s| - 1] > 0
    ensures BitLen(LimbValue(s)) == 64 * (|s| - 1) + BitLen(s[|s| - 1])
  {
    hide LimbValue, Pow2, BitLen;
    var n := |s| - 1;
    var top, low := s[n], LimbValue(s[..n]);
    assert s == s[..n] + [top];
    LimbAppend(s[..n], top);
    LimbBound(s[..n]);
    BitLenBounds(top);
    StackedBits(top, BitLen(top), low, 64 * n);
  }

  lemma StackedBits(top: nat, bits: nat, low: nat, place: nat)
    requires bits >= 1 && Pow2(bits - 1) <= top < Pow2(bits) && low < Pow2(place)
    ensures BitLen(low + top * Pow2(place)) == place + bits
  {
    Pow2Add(bits - 1, place);
    Pow2Add(bits, place);
    StackedRange(top, Pow2(bits - 1), Pow2(bits), low, Pow2(place));
    BitLenUnique(low + top * Pow2(place), place + bits);
  }

  lemma StackedRange(top: nat, least: nat, past: nat, low: nat, w: nat)
    requires least <= top < past && low < w
    ensures least * w <= low + top * w < past * w
  {
    MulMono(least, top, w);
    MulMono(top + 1, past, w);
    assert (top + 1) * w == top * w + w;
  }

  /** A product lies between the products of the bounds of its factors. */
  lemma ProductRange(x: nat, xl: nat, xh: nat, y: nat, yl: nat, yh: nat)
    requires xl <= x < xh && yl <= y <= yh && 0 < yh
    ensures xl * yl <= x * y < xh * yh
  {
    MulMono(xl, x, yl);
    MulMono(yl, y, x);
    MulMono(y, yh, x);
    MulMono(x + 1, xh, yh);
    assert (x + 1) * yh == x * yh + yh;
  }

  /** One limb of the multiplication fits 128 bits, and its carry one limb. */
  lemma LimbStep(limb: nat, base: nat, carry: nat)
    requires limb < TWO64 && base < TWO64 && carry < TWO64
    ensures 0 <= limb * base + carry < TWO128
    ensures (limb * base + carry) / TWO64 < TWO64
  {
    LimbProduct(limb, base, carry, TWO64);
    QuotientBelow(limb * base + carry, TWO64, TWO64);
  }

  lemma LimbProduct(limb: nat, base: nat, carry: nat, word: nat)
    requires limb < word && base < word && carry < word
    ensures 0 <= limb * base + carry < word * word
  {
    MulMono(limb, word - 1, base);
    MulMono(base, word - 1, word);
    assert (word - 1) * base == word * base - base;
  }

  lemma QuotientBelow(x: nat, q: nat, w: nat)
    requires w > 0 && x < q * w
    ensures x / w < q
  {
    var d := x / w;
    assert x == d * w + x % w;
    if d >= q { MulMono(q, d, w); }
  }

  /** `base * done + carry` after one more limb. */
  lemma LimbProductStep(limb: nat, base: nat, carry: nat, low: nat, doneLow: nat, w: nat)
    requires doneLow + carry * w == base * low
    ensures var product := limb * base + carry;
            (doneLow + (product % TWO64) * w) + (product / TWO64) * (TWO64 * w) == base * (low + limb * w)
  {
    var product := limb * base + carry;
    var q, r := product / TWO64, product % TWO64;
    assert product == q * TWO64 + r;
    assert r * w + q * (TWO64 * w) == product * w by {
      assert q * (TWO64 * w) == (q * TWO64) * w;
      assert (q * TWO64 + r) * w == (q * TWO64) * w + r * w;
    }
    assert product * w == (limb * base) * w + carry * w;
    assert base * (low + limb * w) == base * low + base * (limb * w);
    assert base * (limb * w) == (limb * base) * w;
  }

  /** In-place multiplication of the significant limbs by one word. */
  method MultiplyLimbs(value: array<nat>, significant: nat, base: nat) returns (carry: nat)
    requires significant <= value.Length && Limbs(value[..significant]) && base < TWO64
    modifies value
    ensures Limbs(value[..significant]) && carry < TWO64
    ensures value[significant..] == old(value[significant..])
    ensures LimbValue(value[..significant]) + carry * Pow2(64 * significant)
            == base * LimbValue(old(value[..significant]))
  {
    ghost var was := value[..];
    carry := 0;
    var i := 0;
    assert value[..0] == [] && LimbValue([]) == 0;
    hide LimbValue, Pow2;
    while i < significant
      invariant 0 <= i <= significant && carry < TWO64
      invariant forall j | i <= j < value.Length :: value[j] == was[j]
      invariant forall j | 0 <= j < i :: value[j] < TWO64
      invariant LimbValue(value[..i]) + carry * Pow2(64 * i) == base * LimbValue(was[..i])
    {
      assert value[i] == was[..significant][i];
      LimbStep(value[i], base, carry);
      LimbProductStep(value[i], base, carry, LimbValue(was[..i]), LimbValue(value[..i]), Pow2(64 * i));
      ghost var before := value[..i];
      var product := value[i] * base + carry;
      value[i] := product % TWO64;
      LimbAppend(before, value[i]);
      LimbAppend(was[..i], was[i]);
      assert value[..i + 1] == before + [value[i]];
      assert was[..i + 1] == was[..i] + [was[i]];
      WordPower();
      Pow2Add(64, 64 * i);
      carry := product / TWO64;
      i := i + 1;
    }
    assert was[..significant] == old(value[..significant]);
  }

  function Saturate(x: nat): nat { Min(x, U64_MAX) }

  lemma {:induction false} PowBounds(base: nat, lo: nat, hi: nat, e: nat)
    requires Pow2(lo) <= base < Pow2(hi)
    ensures 0 <= lo * e && 0 <= hi * e
    ensures Pow2(lo * e) <= Pow(base, e) <= Pow2(hi * e)
  {
    if e > 0 {
      PowBounds(base, lo, hi, e - 1);
      assert lo * e == lo * (e - 1) + lo && hi * e == hi * (e - 1) + hi;
      Pow2Add(lo * (e - 1), lo);
      Pow2Add(hi * (e - 1), hi);
      var p := Pow(base, e - 1);
      MulMono(Pow2(lo * (e - 1)), p, Pow2(lo));
      MulMono(Pow2(lo), base, p);
      MulMono(p, Pow2(hi * (e - 1)), base);
      MulMono(base, Pow2(hi), Pow2(hi * (e - 1)));
    } else {
      assert lo * 0 == 0 && hi * 0 == 0;
    }
  }

  ghost predicate HasBits(n: nat, bits: nat) { bits >= 1 && Pow2(bits - 1) <= n < Pow2(bits) }

  /** Both early exits decide correctly: the interval the final value lies in is
      already on one side of the target. */
  lemma {:induction false} EarlyExits(value: nat, lo: nat, base: nat, baseLo: nat, remaining: nat, lambda: nat)
    requires HasBits(value, lo + 1) && HasBits(base, baseLo + 1)
    ensures 0 <= baseLo * remaining <= (baseLo + 1) * remaining
    ensures lo + baseLo * remaining >= lambda ==> value * Pow(base, remaining) >= Pow2(lambda)
    ensures lo + 1 + (baseLo + 1) * remaining <= lambda ==> value * Pow(base, remaining) < Pow2(lambda)
  {
    PowBounds(base, baseLo, baseLo + 1, remaining);
    MulMono(baseLo, baseLo + 1, remaining);
    ExitBounds(value, lo, Pow(base, remaining), baseLo * remaining, (baseLo + 1) * remaining, lambda);
  }

  lemma ExitBounds(value: nat, lo: nat, power: int, low: nat, high: nat, lambda: nat)
    requires Pow2(lo) <= value < Pow2(lo + 1) && Pow2(low) <= power <= Pow2(high)
    ensures lo + low >= lambda ==> value * power >= Pow2(lambda)
    ensures lo + 1 + high <= lambda ==> value * power < Pow2(lambda)
  {
    Pow2Positive(high);
    ProductRange(value, Pow2(lo), Pow2(lo + 1), power, Pow2(low), Pow2(high));
    Pow2Add(lo, low);
    Pow2Add(lo + 1, high);
    if lo + low >= lambda { Pow2Mono(lambda, lo + low); }
    if lo + 1 + high <= lambda { Pow2Mono(lo + 1 + high, lambda); }
  }

  /** What `significant` limbs of the buffer must satisfy between two steps. */
  ghost predicate Holds(value: seq<nat>, significant: nat, current: nat) {
    && 0 < significant <= |value|
    && Limbs(value[..significant])
    && value[significant - 1] > 0
    && LimbValue(value[..significant]) == current
  }

  /** The exact bit length, read off the top significant limb. */
  method BitLengthOf(value: array<nat>, significant: nat, ghost current: nat) returns (bits: nat)
    requires Holds(value[..], significant, current)
    ensures HasBits(current, bits)
  {
    assert value[..][..significant] == value[..significant];
    TopLimbBitLen(value[..significant]);
    TopPlace(value[..significant]);
    BitLenBounds(current);
    bits := 64 * (significant - 1) + BitLen(value[significant - 1]);
  }

  ghost predicate Remains(current: nat, base: nat, remaining: nat, target: int) {
    current * Pow(base, remaining) == target
  }

  /** `multiplications` steps are behind, `remaining` ahead, and every step
      behind doubled the value. */
  ghost predicate OnTrack(current: nat, base: nat, remaining: nat, target: int, multiplications: nat) {
    Remains(current, base, remaining, target) && current >= Pow2(multiplications)
  }

  lemma OnTrackStep(current: nat, base: nat, remaining: nat, target: int, multiplications: nat)
    requires base >= 2 && remaining > 0 && OnTrack(current, base, remaining, target, multiplications)
    ensures OnTrack(Times(base, current), base, remaining - 1, target, multiplications + 1)
  {
    assert base * current * Pow(base, remaining - 1) == current * (base * Pow(base, remaining - 1));
    MulMono(2, base, current);
  }

  lemma RemainsDone(current: nat, base: nat, target: int)
    requires Remains(current, base, 0, target)
    ensures current == target
  {
    assert current * 1 == current;
  }

  ghost predicate Fits(base: nat, current: nat, limbs: nat) { base * current < Pow2(64 * limbs) }

  function Times(base: nat, current: nat): nat { base * current }

  /** One big-integer step. The carry always finds a free limb, so the branch
      for a full buffer cannot be taken. */
  method MultiplyInPlace(value: array<nat>, significant: nat, base: nat, ghost current: nat)
    returns (grown: nat, ghost next: nat)
    requires Holds(value[..], significant, current) && 2 <= base < TWO64
    requires Fits(base, current, value.Length)
    modifies value
    ensures Holds(value[..], grown, next) && next == Times(base, current)
  {
    next := Times(base, current);
    assert value[..][..significant] == value[..significant];
    TopPlace(value[..significant]);
    var carry := MultiplyLimbs(value, significant, base);
    grown := significant;
    assert value[..][..significant] == value[..significant];
    if carry > 0 {
      LimbRoom(LimbValue(value[..significant]), carry, significant, value.Length, next);
      if significant == value.Length { assert false; }
      value[significant] := carry;
      assert value[..][..significant] == value[..significant];
      grown := significant + 1;
      WithCarry(value[..], significant, carry, next);
    } else {
      WithoutCarry(value[..], base, current, significant);
    }
  }

  datatype Exit = Reached | OutOfReach | Undecided

  /** The early exits of one iteration: a definite answer, or the knowledge that
      one more multiplication fits the buffer and the budget. */
  method TryExit(lo: nat, baseLo: nat, remaining: nat, lambda: nat,
                 ghost current: nat, ghost base: nat, ghost target: int, ghost multiplications: nat) returns (e: Exit)
    requires HasBits(current, lo + 1) && HasBits(base, baseLo + 1) && baseLo > 0 && remaining > 0
    requires OnTrack(current, base, remaining, target, multiplications)
    requires lambda < TWO32
    ensures e.Reached? ==> target >= Pow2(lambda)
    ensures e.OutOfReach? ==> target < Pow2(lambda)
    ensures e.Undecided? ==> Fits(base, current, lambda / 64 + 2) && multiplications + 1 < lambda
  {
    EarlyExits(current, lo, base, baseLo, remaining, lambda);
    if Saturate(lo + Saturate(baseLo * remaining)) >= lambda { return Reached; }
    NextFits(current, lo, base, baseLo, remaining, lambda);
    MultiplicationBudget(current, multiplications, lo, lambda);
    if Saturate(lo + 1 + Saturate((baseLo + 1) * remaining)) <= lambda { return OutOfReach; }
    return Undecided;
  }

  /** The exact comparison `factor * base^exp >= 2^lambda`. `multiplications`
      counts the big-integer steps. */
  method ScaledPowGePow2(base: nat, exp: nat, factor: nat, lambda: nat) returns (r: bool, ghost multiplications: nat)
    requires base < TWO64 && exp < TWO64 && factor < TWO64 && lambda < TWO32
    ensures lambda == 0 ==> r
    ensures lambda > POW_MAX_LAMBDA ==> !r
    ensures 1 <= lambda <= POW_MAX_LAMBDA ==> (r <==> factor * Pow(base, exp) >= Pow2(lambda))
    ensures lambda > 0 ==> multiplications < lambda
  {
    multiplications := 0;
    Pow2Positive(lambda);
    if lambda == 0 { return true, 0; }
    if factor == 0 || lambda > POW_MAX_LAMBDA { return false, 0; }
    if base < 2 {
      SmallBase(base, exp);
      if base == 0 && exp > 0 { return false, 0; }
      BitLenThreshold(factor, lambda);
      return BitLen(factor) > lambda, 0;
    }
    r, multiplications := LargeBase(base, exp, factor, lambda);
  }

  lemma FirstLimb(value: seq<nat>, factor: nat)
    requires value != [] && value[0] == factor && 0 < factor < TWO64
    ensures Holds(value, 1, factor)
  {
    assert value[..1] == [factor];
    assert LimbValue([factor]) == factor;
  }

  lemma {:induction false} BaseBits(base: nat)
    requires base >= 2
    ensures BitLen(base) >= 2 && HasBits(base, BitLen(base))
  {
    BitLenBounds(base);
    BitLenThreshold(base, 1);
    assert Pow2(1) == 2 * Pow2(0) == 2;
  }

  lemma {:induction false} NothingBehind(factor: nat, base: nat, exp: nat, target: int)
    requires factor > 0 && target == factor * Pow(base, exp)
    ensures OnTrack(factor, base, exp, target, 0)
  {
  }

  method LargeBase(base: nat, exp: nat, factor: nat, lambda: nat) returns (r: bool, ghost multiplications: nat)
    requires 2 <= base < TWO64 && exp < TWO64 && 0 < factor < TWO64 && 0 < lambda <= POW_MAX_LAMBDA
    ensures r <==> factor * Pow(base, exp) >= Pow2(lambda)
    ensures multiplications < lambda
  {
    ghost var target := factor * Pow(base, exp);
    var limbs := lambda / 64 + 2;
    var value := new nat[limbs](i => 0);
    value[0] := factor;
    var significant := 1;
    FirstLimb(value[..], factor);
    BaseBits(base);
    NothingBehind(factor, base, exp, target);
    hide *;
    var baseLo := BitLen(base) - 1;
    var consumed := 0;
    ghost var current: nat, left: nat := factor, exp;
    multiplications := 0;
    while consumed < exp
      invariant 0 <= consumed <= exp && left == exp - consumed
      invariant Holds(value[..], significant, current)
      invariant OnTrack(current, base, left, target, multiplications) && multiplications < lambda
      decreases exp - consumed
    {
      var bits := BitLengthOf(value, significant, current);
      var exit := TryExit(bits - 1, baseLo, exp - consumed, lambda, current, base, target, multiplications);
      if exit.Reached? { return true, multiplications; }
      if exit.OutOfReach? { return false, multiplications; }
      OnTrackStep(current, base, left, target, multiplications);
      significant, current := MultiplyInPlace(value, significant, base, current);
      multiplications, left := multiplications + 1, left - 1;
      consumed := consumed + 1;
    }
    RemainsDone(current, base, target);
    var bits := BitLengthOf(value, significant, current);
    r := bits > lambda;
    Reaches(current, bits, lambda);
  }

  lemma {:induction false} Reaches(n: nat, bits: nat, lambda: nat)
    requires HasBits(n, bits)
    ensures bits > lambda <==> n >= Pow2(lambda)
  {
    if bits > lambda { Pow2Mono(lambda, bits - 1); } else { Pow2Mono(bits, lambda); }
  }

  lemma {:induction false} SmallBase(base: nat, exp: nat)
    requires base < 2
    ensures Pow(base, exp) == if base == 0 && exp > 0 then 0 else 1
  {
    if exp > 0 { SmallBase(base, exp - 1); }
  }

  // ----- Side facts of the comparison loop -----

  /** Past the first early exit, the product fits the allocated limbs. */
  lemma {:induction false} NextFits(current: nat, lo: nat, base: nat, baseLo: nat, remaining: nat, lambda: nat)
    requires HasBits(current, lo + 1) && HasBits(base, baseLo + 1) && baseLo > 0 && remaining > 0
    requires lo + baseLo * remaining < lambda
    ensures base * current < Pow2(64 * (lambda / 64 + 2)) && lo + 2 <= lambda
  {
    MulMono(1, remaining, baseLo);
    WideProductFits(base, baseLo, current, lo, 64 * (lambda / 64 + 2));
  }

  lemma {:induction false} WideProductFits(x: nat, xBits: nat, y: nat, yBits: nat, room: nat)
    requires HasBits(x, xBits + 1) && HasBits(y, yBits + 1)
    requires xBits + yBits + 2 <= room
    ensures x * y < Pow2(room)
  {
    ProductRange(x, 0, Pow2(xBits + 1), y, 0, Pow2(yBits + 1));
    Pow2Add(xBits + 1, yBits + 1);
    Pow2Mono(xBits + 1 + (yBits + 1), room);
  }

  /** Every multiplication at least doubles the value, and a value about to be
      multiplied has at most `lambda - 1` bits. */
  lemma {:induction false} MultiplicationBudget(current: nat, multiplications: nat, lo: nat, lambda: nat)
    requires current >= Pow2(multiplications) && HasBits(current, lo + 1) && lo + 2 <= lambda
    ensures multiplications + 1 < lambda
  {
    if multiplications > lo { Pow2Mono(lo + 1, multiplications); }
  }

  lemma {:induction false} LimbRoom(low: nat, carry: nat, significant: nat, limbs: nat, product: nat)
    requires carry > 0 && significant <= limbs
    requires low + carry * Pow2(64 * significant) == product < Pow2(64 * limbs)
    ensures significant < limbs
  {
    MulMono(1, carry, Pow2(64 * significant));
  }

  /** Without a carry, the number of significant limbs does not change. */
  lemma {:induction false} WithoutCarry(value: seq<nat>, base: nat, current: nat, significant: nat)
    requires 0 < significant <= |value| && Limbs(value[..significant]) && base >= 1
    requires LimbValue(value[..significant]) + 0 * Pow2(64 * significant) == base * current
    requires current >= Pow2(64 * (significant - 1))
    ensures Holds(value, significant, base * current)
  {
    var limbs, rest := value[..significant], value[..significant - 1];
    MulMono(1, base, current);
    if value[significant - 1] == 0 {
      LimbAppend(rest, 0);
      assert limbs == rest + [0];
      LimbBound(rest);
    }
  }

  lemma {:induction false} WithCarry(value: seq<nat>, significant: nat, carry: nat, product: nat)
    requires significant < |value| && Limbs(value[..significant]) && 0 < carry < TWO64
    requires LimbValue(value[..significant]) + carry * Pow2(64 * significant) == product
    requires value[significant] == carry
    ensures Holds(value, significant + 1, product)
  {
    LimbAppend(value[..significant], carry);
    assert value[..significant + 1] == value[..significant] + [carry];
  }

  /** A nonzero top limb puts the value at or above its place. */
  lemma {:induction false} TopPlace(limbs: seq<nat>)
    requires limbs != [] && Limbs(limbs) && limbs[|limbs| - 1] > 0
    ensures LimbValue(limbs) >= Pow2(64 * (|limbs| - 1))
    ensures LimbValue(limbs) > 0
  {
    var n := |limbs| - 1;
    LimbAppend(limbs[..n], limbs[n]);
    assert limbs == limbs[..n] + [limbs[n]];
    MulMono(1, limbs[n], Pow2(64 * n));
    Pow2Positive(64 * n);
  }

}
