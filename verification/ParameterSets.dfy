/** Validation of one parameter set and the search for the best one. */
module ParameterSets {
  import opened Arithmetic
  import opened ExactPower

  const PROTOCOL_MAX_LAMBDA := 128
  const SEARCH_RANK_BUDGET: nat := 10_000_000

  datatype EmvpParams = EmvpParams(k: nat, ell: nat, b: nat, lambda: nat)

  datatype ParamsError =
    | ZeroEll
    | LambdaOutOfScope
    | EllExceedsRank
    | RankBelowSecurityFloor
    | BlockTooSmall
    | BlockDoesNotDivideLength
    | InsecureAgainstAlgebraicAttack
    | InsecureAgainstInclusionExclusion
    | SearchExhausted
    | DimensionOverflow

  datatype Verdict = Valid | Rejected(error: ParamsError)

  datatype SearchResult = Found(params: EmvpParams) | NotFound(error: ParamsError)

  predicate MachineWords(p: EmvpParams) {
    p.k < TWO64 && p.ell < TWO64 && p.b < TWO64 && p.lambda < TWO32
  }

  // ----- The documented constraints, over unbounded integers -----

  ghost predicate Divides(d: int, n: int) { d >= 1 && n % d == 0 }

  /** The dimensions protocol correctness needs. */
  ghost predicate WellShaped(p: EmvpParams) {
    && 1 <= p.ell <= p.k
    && p.b >= 2
    && 2 * p.k < TWO64
    && Divides(p.b, 2 * p.k)
  }

  /** The attack degree is the least `d` with `d * (b - 1) >= k`. */
  ghost predicate IsDegree(k: nat, b: nat, d: nat) {
    d >= 1 && b >= 2 && (d - 1) * (b - 1) < k <= d * (b - 1)
  }

  ghost predicate ResistsAlgebraicAttack(p: EmvpParams) {
    exists d: nat :: IsDegree(p.k, p.b, d) && Min(p.b, d) * Pow(p.b, d - 1) >= Pow2(p.lambda)
  }

  ghost predicate ResistsInclusionExclusion(p: EmvpParams) {
    p.b >= 2 && (2 * p.k / p.b + 1) * p.k > 2 * p.k + p.lambda
  }

  ghost predicate Sound(p: EmvpParams) {
    && p.lambda <= PROTOCOL_MAX_LAMBDA
    && WellShaped(p)
    && 4 * p.k >= p.lambda
    && ResistsAlgebraicAttack(p)
    && ResistsInclusionExclusion(p)
  }

  // ----- Validation -----

  function CeilDiv(n: nat, d: nat): nat
    requires d >= 1
  {
    (n + (d - 1)) / d
  }

  lemma DegreeIsCeiling(k: nat, b: nat)
    requires k >= 1 && b >= 2
    ensures IsDegree(k, b, CeilDiv(k, b - 1))
  {
    var m, c := b - 1, CeilDiv(k, b - 1);
    var r := (k + (m - 1)) % m;
    assert k + (m - 1) == c * m + r;
    assert (c - 1) * m == c * m - m;
    if c <= 0 { MulMono(c, 0, m); assert false; }
  }

  lemma DegreeIsUnique(k: nat, b: nat, d: nat, e: nat)
    requires IsDegree(k, b, d) && IsDegree(k, b, e)
    ensures d == e
  {
    if d < e { MulMono(d, e - 1, b - 1); }
    if e < d { MulMono(e, d - 1, b - 1); }
  }

  /** The single-block shape never meets the inclusion/exclusion bound, so the
      only shape whose degree computation can overflow is invalid anyway. */
  lemma OneBlockIsInsecure(p: EmvpParams)
    requires WellShaped(p) && p.b > p.k
    ensures p.b == 2 * p.k && !ResistsInclusionExclusion(p)
  {
    var q := 2 * p.k / p.b;
    assert 2 * p.k == q * p.b;
    if q >= 2 { MulMono(2, q, p.b); }
    if q <= 0 { MulMono(q, 0, p.b); }
    assert q == 1 && (q + 1) * p.k == 2 * p.k;
  }

  /** The inclusion/exclusion constraint caps the level: a set of `s` blocks
      resists exactly the levels below `(s - 1) * k`, and one block resists none. */
  lemma InclusionExclusionLevels(p: EmvpParams)
    requires WellShaped(p)
    ensures ResistsInclusionExclusion(p) <==> 2 * p.k / p.b >= 2 && (2 * p.k / p.b - 1) * p.k > p.lambda
    ensures forall level: nat :: ResistsInclusionExclusion(p.(lambda := level)) <==> level < (2 * p.k / p.b - 1) * p.k
  {
    var s := 2 * p.k / p.b;
    assert 2 * p.k == s * p.b;
    if s <= 0 { MulMono(s, 0, p.b); }
    assert (s + 1) * p.k == (s - 1) * p.k + 2 * p.k;
    if s < 2 { assert (s - 1) * p.k == 0; }
  }

  /** With a block size `2^t` the algebraic constraint is a bound on exponents:
      degrees from the block size up give `t` bits each, and a lower degree `2^u`
      gives `t` bits for all but one of its factors and `u` for the last. */
  lemma {:induction false} AlgebraicLevels(p: EmvpParams, d: nat, t: nat, u: nat)
    requires p.b == Pow2(t) && IsDegree(p.k, p.b, d)
    ensures d >= p.b ==> (ResistsAlgebraicAttack(p) <==> t * d >= p.lambda)
    ensures d == Pow2(u) <= p.b ==> (ResistsAlgebraicAttack(p) <==> t * (d - 1) + u >= p.lambda)
  {
    forall e: nat | IsDegree(p.k, p.b, e) ensures e == d { DegreeIsUnique(p.k, p.b, d, e); }
    hide IsDegree;
    PowerOfTwoPower(t, d - 1);
    if d >= p.b {
      Pow2Add(t, t * (d - 1));
      assert t + t * (d - 1) == t * d;
      ExponentOrder(t * d, p.lambda);
    }
    if d == Pow2(u) <= p.b {
      Pow2Add(u, t * (d - 1));
      ExponentOrder(t * (d - 1) + u, p.lambda);
    }
  }

  lemma {:induction false} PowerOfTwoPower(t: nat, e: nat)
    ensures t * e >= 0 && Pow(Pow2(t), e) == Pow2(t * e)
  {
    Pow2IsPow(t);
    PowMul(2, t, e);
    Pow2IsPow(t * e);
  }

  lemma {:induction false} ExponentOrder(m: nat, n: nat)
    ensures Pow2(m) >= Pow2(n) <==> m >= n
  {
    if m < n { Pow2Mono(m, n); } else { Pow2Mono(n, m); }
  }

  /** Blocks of two: the algebraic constraint is the rank itself. */
  lemma BlocksOfTwo(p: EmvpParams)
    requires p.b == 2 && p.k >= 2
    ensures ResistsAlgebraicAttack(p) <==> p.k >= p.lambda
  {
    assert Pow2(1) == 2 * Pow2(0);
    assert IsDegree(p.k, 2, p.k);
    AlgebraicLevels(p, p.k, 1, 0);
  }

  /** Rank 128 with blocks of two is sound at level 128; one block is not, nor is
      rank 127 with blocks of two. */
  lemma SmallestAt128()
    ensures Sound(EmvpParams(128, 128, 2, 128))
    ensures !Sound(EmvpParams(128, 128, 256, 128)) && !Sound(EmvpParams(127, 127, 2, 128))
  {
    var p := EmvpParams(128, 128, 2, 128);
    BlocksOfTwo(p);
    InclusionExclusionLevels(p);
    InclusionExclusionLevels(EmvpParams(128, 128, 256, 128));
    BlocksOfTwo(EmvpParams(127, 127, 2, 128));
  }

  function ValidateDimensions(p: EmvpParams): (v: Verdict)
    ensures v.Valid? <==> WellShaped(p)
    ensures v.Rejected? ==> match v.error
      case ZeroEll => p.ell == 0
      case EllExceedsRank => p.ell > p.k
      case BlockTooSmall => p.b < 2 && 1 <= p.ell <= p.k
      case DimensionOverflow => 2 * p.k >= TWO64 && p.b >= 2 && 1 <= p.ell <= p.k
      case BlockDoesNotDivideLength => 2 * p.k < TWO64 && p.b >= 2 && !Divides(p.b, 2 * p.k)
      case _ => false
  {
    if p.ell == 0 then Rejected(ZeroEll)
    else if p.ell > p.k then Rejected(EllExceedsRank)
    else if p.b < 2 then Rejected(BlockTooSmall)
    else if 2 * p.k >= TWO64 then Rejected(DimensionOverflow)
    else if 2 * p.k % p.b != 0 then Rejected(BlockDoesNotDivideLength)
    else Valid
  }

  lemma CubeFits(blocks: nat, k: nat)
    requires blocks < TWO64 && 2 * k < TWO64
    ensures (blocks + 1) * k < TWO128
  {
    MulMono(blocks + 1, TWO64, k);
    MulMono(k, TWO64 - 1, TWO64);
  }

  lemma QuotientBound(n: nat, b: nat)
    requires b >= 1
    ensures 0 <= n / b <= n
  {
    var q, r := n / b, n % b;
    assert n == q * b + r;
    if q < 0 { MulMono(q, -1, b); }
    if q > 0 { MulMono(1, b, q); }
  }

  /** `(n / b + 1) * k > n + lambda` in 128-bit arithmetic that cannot wrap. */
  method InclusionExclusion(p: EmvpParams) returns (resists: bool)
    requires WellShaped(p) && p.lambda < TWO32
    ensures resists <==> ResistsInclusionExclusion(p)
  {
    QuotientBound(2 * p.k, p.b);
    var blocks := 2 * p.k / p.b;
    CubeFits(blocks, p.k);
    assert (blocks + 1) * p.k == blocks * p.k + p.k;
    if blocks * p.k + p.k >= TWO128 { assert false; }
    return blocks * p.k + p.k > 2 * p.k + p.lambda;
  }

  method AlgebraicAttack(p: EmvpParams) returns (resists: bool)
    requires WellShaped(p) && p.lambda <= PROTOCOL_MAX_LAMBDA && p.k + (p.b - 1 - 1) < TWO64
    ensures resists <==> ResistsAlgebraicAttack(p)
  {
    var d := CeilDiv(p.k, p.b - 1);
    DegreeIsCeiling(p.k, p.b);
    assert d >= 1;
    hide IsDegree, Divides, ResistsAlgebraicAttack, Pow, Pow2;
    QuotientBound(p.k + (p.b - 1 - 1), p.b - 1);
    ghost var steps;
    resists, steps := ScaledPowGePow2(p.b, d - 1, Min(p.b, d), p.lambda);
    AlgebraicVerdict(p, d, resists);
  }

  lemma FloorTest(k: nat, lambda: nat)
    ensures k < CeilDiv(lambda, 4) <==> 4 * k < lambda
  {
  }

  /** A set validates exactly when it meets every documented constraint, and a
      rejection names a constraint that fails. */
  method Validate(p: EmvpParams) returns (v: Verdict)
    requires MachineWords(p)
    ensures v.Valid? <==> Sound(p)
    ensures v.Rejected? ==> match v.error
      case LambdaOutOfScope => p.lambda > PROTOCOL_MAX_LAMBDA
      case RankBelowSecurityFloor => WellShaped(p) && 4 * p.k < p.lambda
      case InsecureAgainstAlgebraicAttack => WellShaped(p) && !ResistsAlgebraicAttack(p)
      case InsecureAgainstInclusionExclusion => WellShaped(p) && !ResistsInclusionExclusion(p)
      case DimensionOverflow => 2 * p.k >= TWO64 || !ResistsInclusionExclusion(p)
      case SearchExhausted => false
      case _ => !WellShaped(p)
  {
    if p.lambda > PROTOCOL_MAX_LAMBDA { return Rejected(LambdaOutOfScope); }
    v := ValidateDimensions(p);
    if v.Rejected? { return; }
    FloorTest(p.k, p.lambda);
    if p.k < CeilDiv(p.lambda, 4) { return Rejected(RankBelowSecurityFloor); }
    if p.k + (p.b - 1 - 1) >= TWO64 {
      OneBlockIsInsecure(p);
      return Rejected(DimensionOverflow);
    }
    var resists := AlgebraicAttack(p);
    if !resists { return Rejected(InsecureAgainstAlgebraicAttack); }
    resists := InclusionExclusion(p);
    if !resists { return Rejected(InsecureAgainstInclusionExclusion); }
    v := Valid;
  }

  lemma {:induction false} AlgebraicVerdict(p: EmvpParams, d: nat, resists: bool)
    requires IsDegree(p.k, p.b, d)
    requires p.lambda == 0 ==> resists
    requires p.lambda >= 1 ==> (resists <==> Min(p.b, d) * Pow(p.b, d - 1) >= Pow2(p.lambda))
    ensures resists <==> ResistsAlgebraicAttack(p)
  {
    if p.lambda == 0 {
      PowPositive(p.b, d - 1);
      MulMono(1, Min(p.b, d), Pow(p.b, d - 1));
      assert Pow2(0) == 1;
    }
    forall e: nat | IsDegree(p.k, p.b, e) ensures e == d { DegreeIsUnique(p.k, p.b, d, e); }
  }

  lemma {:induction false} PowPositive(b: nat, e: nat)
    requires b >= 1
    ensures Pow(b, e) >= 1
  {
    if e > 0 { PowPositive(b, e - 1); MulMono(1, Pow(b, e - 1), b); }
  }

  // ----- Divisors -----

  ghost predicate Ascending(s: seq<nat>) { forall i, j | 0 <= i < j < |s| :: s[i] < s[j] }

  ghost predicate NoRepeats(s: seq<nat>) { forall i, j | 0 <= i < j < |s| :: s[i] != s[j] }

  function Insert(x: nat, s: seq<nat>): seq<nat> {
    if s == [] || x <= s[0] then [x] + s else [s[0]] + Insert(x, s[1..])
  }

  /** Stands for the library sort. */
  function Sort(s: seq<nat>): seq<nat> {
    if s == [] then [] else Insert(s[0], Sort(s[1..]))
  }

  lemma {:induction false} InsertKeeps(x: nat, s: seq<nat>)
    requires Ascending(s) && x !in s
    ensures Ascending(Insert(x, s))
    ensures forall y :: y in Insert(x, s) <==> y == x || y in s
  {
    if s != [] && x > s[0] {
      var rest := s[1..];
      assert s == [s[0]] + rest;
      InsertKeeps(x, rest);
      forall y | y in Insert(x, rest) ensures y > s[0] { if y != x { LaterIsAbove(s, y); } }
      ConsAscending(s[0], Insert(x, rest));
    } else {
      forall y | y in s ensures y > x { if s != [] && y != s[0] { LaterIsAbove(s, y); } }
      ConsAscending(x, s);
    }
  }

  lemma LaterIsAbove(s: seq<nat>, y: nat)
    requires Ascending(s) && s != [] && y in s[1..]
    ensures y > s[0]
  {
    var j :| 0 <= j < |s| - 1 && s[1..][j] == y;
    assert s[j + 1] == y;
  }

  lemma ConsAscending(x: nat, t: seq<nat>)
    requires Ascending(t) && forall y | y in t :: y > x
    ensures Ascending([x] + t)
  {
    var u := [x] + t;
    forall i, j | 0 <= i < j < |u| ensures u[i] < u[j] {
      assert u[j] == t[j - 1] && t[j - 1] in t;
      if i > 0 { assert u[i] == t[i - 1]; }
    }
  }

  lemma {:induction false} SortKeeps(s: seq<nat>)
    requires NoRepeats(s)
    ensures Ascending(Sort(s))
    ensures forall y :: y in Sort(s) <==> y in s
  {
    if s != [] {
      SortKeeps(s[1..]);
      assert s == [s[0]] + s[1..];
      InsertKeeps(s[0], Sort(s[1..]));
    }
  }

  ghost predicate Listed(n: nat, limit: nat, x: nat) {
    Divides(x, n) && (x < limit || n / x < limit)
  }

  /** The cofactor of a divisor is a divisor whose cofactor is the first one. */
  lemma Cofactor(n: nat, d: nat)
    requires n >= 1 && Divides(d, n)
    ensures n / d >= 1 && n == d * (n / d) && Divides(n / d, n) && n / (n / d) == d
  {
    var q := n / d;
    assert n == d * q;
    if q <= 0 { MulMono(0, -q, d); assert false; }
    DivModUnique(n, d, 0, q);
  }

  /** Once the square passes `n`, every divisor is below the limit or has its
      cofactor below it. */
  lemma SquarePassed(n: nat, limit: nat, x: nat)
    requires n >= 1 && limit * limit > n && Divides(x, n)
    ensures x < limit || n / x < limit
  {
    Cofactor(n, x);
    if x >= limit && n / x >= limit {
      MulMono(limit, x, limit);
      MulMono(limit, n / x, x);
    }
  }

  lemma CofactorOrder(n: nat, d: nat, x: nat)
    requires n >= 1 && Divides(d, n) && Divides(x, n) && x == n / d
    requires d * d <= n
    ensures x >= d
  {
    Cofactor(n, d);
    if x < d { MulMono(x + 1, d, d); }
  }

  /** The square-root loop lists every divisor exactly once, in order. */
  method Divisors(n: nat) returns (divisors: seq<nat>)
    requires 1 <= n < TWO64
    ensures Ascending(divisors)
    ensures forall x :: x in divisors <==> Divides(x, n)
  {
    var divisor: nat := 1;
    divisors := [];
    while divisor * divisor < TWO64 && divisor * divisor <= n
      invariant divisor >= 1 && NoRepeats(divisors)
      invariant forall x :: x in divisors <==> Listed(n, divisor, x)
      decreases n + 1 - divisor
    {
      MulMono(1, divisor, divisor);
      if n % divisor == 0 {
        Cofactor(n, divisor);
        CofactorOrder(n, divisor, n / divisor);
        assert !Listed(n, divisor, divisor) && !Listed(n, divisor, n / divisor);
        divisors := divisors + [divisor];
        if divisor != n / divisor {
          divisors := divisors + [n / divisor];
        }
      }
      forall x: nat ensures x in divisors <==> Listed(n, divisor + 1, x) {
        if Divides(x, n) { Cofactor(n, x); }
      }
      divisor := divisor + 1;
    }
    forall x ensures x in divisors <==> Divides(x, n) {
      if Divides(x, n) { SquarePassed(n, divisor, x); }
    }
    SortKeeps(divisors);
    divisors := Sort(divisors);
  }

  // ----- Search -----

  function RankFloor(ell: nat, lambda: nat): nat { Max(ell, CeilDiv(lambda, 4)) }

  /** No set with this record length and level and a rank below `limit` is sound. */
  ghost predicate NoneBelow(ell: nat, lambda: nat, limit: nat) {
    forall k: nat, b: nat | k < limit :: !Sound(EmvpParams(k, ell, b, lambda))
  }

  lemma NothingBelowFloor(ell: nat, lambda: nat)
    ensures NoneBelow(ell, lambda, RankFloor(ell, lambda))
  {
    forall k: nat, b: nat | k < RankFloor(ell, lambda) ensures !Sound(EmvpParams(k, ell, b, lambda)) {
      FloorTest(k, lambda);
    }
  }

  /** The best set is the least rank with a sound block size, and the largest
      sound block size at that rank. */
  ghost predicate Best(p: EmvpParams) {
    && Sound(p)
    && NoneBelow(p.ell, p.lambda, p.k)
    && forall b: nat | b > p.b :: !Sound(EmvpParams(p.k, p.ell, b, p.lambda))
  }

  /** The largest sound block size at one rank, if there is one. */
  method BestBlock(k: nat, ell: nat, lambda: nat) returns (found: bool, b: nat)
    requires 1 <= k && 2 * k < TWO64 && ell < TWO64 && lambda < TWO32
    ensures found ==> Sound(EmvpParams(k, ell, b, lambda)) && b < TWO64
    ensures found ==> forall c: nat | c > b :: !Sound(EmvpParams(k, ell, c, lambda))
    ensures !found ==> forall c: nat :: !Sound(EmvpParams(k, ell, c, lambda))
  {
    var divisors := Divisors(2 * k);
    var i := |divisors|;
    b := 0;
    while i > 0
      invariant 0 <= i <= |divisors|
      invariant forall j | i <= j < |divisors| :: !Sound(EmvpParams(k, ell, divisors[j], lambda))
    {
      i := i - 1;
      b := divisors[i];
      assert b in divisors;
      DivisorBound(b, 2 * k);
      if b >= 2 {
        var params := EmvpParams(k, ell, b, lambda);
        var verdict := Validate(params);
        if verdict.Valid? {
          forall c: nat | c > b ensures !Sound(EmvpParams(k, ell, c, lambda)) {
            LaterDivisor(divisors, i, k, ell, c, lambda);
          }
          return true, b;
        }
      }
    }
    found := false;
    forall c: nat ensures !Sound(EmvpParams(k, ell, c, lambda)) {
      assert c in divisors <==> Divides(c, 2 * k);
    }
  }

  lemma DivisorBound(d: nat, n: nat)
    requires n >= 1 && Divides(d, n)
    ensures d <= n
  {
    Cofactor(n, d);
    MulMono(1, n / d, d);
  }

  lemma LaterDivisor(divisors: seq<nat>, i: nat, k: nat, ell: nat, c: nat, lambda: nat)
    requires Ascending(divisors) && i < |divisors| && c > divisors[i]
    requires forall x :: x in divisors <==> Divides(x, 2 * k)
    requires forall j | i < j < |divisors| :: !Sound(EmvpParams(k, ell, divisors[j], lambda))
    ensures !Sound(EmvpParams(k, ell, c, lambda))
  {
    if c in divisors {
      var j :| 0 <= j < |divisors| && divisors[j] == c;
      assert j > i;
    }
  }

  /** The search returns the best set of all, and reports exhaustion only when no
      rank in its budget has a feasible divisor. */
  method Search(ell: nat, lambda: nat) returns (r: SearchResult)
    requires ell < TWO64 && lambda < TWO32
    ensures r.Found? ==> Best(r.params) && r.params.ell == ell && r.params.lambda == lambda
    ensures r.NotFound? ==> match r.error
      case ZeroEll => ell == 0
      case LambdaOutOfScope => lambda > PROTOCOL_MAX_LAMBDA
      case DimensionOverflow =>
        RankFloor(ell, lambda) + SEARCH_RANK_BUDGET >= TWO64 || forall k: nat :: NoneBelow(ell, lambda, k)
      case SearchExhausted => ell > 0 && NoneBelow(ell, lambda, RankFloor(ell, lambda) + SEARCH_RANK_BUDGET)
      case _ => false
  {
    if ell == 0 { return NotFound(ZeroEll); }
    if lambda > PROTOCOL_MAX_LAMBDA { return NotFound(LambdaOutOfScope); }
    var floor := RankFloor(ell, lambda);
    var last := floor + SEARCH_RANK_BUDGET;
    if last >= TWO64 { return NotFound(DimensionOverflow); }
    NothingBelowFloor(ell, lambda);
    var k := floor;
    while k < last
      invariant floor <= k <= last && NoneBelow(ell, lambda, k)
    {
      if 2 * k >= TWO64 {
        return NotFound(DimensionOverflow);
      }
      var found, b := BestBlock(k, ell, lambda);
      if found { return Found(EmvpParams(k, ell, b, lambda)); }
      k := k + 1;
    }
    r := NotFound(SearchExhausted);
  }
}
