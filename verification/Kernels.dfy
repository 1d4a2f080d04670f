/** Prime-field kernels over flat slices. A field element is its canonical
    integer residue modulo `p`. */
module Kernels {
  import opened Arithmetic
  import opened Sums

  datatype KernelError =
    | SliceMismatch(expected: nat, actual: nat)
    | ZeroBatchWidth
    | ShapeOverflow
    | IndexOutOfBounds(entry: nat, index: nat, outputLen: nat)

  datatype KernelResult = Done | Failed(error: KernelError)

  ghost predicate Canonical(s: seq<int>, p: int) { forall i | 0 <= i < |s| :: 0 <= s[i] < p }

  // ----- Field operations on canonical residues -----

  function FAdd(a: int, b: int, p: int): int
    requires p > 0
  {
    (a + b) % p
  }

  function FSub(a: int, b: int, p: int): int
    requires p > 0
  {
    (a - b) % p
  }

  function FMul(a: int, b: int, p: int): int
    requires p > 0
  {
    (a * b) % p
  }

  function FNeg(a: int, p: int): int
    requires p > 0
  {
    (-a) % p
  }

  // ----- Dot products -----

  function Term(lhs: seq<int>, rhs: seq<int>, i: int): int { At(lhs, i) * At(rhs, i) }

  ghost function Dot(lhs: seq<int>, rhs: seq<int>, n: nat): int { Sum(i => Term(lhs, rhs, i), n) }

  /** Against a unit vector a dot product picks one element. */
  lemma DotPicks(lhs: seq<int>, rhs: seq<int>, n: nat, j: nat)
    requires j < n && forall i | 0 <= i < n :: At(lhs, i) == if i == j then 1 else 0
    ensures Dot(lhs, rhs, n) == At(rhs, j)
  {
    var f := i => Term(lhs, rhs, i);
    forall i | 0 <= i < n && i != j ensures f(i) == 0 { assert 0 * At(rhs, i) == 0; }
    SumOnly(f, n, j);
  }

  /** Adding one product to each lane adds all four to the total. */
  lemma LaneStep(s0: int, s1: int, s2: int, s3: int, x0: int, x1: int, x2: int, x3: int, p: int)
    requires p > 0
    ensures (FAdd(s0, x0 % p, p) + FAdd(s1, x1 % p, p) + FAdd(s2, x2 % p, p) + FAdd(s3, x3 % p, p)) % p
            == (s0 + s1 + s2 + s3 + x0 + x1 + x2 + x3) % p
  {
    ModAdd(s0, x0, p);
    ModAdd(s1, x1, p);
    ModAdd(s2, x2, p);
    ModAdd(s3, x3, p);
    FourResidues(s0 + x0, s1 + x1, s2 + x2, s3 + x3, p);
  }

  lemma FourResidues(a: int, b: int, c: int, d: int, p: int)
    requires p > 0
    ensures (a % p + b % p + c % p + d % p) % p == (a + b + c + d) % p
  {
    ModAdd(a, b % p + c % p + d % p, p);
    ModAdd(b, a + c % p + d % p, p);
    ModAdd(c, a + b + d % p, p);
    ModAdd(d, a + b + c, p);
  }

  lemma FoldLanes(s0: int, s1: int, s2: int, s3: int, p: int)
    requires p > 0
    ensures FAdd(FAdd(FAdd(FAdd(0, s0, p), s1, p), s2, p), s3, p) == (s0 + s1 + s2 + s3) % p
  {
    ModAdd(s0, s1, p);
    ModAdd(s0 + s1, s2, p);
    ModAdd(s0 + s1 + s2, s3, p);
  }

  ghost predicate Lanes(s0: int, s1: int, s2: int, s3: int, sum: int, p: int)
    requires p > 0
  {
    (s0 + s1 + s2 + s3) % p == sum % p
  }

  /** One lane takes one product. */
  function MulAcc(s: int, lhs: seq<int>, rhs: seq<int>, i: int, p: int): int
    requires p > 0
  {
    FAdd(s, FMul(At(lhs, i), At(rhs, i), p), p)
  }

  lemma ChunkStep(lhs: seq<int>, rhs: seq<int>, i: nat, s0: int, s1: int, s2: int, s3: int, p: int)
    requires p > 0 && Lanes(s0, s1, s2, s3, Dot(lhs, rhs, i), p)
    ensures Lanes(MulAcc(s0, lhs, rhs, i, p), MulAcc(s1, lhs, rhs, i + 1, p), MulAcc(s2, lhs, rhs, i + 2, p),
                  MulAcc(s3, lhs, rhs, i + 3, p), Dot(lhs, rhs, i + 4), p)
  {
    var x0, x1, x2, x3 := Term(lhs, rhs, i), Term(lhs, rhs, i + 1), Term(lhs, rhs, i + 2), Term(lhs, rhs, i + 3);
    LaneStep(s0, s1, s2, s3, x0, x1, x2, x3, p);
    var before := Dot(lhs, rhs, i);
    var f := i => Term(lhs, rhs, i);
    assert Sum(f, i + 1) == Sum(f, i) + x0;
    assert Sum(f, i + 2) == Sum(f, i + 1) + x1;
    assert Sum(f, i + 3) == Sum(f, i + 2) + x2;
    assert Sum(f, i + 4) == Sum(f, i + 3) + x3;
    ModAdd(s0 + s1 + s2 + s3, x0 + x1 + x2 + x3, p);
    ModAdd(before, x0 + x1 + x2 + x3, p);
  }

  lemma TailStep(lhs: seq<int>, rhs: seq<int>, i: nat, s0: int, s1: int, s2: int, s3: int, p: int)
    requires p > 0 && Lanes(s0, s1, s2, s3, Dot(lhs, rhs, i), p)
    ensures Lanes(MulAcc(s0, lhs, rhs, i, p), s1, s2, s3, Dot(lhs, rhs, i + 1), p)
  {
    var x := Term(lhs, rhs, i);
    ModAdd(s0, x, p);
    ModAdd(s0 + x, s1 + s2 + s3, p);
    ModAdd(s0 + s1 + s2 + s3, x, p);
    ModAdd(Dot(lhs, rhs, i), x, p);
  }

  /** Four independent accumulators compute the plain dot product. */
  method LaneDot(lhs: seq<int>, rhs: seq<int>, p: int) returns (r: int)
    requires p > 0 && |lhs| == |rhs|
    ensures r == Dot(lhs, rhs, |lhs|) % p
  {
    var s0, s1, s2, s3 := 0, 0, 0, 0;
    var i := 0;
    while i + 4 <= |lhs|
      invariant 0 <= i <= |lhs|
      invariant Lanes(s0, s1, s2, s3, Dot(lhs, rhs, i), p)
    {
      ChunkStep(lhs, rhs, i, s0, s1, s2, s3, p);
      s0 := MulAcc(s0, lhs, rhs, i, p);
      s1 := MulAcc(s1, lhs, rhs, i + 1, p);
      s2 := MulAcc(s2, lhs, rhs, i + 2, p);
      s3 := MulAcc(s3, lhs, rhs, i + 3, p);
      i := i + 4;
    }
    while i < |lhs|
      invariant 0 <= i <= |lhs|
      invariant Lanes(s0, s1, s2, s3, Dot(lhs, rhs, i), p)
    {
      TailStep(lhs, rhs, i, s0, s1, s2, s3, p);
      s0 := MulAcc(s0, lhs, rhs, i, p);
      i := i + 1;
    }
    FoldLanes(s0, s1, s2, s3, p);
    r := FAdd(FAdd(FAdd(FAdd(0, s0, p), s1, p), s2, p), s3, p);
  }

  datatype DotResult = DotValue(value: int) | DotFailed(error: KernelError)

  method DotProduct(lhs: seq<int>, rhs: seq<int>, p: int) returns (r: DotResult)
    requires p > 0
    ensures r.DotValue? <==> |lhs| == |rhs|
    ensures r.DotValue? ==> r.value == Dot(lhs, rhs, |lhs|) % p
    ensures r.DotFailed? ==> r.error == SliceMismatch(|lhs|, |rhs|)
  {
    if |lhs| != |rhs| { return DotFailed(SliceMismatch(|lhs|, |rhs|)); }
    var value := LaneDot(lhs, rhs, p);
    r := DotValue(value);
  }

  // ----- Weighted prefix sums -----

  /** The weighted prefix sum of lane `lane` up to and including position `i`. */
  ghost function Prefix(values: seq<int>, weights: seq<int>, width: int, lane: int, i: nat): int {
    Sum(j => At(values, j * width + lane) * At(weights, j), i + 1)
  }

  lemma PrefixStep(values: seq<int>, weights: seq<int>, width: int, lane: int, i: nat, sum: int, p: int)
    requires p > 0
    requires i > 0 ==> sum == Prefix(values, weights, width, lane, i - 1) % p
    requires i == 0 ==> sum == 0
    ensures FAdd(sum, FMul(At(values, i * width + lane), At(weights, i), p), p)
            == Prefix(values, weights, width, lane, i) % p
  {
    var f := j => At(values, j * width + lane) * At(weights, j);
    var x := f(i);
    assert Sum(f, i + 1) == Sum(f, i) + x;
    if i == 0 { assert Sum(f, 0) == 0; }
    ModAdd(Sum(f, i), x, p);
    ModAdd(sum, x, p);
    ModAdd(Sum(f, i), x % p, p);
  }

  /** A scan starts with the first weighted value and adds one weighted value per
      position; a lane of an interleaved matrix scans as its own vector would. */
  lemma PrefixLaws(values: seq<int>, weights: seq<int>, width: int, lane: int, i: nat)
    ensures Prefix(values, weights, width, lane, 0) == At(values, lane) * At(weights, 0)
    ensures i > 0 ==> Prefix(values, weights, width, lane, i)
                      == Prefix(values, weights, width, lane, i - 1) + At(values, i * width + lane) * At(weights, i)
    ensures Prefix(values, weights, width, lane, i) == Prefix(seq(i + 1, t => At(values, t * width + lane)), weights, 1, 0, i)
  {
    var f := j => At(values, j * width + lane) * At(weights, j);
    assert Sum(f, 1) == Sum(f, 0) + f(0);
    assert i > 0 ==> Sum(f, i + 1) == Sum(f, i) + f(i);
    var column := seq(i + 1, t => At(values, t * width + lane));
    hide Sum;
    SumExt(f, j => At(column, j * 1 + 0) * At(weights, j), i + 1);
  }

  method WeightedScan(values: array<int>, weights: seq<int>, p: int) returns (r: KernelResult)
    requires p > 0
    modifies values
    ensures r.Done? <==> values.Length == |weights|
    ensures r.Failed? ==> values[..] == old(values[..])
    ensures r.Done? ==> forall i | 0 <= i < values.Length ::
              values[i] == Prefix(old(values[..]), weights, 1, 0, i) % p
  {
    if values.Length != |weights| { return Failed(SliceMismatch(values.Length, |weights|)); }
    ghost var was := values[..];
    var sum := 0;
    var i := 0;
    while i < values.Length
      invariant 0 <= i <= values.Length
      invariant sum == if i == 0 then 0 else Prefix(was, weights, 1, 0, i - 1) % p
      invariant forall j | i <= j < values.Length :: values[j] == was[j]
      invariant forall j | 0 <= j < i :: values[j] == Prefix(was, weights, 1, 0, j) % p
    {
      PrefixStep(was, weights, 1, 0, i, sum, p);
      sum := FAdd(sum, FMul(values[i], weights[i], p), p);
      values[i] := sum;
      i := i + 1;
    }
    r := Done;
  }

  /** Every lane of the flat `[position][lane]` matrix scans independently; each
      finished row is the accumulator of the next. */
  method BatchedWeightedScan(values: array<int>, weights: seq<int>, width: nat, p: int) returns (r: KernelResult)
    requires p > 0
    modifies values
    ensures r == if width == 0 then Failed(ZeroBatchWidth)
                 else if |weights| * width >= TWO64 then Failed(ShapeOverflow)
                 else if |weights| * width != values.Length then Failed(SliceMismatch(|weights| * width, values.Length))
                 else Done
    ensures r.Failed? ==> values[..] == old(values[..])
    ensures r.Done? ==> forall i, lane | 0 <= i < |weights| && 0 <= lane < width ::
              At(values[..], i * width + lane) == Prefix(old(values[..]), weights, width, lane, i) % p
  {
    if width == 0 { return Failed(ZeroBatchWidth); }
    if |weights| * width >= TWO64 { return Failed(ShapeOverflow); }
    if |weights| * width != values.Length { return Failed(SliceMismatch(|weights| * width, values.Length)); }
    r := Done;
    ghost var was := values[..];
    var position := 0;
    while position < |weights|
      invariant 0 <= position <= |weights|
      invariant ScannedRows(values[..], was, weights, width, position, p)
      invariant Untouched(values[..], was, position * width)
    {
      CellBound(position, |weights|, 0, width);
      ScanRow(values, weights, width, position, p, was);
      position := position + 1;
    }
  }

  ghost predicate ScannedRows(values: seq<int>, was: seq<int>, weights: seq<int>, width: int, rows: int, p: int)
    requires p > 0
  {
    forall i: nat, lane | i < rows && 0 <= lane < width ::
      At(values, i * width + lane) == Prefix(was, weights, width, lane, i) % p
  }

  ghost predicate Untouched(values: seq<int>, was: seq<int>, from: int) {
    |values| == |was| && forall x | from <= x < |was| && 0 <= x :: values[x] == was[x]
  }

  method ScanRow(values: array<int>, weights: seq<int>, width: nat, position: nat, p: int, ghost was: seq<int>)
    requires p > 0 && width > 0 && position < |weights| && values.Length == |weights| * width
    requires ScannedRows(values[..], was, weights, width, position, p)
    requires Untouched(values[..], was, position * width)
    modifies values
    ensures ScannedRows(values[..], was, weights, width, position + 1, p)
    ensures Untouched(values[..], was, (position + 1) * width)
  {
    var start := position * width;
    CellBound(position, |weights|, 0, width);
    ghost var before := values[..];
    var lane := 0;
    while lane < width
      invariant 0 <= lane <= width
      invariant forall x | 0 <= x < values.Length && !(start <= x < start + lane) :: values[x] == before[x]
      invariant forall l | 0 <= l < lane :: values[start + l] == Prefix(was, weights, width, l, position) % p
    {
      PrefixCell(before, was, weights, width, position, lane, p);
      if position == 0 {
        values[lane] := FMul(values[lane], weights[0], p);
      } else {
        CellBound(position - 1, |weights|, lane, width);
        values[start + lane] := FAdd(values[start - width + lane], FMul(values[start + lane], weights[position], p), p);
      }
      lane := lane + 1;
    }
    forall i: nat, l | i < position + 1 && 0 <= l < width
      ensures At(values[..], i * width + l) == Prefix(was, weights, width, l, i) % p
    {
      CellBound(i, |weights|, l, width);
      if i < position {
        CellBound(i, position, l, width);
        assert At(before, i * width + l) == Prefix(was, weights, width, l, i) % p;
      }
    }
  }

  lemma PrefixCell(before: seq<int>, was: seq<int>, weights: seq<int>, width: nat, position: nat, lane: nat, p: int)
    requires p > 0 && lane < width && position < |weights| && |before| == |weights| * width
    requires ScannedRows(before, was, weights, width, position, p) && Untouched(before, was, position * width)
    ensures 0 <= position * width + lane < |before|
    ensures var x := FMul(before[position * width + lane], weights[position], p);
            && (position == 0 ==> x == Prefix(was, weights, width, lane, position) % p)
            && (position > 0 ==>
                  && 0 <= position * width - width + lane < |before|
                  && FAdd(before[position * width - width + lane], x, p)
                     == Prefix(was, weights, width, lane, position) % p)
  {
    hide Prefix;
    CellBound(position, |weights|, lane, width);
    if position == 0 {
      PrefixStep(was, weights, width, lane, 0, 0, p);
    } else {
      CellBound(position - 1, |weights|, lane, width);
      assert (position - 1) * width + lane == position * width - width + lane;
      var sum := At(before, (position - 1) * width + lane);
      PrefixStep(was, weights, width, lane, position, sum, p);
    }
  }

  // ----- Sparse accumulation -----

  datatype IndexedValue = IndexedValue(index: nat, value: int)

  function Hit(entries: seq<IndexedValue>, k: int, e: int): int {
    if 0 <= e < |entries| && entries[e].index == k then entries[e].value else 0
  }

  ghost function HitSum(entries: seq<IndexedValue>, k: int, n: nat): int { Sum(d => Hit(entries, k, d), n) }

  /** One entry lands on its own index and nowhere else. */
  lemma OneHit(entry: IndexedValue, k: int)
    ensures HitSum([entry], k, 1) == if k == entry.index then entry.value else 0
  {
    var f := d => Hit([entry], k, d);
    assert Sum(f, 1) == Sum(f, 0) + f(0);
  }

  /** Nothing is lost or made up: over all positions, the entries add exactly the
      sum of their values. */
  lemma HitsConserve(entries: seq<IndexedValue>, length: nat)
    requires forall e | 0 <= e < |entries| :: entries[e].index < length
    ensures Sum(k => HitSum(entries, k, |entries|), length)
            == Sum(e => if 0 <= e < |entries| then entries[e].value else 0, |entries|)
  {
    var n := |entries|;
    var f := (k, e) => Hit(entries, k, e);
    var value := e => if 0 <= e < n then entries[e].value else 0;
    SumSwap(f, length, n);
    forall e | 0 <= e < n ensures Sum(k => f(k, e), length) == value(e) {
      SumOnly(k => f(k, e), length, entries[e].index);
    }
    hide Sum;
    SumExt(k => HitSum(entries, k, n), k => Sum(e => f(k, e), n), length) by {
      forall k | 0 <= k < length ensures HitSum(entries, k, n) == Sum(e => f(k, e), n) {
        SumExt(d => Hit(entries, k, d), e => f(k, e), n);
      }
    }
    SumExt(e => Sum(k => f(k, e), length), value, n);
  }

  /** Repeated indices accumulate; a bad index is reported before any write. */
  method SparseAccumulate(output: array<int>, entries: seq<IndexedValue>, p: int) returns (r: KernelResult)
    requires p > 0 && Canonical(output[..], p)
    modifies output
    ensures r.Done? <==> forall e | 0 <= e < |entries| :: entries[e].index < output.Length
    ensures r.Failed? ==> output[..] == old(output[..])
    ensures r.Failed? ==>
              && r.error.IndexOutOfBounds? && r.error.entry < |entries|
              && r.error.index == entries[r.error.entry].index >= output.Length == r.error.outputLen
              && forall e | 0 <= e < r.error.entry :: entries[e].index < output.Length
    ensures r.Done? ==> forall k | 0 <= k < output.Length ::
              output[k] == (old(output[k]) + HitSum(entries, k, |entries|)) % p
  {
    hide HitSum, Canonical, Accumulated, FAdd;
    var e := 0;
    while e < |entries|
      invariant 0 <= e <= |entries|
      invariant forall d | 0 <= d < e :: entries[d].index < output.Length
    {
      if entries[e].index >= output.Length {
        return Failed(IndexOutOfBounds(e, entries[e].index, output.Length));
      }
      e := e + 1;
    }
    ghost var was := output[..];
    NoHits(entries, was, p);
    e := 0;
    while e < |entries|
      invariant 0 <= e <= |entries| && Accumulated(output[..], was, entries, e, p)
    {
      var entry := entries[e];
      EntryLands(output[..], was, entries, e, p);
      output[entry.index] := FAdd(output[entry.index], entry.value, p);
      e := e + 1;
    }
    AllAccumulated(output[..], was, entries, p);
    r := Done;
  }

  /** What the output holds once the first `e` entries are in. */
  ghost predicate Accumulated(values: seq<int>, was: seq<int>, entries: seq<IndexedValue>, e: nat, p: int)
    requires p > 0
  {
    |values| == |was| && forall k | 0 <= k < |was| :: values[k] == (was[k] + HitSum(entries, k, e)) % p
  }

  lemma EntryLands(values: seq<int>, was: seq<int>, entries: seq<IndexedValue>, e: nat, p: int)
    requires p > 0 && Accumulated(values, was, entries, e, p) && e < |entries| && entries[e].index < |values|
    ensures Accumulated(values[entries[e].index := FAdd(values[entries[e].index], entries[e].value, p)], was, entries, e + 1, p)
  {
    hide HitSum, FAdd;
    var after := values[entries[e].index := FAdd(values[entries[e].index], entries[e].value, p)];
    forall k | 0 <= k < |was| ensures after[k] == (was[k] + HitSum(entries, k, e + 1)) % p {
      HitStep(entries, k, e, was[k], values[k], p);
    }
  }

  lemma AllAccumulated(values: seq<int>, was: seq<int>, entries: seq<IndexedValue>, p: int)
    requires p > 0 && Accumulated(values, was, entries, |entries|, p)
    ensures |values| == |was| && forall k | 0 <= k < |was| :: values[k] == (was[k] + HitSum(entries, k, |entries|)) % p
  {
  }

  lemma NoHits(entries: seq<IndexedValue>, was: seq<int>, p: int)
    requires p > 0 && Canonical(was, p)
    ensures Accumulated(was, was, entries, 0, p)
  {
  }

  lemma HitStep(entries: seq<IndexedValue>, k: int, e: nat, start: int, current: int, p: int)
    requires p > 0 && e < |entries|
    requires current == (start + HitSum(entries, k, e)) % p
    ensures (if entries[e].index == k then FAdd(current, entries[e].value, p) else current)
            == (start + HitSum(entries, k, e + 1)) % p
  {
    assert HitSum(entries, k, e + 1) == HitSum(entries, k, e) + (if entries[e].index == k then entries[e].value else 0);
    hide HitSum;
    ModAdd(start + HitSum(entries, k, e), entries[e].value, p);
  }
}
