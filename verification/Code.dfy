/** The cyclic dual code with generator `[I | M_g]`: dual encoding of matrix
    rows, sampling of codewords, and their orthogonality. */
module Code {
  import opened Arithmetic
  import opened Kernels
  import opened Sums

  datatype Slice = DualEncodingRow | DualEncodingOutput | CodewordOutput | ScratchTransform | ScratchOperand | ScratchProduct

  datatype CodeStatus = Coded | Mismatch(name: Slice, expected: nat, actual: nat)

  /** Length and secret multiplier of a code, with the length of its transform. */
  datatype CyclicDualCode = CyclicDualCode(k: nat, multiplier: seq<int>, planLength: nat) {
    predicate Valid() {
      k > 0 && |multiplier| == k && (planLength == k || planLength >= 2 * k - 1)
    }
  }

  class CodeScratch {
    const transform: array<int>
    const operand: array<int>
    const product: array<int>

    ghost predicate Separate() { transform != operand && operand != product && transform != product }

    constructor (transformLength: nat, k: nat)
      ensures Separate() && fresh(transform) && fresh(operand) && fresh(product)
      ensures transform.Length == transformLength && operand.Length == k && product.Length == k
    {
      transform := new int[transformLength](i => 0);
      operand := new int[k](i => 0);
      product := new int[k](i => 0);
    }
  }

  // ----- Cyclic convolution -----

  function ConvTerm(g: seq<int>, m: seq<int>, k: nat, i: int, j: int): int
    requires k > 0
  {
    At(g, (i - j) % k) * At(m, j)
  }

  /** Coefficient `i` of the product modulo `X^k - 1`. */
  ghost function ConvCell(g: seq<int>, m: seq<int>, k: nat, i: int): int
    requires k > 0
  {
    Sum(j => ConvTerm(g, m, k, i, j), k)
  }

  /** The coefficient as a field element. */
  ghost function Conv(g: seq<int>, m: seq<int>, k: nat, p: int, i: int): int
    requires k > 0 && p > 0
  {
    ConvCell(g, m, k, i) % p
  }

  /** Coefficient `i` of the plain polynomial product. */
  ghost function LinearCell(g: seq<int>, m: seq<int>, k: nat, i: int): int {
    Sum(j => At(g, i - j) * At(m, j), k)
  }

  /** A transform of length at least `2k - 1` computes the plain product. */
  lemma LongCyclicIsLinear(g: seq<int>, m: seq<int>, k: nat, length: nat, i: nat)
    requires k > 0 && |g| <= k && |m| <= k && length >= 2 * k - 1 && i < length
    ensures ConvCell(g, m, length, i) == LinearCell(g, m, k, i)
  {
    var f := j => ConvTerm(g, m, length, i, j);
    var h := j => At(g, i - j) * At(m, j);
    forall j | 0 <= j < k ensures f(j) == h(j) { WrapBeyond(g, i, j, k, length); }
    SumExt(f, h, k);
    SumSplit(f, k, length - k);
    SumZero(j => f(k + j), length - k);
  }

  /** An index that wraps around a long transform reads only padding. */
  lemma WrapBeyond(g: seq<int>, i: nat, j: nat, k: nat, length: nat)
    requires |g| <= k && j < k && i < length && length >= 2 * k - 1
    ensures At(g, (i - j) % length) == At(g, i - j)
  {
    if j <= i {
      ModSmall(i - j, length);
    } else {
      ModShift(i - j, 1, length);
      ModSmall(i - j + length, length);
    }
  }

  /** Folding the high half of the plain product onto the low half gives the
      cyclic product. */
  lemma FoldIsCyclic(g: seq<int>, m: seq<int>, k: nat, i: nat)
    requires i < k && |g| == k
    ensures ConvCell(g, m, k, i) == LinearCell(g, m, k, i) + LinearCell(g, m, k, k + i)
  {
    var low := j => At(g, i - j) * At(m, j);
    var high := j => At(g, k + i - j) * At(m, j);
    var f := j => ConvTerm(g, m, k, i, j);
    SumPlus(low, high, k);
    forall j | 0 <= j < k ensures f(j) == low(j) + high(j) {
      if j <= i {
        ModSmall(i - j, k);
        assert At(g, k + i - j) == 0;
      } else {
        ModShift(i - j, 1, k);
        ModSmall(i - j + k, k);
        assert At(g, i - j) == 0;
      }
      assert 0 * At(m, j) == 0;
    }
    SumExt(f, j => low(j) + high(j), k);
  }

  /** The last coefficient has nothing to fold onto it. */
  lemma LastHasNoHigh(g: seq<int>, m: seq<int>, k: nat)
    requires k > 0 && |g| == k
    ensures LinearCell(g, m, k, 2 * k - 1) == 0
  {
    forall j | 0 <= j < k ensures At(g, 2 * k - 1 - j) * At(m, j) == 0 { assert 0 * At(m, j) == 0; }
    SumZero(j => At(g, 2 * k - 1 - j) * At(m, j), k);
  }

  /** Stands for forward transform, pointwise product with the cached spectrum,
      and inverse transform of one plan. */
  method PlanConvolve(transform: array<int>, length: nat, multiplier: seq<int>, p: int)
    requires p > 0 && 0 < length <= transform.Length
    modifies transform
    ensures forall i | 0 <= i < length :: transform[i] == Conv(multiplier, old(transform[..length]), length, p, i)
    ensures transform[length..] == old(transform[length..])
  {
    var input := transform[..length];
    var i := 0;
    while i < length
      invariant 0 <= i <= length
      invariant forall j | 0 <= j < i :: transform[j] == Conv(multiplier, input, length, p, j)
      invariant forall j | i <= j < transform.Length :: transform[j] == old(transform[j])
    {
      var sum, j := 0, 0;
      while j < length
        invariant 0 <= j <= length
        invariant sum == Sum(j => ConvTerm(multiplier, input, length, i, j), j)
      {
        sum := sum + ConvTerm(multiplier, input, length, i, j);
        j := j + 1;
      }
      transform[i] := sum % p;
      i := i + 1;
    }
  }

  method CopyPadded(source: seq<int>, target: array<int>, length: nat)
    requires length <= target.Length
    modifies target
    ensures forall i | 0 <= i < length :: target[i] == At(source, i)
    ensures target[length..] == old(target[length..])
  {
    var i := 0;
    while i < length
      invariant 0 <= i <= length
      invariant forall j | 0 <= j < i :: target[j] == At(source, j)
      invariant forall j | length <= j < target.Length :: target[j] == old(target[j])
    {
      target[i] := At(source, i);
      i := i + 1;
    }
  }

  /** Both plan lengths compute the convolution modulo `X^k - 1`. */
  method CyclicConvolve(code: CyclicDualCode, input: array<int>, output: array<int>, transform: array<int>, p: int)
    requires p > 0 && code.Valid() && input.Length >= code.k && output.Length >= code.k
    requires transform.Length >= code.planLength
    requires transform != input && transform != output && input != output
    modifies output, transform
    ensures forall i | 0 <= i < code.k :: output[i] == Conv(code.multiplier, input[..code.k], code.k, p, i)
  {
    var k, length := code.k, code.planLength;
    ghost var m := input[..k];
    CopyPadded(input[..k], transform, length);
    PaddedCells(code.multiplier, m, transform[..length], length);
    PlanConvolve(transform, length, code.multiplier, p);
    CopyPadded(transform[..length], output, k);
    if length != k { FoldHigh(code, output, transform, m, p); }
  }

  method FoldHigh(code: CyclicDualCode, output: array<int>, transform: array<int>, ghost m: seq<int>, p: int)
    requires p > 0 && code.Valid() && code.planLength != code.k && |m| == code.k
    requires output != transform && output.Length >= code.k && transform.Length >= code.planLength
    requires forall i | 0 <= i < code.planLength :: transform[i] == Conv(code.multiplier, m, code.planLength, p, i)
    requires forall i | 0 <= i < code.k :: output[i] == transform[i]
    modifies output
    ensures forall i | 0 <= i < code.k :: output[i] == Conv(code.multiplier, m, code.k, p, i)
  {
    var k, i := code.k, 0;
    while i < k - 1
      invariant 0 <= i <= k - 1
      invariant forall j | i <= j < k :: output[j] == transform[j]
      invariant forall j | 0 <= j < i :: output[j] == Conv(code.multiplier, m, k, p, j)
    {
      FoldedCell(code, m, i, p);
      output[i] := FAdd(output[i], transform[k + i], p);
      i := i + 1;
    }
    LastCell(code, m, p);
  }

  /** Zero padding does not change a convolution. */
  lemma PaddedCells(g: seq<int>, m: seq<int>, padded: seq<int>, length: nat)
    requires length > 0 && forall j | 0 <= j < length :: At(padded, j) == At(m, j)
    ensures forall i :: ConvCell(g, padded, length, i) == ConvCell(g, m, length, i)
  {
    forall i ensures ConvCell(g, padded, length, i) == ConvCell(g, m, length, i) {
      SumExt(j => ConvTerm(g, padded, length, i, j), j => ConvTerm(g, m, length, i, j), length);
    }
  }

  lemma FoldedCell(code: CyclicDualCode, m: seq<int>, i: nat, p: int)
    requires p > 0 && code.Valid() && |m| == code.k && code.planLength != code.k && i < code.k - 1
    ensures FAdd(Conv(code.multiplier, m, code.planLength, p, i), Conv(code.multiplier, m, code.planLength, p, code.k + i), p)
            == Conv(code.multiplier, m, code.k, p, i)
  {
    LongCyclicIsLinear(code.multiplier, m, code.k, code.planLength, i);
    LongCyclicIsLinear(code.multiplier, m, code.k, code.planLength, code.k + i);
    FoldIsCyclic(code.multiplier, m, code.k, i);
    ModAdd(LinearCell(code.multiplier, m, code.k, i), LinearCell(code.multiplier, m, code.k, code.k + i), p);
  }

  lemma LastCell(code: CyclicDualCode, m: seq<int>, p: int)
    requires p > 0 && code.Valid() && |m| == code.k && code.planLength != code.k
    ensures ConvCell(code.multiplier, m, code.planLength, code.k - 1) == ConvCell(code.multiplier, m, code.k, code.k - 1)
  {
    LongCyclicIsLinear(code.multiplier, m, code.k, code.planLength, code.k - 1);
    FoldIsCyclic(code.multiplier, m, code.k, code.k - 1);
    LastHasNoHigh(code.multiplier, m, code.k);
  }

  // ----- Dual encoding and codewords -----

  function Reversed(r: seq<int>): (s: seq<int>) { seq(|r|, i requires 0 <= i < |r| => r[|r| - 1 - i]) }

  /** `(-conv(g, row) | row)`, with the row zero-padded to `k`. */
  ghost function DualRow(g: seq<int>, m: seq<int>, k: nat, p: int): (s: seq<int>)
    requires k > 0 && p > 0
    ensures |s| == 2 * k
  {
    seq(2 * k, i => if i < k then FNeg(Conv(g, m, k, p, i), p) else At(m, i - k))
  }

  /** `(r | reverse(conv(g, reverse(r))))`. */
  ghost function Codeword(g: seq<int>, r: seq<int>, p: int): (s: seq<int>)
    requires |r| > 0 && p > 0
    ensures |s| == 2 * |r|
  {
    seq(2 * |r|, i => if i < |r| then At(r, i) else Conv(g, Reversed(r), |r|, p, 2 * |r| - 1 - i))
  }

  /** The `j`-th unit vector. */
  function UnitVector(k: nat, j: nat): (e: seq<int>)
    ensures |e| == k
  {
    seq(k, i => if i == j then 1 else 0)
  }

  /** Convolving with a unit vector rotates the multiplier. */
  lemma ConvolveUnit(g: seq<int>, k: nat, i: int, j: nat)
    requires j < k
    ensures ConvCell(g, UnitVector(k, j), k, i) == At(g, (i - j) % k)
  {
    var f := t => ConvTerm(g, UnitVector(k, j), k, i, t);
    forall t | 0 <= t < k && t != j ensures f(t) == 0 { assert At(g, (i - t) % k) * 0 == 0; }
    SumOnly(f, k, j);
  }

  lemma ReversedUnit(k: nat, j: nat)
    requires j < k
    ensures Reversed(UnitVector(k, j)) == UnitVector(k, k - 1 - j)
  {
  }

  /** The two encodings by their matrices: codewords are spanned by `(I | G)` and
      dual rows by `(-G^T | I)`, for the circulant `G` with `G[j][t] = g[j - t]`. */
  lemma SystematicForm(g: seq<int>, k: nat, p: int, j: nat, t: nat)
    requires p > 0 && j < k && t < k
    ensures Codeword(g, UnitVector(k, j), p)[t] == UnitVector(k, j)[t]
    ensures Codeword(g, UnitVector(k, j), p)[k + t] == At(g, (j - t) % k) % p
    ensures DualRow(g, UnitVector(k, t), k, p)[j] == FNeg(At(g, (j - t) % k) % p, p)
    ensures DualRow(g, UnitVector(k, t), k, p)[k + j] == UnitVector(k, t)[j]
  {
    hide ConvCell, Reversed, At;
    ConvolveUnit(g, k, j, t);
    ReversedUnit(k, j);
    ConvolveUnit(g, k, k - 1 - t, k - 1 - j);
    assert ((k - 1 - t) - (k - 1 - j)) % k == (j - t) % k;
    var r := UnitVector(k, j);
    assert Codeword(g, r, p)[k + t] == Conv(g, Reversed(r), k, p, k - 1 - t);
    InUnit(k, j, t);
    InUnit(k, t, j);
  }

  lemma InUnit(k: nat, j: nat, t: nat)
    requires t < k
    ensures At(UnitVector(k, j), t) == UnitVector(k, j)[t]
  {
  }

  predicate ScratchFits(code: CyclicDualCode, scratch: CodeScratch) {
    && scratch.transform.Length >= code.planLength
    && scratch.operand.Length == code.k
    && scratch.product.Length == code.k
  }

  function CheckScratch(code: CyclicDualCode, scratch: CodeScratch): (status: CodeStatus)
    ensures status.Coded? <==> ScratchFits(code, scratch)
  {
    if scratch.transform.Length < code.planLength then
      Mismatch(ScratchTransform, code.planLength, scratch.transform.Length)
    else if scratch.operand.Length != code.k then Mismatch(ScratchOperand, code.k, scratch.operand.Length)
    else if scratch.product.Length != code.k then Mismatch(ScratchProduct, code.k, scratch.product.Length)
    else Coded
  }

  method DualEncodeRow(code: CyclicDualCode, row: seq<int>, out: array<int>, scratch: CodeScratch, p: int)
    returns (status: CodeStatus)
    requires p > 0 && code.Valid() && scratch.Separate()
    requires out != scratch.transform && out != scratch.operand && out != scratch.product
    modifies out, scratch.transform, scratch.operand, scratch.product
    ensures status.Coded? <==> |row| <= code.k && out.Length == 2 * code.k && ScratchFits(code, scratch)
    ensures !status.Coded? ==> out[..] == old(out[..])
    ensures status.Coded? ==> out[..] == DualRow(code.multiplier, row, code.k, p)
  {
    var k := code.k;
    if |row| > k { return Mismatch(DualEncodingRow, k, |row|); }
    if out.Length != 2 * k { return Mismatch(DualEncodingOutput, 2 * k, out.Length); }
    status := CheckScratch(code, scratch);
    if !status.Coded? { return; }
    CopyPadded(row, scratch.operand, k);
    CyclicConvolve(code, scratch.operand, scratch.product, scratch.transform, p);
    PaddedCells(code.multiplier, row, scratch.operand[..k], k);
    WriteDualRow(code, row, scratch.operand, scratch.product, out, p);
  }

  method WriteDualRow(code: CyclicDualCode, ghost row: seq<int>, operand: array<int>, product: array<int>,
                      out: array<int>, p: int)
    requires p > 0 && code.Valid() && out.Length == 2 * code.k && operand.Length == product.Length == code.k
    requires out != operand && out != product
    requires forall i | 0 <= i < code.k :: operand[i] == At(row, i)
    requires forall i | 0 <= i < code.k :: product[i] == Conv(code.multiplier, row, code.k, p, i)
    modifies out
    ensures out[..] == DualRow(code.multiplier, row, code.k, p)
  {
    var k, i := code.k, 0;
    while i < k
      invariant 0 <= i <= k
      invariant forall j | 0 <= j < i :: out[j] == FNeg(product[j], p)
      invariant forall j | k <= j < k + i :: out[j] == operand[j - k]
    {
      out[i] := FNeg(product[i], p);
      out[k + i] := operand[i];
      i := i + 1;
    }
  }

  /** The message is the vector the generator would fill. */
  method SampleCodeword(code: CyclicDualCode, message: seq<int>, out: array<int>, scratch: CodeScratch, p: int)
    returns (status: CodeStatus)
    requires p > 0 && code.Valid() && scratch.Separate() && |message| == code.k
    requires out != scratch.transform && out != scratch.operand && out != scratch.product
    modifies out, scratch.transform, scratch.operand, scratch.product
    ensures status.Coded? <==> out.Length == 2 * code.k && ScratchFits(code, scratch)
    ensures !status.Coded? ==> out[..] == old(out[..])
    ensures status.Coded? ==> out[..] == Codeword(code.multiplier, message, p)
  {
    var k := code.k;
    if out.Length != 2 * k { return Mismatch(CodewordOutput, 2 * k, out.Length); }
    status := CheckScratch(code, scratch);
    if !status.Coded? { return; }
    CopyPadded(message, scratch.operand, k);
    CopyPadded(message, out, k);
    ReverseInPlace(scratch.operand);
    assert scratch.operand[..k] == Reversed(message);
    CyclicConvolve(code, scratch.operand, scratch.product, scratch.transform, p);
    WriteTransposed(code, message, scratch.product, out, p);
  }

  method WriteTransposed(code: CyclicDualCode, ghost message: seq<int>, product: array<int>, out: array<int>, p: int)
    requires p > 0 && code.Valid() && |message| == code.k == product.Length && out.Length == 2 * code.k && out != product
    requires forall i | 0 <= i < code.k :: out[i] == At(message, i)
    requires forall i | 0 <= i < code.k :: product[i] == Conv(code.multiplier, Reversed(message), code.k, p, i)
    modifies out
    ensures out[..] == Codeword(code.multiplier, message, p)
  {
    var k, i := code.k, 0;
    while i < k
      invariant 0 <= i <= k
      invariant forall j | 0 <= j < k :: out[j] == At(message, j)
      invariant forall j | k <= j < k + i :: out[j] == product[2 * k - 1 - j]
    {
      out[k + i] := product[k - 1 - i];
      i := i + 1;
    }
  }

  method ReverseInPlace(a: array<int>)
    modifies a
    ensures forall i | 0 <= i < a.Length :: a[i] == old(a[a.Length - 1 - i])
  {
    var i, n := 0, a.Length;
    while i < n / 2
      invariant 0 <= i <= n / 2
      invariant forall j | 0 <= j < i || n - i <= j < n :: a[j] == old(a[n - 1 - j])
      invariant forall j | i <= j < n - i :: a[j] == old(a[j])
    {
      a[i], a[n - 1 - i] := a[n - 1 - i], a[i];
      i := i + 1;
    }
  }

  // ----- Orthogonality -----

  /** The second half of a codeword is multiplication by the transposed
      circulant: `sum over i of g[(i - j) mod k] * r[i]`. */
  lemma {:induction false} TransposeCell(g: seq<int>, r: seq<int>, j: nat)
    requires j < |r|
    ensures ConvCell(g, Reversed(r), |r|, |r| - 1 - j) == Sum(i => CirculantTerm(g, r, |r|, i, j), |r|)
  {
    var k := |r|;
    var f := t => ConvTerm(g, Reversed(r), k, k - 1 - j, t);
    var h := i => CirculantTerm(g, r, k, i, j);
    SumReverse(f, k);
    forall i | 0 <= i < k ensures f(k - 1 - i) == h(i) {
      assert k - 1 - j - (k - 1 - i) == i - j;
    }
    SumExt(i => f(k - 1 - i), h, k);
  }

  /** `g[(i - j) mod k] * m[j] * r[i]`, the common term of both double sums. */
  function Triple(g: seq<int>, m: seq<int>, r: seq<int>, k: nat, i: int, j: int): int
    requires k > 0
  {
    At(r, i) * ConvTerm(g, m, k, i, j)
  }

  function CirculantTerm(g: seq<int>, r: seq<int>, k: nat, i: int, j: int): int
    requires k > 0
  {
    At(g, (i - j) % k) * At(r, i)
  }

  lemma Shuffle(a: int, b: int, c: int)
    ensures a * (b * c) == c * (b * a)
  {
    assert a * (b * c) == (a * b) * c;
  }

  ghost function CirculantLeft(g: seq<int>, m: seq<int>, r: seq<int>, i: int): int
    requires |r| > 0
  {
    At(r, i) * ConvCell(g, m, |r|, i)
  }

  ghost function CirculantRight(g: seq<int>, m: seq<int>, r: seq<int>, j: int): int
    requires |r| > 0
  {
    At(m, j) * ConvCell(g, Reversed(r), |r|, |r| - 1 - j)
  }

  /** Multiplying by the circulant on one side is multiplying by its transpose
      on the other, exactly, before any reduction. */
  lemma {:induction false} CirculantTranspose(g: seq<int>, m: seq<int>, r: seq<int>)
    requires |r| > 0
    ensures Sum(i => CirculantLeft(g, m, r, i), |r|) == Sum(j => CirculantRight(g, m, r, j), |r|)
  {
    var k := |r|;
    var f := (i, j) => Triple(g, m, r, k, i, j);
    SumSwap(f, k, k);
    var left := i => CirculantLeft(g, m, r, i);
    var right := j => CirculantRight(g, m, r, j);
    forall i | 0 <= i < k ensures left(i) == Sum(j => f(i, j), k) { RowOfTriples(g, m, r, i, f); }
    forall j | 0 <= j < k ensures right(j) == Sum(i => f(i, j), k) { ColumnOfTriples(g, m, r, j, f); }
    SumExt(left, i => Sum(j => f(i, j), k), k);
    SumExt(right, j => Sum(i => f(i, j), k), k);
  }

  lemma {:induction false} RowOfTriples(g: seq<int>, m: seq<int>, r: seq<int>, i: int, f: (int, int) -> int)
    requires |r| > 0 && forall i, j :: f(i, j) == Triple(g, m, r, |r|, i, j)
    ensures CirculantLeft(g, m, r, i) == Sum(j => f(i, j), |r|)
  {
    SumFactor(At(r, i), j => ConvTerm(g, m, |r|, i, j), j => f(i, j), |r|);
  }

  lemma {:induction false} ColumnOfTriples(g: seq<int>, m: seq<int>, r: seq<int>, j: nat, f: (int, int) -> int)
    requires j < |r| && forall i, j :: f(i, j) == Triple(g, m, r, |r|, i, j)
    ensures CirculantRight(g, m, r, j) == Sum(i => f(i, j), |r|)
  {
    var k := |r|;
    TransposeCell(g, r, j);
    var term := i => CirculantTerm(g, r, k, i, j);
    forall i | 0 <= i < k ensures f(i, j) == At(m, j) * term(i) {
      Shuffle(At(r, i), At(g, (i - j) % k), At(m, j));
    }
    SumFactor(At(m, j), term, i => f(i, j), k);
  }

  lemma NegatedProduct(a: int, b: int)
    ensures (-a) * b == -1 * (b * a)
  {
  }

  lemma NegatedResidue(a: int, p: int)
    requires p > 0
    ensures Congruent(FNeg(a % p, p), -a, p)
  {
    var x, q := a % p, a / p;
    assert -a + q * p == -x;
    ModShift(-a, q, p);
    CongruentResidue(-x, p);
  }

  lemma NegatedTerm(a: int, b: int, p: int)
    requires p > 0
    ensures Congruent(FNeg(a % p, p) * b, -1 * (b * a), p)
  {
    hide FNeg;
    NegatedResidue(a, p);
    CongruentProduct(FNeg(a % p, p), -a, b, b, p);
    NegatedProduct(a, b);
  }

  lemma Cancel(low: int, high: int, minus: int, a: int, p: int)
    requires p > 0 && Congruent(low, minus, p) && Congruent(high, a, p) && minus + a == 0
    ensures Congruent(low + high, 0, p)
  {
    CongruentSum(low, minus, high, a, p);
  }

  /** What one codeword coordinate contributes to the dot product. */
  ghost function DualTerm(g: seq<int>, m: seq<int>, r: seq<int>, p: int, i: int): int
    requires |r| > 0 && p > 0
  {
    At(DualRow(g, m, |r|, p), i) * At(Codeword(g, r, p), i)
  }

  /** Two halves with opposite sums cancel. */
  lemma {:induction false} HalvesCancel(term: int -> int, high: int -> int, left: int -> int, right: int -> int, k: nat, p: int)
    requires p > 0 && Sum(left, k) == Sum(right, k)
    requires forall i :: high(i) == term(k + i)
    requires forall i | 0 <= i < k :: Congruent(term(i), -1 * left(i), p)
    requires forall i | 0 <= i < k :: Congruent(high(i), right(i), p)
    ensures Congruent(Sum(term, 2 * k), 0, p)
  {
    hide Congruent, Sum;
    var minus := i => -1 * left(i);
    SumSplit(term, k, k);
    SumExt(i => term(k + i), high, k);
    SumMod(term, minus, k, p);
    SumFactor(-1, left, minus, k);
    SumMod(high, right, k, p);
    Cancel(Sum(term, k), Sum(high, k), Sum(minus, k), Sum(left, k), p);
  }

  /** Every dual-encoded row is orthogonal to every codeword. */
  lemma {:induction false} DualOrthogonal(g: seq<int>, m: seq<int>, r: seq<int>, p: int)
    requires |r| > 0 && p > 0 && |m| <= |r|
    ensures Congruent(Sum(i => DualTerm(g, m, r, p, i), 2 * |r|), 0, p)
  {
    hide DualTerm, CirculantLeft, CirculantRight, Congruent;
    var k := |r|;
    var term, high := i => DualTerm(g, m, r, p, i), i => DualTerm(g, m, r, p, k + i);
    var left, right := i => CirculantLeft(g, m, r, i), i => CirculantRight(g, m, r, i);
    forall i | 0 <= i < k ensures Congruent(term(i), -1 * left(i), p) { LeftTerm(g, m, r, p, i); }
    forall i | 0 <= i < k ensures Congruent(high(i), right(i), p) { RightTerm(g, m, r, p, i, k + i); }
    CirculantTranspose(g, m, r);
    HalvesCancel(term, high, left, right, k, p);
  }

  lemma LeftTerm(g: seq<int>, m: seq<int>, r: seq<int>, p: int, i: nat)
    requires i < |r| && p > 0
    ensures Congruent(DualTerm(g, m, r, p, i), -1 * CirculantLeft(g, m, r, i), p)
  {
    assert At(DualRow(g, m, |r|, p), i) == FNeg(Conv(g, m, |r|, p, i), p);
    assert At(Codeword(g, r, p), i) == At(r, i);
    NegatedTerm(ConvCell(g, m, |r|, i), At(r, i), p);
  }

  lemma RightTerm(g: seq<int>, m: seq<int>, r: seq<int>, p: int, i: nat, at: nat)
    requires i < |r| && p > 0 && at == |r| + i
    ensures Congruent(DualTerm(g, m, r, p, at), CirculantRight(g, m, r, i), p)
  {
    var cell := ConvCell(g, Reversed(r), |r|, |r| - 1 - i);
    assert At(DualRow(g, m, |r|, p), |r| + i) == At(m, i);
    assert 2 * |r| - 1 - (|r| + i) == |r| - 1 - i;
    assert At(Codeword(g, r, p), |r| + i) == Conv(g, Reversed(r), |r|, p, |r| - 1 - i);
    CongruentResidue(cell, p);
    CongruentProduct(At(m, i), At(m, i), cell % p, cell, p);
  }
}
