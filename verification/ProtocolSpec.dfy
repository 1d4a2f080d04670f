/** The protocol as formulas: what the ciphertext, a query, an answer and a
    decoded product are, and the proof that decoding an answer yields the
    plaintext product. */
module ProtocolSpec {
  import opened Arithmetic
  import opened Code
  import opened Grids
  import opened Inversion
  import opened Kernels
  import opened NumberTheory
  import opened ParameterSets
  import opened Prf
  import opened Sums

  /** The expanded long-term secrets of one matrix instance. `message` and
      `scalar` give what the generators of a query index would sample. */
  datatype Secrets = Secrets(
    k: nat, ell: nat, b: nat, rows: nat, instanceId: nat, code: CyclicDualCode,
    permutation: seq<int>, mask: seq<int>,
    message: nat -> seq<int>, scalar: nat -> seq<int>)
  {
    function N(): nat { 2 * k }

    function Blocks(): nat
      requires b > 0
    {
      N() / b
    }

    ghost predicate Valid(p: nat) {
      && Prime(p) && 2 < p < TWO32
      && 1 <= ell <= k && b >= 2 && N() < TWO64 && N() % b == 0
      && code.Valid() && code.k == k
      && Permutes(permutation, N())
      && rows > 0 && |mask| == rows * N()
      && (forall id :: IndexAllowed(id) ==> |message(id)| == k && Canonical(message(id), p))
      && (forall id :: IndexAllowed(id) ==> |scalar(id)| == Blocks() && Canonical(scalar(id), p) && 0 !in scalar(id))
    }

    lemma BlocksTile()
      requires b > 0 && N() % b == 0
      ensures Blocks() * b == N()
    {
      assert N() == (N() / b) * b + N() % b;
    }
  }

  datatype EncryptedMatrix = EncryptedMatrix(instanceId: nat, rows: nat, columns: nat, values: seq<int>)

  datatype EncryptedQuery = EncryptedQuery(values: seq<int>, instanceId: nat, queryId: nat)

  datatype DecodingKey = DecodingKey(pPrime: seq<int>, rPrime: seq<int>, instanceId: nat, queryId: nat)

  /** One wire or workspace view of an answer. */
  datatype Answer = Answer(instanceId: nat, queryId: nat, rows: nat, blocks: nat, values: seq<int>)

  datatype Name =
    | QueryVector | QueryScratchVector | Queries | InputMatrix | MatrixColumns | MatrixRows | MatrixValues
    | EncryptedQueryLength | AnswerOutput | DecodingP | DecodingR | AnswerMatrix | DecodingOutput
    | Answers | DecodingKeys | DecodingOutputs

  datatype ProtocolError =
    | LengthMismatch(name: Name, expected: nat, actual: nat)
    | InstanceMismatch(expectedId: nat, actualId: nat)
    | QueryMismatch(expectedQuery: nat, actualQuery: nat)
    | BadParams(error: ParamsError)
    | IndexOutOfRange(index: nat)
    | CodeFailure(status: CodeStatus)
    | AlreadyEncrypted
    | Overflow

  datatype Status = Ok | Err(error: ProtocolError)

  // ----- Encryption -----

  /** Row `row` of a row-major matrix. */
  function Row(values: seq<int>, row: int, width: nat): (s: seq<int>)
    ensures |s| == width
  {
    seq(width, c => At(values, row * width + c))
  }

  /** One entry of `M D + R`, before the gather. */
  ghost function EncodedCell(sec: Secrets, matrix: seq<int>, p: int, row: int, i: int): int
    requires sec.k > 0 && p > 0
  {
    FAdd(At(DualRow(sec.code.multiplier, Row(matrix, row, sec.ell), sec.k, p), i), At(sec.mask, row * sec.N() + i), p)
  }

  ghost function CipherCell(sec: Secrets, matrix: seq<int>, p: int, row: int, i: int): int
    requires sec.k > 0 && p > 0
  {
    EncodedCell(sec, matrix, p, row, At(sec.permutation, i))
  }

  ghost function Encrypted(sec: Secrets, matrix: seq<int>, p: int): EncryptedMatrix
    requires sec.k > 0 && p > 0
  {
    EncryptedMatrix(sec.instanceId, sec.rows, sec.N(), Grid((r, c) => CipherCell(sec, matrix, p, r, c), sec.rows, sec.N()))
  }

  // ----- Queries -----

  /** The codeword with the padded query in its systematic half. */
  ghost function Shifted(sec: Secrets, q: seq<int>, p: int, id: nat): (s: seq<int>)
    requires sec.k > 0 && p > 0 && |sec.message(id)| == sec.k
    ensures |s| == sec.N()
  {
    seq(sec.N(), i =>
      var c := At(Codeword(sec.code.multiplier, sec.message(id), p), i);
      if sec.k <= i < sec.k + |q| then FAdd(c, At(q, i - sec.k), p) else c)
  }

  function MaskTerm(mask: seq<int>, n: nat, v: seq<int>, row: int, i: int): int {
    At(mask, row * n + i) * At(v, i)
  }

  /** The trapdoor's value of `R v` at one row. */
  ghost function MaskCell(mask: seq<int>, n: nat, v: seq<int>, p: int, row: int): int
    requires p > 0
  {
    Sum(i => MaskTerm(mask, n, v, row, i), n) % p
  }

  ghost function QueryCell(sec: Secrets, q: seq<int>, p: int, id: nat, i: int): int
    requires sec.k > 0 && sec.b > 0 && p > 0 && |sec.message(id)| == sec.k
  {
    FMul(At(Shifted(sec, q, p, id), At(sec.permutation, i)), At(sec.scalar(id), i / sec.b), p)
  }

  ghost function QueryOf(sec: Secrets, q: seq<int>, p: int, id: nat): EncryptedQuery
    requires sec.k > 0 && sec.b > 0 && p > 0 && |sec.message(id)| == sec.k
  {
    EncryptedQuery(seq(sec.N(), i => QueryCell(sec, q, p, id, i)), sec.instanceId, id)
  }

  ghost function KeyOf(sec: Secrets, q: seq<int>, p: nat, id: nat): DecodingKey
    requires sec.k > 0 && sec.b > 0 && p >= 2 && |sec.message(id)| == sec.k
  {
    DecodingKey(
      seq(sec.Blocks(), blk => Inverse(At(sec.scalar(id), blk), p)),
      seq(sec.rows, row => MaskCell(sec.mask, sec.N(), Shifted(sec, q, p, id), p, row)),
      sec.instanceId, id)
  }

  // ----- Answers and decoding -----

  function AnswerTerm(values: seq<int>, query: seq<int>, n: nat, row: int, i: int): int {
    At(values, row * n + i) * At(query, i)
  }

  /** One block of one row: the dot product of the two slices. */
  ghost function AnswerCell(values: seq<int>, query: seq<int>, n: nat, b: nat, p: int, row: int, blk: int): int
    requires p > 0
  {
    Sum(t => AnswerTerm(values, query, n, row, blk * b + t), b) % p
  }

  /** The answer matrix, row-major with `s` blocks a row. */
  ghost function AnswerOf(matrix: EncryptedMatrix, query: seq<int>, b: nat, s: nat, p: int): (a: seq<int>)
    requires p > 0
    ensures |a| == matrix.rows * s
  {
    Grid((row, blk) => AnswerCell(matrix.values, query, matrix.columns, b, p, row, blk), matrix.rows, s)
  }

  function DecodeTerm(answer: seq<int>, pPrime: seq<int>, s: nat, row: int, blk: int): int {
    At(answer, row * s + blk) * At(pPrime, blk)
  }

  ghost function DecodedCell(answer: seq<int>, key: DecodingKey, s: nat, p: int, row: int): int
    requires p > 0
  {
    (Sum(blk => DecodeTerm(answer, key.pPrime, s, row, blk), s) - At(key.rPrime, row)) % p
  }

  ghost function DecodedOf(answer: Answer, key: DecodingKey, p: int): (m: seq<int>)
    requires p > 0
    ensures |m| == answer.rows
  {
    seq(answer.rows, row => DecodedCell(answer.values, key, answer.blocks, p, row))
  }

  function ProductTerm(matrix: seq<int>, q: seq<int>, ell: nat, row: int, t: int): int {
    At(matrix, row * ell + t) * At(q, t)
  }

  /** The plaintext product `M q`. */
  ghost function ProductOf(matrix: seq<int>, q: seq<int>, rows: nat, ell: nat, p: int): (m: seq<int>)
    requires p > 0
    ensures |m| == rows
  {
    seq(rows, row => Sum(t => ProductTerm(matrix, q, ell, row, t), ell) % p)
  }

  // ----- Correctness -----

  /** Undoing the block scalars gathers the blocks into one sum. */
  lemma {:induction false} ScaledBlocks(f: int -> int, decoded: int -> int, answer: int -> int, alpha: int -> int, inverse: int -> int,
                     s: nat, b: nat, p: int)
    requires p > 0
    requires forall blk | 0 <= blk < s :: Congruent(answer(blk), alpha(blk) * Sum(t => f(blk * b + t), b), p)
    requires forall blk | 0 <= blk < s :: Congruent(alpha(blk) * inverse(blk), 1, p)
    requires forall blk | 0 <= blk < s :: decoded(blk) == answer(blk) * inverse(blk)
    ensures 0 <= s * b
    ensures Congruent(Sum(decoded, s), Sum(f, s * b), p)
  {
    var block := blk => Sum(t => f(blk * b + t), b);
    forall blk | 0 <= blk < s ensures Congruent(decoded(blk), block(blk), p) {
      Unscale(answer(blk), alpha(blk), inverse(blk), Sum(t => f(blk * b + t), b), p);
    }
    SumMod(decoded, block, s, p);
    SumBlocks(f, s, b);
  }

  lemma Unscale(answer: int, alpha: int, inverse: int, block: int, p: int)
    requires p > 0 && Congruent(answer, alpha * block, p) && Congruent(alpha * inverse, 1, p)
    ensures Congruent(answer * inverse, block, p)
  {
    CongruentProduct(answer, alpha * block, inverse, inverse, p);
    CongruentProduct(alpha * inverse, 1, block, block, p);
    assert (alpha * block) * inverse == (alpha * inverse) * block;
  }

  /** Scaling the query scales every block sum. */
  lemma {:induction false} ScaledBlock(term: int -> int, f: int -> int, alpha: int, b: nat, p: int)
    requires p > 0 && forall t | 0 <= t < b :: Congruent(term(t), alpha * f(t), p)
    ensures Congruent(Sum(term, b), alpha * Sum(f, b), p)
  {
    var scaled := t => alpha * f(t);
    SumMod(term, scaled, b, p);
    SumFactor(alpha, f, scaled, b);
  }

  lemma ScaledProduct(x: int, y: int, alpha: int, p: int)
    requires p > 0
    ensures Congruent(x * FMul(y, alpha, p), alpha * (x * y), p)
  {
    CongruentResidue(y * alpha, p);
    CongruentProduct(x, x, FMul(y, alpha, p), y * alpha, p);
    Shuffle(x, y, alpha);
    assert x * (y * alpha) == alpha * (x * y);
  }

  /** `(d + r) * y` splits into its encoding and mask parts. */
  lemma MaskedProduct(d: int, r: int, y: int, p: int)
    requires p > 0
    ensures Congruent(FAdd(d, r, p) * y, d * y + r * y, p)
  {
    CongruentResidue(d + r, p);
    CongruentProduct(FAdd(d, r, p), d + r, y, y, p);
    assert (d + r) * y == d * y + r * y;
  }

  /** Adding the query on top of the codeword adds the row's own product. */
  lemma ShiftedProduct(d: int, c: int, q: int, p: int)
    requires p > 0
    ensures Congruent(d * FAdd(c, q, p), d * c + d * q, p)
  {
    CongruentResidue(c + q, p);
    CongruentProduct(d, d, FAdd(c, q, p), c + q, p);
    assert d * (c + q) == d * c + d * q;
  }

  // ----- One row of the ciphertext against one query -----

  ghost function DualAt(sec: Secrets, matrix: seq<int>, p: int, row: int, i: int): int
    requires sec.k > 0 && p > 0
  {
    At(DualRow(sec.code.multiplier, Row(matrix, row, sec.ell), sec.k, p), i)
  }

  /** `x[i] * q~[i]`: encoded row against unpermuted query. */
  ghost function PlainTerm(sec: Secrets, matrix: seq<int>, q: seq<int>, p: int, id: nat, row: int, i: int): int
    requires sec.k > 0 && p > 0 && |sec.message(id)| == sec.k
  {
    EncodedCell(sec, matrix, p, row, i) * At(Shifted(sec, q, p, id), i)
  }

  /** The same term read through the public gather. */
  ghost function GatheredTerm(sec: Secrets, matrix: seq<int>, q: seq<int>, p: int, id: nat, row: int, i: int): int
    requires sec.k > 0 && p > 0 && |sec.message(id)| == sec.k
  {
    PlainTerm(sec, matrix, q, p, id, row, At(sec.permutation, i))
  }

  ghost function EncodingTerm(sec: Secrets, matrix: seq<int>, q: seq<int>, p: int, id: nat, row: int, i: int): int
    requires sec.k > 0 && p > 0 && |sec.message(id)| == sec.k
  {
    DualAt(sec, matrix, p, row, i) * At(Shifted(sec, q, p, id), i)
  }

  function Padded(q: seq<int>, k: nat, i: int): int { if k <= i < k + |q| then At(q, i - k) else 0 }

  ghost function SystematicTerm(sec: Secrets, matrix: seq<int>, q: seq<int>, p: int, row: int, i: int): int
    requires sec.k > 0 && p > 0
  {
    DualAt(sec, matrix, p, row, i) * Padded(q, sec.k, i)
  }

  lemma QuotientOf(blk: nat, b: nat, t: nat)
    requires t < b
    ensures (blk * b + t) / b == blk
  {
    DivModUnique(blk * b + t, blk, t, b);
  }

  /** One transmitted product of the server's dot product. */
  lemma TransmittedTerm(sec: Secrets, matrix: seq<int>, q: seq<int>, p: nat, id: nat, row: nat, blk: nat, t: nat)
    requires sec.Valid(p) && IndexAllowed(id) && row < sec.rows && blk < sec.Blocks() && t < sec.b
    ensures Congruent(
              AnswerTerm(Encrypted(sec, matrix, p).values, QueryOf(sec, q, p, id).values, sec.N(), row, blk * sec.b + t),
              At(sec.scalar(id), blk) * GatheredTerm(sec, matrix, q, p, id, row, blk * sec.b + t), p)
  {
    var n, i := sec.N(), blk * sec.b + t;
    sec.BlocksTile();
    CellBound(blk, sec.Blocks(), t, sec.b);
    GridAt((r, c) => CipherCell(sec, matrix, p, r, c), sec.rows, n, row, i);
    QuotientOf(blk, sec.b, t);
    var x, y := CipherCell(sec, matrix, p, row, i), At(Shifted(sec, q, p, id), At(sec.permutation, i));
    ScaledProduct(x, y, At(sec.scalar(id), blk), p);
  }

  /** The server's block answers, before the scalars are undone. */
  lemma TransmittedBlock(sec: Secrets, matrix: seq<int>, q: seq<int>, p: nat, id: nat, row: nat, blk: nat)
    requires sec.Valid(p) && IndexAllowed(id) && row < sec.rows && blk < sec.Blocks()
    ensures Congruent(
              At(AnswerOf(Encrypted(sec, matrix, p), QueryOf(sec, q, p, id).values, sec.b, sec.Blocks(), p), row * sec.Blocks() + blk),
              At(sec.scalar(id), blk) * Sum(t => GatheredTerm(sec, matrix, q, p, id, row, blk * sec.b + t), sec.b), p)
  {
    var cipher, query := Encrypted(sec, matrix, p), QueryOf(sec, q, p, id).values;
    GridAt((r, c) => AnswerCell(cipher.values, query, cipher.columns, sec.b, p, r, c), sec.rows, sec.Blocks(), row, blk);
    var term := t => AnswerTerm(cipher.values, query, sec.N(), row, blk * sec.b + t);
    var f := t => GatheredTerm(sec, matrix, q, p, id, row, blk * sec.b + t);
    forall t | 0 <= t < sec.b ensures Congruent(term(t), At(sec.scalar(id), blk) * f(t), p) {
      TransmittedTerm(sec, matrix, q, p, id, row, blk, t);
    }
    ScaledBlock(term, f, At(sec.scalar(id), blk), sec.b, p);
    CongruentResidue(Sum(term, sec.b), p);
  }

  lemma ScalarCancels(sec: Secrets, p: nat, id: nat, blk: nat)
    requires sec.Valid(p) && IndexAllowed(id) && blk < sec.Blocks()
    ensures Congruent(At(sec.scalar(id), blk) * Inverse(At(sec.scalar(id), blk), p), 1, p)
  {
    var alpha := sec.scalar(id)[blk];
    assert alpha in sec.scalar(id);
    ModSmall(alpha, p);
    InverseCancels(alpha, p);
    ModSmall(1, p);
  }

  /** Answering and undoing the scalars gives the encoded row against the
      unpermuted query. */
  lemma Unscaled(sec: Secrets, matrix: seq<int>, q: seq<int>, p: nat, id: nat, row: nat)
    requires sec.Valid(p) && IndexAllowed(id) && row < sec.rows
    ensures var answer := AnswerOf(Encrypted(sec, matrix, p), QueryOf(sec, q, p, id).values, sec.b, sec.Blocks(), p);
            Congruent(Sum(blk => DecodeTerm(answer, KeyOf(sec, q, p, id).pPrime, sec.Blocks(), row, blk), sec.Blocks()),
                      Sum(i => PlainTerm(sec, matrix, q, p, id, row, i), sec.N()), p)
  {
    hide Sum, Congruent, AnswerOf, Encrypted, QueryOf, PlainTerm, Inverse, Permutes;
    var s := sec.Blocks();
    var answer := AnswerOf(Encrypted(sec, matrix, p), QueryOf(sec, q, p, id).values, sec.b, s, p);
    var pPrime := KeyOf(sec, q, p, id).pPrime;
    var f := i => GatheredTerm(sec, matrix, q, p, id, row, i);
    var g := i => PlainTerm(sec, matrix, q, p, id, row, i);
    var decoded := blk => DecodeTerm(answer, pPrime, s, row, blk);
    var cell, alpha := blk => At(answer, row * s + blk), blk => At(sec.scalar(id), blk);
    var inverse := blk => Inverse(At(sec.scalar(id), blk), p);
    forall blk | 0 <= blk < s
      ensures Congruent(cell(blk), alpha(blk) * Sum(t => f(blk * sec.b + t), sec.b), p)
      ensures Congruent(alpha(blk) * inverse(blk), 1, p)
      ensures decoded(blk) == cell(blk) * inverse(blk)
    {
      TransmittedBlock(sec, matrix, q, p, id, row, blk);
      SumExt(t => f(blk * sec.b + t), t => GatheredTerm(sec, matrix, q, p, id, row, blk * sec.b + t), sec.b);
      ScalarCancels(sec, p, id, blk);
      assert At(pPrime, blk) == inverse(blk);
    }
    ScaledBlocks(f, decoded, cell, alpha, inverse, s, sec.b, p);
    sec.BlocksTile();
    SumPermute(g, sec.permutation, sec.N());
    SumExt(f, i => g(At(sec.permutation, i)), sec.N());
  }

  // ----- From the gathered sum to the plaintext product -----

  lemma MaskSplitTerm(sec: Secrets, matrix: seq<int>, q: seq<int>, p: nat, id: nat, row: nat, i: nat)
    requires sec.Valid(p) && IndexAllowed(id)
    ensures Congruent(PlainTerm(sec, matrix, q, p, id, row, i),
                      EncodingTerm(sec, matrix, q, p, id, row, i)
                      + MaskTerm(sec.mask, sec.N(), Shifted(sec, q, p, id), row, i), p)
  {
    MaskedProduct(DualAt(sec, matrix, p, row, i), At(sec.mask, row * sec.N() + i), At(Shifted(sec, q, p, id), i), p);
  }

  /** The encoded row splits into its dual encoding and its mask. */
  lemma SplitMask(sec: Secrets, matrix: seq<int>, q: seq<int>, p: nat, id: nat, row: nat)
    requires sec.Valid(p) && IndexAllowed(id) && row < sec.rows
    ensures Congruent(Sum(i => PlainTerm(sec, matrix, q, p, id, row, i), sec.N()),
                      Sum(i => EncodingTerm(sec, matrix, q, p, id, row, i), sec.N())
                      + Sum(i => MaskTerm(sec.mask, sec.N(), Shifted(sec, q, p, id), row, i), sec.N()), p)
  {
    hide PlainTerm, EncodingTerm, MaskTerm, Congruent, Sum;
    var n, y := sec.N(), Shifted(sec, q, p, id);
    var plain := i => PlainTerm(sec, matrix, q, p, id, row, i);
    var coded := i => EncodingTerm(sec, matrix, q, p, id, row, i);
    var mask := i => MaskTerm(sec.mask, n, y, row, i);
    var both := i => coded(i) + mask(i);
    forall i | 0 <= i < n ensures Congruent(plain(i), both(i), p) {
      MaskSplitTerm(sec, matrix, q, p, id, row, i);
    }
    SumMod(plain, both, n, p);
    SumPlus(coded, mask, n);
  }

  lemma ShiftedTerm(sec: Secrets, matrix: seq<int>, q: seq<int>, p: nat, id: nat, row: nat, i: nat)
    requires sec.Valid(p) && IndexAllowed(id) && row < sec.rows && i < sec.N()
    ensures Congruent(EncodingTerm(sec, matrix, q, p, id, row, i),
                      DualTerm(sec.code.multiplier, Row(matrix, row, sec.ell), sec.message(id), p, i)
                      + SystematicTerm(sec, matrix, q, p, row, i), p)
  {
    var d := DualAt(sec, matrix, p, row, i);
    var c := At(Codeword(sec.code.multiplier, sec.message(id), p), i);
    if sec.k <= i < sec.k + |q| {
      ShiftedProduct(d, c, At(q, i - sec.k), p);
    } else {
      assert d * 0 == 0;
    }
  }

  /** The codeword part vanishes; only the padded query is left. */
  lemma CodewordVanishes(sec: Secrets, matrix: seq<int>, q: seq<int>, p: nat, id: nat, row: nat)
    requires sec.Valid(p) && IndexAllowed(id) && row < sec.rows
    ensures Congruent(Sum(i => EncodingTerm(sec, matrix, q, p, id, row, i), sec.N()),
                      Sum(i => SystematicTerm(sec, matrix, q, p, row, i), sec.N()), p)
  {
    hide EncodingTerm, DualTerm, SystematicTerm, Congruent, Sum;
    var g, m, r := sec.code.multiplier, Row(matrix, row, sec.ell), sec.message(id);
    var coded := i => EncodingTerm(sec, matrix, q, p, id, row, i);
    var dual := i => DualTerm(g, m, r, p, i);
    var systematic := i => SystematicTerm(sec, matrix, q, p, row, i);
    var both := i => dual(i) + systematic(i);
    forall i | 0 <= i < sec.N() ensures Congruent(coded(i), both(i), p) { ShiftedTerm(sec, matrix, q, p, id, row, i); }
    SumMod(coded, both, sec.N(), p);
    SumPlus(dual, systematic, sec.N());
    DualOrthogonal(g, m, r, p);
    AddZero(Sum(coded, sec.N()), Sum(dual, sec.N()), Sum(systematic, sec.N()), p);
  }

  lemma AddZero(total: int, zero: int, rest: int, p: int)
    requires p > 0 && Congruent(total, zero + rest, p) && Congruent(zero, 0, p)
    ensures Congruent(total, rest, p)
  {
    CongruentSum(zero, 0, rest, rest, p);
  }

  /** The identity half of the dual encoding meets the padded query exactly in
      the plaintext product. */
  lemma SystematicIsProduct(sec: Secrets, matrix: seq<int>, q: seq<int>, p: nat, row: nat)
    requires sec.Valid(p) && |q| == sec.ell && row < sec.rows
    ensures Sum(i => SystematicTerm(sec, matrix, q, p, row, i), sec.N())
            == Sum(t => ProductTerm(matrix, q, sec.ell, row, t), sec.ell)
  {
    var f := i => SystematicTerm(sec, matrix, q, p, row, i);
    var product := t => ProductTerm(matrix, q, sec.ell, row, t);
    forall i | 0 <= i < 2 * sec.k ensures f(i) == if sec.k <= i < sec.k + sec.ell then product(i - sec.k) else 0 {
      if i < sec.k {
        SystematicLow(sec, matrix, q, p, row, i);
      } else {
        SystematicHigh(sec, matrix, q, p, row, i - sec.k);
      }
    }
    OnlyMiddle(f, product, sec.k, sec.ell);
  }

  /** A sum whose terms vanish outside `k .. k + ell`. */
  lemma {:induction false} OnlyMiddle(f: int -> int, g: int -> int, k: nat, ell: nat)
    requires ell <= k
    requires forall i | 0 <= i < 2 * k :: f(i) == if k <= i < k + ell then g(i - k) else 0
    ensures Sum(f, 2 * k) == Sum(g, ell)
  {
    hide Sum;
    var high := i => f(k + i);
    var tail := i => high(ell + i);
    SumSplit(f, k, k);
    forall i | 0 <= i < k ensures f(i) == 0 {}
    SumZero(f, k);
    SumSplit(high, ell, k - ell);
    forall i | 0 <= i < k - ell ensures tail(i) == 0 {}
    SumZero(tail, k - ell);
    forall i | 0 <= i < ell ensures high(i) == g(i) {}
    SumExt(high, g, ell);
    assert k + k == 2 * k && ell + (k - ell) == k;
  }

  lemma SystematicLow(sec: Secrets, matrix: seq<int>, q: seq<int>, p: nat, row: nat, i: nat)
    requires sec.Valid(p) && i < sec.k
    ensures SystematicTerm(sec, matrix, q, p, row, i) == 0
  {
    assert DualAt(sec, matrix, p, row, i) * 0 == 0;
  }

  lemma SystematicHigh(sec: Secrets, matrix: seq<int>, q: seq<int>, p: nat, row: nat, i: nat)
    requires sec.Valid(p) && |q| == sec.ell && i < sec.k
    ensures SystematicTerm(sec, matrix, q, p, row, sec.k + i) == if i < sec.ell then ProductTerm(matrix, q, sec.ell, row, i) else 0
  {
    assert DualAt(sec, matrix, p, row, sec.k + i) == At(Row(matrix, row, sec.ell), i);
    assert At(Row(matrix, row, sec.ell), i) * 0 == 0;
  }

  lemma SubtractShare(decoded: int, plain: int, coded: int, mask: int, share: int, systematic: int, p: int)
    requires p > 0 && Congruent(decoded, plain, p) && Congruent(plain, coded + mask, p)
    requires share == mask % p && Congruent(coded, systematic, p)
    ensures (decoded - share) % p == systematic % p
  {
    CongruentResidue(mask, p);
    ModSub(decoded, share, p);
    ModSub(coded + mask, mask, p);
  }

  /** Decoding one row of a served answer gives that row of the product. */
  lemma RowCorrect(sec: Secrets, matrix: seq<int>, q: seq<int>, p: nat, id: nat, row: nat)
    requires sec.Valid(p) && IndexAllowed(id) && |q| == sec.ell && row < sec.rows
    ensures DecodedCell(AnswerOf(Encrypted(sec, matrix, p), QueryOf(sec, q, p, id).values, sec.b, sec.Blocks(), p),
                        KeyOf(sec, q, p, id), sec.Blocks(), p, row)
            == ProductOf(matrix, q, sec.rows, sec.ell, p)[row]
  {
    hide Sum, Congruent, AnswerOf, Encrypted, QueryOf, PlainTerm, EncodingTerm, SystematicTerm, MaskTerm, DecodeTerm, ProductTerm;
    var answer := AnswerOf(Encrypted(sec, matrix, p), QueryOf(sec, q, p, id).values, sec.b, sec.Blocks(), p);
    var key := KeyOf(sec, q, p, id);
    var n := sec.N();
    Unscaled(sec, matrix, q, p, id, row);
    SplitMask(sec, matrix, q, p, id, row);
    CodewordVanishes(sec, matrix, q, p, id, row);
    SystematicIsProduct(sec, matrix, q, p, row);
    assert At(key.rPrime, row) == MaskCell(sec.mask, n, Shifted(sec, q, p, id), p, row);
    SubtractShare(
      Sum(blk => DecodeTerm(answer, key.pPrime, sec.Blocks(), row, blk), sec.Blocks()),
      Sum(i => PlainTerm(sec, matrix, q, p, id, row, i), n),
      Sum(i => EncodingTerm(sec, matrix, q, p, id, row, i), n),
      Sum(i => MaskTerm(sec.mask, n, Shifted(sec, q, p, id), row, i), n),
      At(key.rPrime, row),
      Sum(i => SystematicTerm(sec, matrix, q, p, row, i), n), p);
  }

  /** Protocol correctness: encrypt, query, answer and decode give exactly the
      plaintext product, for every matrix, query, secrets and identifier. */
  lemma Correctness(sec: Secrets, matrix: seq<int>, q: seq<int>, p: nat, id: nat)
    requires sec.Valid(p) && IndexAllowed(id) && |q| == sec.ell
    ensures var served := AnswerOf(Encrypted(sec, matrix, p), QueryOf(sec, q, p, id).values, sec.b, sec.Blocks(), p);
            DecodedOf(Answer(sec.instanceId, id, sec.rows, sec.Blocks(), served), KeyOf(sec, q, p, id), p)
            == ProductOf(matrix, q, sec.rows, sec.ell, p)
  {
    forall row | 0 <= row < sec.rows
      ensures DecodedCell(AnswerOf(Encrypted(sec, matrix, p), QueryOf(sec, q, p, id).values, sec.b, sec.Blocks(), p),
                          KeyOf(sec, q, p, id), sec.Blocks(), p, row)
              == ProductOf(matrix, q, sec.rows, sec.ell, p)[row]
    {
      RowCorrect(sec, matrix, q, p, id, row);
    }
  }
}
