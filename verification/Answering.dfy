/** The server's online work: block dot products written row by row into
    caller-owned storage. */
module Answering {
  import opened Arithmetic
  import opened Encryption
  import opened Grids
  import opened Kernels
  import opened NumberTheory
  import opened ParameterSets
  import opened ProtocolSpec
  import opened Sums

  // ----- One row -----

  /** What one matrix row answers to one query. */
  ghost function RowAnswer(matrixRow: seq<int>, query: seq<int>, b: nat, s: nat, p: int): (r: seq<int>)
    requires p > 0
    ensures |r| == s
  {
    seq(s, blk => Sum(t => Term(matrixRow, query, blk * b + t), b) % p)
  }

  ghost function AnswerRow(values: seq<int>, query: seq<int>, n: nat, b: nat, s: nat, p: int, row: int): (r: seq<int>)
    requires p > 0
    ensures |r| == s
  {
    seq(s, blk => AnswerCell(values, query, n, b, p, row, blk))
  }

  lemma RowTerm(values: seq<int>, query: seq<int>, row: int, n: nat, i: int)
    requires 0 <= i < n
    ensures Term(Row(values, row, n), query, i) == AnswerTerm(values, query, n, row, i)
  {
  }

  lemma RowAnswerIsAnswerRow(values: seq<int>, query: seq<int>, n: nat, b: nat, s: nat, p: int, row: int)
    requires p > 0 && s * b == n
    ensures RowAnswer(Row(values, row, n), query, b, s, p) == AnswerRow(values, query, n, b, s, p, row)
  {
    forall blk | 0 <= blk < s
      ensures RowAnswer(Row(values, row, n), query, b, s, p)[blk] == AnswerCell(values, query, n, b, p, row, blk)
    {
      var f, g := t => Term(Row(values, row, n), query, blk * b + t), t => AnswerTerm(values, query, n, row, blk * b + t);
      forall t | 0 <= t < b ensures f(t) == g(t) {
        CellBound(blk, s, t, b);
        RowTerm(values, query, row, n, blk * b + t);
      }
      SumExt(f, g, b);
    }
  }

  lemma BlockTerms(lhs: seq<int>, rhs: seq<int>, start: nat, b: nat)
    requires start + b <= |lhs| && |lhs| == |rhs|
    ensures Dot(lhs[start..start + b], rhs[start..start + b], b) == Sum(t => Term(lhs, rhs, start + t), b)
  {
    var x, y := lhs[start..start + b], rhs[start..start + b];
    forall t | 0 <= t < b ensures Term(x, y, t) == Term(lhs, rhs, start + t) {
      assert x[t] == lhs[start + t] && y[t] == rhs[start + t];
    }
    SumExt(t => Term(x, y, t), t => Term(lhs, rhs, start + t), b);
  }

  /** Slices each block once and fills one answer row. */
  method FillAnswerRow(matrixRow: seq<int>, query: seq<int>, b: nat, output: array<int>, start: nat, s: nat, p: int)
    requires p > 0 && |matrixRow| == |query| == s * b && start + s <= output.Length
    modifies output
    ensures output[start..start + s] == RowAnswer(matrixRow, query, b, s, p)
    ensures SameOutside(old(output[..]), output[..], start, s)
  {
    var blk := 0;
    while blk < s
      invariant 0 <= blk <= s
      invariant SameOutside(old(output[..]), output[..], start, s)
      invariant output[start..start + blk] == RowAnswer(matrixRow, query, b, s, p)[..blk]
    {
      MulMono(blk + 1, s, b);
      MulMono(0, blk, b);
      var from := blk * b;
      assert (blk + 1) * b == from + b;
      var cell := LaneDot(matrixRow[from..from + b], query[from..from + b], p);
      BlockTerms(matrixRow, query, from, b);
      output[start + blk] := cell;
      assert output[start..start + (blk + 1)] == output[start..start + blk] + [cell];
      blk := blk + 1;
    }
  }

  // ----- A batch of queries against one matrix -----

  /** The answers of the queries, one after the other. */
  ghost function BatchOf(matrix: EncryptedMatrix, queries: seq<seq<int>>, b: nat, s: nat, p: int): (a: seq<int>)
    requires p > 0
    ensures |a| == |queries| * (matrix.rows * s)
  {
    if queries == [] then []
    else
      var n := |queries| - 1;
      assert n * (matrix.rows * s) + matrix.rows * s == |queries| * (matrix.rows * s);
      BatchOf(matrix, queries[..n], b, s, p) + AnswerOf(matrix, queries[n], b, s, p)
  }

  lemma AnswerOfRow(matrix: EncryptedMatrix, query: seq<int>, b: nat, s: nat, p: int, row: nat)
    requires p > 0 && row < matrix.rows
    ensures Row(AnswerOf(matrix, query, b, s, p), row, s) == AnswerRow(matrix.values, query, matrix.columns, b, s, p, row)
  {
    var cell := (r, blk) => AnswerCell(matrix.values, query, matrix.columns, b, p, r, blk);
    forall blk | 0 <= blk < s
      ensures At(AnswerOf(matrix, query, b, s, p), row * s + blk) == AnswerCell(matrix.values, query, matrix.columns, b, p, row, blk)
    {
      GridAt(cell, matrix.rows, s, row, blk);
    }
  }

  /** Rows of a concatenation are rows of its parts. */
  lemma RowOfFirst(a: seq<int>, c: seq<int>, rows: nat, row: nat, s: nat)
    requires |a| == rows * s && row < rows
    ensures Row(a + c, row, s) == Row(a, row, s)
  {
    forall blk | 0 <= blk < s ensures Row(a + c, row, s)[blk] == Row(a, row, s)[blk] {
      CellBound(row, rows, blk, s);
      PrefixAt(a, c, row * s + blk);
    }
  }

  lemma PrefixAt(a: seq<int>, c: seq<int>, i: int)
    requires i < |a|
    ensures At(a + c, i) == At(a, i)
  {
  }

  lemma RowOfSecond(a: seq<int>, c: seq<int>, rows: nat, row: nat, s: nat)
    requires |a| == rows * s
    ensures Row(a + c, rows + row, s) == Row(c, row, s)
  {
    forall blk | 0 <= blk < s ensures Row(a + c, rows + row, s)[blk] == Row(c, row, s)[blk] {
      Distribute(rows + row, rows, s);
      MulMono(0, row, s);
      ShiftedAt(a, c, (rows + row) * s + blk, row * s + blk);
    }
  }

  lemma ShiftedAt(a: seq<int>, c: seq<int>, i: int, j: int)
    requires i == |a| + j && j >= 0
    ensures At(a + c, i) == At(c, j)
  {
  }

  lemma ProductOfThree(q: nat, rows: nat, s: nat)
    ensures q * (rows * s) == (q * rows) * s
  {
  }

  /** Flat row `q * rows + r` of the batch is row `r` of answer `q`. */
  lemma {:induction false} BatchRow(matrix: EncryptedMatrix, queries: seq<seq<int>>, b: nat, s: nat, p: int, q: nat, r: nat)
    requires p > 0 && q < |queries| && r < matrix.rows
    ensures Row(BatchOf(matrix, queries, b, s, p), q * matrix.rows + r, s)
            == AnswerRow(matrix.values, queries[q], matrix.columns, b, s, p, r)
    decreases |queries|
  {
    hide AnswerRow, Row;
    var n, rows := |queries| - 1, matrix.rows;
    var init, last := BatchOf(matrix, queries[..n], b, s, p), AnswerOf(matrix, queries[n], b, s, p);
    ProductOfThree(n, rows, s);
    if q < n {
      CellBound(q, n, r, rows);
      RowOfFirst(init, last, n * rows, q * rows + r, s);
      BatchRow(matrix, queries[..n], b, s, p, q, r);
    } else {
      RowOfSecond(init, last, n * rows, r, s);
      AnswerOfRow(matrix, queries[n], b, s, p, r);
    }
  }

  /** Flat matrices with equal rows are equal. */
  lemma RowsDetermine(a: seq<int>, c: seq<int>, rows: nat, s: nat)
    requires |a| == |c| == rows * s
    requires forall row: nat | row < rows :: Row(a, row, s) == Row(c, row, s)
    ensures a == c
  {
    var cell := (r, blk) => At(c, r * s + blk);
    forall r, blk | 0 <= r < rows && 0 <= blk < s ensures At(a, r * s + blk) == cell(r, blk) {
      assert Row(a, r, s)[blk] == Row(c, r, s)[blk];
    }
    GridUnique(a, cell, rows, s);
    GridUnique(c, cell, rows, s);
  }

  /** Splitting a flat row index. */
  lemma FlatIndex(flat: nat, rows: nat, count: nat)
    requires rows > 0 && flat < count * rows
    ensures 0 <= flat / rows < count && 0 <= flat % rows < rows && flat == (flat / rows) * rows + flat % rows
  {
    var q := flat / rows;
    assert flat == q * rows + flat % rows;
    if q >= count { MulMono(count, q, rows); }
    if q < 0 { MulMono(q, -1, rows); }
  }

  /** What the flat row must hold. */
  ghost function FlatRow(matrix: EncryptedMatrix, queries: seq<seq<int>>, b: nat, s: nat, p: int, flat: nat): (r: seq<int>)
    requires p > 0 && matrix.rows > 0 && flat < |queries| * matrix.rows
    ensures |r| == s
  {
    FlatIndex(flat, matrix.rows, |queries|);
    AnswerRow(matrix.values, queries[flat / matrix.rows], matrix.columns, b, s, p, flat % matrix.rows)
  }

  /** An arena range all of whose flat rows are right is the batch of answers. */
  lemma {:induction false} FlatRowsAreBatch(local: seq<int>, matrix: EncryptedMatrix, queries: seq<seq<int>>, b: nat, s: nat, p: int)
    requires p > 0 && matrix.rows > 0 && |local| == |queries| * matrix.rows * s
    requires forall flat: nat | flat < |queries| * matrix.rows :: FlatDone(local, matrix, queries, b, s, p, flat)
    ensures local == BatchOf(matrix, queries, b, s, p)
  {
    hide AnswerRow, Row;
    var total := |queries| * matrix.rows;
    var batch := BatchOf(matrix, queries, b, s, p);
    ProductOfThree(|queries|, matrix.rows, s);
    forall flat: nat | flat < total ensures Row(local, flat, s) == Row(batch, flat, s) {
      assert FlatDone(local, matrix, queries, b, s, p, flat);
      FlatIndex(flat, matrix.rows, |queries|);
      BatchRow(matrix, queries, b, s, p, flat / matrix.rows, flat % matrix.rows);
    }
    RowsDetermine(local, batch, total, s);
  }

  /** Answer `q` is the `q`-th chunk of the batch. */
  lemma {:induction false} BatchChunk(matrix: EncryptedMatrix, queries: seq<seq<int>>, b: nat, s: nat, p: int, q: nat)
    requires p > 0 && q < |queries|
    ensures var words := matrix.rows * s;
            && 0 <= q * words && q * words + words <= |BatchOf(matrix, queries, b, s, p)|
            && BatchOf(matrix, queries, b, s, p)[q * words..q * words + words] == AnswerOf(matrix, queries[q], b, s, p)
    decreases |queries|
  {
    var n, words := |queries| - 1, matrix.rows * s;
    var init, last := BatchOf(matrix, queries[..n], b, s, p), AnswerOf(matrix, queries[n], b, s, p);
    FlatRoom(q, |queries|, words);
    if q < n {
      BatchChunk(matrix, queries[..n], b, s, p, q);
      assert (init + last)[q * words..q * words + words] == init[q * words..q * words + words];
    } else {
      assert (init + last)[|init|..|init| + words] == last;
    }
  }

  // ----- Filling an arena range -----

  /** The shape under which answers are filled. */
  ghost predicate Answerable(matrix: EncryptedMatrix, queries: seq<seq<int>>, b: nat, s: nat) {
    && matrix.rows > 0
    && s * b == matrix.columns
    && |matrix.values| == matrix.rows * matrix.columns
    && forall q | 0 <= q < |queries| :: |queries[q]| == matrix.columns
  }

  ghost predicate FlatDone(local: seq<int>, matrix: EncryptedMatrix, queries: seq<seq<int>>, b: nat, s: nat, p: int, flat: nat)
    requires p > 0 && matrix.rows > 0 && flat < |queries| * matrix.rows
  {
    Row(local, flat, s) == FlatRow(matrix, queries, b, s, p, flat)
  }

  /** Computes one flat row straight into the arena. */
  method FillFlatRow(matrix: EncryptedMatrix, queries: seq<seq<int>>, b: nat, s: nat, p: int,
                     arena: array<int>, base: nat, flat: nat)
    requires p > 0 && Answerable(matrix, queries, b, s) && flat < |queries| * matrix.rows
    requires base + |queries| * matrix.rows * s <= arena.Length
    modifies arena
    ensures SameOutside(old(arena[..]), arena[..], base + flat * s, s)
    ensures 0 <= flat * s && flat * s + s <= |queries| * matrix.rows * s
    ensures FlatDone(arena[base..base + |queries| * matrix.rows * s], matrix, queries, b, s, p, flat)
  {
    hide Term, AnswerCell, SameOutside;
    var rows, n, total := matrix.rows, matrix.columns, |queries| * matrix.rows * s;
    FlatIndex(flat, rows, |queries|);
    var query, index := queries[flat / rows], flat % rows;
    RowSlice(matrix.values, index, rows, n);
    var matrixRow := matrix.values[index * n..index * n + n];
    RowAnswerIsAnswerRow(matrix.values, query, n, b, s, p, index);
    FlatRoom(flat, |queries| * rows, s);
    FillAnswerRow(matrixRow, query, b, arena, base + flat * s, s, p);
    SliceOfSlice(arena[..], base, total, flat * s, s);
    RowSlice(arena[base..base + total], flat, |queries| * rows, s);
  }

  lemma FlatRoom(flat: nat, rows: nat, s: nat)
    requires flat < rows
    ensures 0 <= flat * s && flat * s + s <= rows * s
  {
    MulMono(0, flat, s);
    MulMono(flat + 1, rows, s);
    assert (flat + 1) * s == flat * s + s;
  }

  lemma SliceOfSlice(a: seq<int>, base: nat, total: nat, start: nat, s: nat)
    requires base + total <= |a| && start + s <= total
    ensures a[base..base + total][start..start + s] == a[base + start..base + start + s]
  {
    var local := a[base..base + total];
    var inner, outer := local[start..start + s], a[base + start..base + start + s];
    forall i | 0 <= i < s ensures inner[i] == outer[i] {
      assert local[start + i] == a[base + (start + i)];
    }
  }

  /** Writing one flat row of a range leaves its other rows as they were. */
  lemma OtherFlatRow(before: seq<int>, after: seq<int>, base: nat, rows: nat, s: nat, done: nat, row: nat)
    requires done < rows && row < rows && row != done && |before| == |after| && base + rows * s <= |before|
    requires SameOutside(before, after, base + done * s, s)
    ensures Row(before[base..base + rows * s], row, s) == Row(after[base..base + rows * s], row, s)
  {
    var total := rows * s;
    var localBefore, localAfter := before[base..base + total], after[base..base + total];
    LocalSame(before, after, base, total, done * s, s);
    OtherRow(localBefore, localAfter, s, rows, done, row);
  }

  lemma LocalSame(before: seq<int>, after: seq<int>, base: nat, total: nat, start: nat, s: nat)
    requires |before| == |after| && base + total <= |before| && SameOutside(before, after, base + start, s)
    ensures SameOutside(before[base..base + total], after[base..base + total], start, s)
  {
    var x, y := before[base..base + total], after[base..base + total];
    forall i | 0 <= i < |x| && !(start <= i < start + s) ensures y[i] == x[i] {
      assert after[base + i] == before[base + i];
    }
  }

  /** The flat rows of one range are computed in any order; afterwards the range
      holds the answers, whatever it held before. */
  method FillAnswerBatch(matrix: EncryptedMatrix, queries: seq<seq<int>>, b: nat, s: nat, p: int,
                         arena: array<int>, base: nat, order: seq<int>)
    requires p > 0 && Answerable(matrix, queries, b, s) && Permutes(order, |queries| * matrix.rows)
    requires base + |queries| * matrix.rows * s <= arena.Length
    modifies arena
    ensures arena[base..base + |queries| * matrix.rows * s] == BatchOf(matrix, queries, b, s, p)
    ensures SameOutside(old(arena[..]), arena[..], base, |queries| * matrix.rows * s)
  {
    hide FlatRow, Row, AnswerRow, BatchOf;
    var flats := |queries| * matrix.rows;
    var total := flats * s;
    var step := 0;
    while step < |order|
      invariant 0 <= step <= |order|
      invariant SameOutside(old(arena[..]), arena[..], base, total)
      invariant forall j | 0 <= j < step :: FlatDone(arena[base..base + total], matrix, queries, b, s, p, order[j])
    {
      ghost var before := arena[..];
      var flat := order[step];
      FillFlatRow(matrix, queries, b, s, p, arena, base, flat);
      Widen(old(arena[..]), before, arena[..], base, total, flat * s, s);
      forall j | 0 <= j < step ensures FlatDone(arena[base..base + total], matrix, queries, b, s, p, order[j]) {
        OtherFlatRow(before, arena[..], base, flats, s, flat, order[j]);
        assert FlatDone(before[base..base + total], matrix, queries, b, s, p, order[j]);
        assert arena[base..base + total] == arena[..][base..base + total];
      }
      step := step + 1;
    }
    PermutesHitsAll(order, flats);
    ghost var filled := arena[base..base + total];
    forall flat: nat | flat < flats ensures FlatDone(filled, matrix, queries, b, s, p, flat) {
      assert flat in order;
    }
    FlatRowsAreBatch(filled, matrix, queries, b, s, p);
  }

  lemma Widen(first: seq<int>, before: seq<int>, after: seq<int>, base: nat, total: nat, start: nat, s: nat)
    requires SameOutside(first, before, base, total) && SameOutside(before, after, base + start, s) && start + s <= total
    ensures SameOutside(first, after, base, total)
  {
    forall x | 0 <= x < |first| && !(base <= x < base + total) ensures after[x] == first[x] {
      assert after[x] == before[x];
    }
  }

  // ----- Validation and the caller-owned entry point -----

  datatype Shape = Shaped(n: nat) | Misshapen(error: ProtocolError)

  /** The codeword length, or the first reason the matrix cannot be served. */
  function ValidateMatrixShape(params: EmvpParams, matrix: EncryptedMatrix): (r: Shape)
    ensures r.Shaped? <==>
              && WellShaped(params) && matrix.columns == 2 * params.k && matrix.rows > 0
              && matrix.rows * matrix.columns < TWO64 && |matrix.values| == matrix.rows * matrix.columns
    ensures r.Shaped? ==> r.n == matrix.columns
  {
    match ValidateDimensions(params)
    case Rejected(error) => Misshapen(BadParams(error))
    case Valid =>
      var n := 2 * params.k;
      if matrix.columns != n then Misshapen(LengthMismatch(MatrixColumns, n, matrix.columns))
      else if matrix.rows == 0 then Misshapen(LengthMismatch(MatrixRows, 1, 0))
      else if matrix.rows * n >= TWO64 then Misshapen(Overflow)
      else if |matrix.values| != matrix.rows * n then Misshapen(LengthMismatch(MatrixValues, matrix.rows * n, |matrix.values|))
      else Shaped(n)
  }

  function ValidateQuery(n: nat, instanceId: nat, query: EncryptedQuery): (r: Status)
    ensures r.Ok? <==> |query.values| == n && query.instanceId == instanceId
  {
    if |query.values| != n then Err(LengthMismatch(EncryptedQueryLength, n, |query.values|))
    else if query.instanceId != instanceId then Err(InstanceMismatch(instanceId, query.instanceId))
    else Ok
  }

  function ValidateAnswer(params: EmvpParams, matrix: EncryptedMatrix, query: EncryptedQuery, outputLen: nat): (r: Status)
    ensures r.Ok? <==>
              && ValidateMatrixShape(params, matrix).Shaped?
              && |query.values| == matrix.columns && query.instanceId == matrix.instanceId
              && params.b > 0 && matrix.rows * (matrix.columns / params.b) < TWO64
              && outputLen == matrix.rows * (matrix.columns / params.b)
  {
    match ValidateMatrixShape(params, matrix)
    case Misshapen(error) => Err(error)
    case Shaped(n) =>
      var query := ValidateQuery(n, matrix.instanceId, query);
      if query.Err? then query
      else
        var expected := matrix.rows * (n / params.b);
        if expected >= TWO64 then Err(Overflow)
        else if outputLen != expected then Err(LengthMismatch(AnswerOutput, expected, outputLen))
        else Ok
  }

  /** Answers one query, or refuses before touching the output. */
  method AnswerInto(params: EmvpParams, matrix: EncryptedMatrix, query: EncryptedQuery, output: array<int>,
                    order: seq<int>, p: int) returns (r: Status)
    requires p > 0 && Permutes(order, matrix.rows)
    modifies output
    ensures r == ValidateAnswer(params, matrix, query, output.Length)
    ensures r.Err? ==> output[..] == old(output[..])
    ensures r.Ok? ==> output[..] == AnswerOf(matrix, query.values, params.b, matrix.columns / params.b, p)
  {
    r := ValidateAnswer(params, matrix, query, output.Length);
    if r.Err? { return; }
    var s := matrix.columns / params.b;
    assert s * params.b == matrix.columns;
    var queries := [query.values];
    assert |queries| * matrix.rows == matrix.rows;
    FillAnswerBatch(matrix, queries, params.b, s, p, output, 0, order);
    assert output[..] == output[0..matrix.rows * s];
    OneAnswer(matrix, query.values, params.b, s, p);
  }

  lemma {:induction false} OneAnswer(matrix: EncryptedMatrix, query: seq<int>, b: nat, s: nat, p: int)
    requires p > 0
    ensures BatchOf(matrix, [query], b, s, p) == AnswerOf(matrix, query, b, s, p)
  {
    assert [query][..0] == [];
    assert BatchOf(matrix, [], b, s, p) == [];
  }
}
