/** Matrix encryption in place: the materialized mask is overwritten row by row
    with the gathered, masked dual encoding. */
module Encryption {
  import opened Arithmetic
  import opened Code
  import opened Grids
  import opened Kernels
  import opened ProtocolSpec
  import opened Sums

  // ----- Encryption -----

  /** Only the `length` entries from `start` may differ. */
  ghost predicate SameOutside(before: seq<int>, after: seq<int>, start: int, length: int) {
    |before| == |after| && forall x | 0 <= x < |before| && !(start <= x < start + length) :: after[x] == before[x]
  }

  function Gathered(permutation: seq<int>, input: seq<int>): (s: seq<int>)
    ensures |s| == |permutation|
  {
    seq(|permutation|, i => At(input, At(permutation, i)))
  }

  /** Reads `input` through the gather into `output[start ..]`. */
  method Gather(permutation: seq<int>, input: array<int>, output: array<int>, start: nat)
    requires input != output && start + |permutation| <= output.Length
    requires forall i | 0 <= i < |permutation| :: 0 <= permutation[i] < input.Length
    modifies output
    ensures output[start..start + |permutation|] == Gathered(permutation, input[..])
    ensures SameOutside(old(output[..]), output[..], start, |permutation|)
  {
    var i := 0;
    while i < |permutation|
      invariant 0 <= i <= |permutation|
      invariant forall j | start <= j < start + i :: output[j] == input[permutation[j - start]]
      invariant SameOutside(old(output[..]), output[..], start, |permutation|)
    {
      output[start + i] := input[permutation[i]];
      i := i + 1;
    }
  }

  /** Adds `addend[start ..]` onto the row buffer. */
  method AddRow(row: array<int>, addend: array<int>, start: nat, p: int)
    requires p > 0 && row != addend && start + row.Length <= addend.Length
    modifies row
    ensures forall i | 0 <= i < row.Length :: row[i] == FAdd(old(row[i]), addend[start + i], p)
  {
    var i := 0;
    while i < row.Length
      invariant 0 <= i <= row.Length
      invariant forall j | 0 <= j < i :: row[j] == FAdd(old(row[j]), addend[start + j], p)
      invariant forall j | i <= j < row.Length :: row[j] == old(row[j])
    {
      row[i] := FAdd(row[i], addend[start + i], p);
      i := i + 1;
    }
  }

  /** One entry of a masked row, read through the gather. */
  ghost function MaskedRow(code: CyclicDualCode, permutation: seq<int>, plain: seq<int>, mask: seq<int>, p: int): seq<int>
    requires code.k > 0 && p > 0
  {
    seq(2 * code.k, i => MaskedCell(code, permutation, plain, mask, p, i))
  }

  ghost function MaskedCell(code: CyclicDualCode, permutation: seq<int>, plain: seq<int>, mask: seq<int>, p: int, i: int): int
    requires code.k > 0 && p > 0
  {
    FAdd(At(DualRow(code.multiplier, plain, code.k, p), At(permutation, i)), At(mask, At(permutation, i)), p)
  }

  /** Encodes one plaintext row, masks it with the materialized row already in
      the output, and gathers it over that row. */
  method EncodeMaskedRow(code: CyclicDualCode, permutation: seq<int>, plain: seq<int>, row: array<int>,
                         output: array<int>, start: nat, scratch: CodeScratch, p: nat)
    requires p > 0 && code.Valid() && |plain| <= code.k && Permutes(permutation, 2 * code.k)
    requires scratch.Separate() && ScratchFits(code, scratch) && row.Length == 2 * code.k
    requires start + 2 * code.k <= output.Length
    requires row != output && {row, output} !! {scratch.transform, scratch.operand, scratch.product}
    modifies row, output, scratch.transform, scratch.operand, scratch.product
    ensures output[start..start + 2 * code.k]
            == MaskedRow(code, permutation, plain, old(output[start..start + 2 * code.k]), p)
    ensures SameOutside(old(output[..]), output[..], start, 2 * code.k)
  {
    ghost var mask := output[start..start + 2 * code.k];
    var status := DualEncodeRow(code, plain, row, scratch, p);
    AddRow(row, output, start, p);
    forall i | 0 <= i < row.Length
      ensures row[i] == FAdd(At(DualRow(code.multiplier, plain, code.k, p), i), At(mask, i), p)
    {
      assert mask[i] == output[start + i];
    }
    Gather(permutation, row, output, start);
    assert Gathered(permutation, row[..]) == MaskedRow(code, permutation, plain, mask, p);
  }

  ghost function CipherRow(sec: Secrets, matrix: seq<int>, p: nat, row: int): (s: seq<int>)
    requires sec.k > 0 && p > 0
  {
    seq(sec.N(), i => CipherCell(sec, matrix, p, row, i))
  }

  ghost predicate RowDone(output: seq<int>, sec: Secrets, matrix: seq<int>, p: nat, row: int)
    requires sec.k > 0 && p > 0
  {
    Row(output, row, sec.N()) == CipherRow(sec, matrix, p, row)
  }

  ghost predicate RowMasked(output: seq<int>, sec: Secrets, row: int) {
    Row(output, row, sec.N()) == Row(sec.mask, row, sec.N())
  }

  lemma RowSlice(values: seq<int>, row: nat, rows: nat, width: nat)
    requires row < rows && |values| == rows * width
    ensures 0 <= row * width && row * width + width <= |values|
    ensures values[row * width..row * width + width] == Row(values, row, width)
  {
    var start := row * width;
    MulMono(0, row, width);
    MulMono(row + 1, rows, width);
    assert (row + 1) * width == start + width;
    SliceIsRow(values, row, width, start);
  }

  lemma SliceIsRow(values: seq<int>, row: nat, width: nat, start: nat)
    requires start == row * width && start + width <= |values|
    ensures values[start..start + width] == Row(values, row, width)
  {
    var slice := values[start..start + width];
    forall c | 0 <= c < width ensures slice[c] == Row(values, row, width)[c] { assert slice[c] == values[start + c]; }
  }

  lemma RowsApart(row: nat, done: nat, n: nat)
    requires row != done
    ensures row * n + n <= done * n || done * n + n <= row * n
  {
    if row < done {
      MulMono(row + 1, done, n);
      assert (row + 1) * n == row * n + n;
    } else {
      MulMono(done + 1, row, n);
      assert (done + 1) * n == done * n + n;
    }
  }

  /** Writing one row leaves every other row as it was. */
  lemma OtherRow(before: seq<int>, after: seq<int>, n: nat, rows: nat, done: nat, row: nat)
    requires done < rows && row < rows && row != done && |before| == rows * n
    requires SameOutside(before, after, done * n, n)
    ensures Row(before, row, n) == Row(after, row, n)
  {
    var start, written := row * n, done * n;
    RowSlice(before, row, rows, n);
    RowSlice(after, row, rows, n);
    RowsApart(row, done, n);
    SameSlice(before, after, written, n, start);
  }

  lemma SameSlice(before: seq<int>, after: seq<int>, written: nat, n: nat, start: nat)
    requires SameOutside(before, after, written, n) && start + n <= |before|
    requires start + n <= written || written + n <= start
    ensures before[start..start + n] == after[start..start + n]
  {
  }

  lemma MaskedCellIsCipher(sec: Secrets, matrix: seq<int>, row: nat, p: nat, i: nat)
    requires sec.Valid(p) && i < sec.N()
    ensures MaskedCell(sec.code, sec.permutation, Row(matrix, row, sec.ell), Row(sec.mask, row, sec.N()), p, i)
            == CipherCell(sec, matrix, p, row, i)
  {
  }

  /** Rows are encrypted in any order; `order` lists each row once. */
  method FillEncryptedRows(sec: Secrets, matrix: seq<int>, output: array<int>, order: seq<int>, p: nat)
    requires sec.Valid(p) && |matrix| == sec.rows * sec.ell && output[..] == sec.mask
    requires Permutes(order, sec.rows)
    modifies output
    ensures output[..] == Encrypted(sec, matrix, p).values
  {
    hide CipherRow, SameOutside, Encrypted, Row;
    var scratch := new CodeScratch(sec.code.planLength, sec.k);
    var row := new int[sec.N()](i => 0);
    var step := 0;
    while step < |order|
      invariant 0 <= step <= |order| && output.Length == sec.rows * sec.N()
      invariant forall j | 0 <= j < step :: RowDone(output[..], sec, matrix, p, order[j])
      invariant forall j | step <= j < |order| :: RowMasked(output[..], sec, order[j])
    {
      ghost var before := output[..];
      FillOneRow(sec, matrix, output, order[step], row, scratch, p);
      forall j | 0 <= j < |order| && j != step
        ensures Row(before, order[j], sec.N()) == Row(output[..], order[j], sec.N())
      {
        OtherRow(before, output[..], sec.N(), sec.rows, order[step], order[j]);
      }
      step := step + 1;
    }
    AllRowsDone(output[..], sec, matrix, order, p);
  }

  method FillOneRow(sec: Secrets, matrix: seq<int>, output: array<int>, index: nat, row: array<int>,
                    scratch: CodeScratch, p: nat)
    requires sec.Valid(p) && |matrix| == sec.rows * sec.ell && index < sec.rows && output.Length == sec.rows * sec.N()
    requires scratch.Separate() && ScratchFits(sec.code, scratch) && row.Length == sec.N()
    requires row != output && {row, output} !! {scratch.transform, scratch.operand, scratch.product}
    requires RowMasked(output[..], sec, index)
    modifies row, output, scratch.transform, scratch.operand, scratch.product
    ensures RowDone(output[..], sec, matrix, p, index)
    ensures SameOutside(old(output[..]), output[..], index * sec.N(), sec.N())
  {
    hide CipherCell, MaskedCell, Permutes, Canonical, Row;
    var n, start := sec.N(), index * sec.N();
    RowSlice(matrix, index, sec.rows, sec.ell);
    RowSlice(output[..], index, sec.rows, n);
    var plain := matrix[index * sec.ell..index * sec.ell + sec.ell];
    assert output[start..start + n] == output[..][start..start + n];
    EncodeMaskedRow(sec.code, sec.permutation, plain, row, output, start, scratch, p);
    RowSlice(output[..], index, sec.rows, n);
    assert output[start..start + n] == output[..][start..start + n];
    forall i | 0 <= i < n
      ensures MaskedCell(sec.code, sec.permutation, plain, Row(sec.mask, index, n), p, i) == CipherCell(sec, matrix, p, index, i)
    {
      MaskedCellIsCipher(sec, matrix, index, p, i);
    }
    assert MaskedRow(sec.code, sec.permutation, plain, Row(sec.mask, index, n), p) == CipherRow(sec, matrix, p, index);
  }

  lemma AllRowsDone(output: seq<int>, sec: Secrets, matrix: seq<int>, order: seq<int>, p: nat)
    requires sec.Valid(p) && |output| == sec.rows * sec.N() && Permutes(order, sec.rows)
    requires forall j | 0 <= j < |order| :: RowDone(output, sec, matrix, p, order[j])
    ensures output == Encrypted(sec, matrix, p).values
  {
    hide CipherCell;
    PermutesHitsAll(order, sec.rows);
    var n := sec.N();
    var cell := (r, c) => CipherCell(sec, matrix, p, r, c);
    forall r, c | 0 <= r < sec.rows && 0 <= c < n ensures At(output, r * n + c) == cell(r, c) {
      assert r in order;
      assert RowDone(output, sec, matrix, p, r);
      assert Row(output, r, n)[c] == CipherRow(sec, matrix, p, r)[c];
    }
    GridUnique(output, cell, sec.rows, n);
  }
}
