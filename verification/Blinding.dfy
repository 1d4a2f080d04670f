/** What each secret contributes: the mask to the ciphertext, the scalars and the
    codeword to a query, and the permutation to both. */
module Blinding {
  import opened Arithmetic
  import opened Code
  import opened Grids
  import opened Inversion
  import opened Kernels
  import opened ParameterSets
  import opened Prf
  import opened ProtocolSpec
  import opened Sums

  // ----- The mask -----

  lemma CipherWord(sec: Secrets, matrix: seq<int>, p: nat, row: nat, i: nat)
    requires sec.Valid(p) && row < sec.rows && i < sec.N()
    ensures |Encrypted(sec, matrix, p).values| == sec.rows * sec.N()
    ensures 0 <= row * sec.N() + i < sec.rows * sec.N() && 0 <= row * sec.N() + sec.permutation[i] < sec.rows * sec.N()
    ensures Encrypted(sec, matrix, p).values[row * sec.N() + i]
            == FAdd(DualAt(sec, matrix, p, row, sec.permutation[i]), sec.mask[row * sec.N() + sec.permutation[i]], p)
  {
    CellBound(row, sec.rows, i, sec.N());
    CellBound(row, sec.rows, sec.permutation[i], sec.N());
    GridAt((r, c) => CipherCell(sec, matrix, p, r, c), sec.rows, sec.N(), row, i);
  }

  /** A ciphertext word less its mask word is the dual encoding's word, both read
      through the permutation. */
  lemma MaskShifts(sec: Secrets, matrix: seq<int>, p: nat, row: nat, i: nat)
    requires sec.Valid(p) && row < sec.rows && i < sec.N()
    ensures |Encrypted(sec, matrix, p).values| == sec.rows * sec.N()
    ensures 0 <= row * sec.N() + i < sec.rows * sec.N() && 0 <= row * sec.N() + sec.permutation[i] < sec.rows * sec.N()
    ensures Congruent(Encrypted(sec, matrix, p).values[row * sec.N() + i] - sec.mask[row * sec.N() + sec.permutation[i]],
                      DualRow(sec.code.multiplier, Row(matrix, row, sec.ell), sec.k, p)[sec.permutation[i]], p)
  {
    hide Encrypted, Permutes, DualRow, Row;
    InRange(sec.permutation, sec.N(), i);
    CipherWord(sec, matrix, p, row, i);
    var d, r := DualAt(sec, matrix, p, row, sec.permutation[i]), sec.mask[row * sec.N() + sec.permutation[i]];
    ModAdd(d + r, -r, p);
  }

  /** Every mask word reaches the ciphertext: canonical masks that encrypt a matrix
      alike are equal. */
  lemma MaskDetermined(sec: Secrets, other: seq<int>, matrix: seq<int>, p: nat)
    requires sec.Valid(p) && sec.(mask := other).Valid(p) && Canonical(sec.mask, p) && Canonical(other, p)
    requires Encrypted(sec, matrix, p).values == Encrypted(sec.(mask := other), matrix, p).values
    ensures sec.mask == other
  {
    hide Encrypted, Permutes, Canonical, DualAt;
    var n := sec.N();
    forall x | 0 <= x < |sec.mask| ensures sec.mask[x] == other[x] {
      var row, column := x / n, x % n;
      RowAndColumn(x, sec.rows, n);
      var i := Preimage(sec.permutation, n, column);
      CipherWord(sec, matrix, p, row, i);
      CipherWord(sec.(mask := other), matrix, p, row, i);
      SameSecrets(sec, other, matrix, p, row, column);
      SameShift(DualAt(sec, matrix, p, row, column), sec.mask, other, x, p);
    }
  }

  lemma RowAndColumn(x: int, rows: nat, n: nat)
    requires 0 <= x < rows * n && n > 0
    ensures 0 <= x / n < rows && 0 <= x % n < n && x == x / n * n + x % n
  {
    if x / n >= rows { MulMono(rows, x / n, n); }
  }

  lemma SameShift(d: int, first: seq<int>, second: seq<int>, x: int, p: int)
    requires p > 0 && Canonical(first, p) && Canonical(second, p) && |first| == |second| && 0 <= x < |first|
    requires FAdd(d, first[x], p) == FAdd(d, second[x], p)
    ensures first[x] == second[x]
  {
    ModEqDiff(d + first[x], d + second[x], p);
    ModSmall(first[x], p);
    ModSmall(second[x], p);
    ModEqDiff(first[x], second[x], p);
  }

  /** The mask that makes another matrix look the same. */
  ghost function Equivocating(sec: Secrets, matrix: seq<int>, other: seq<int>, p: nat): (mask: seq<int>)
    requires sec.k > 0 && p > 0
  {
    seq(|sec.mask|, x requires 0 <= x < |sec.mask| =>
      (DualAt(sec, matrix, p, x / sec.N(), x % sec.N()) + sec.mask[x] - DualAt(sec, other, p, x / sec.N(), x % sec.N())) % p)
  }

  /** With a dense mask the ciphertext fits every matrix: for any other matrix
      there is a canonical mask that gives the same ciphertext. */
  lemma EveryMatrixFits(sec: Secrets, matrix: seq<int>, other: seq<int>, p: nat)
    requires sec.Valid(p)
    ensures var mask := Equivocating(sec, matrix, other, p);
            && Canonical(mask, p) && sec.(mask := mask).Valid(p)
            && Encrypted(sec.(mask := mask), other, p).values == Encrypted(sec, matrix, p).values
  {
    hide Encrypted, Permutes, Canonical, Equivocating, WellShaped;
    var mask := Equivocating(sec, matrix, other, p);
    EquivocatingFits(sec, matrix, other, p);
    var n := sec.N();
    var left, right := Encrypted(sec.(mask := mask), other, p).values, Encrypted(sec, matrix, p).values;
    CipherWord(sec, matrix, p, 0, 0);
    CipherWord(sec.(mask := mask), other, p, 0, 0);
    forall x | 0 <= x < sec.rows * n ensures left[x] == right[x] {
      RowAndColumn(x, sec.rows, n);
      EquivocatedWord(sec, matrix, other, p, x / n, x % n);
    }
  }

  lemma EquivocatingFits(sec: Secrets, matrix: seq<int>, other: seq<int>, p: nat)
    requires sec.Valid(p)
    ensures var mask := Equivocating(sec, matrix, other, p); Canonical(mask, p) && sec.(mask := mask).Valid(p)
  {
    hide Permutes, DualAt;
  }

  lemma EquivocatedWord(sec: Secrets, matrix: seq<int>, other: seq<int>, p: nat, row: nat, i: nat)
    requires sec.Valid(p) && sec.(mask := Equivocating(sec, matrix, other, p)).Valid(p) && row < sec.rows && i < sec.N()
    ensures |Encrypted(sec, matrix, p).values| == |Encrypted(sec.(mask := Equivocating(sec, matrix, other, p)), other, p).values|
    ensures 0 <= row * sec.N() + i < |Encrypted(sec, matrix, p).values|
    ensures Encrypted(sec.(mask := Equivocating(sec, matrix, other, p)), other, p).values[row * sec.N() + i]
            == Encrypted(sec, matrix, p).values[row * sec.N() + i]
  {
    hide Encrypted, Permutes, DualAt;
    var n, masked := sec.N(), sec.(mask := Equivocating(sec, matrix, other, p));
    InRange(sec.permutation, n, i);
    var column := sec.permutation[i];
    CipherWord(sec, matrix, p, row, i);
    CipherWord(masked, other, p, row, i);
    DivModUnique(row * n + column, row, column, n);
    SameSecrets(sec, masked.mask, other, p, row, column);
    Reshift(DualAt(sec, matrix, p, row, column), DualAt(sec, other, p, row, column), sec.mask[row * n + column], p);
  }

  lemma SameSecrets(sec: Secrets, mask: seq<int>, matrix: seq<int>, p: nat, row: int, column: int)
    requires sec.k > 0 && p > 0
    ensures DualAt(sec.(mask := mask), matrix, p, row, column) == DualAt(sec, matrix, p, row, column)
  {
  }

  lemma Preimage(s: seq<int>, n: nat, x: int) returns (i: nat)
    requires Permutes(s, n) && 0 <= x < n
    ensures i < n == |s| && s[i] == x
  {
    PermutesHitsAll(s, n);
    assert x in s;
    i :| 0 <= i < |s| && s[i] == x;
  }

  lemma InRange(s: seq<int>, n: nat, i: nat)
    requires Permutes(s, n) && i < n
    ensures |s| == n && 0 <= s[i] < n
  {
  }

  lemma Reshift(d: int, e: int, r: int, p: int)
    requires p > 0
    ensures FAdd(e, (d + r - e) % p, p) == FAdd(d, r, p)
  {
    var x := d + r - e;
    ModAdd(e, x, p);
    assert e + x == d + r;
  }

  // ----- The query -----

  /** A query word divided by its block's scalar is the shifted vector's word, read
      through the permutation; the key holds the inverses of exactly the sampled
      scalars. */
  lemma ScalarsUnblind(sec: Secrets, q: seq<int>, p: nat, id: nat, i: nat)
    requires sec.Valid(p) && IndexAllowed(id) && i < sec.N()
    ensures var blk, key := i / sec.b, KeyOf(sec, q, p, id);
            && 0 <= blk < sec.Blocks() == |key.pPrime| && 0 <= sec.permutation[i] < sec.N()
            && Congruent(key.pPrime[blk] * sec.scalar(id)[blk], 1, p)
            && Congruent(QueryOf(sec, q, p, id).values[i] * key.pPrime[blk], Shifted(sec, q, p, id)[sec.permutation[i]], p)
  {
    hide Permutes, Inverse, Shifted;
    var blk := i / sec.b;
    sec.BlocksTile();
    RowAndColumn(i, sec.Blocks(), sec.b);
    InRange(sec.permutation, sec.N(), i);
    assert |Shifted(sec, q, p, id)| == sec.N();
    ScalarCancels(sec, p, id, blk);
    var alpha, y := sec.scalar(id)[blk], Shifted(sec, q, p, id)[sec.permutation[i]];
    Commute(alpha, Inverse(alpha, p));
    CongruentResidue(y * alpha, p);
    CongruentProduct(FMul(y, alpha, p), y * alpha, Inverse(alpha, p), Inverse(alpha, p), p);
    CongruentProduct(y, y, alpha * Inverse(alpha, p), 1, p);
    Associate(y, alpha, Inverse(alpha, p));
  }

  /** The shifted vector less the padded query is the codeword of the sampled
      message. */
  lemma CodewordShifts(sec: Secrets, q: seq<int>, p: nat, id: nat, x: nat)
    requires sec.Valid(p) && IndexAllowed(id) && x < sec.N()
    ensures Congruent(Shifted(sec, q, p, id)[x] - Padded(q, sec.k, x), Codeword(sec.code.multiplier, sec.message(id), p)[x], p)
  {
    hide Permutes, Codeword;
    var c, y := Codeword(sec.code.multiplier, sec.message(id), p)[x], Padded(q, sec.k, x);
    ModAdd(c + y, -y, p);
  }
}
