/** Verification catches corruption: an answer that verifies stops verifying when
    any one word of it is changed. */
module Tampering {
  import opened Arithmetic
  import opened Blinding
  import opened Client
  import opened Decoding
  import opened Grids
  import opened Inversion
  import opened Kernels
  import opened NumberTheory
  import opened ParameterSets
  import opened Prf
  import opened ProtocolSpec
  import opened Sums
  import opened WholeRun

  lemma OtherTerms(values: seq<int>, at: int, word: int, pPrime: seq<int>, s: nat, row: nat, b: nat)
    requires 0 <= at < |values| && row * s + b != at
    ensures DecodeTerm(values[at := word], pPrime, s, row, b) == DecodeTerm(values, pPrime, s, row, b)
  {
  }

  lemma OwnTerm(values: seq<int>, at: int, word: int, pPrime: seq<int>, s: nat, row: nat, blk: nat)
    requires 0 <= at < |values| && row * s + blk == at && blk < |pPrime|
    ensures DecodeTerm(values[at := word], pPrime, s, row, blk)
            == DecodeTerm(values, pPrime, s, row, blk) + (word - values[at]) * pPrime[blk]
  {
    assert (word - values[at]) * pPrime[blk] == word * pPrime[blk] - values[at] * pPrime[blk];
  }

  /** Changing one word moves its row's sum by the change times the key's entry. */
  lemma {:induction false} OneWordMoves(values: seq<int>, word: int, pPrime: seq<int>, s: nat, rows: nat, row: nat, blk: nat)
    requires |values| == rows * s && row < rows && blk < s == |pPrime|
    ensures 0 <= row * s + blk < |values|
    ensures Sum(b => DecodeTerm(values[row * s + blk := word], pPrime, s, row, b), s)
            == Sum(b => DecodeTerm(values, pPrime, s, row, b), s) + (word - values[row * s + blk]) * pPrime[blk]
  {
    hide Sum, DecodeTerm;
    CellBound(row, rows, blk, s);
    var at := row * s + blk;
    var f, g := b => DecodeTerm(values, pPrime, s, row, b), b => DecodeTerm(values[at := word], pPrime, s, row, b);
    var h := b => g(b) - f(b);
    forall b | 0 <= b < s && b != blk ensures h(b) == 0 { OtherTerms(values, at, word, pPrime, s, row, b); }
    OwnTerm(values, at, word, pPrime, s, row, blk);
    SumOnly(h, s, blk);
    SumPlus(f, h, s);
    SumExt(g, b => f(b) + h(b), s);
  }

  lemma ShiftedSum(sum: int, delta: int, share: int, p: int)
    requires p > 0 && (sum + delta - share) % p == (sum - share) % p
    ensures delta % p == 0
  {
    ModEqDiff(sum + delta - share, sum - share, p);
  }

  /** Two canonical words that differ stay apart after scaling by a unit. */
  lemma UnitSeparates(x: int, y: int, u: int, p: nat)
    requires Prime(p) && 0 <= x < p && 0 <= y < p && x != y && u % p != 0
    ensures ((x - y) * u) % p != 0
  {
    ModEqDiff(x, y, p);
    ModSmall(x, p);
    ModSmall(y, p);
    if ((x - y) * u) % p == 0 { Euclid(p, x - y, u); }
  }

  /** If every scalar inverse of the key is a unit, an answer that verifies does not
      verify with any one word replaced by another field value. */
  lemma CorruptionIsCaught(answer: Answer, at: nat, word: int, instance: Instance, j: nat, p: nat)
    requires Prime(p) && j < |instance.keys| == |instance.plaintextQueries| && AnswerVerifies(answer, instance, j, p)
    requires forall b | 0 <= b < |instance.keys[j].pPrime| :: instance.keys[j].pPrime[b] % p != 0
    requires at < |answer.values| && Canonical(answer.values, p) && 0 <= word < p && word != answer.values[at]
    ensures !AnswerVerifies(answer.(values := answer.values[at := word]), instance, j, p)
  {
    hide PlainProduct, ValidateDecode, Sum;
    var key, s := instance.keys[j], answer.blocks;
    RowAndColumn(at, answer.rows, s);
    var row, blk := at / s, at % s;
    OneWordMoves(answer.values, word, key.pPrime, s, answer.rows, row, blk);
    UnitSeparates(word, answer.values[at], key.pPrime[blk], p);
    var delta := (word - answer.values[at]) * key.pPrime[blk];
    var sum := Sum(b => DecodeTerm(answer.values, key.pPrime, s, row, b), s);
    var corrupted := answer.(values := answer.values[at := word]);
    if DecodedCell(corrupted.values, key, s, p, row) == DecodedCell(answer.values, key, s, p, row) {
      ShiftedSum(sum, delta, key.rPrime[row], p);
      assert false;
    }
    assert DecodedOf(corrupted, key, p)[row] != DecodedOf(answer, key, p)[row];
  }

  /** A derived key's scalar inverses are units. */
  lemma KeysAreUnits(sec: Secrets, q: seq<int>, p: nat, id: nat, blk: nat)
    requires sec.Valid(p) && IndexAllowed(id) && blk < sec.Blocks()
    ensures KeyOf(sec, q, p, id).pPrime[blk] % p != 0
  {
    hide Inverse, Shifted;
    ScalarCancels(sec, p, id, blk);
    var alpha, u := sec.scalar(id)[blk], KeyOf(sec, q, p, id).pPrime[blk];
    if u % p == 0 {
      CongruentProduct(alpha, alpha, u, 0, p);
      ModSmall(1, p);
      assert false;
    }
  }

  /** So no served answer survives the change of one word, whoever makes it. */
  lemma ServedCorruptionIsCaught(d: Derivation, params: EmvpParams, queries: nat, p: nat, j: nat, at: nat, word: int)
    requires Derivable(d, params, queries, p) && queries > 0 && IndexAllowed(queries - 1) && j < queries
    requires d.sec.rows * d.sec.Blocks() < TWO64
    requires var served := AnswerOf(Encrypted(d.sec, d.plaintext, p), QueryOf(d.sec, d.queries[j], p, j).values, d.sec.b, d.sec.Blocks(), p);
             at < |served| && 0 <= word < p && word != served[at]
    ensures var served := AnswerOf(Encrypted(d.sec, d.plaintext, p), QueryOf(d.sec, d.queries[j], p, j).values, d.sec.b, d.sec.Blocks(), p);
            var answer := Answer(d.sec.instanceId, j, d.sec.rows, d.sec.Blocks(), served);
            var instance := InstanceOf(d, params, queries, p);
            AnswerVerifies(answer, instance, j, p) && !AnswerVerifies(answer.(values := served[at := word]), instance, j, p)
  {
    hide Encrypted, QueryOf, KeyOf, AnswerOf, DecodedOf, DecodeCheck, ProtocolSpec.ProductOf;
    AnswerCorrect(d, params, queries, p, j);
    var cipher, query := Encrypted(d.sec, d.plaintext, p), QueryOf(d.sec, d.queries[j], p, j).values;
    ServedCanonical(cipher, query, d.sec.b, d.sec.Blocks(), p);
    var answer := Answer(d.sec.instanceId, j, d.sec.rows, d.sec.Blocks(), AnswerOf(cipher, query, d.sec.b, d.sec.Blocks(), p));
    var key := KeyOf(d.sec, d.queries[j], p, j);
    forall b | 0 <= b < |key.pPrime| ensures key.pPrime[b] % p != 0 { KeyWidth(d.sec, d.queries[j], p, j); KeysAreUnits(d.sec, d.queries[j], p, j, b); }
    CorruptionIsCaught(answer, at, word, InstanceOf(d, params, queries, p), j, p);
  }

  lemma KeyWidth(sec: Secrets, q: seq<int>, p: nat, id: nat)
    requires sec.Valid(p) && IndexAllowed(id)
    ensures |KeyOf(sec, q, p, id).pPrime| == sec.Blocks()
  {
  }

  lemma ServedCanonical(matrix: EncryptedMatrix, query: seq<int>, b: nat, s: nat, p: nat)
    requires p > 0
    ensures Canonical(AnswerOf(matrix, query, b, s, p), p)
  {
    GridCanonical((row, blk) => AnswerCell(matrix.values, query, matrix.columns, b, p, row, blk), matrix.rows, s, p);
  }
}
