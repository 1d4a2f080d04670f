/** The client's decoding of answers, one at a time and in batches. */
module Decoding {
  import opened Arithmetic
  import opened Kernels
  import opened ProtocolSpec
  import opened Sums

  function ValidateDecode(answer: Answer, key: DecodingKey): (r: Status)
    ensures r.Ok? <==>
              && |key.pPrime| == answer.blocks && |key.rPrime| == answer.rows
              && answer.rows * answer.blocks < TWO64 && |answer.values| == answer.rows * answer.blocks
              && key.instanceId == answer.instanceId && key.queryId == answer.queryId
  {
    if |key.pPrime| != answer.blocks then Err(LengthMismatch(DecodingP, answer.blocks, |key.pPrime|))
    else if |key.rPrime| != answer.rows then Err(LengthMismatch(DecodingR, answer.rows, |key.rPrime|))
    else if answer.rows * answer.blocks >= TWO64 then Err(Overflow)
    else if |answer.values| != answer.rows * answer.blocks then
      Err(LengthMismatch(AnswerMatrix, answer.rows * answer.blocks, |answer.values|))
    else if key.instanceId != answer.instanceId then Err(InstanceMismatch(answer.instanceId, key.instanceId))
    else if key.queryId != answer.queryId then Err(QueryMismatch(answer.queryId, key.queryId))
    else Ok
  }

  lemma AccumulateStep(sum: int, term: int, p: int)
    requires p > 0
    ensures FAdd(sum % p, term % p, p) == (sum + term) % p
  {
    ModAdd(sum, term, p);
  }

  /** `M' p' - r'` at one row. */
  method DecodeRow(answer: Answer, key: DecodingKey, row: nat, p: int) returns (r: int)
    requires p > 0 && ValidateDecode(answer, key).Ok? && row < answer.rows
    ensures r == DecodedCell(answer.values, key, answer.blocks, p, row)
  {
    var s := answer.blocks;
    ghost var f := blk => DecodeTerm(answer.values, key.pPrime, s, row, blk);
    var accumulator, blk := 0, 0;
    while blk < |key.pPrime|
      invariant 0 <= blk <= s
      invariant accumulator == Sum(f, blk) % p
    {
      CellBound(row, answer.rows, blk, s);
      AccumulateStep(Sum(f, blk), f(blk), p);
      assert Sum(f, blk + 1) == Sum(f, blk) + f(blk);
      accumulator := FAdd(accumulator, FMul(answer.values[row * s + blk], key.pPrime[blk], p), p);
      blk := blk + 1;
    }
    FinalShare(Sum(f, s), key.rPrime[row], p);
    r := FSub(accumulator, key.rPrime[row], p);
  }

  lemma FinalShare(sum: int, share: int, p: int)
    requires p > 0
    ensures FSub(sum % p, share, p) == (sum - share) % p
  {
    var q := sum / p;
    assert sum % p - share + q * p == sum - share;
    ModShift(sum % p - share, q, p);
  }

  /** The rows are decoded in any order, into the head of the buffer. */
  method FillDecoded(answer: Answer, key: DecodingKey, output: array<int>, order: seq<int>, p: int)
    requires p > 0 && ValidateDecode(answer, key).Ok? && output.Length >= answer.rows && Permutes(order, answer.rows)
    modifies output
    ensures output[..answer.rows] == DecodedOf(answer, key, p)
    ensures output[answer.rows..] == old(output[answer.rows..])
  {
    hide DecodedCell, ValidateDecode;
    var step := 0;
    while step < |order|
      invariant 0 <= step <= |order|
      invariant forall x | answer.rows <= x < output.Length :: output[x] == old(output[x])
      invariant forall j | 0 <= j < step :: output[order[j]] == DecodedCell(answer.values, key, answer.blocks, p, order[j])
    {
      output[order[step]] := DecodeRow(answer, key, order[step], p);
      step := step + 1;
    }
    PermutesHitsAll(order, answer.rows);
    forall row | 0 <= row < answer.rows ensures output[row] == DecodedOf(answer, key, p)[row] { assert row in order; }
  }

  /** Decodes one answer into `output[.. length]`, or refuses before touching it. */
  method DecodeInto(answer: Answer, key: DecodingKey, output: array<int>, length: nat, order: seq<int>, p: int)
    returns (r: Status)
    requires p > 0 && Permutes(order, answer.rows) && length <= output.Length
    modifies output
    ensures r == DecodeCheck(answer, key, length)
    ensures r.Err? ==> output[..] == old(output[..])
    ensures r.Ok? ==> output[..length] == DecodedOf(answer, key, p) && output[length..] == old(output[length..])
  {
    r := ValidateDecode(answer, key);
    if r.Err? { return; }
    if length != answer.rows { return Err(LengthMismatch(DecodingOutput, answer.rows, length)); }
    FillDecoded(answer, key, output, order, p);
  }

  function DecodeCheck(answer: Answer, key: DecodingKey, outputLen: nat): (r: Status)
    ensures r.Ok? <==> ValidateDecode(answer, key).Ok? && outputLen == answer.rows
  {
    var r := ValidateDecode(answer, key);
    if r.Err? then r
    else if outputLen != answer.rows then Err(LengthMismatch(DecodingOutput, answer.rows, outputLen))
    else Ok
  }

  // ----- Batches -----

  function FirstBadPair(answers: seq<Answer>, keys: seq<DecodingKey>, from: nat): (i: nat)
    requires |answers| == |keys| && from <= |answers|
    ensures from <= i <= |answers|
    ensures i < |answers| ==> ValidateDecode(answers[i], keys[i]).Err?
    ensures forall j | from <= j < i :: ValidateDecode(answers[j], keys[j]).Ok?
    decreases |answers| - from
  {
    if from == |answers| || ValidateDecode(answers[from], keys[from]).Err? then from
    else FirstBadPair(answers, keys, from + 1)
  }

  function FirstBadOutput(answers: seq<Answer>, lengths: seq<nat>, from: nat): (i: nat)
    requires |answers| == |lengths| && from <= |answers|
    ensures from <= i <= |answers|
    ensures i < |answers| ==> lengths[i] != answers[i].rows
    ensures forall j | from <= j < i :: lengths[j] == answers[j].rows
    decreases |answers| - from
  {
    if from == |answers| || lengths[from] != answers[from].rows then from else FirstBadOutput(answers, lengths, from + 1)
  }

  function BatchCheck(answers: seq<Answer>, keys: seq<DecodingKey>, lengths: seq<nat>): (r: Status)
    ensures r.Ok? <==>
              && answers != [] && |keys| == |answers| == |lengths|
              && forall i | 0 <= i < |answers| :: DecodeCheck(answers[i], keys[i], lengths[i]).Ok?
  {
    if answers == [] then Err(LengthMismatch(Answers, 1, 0))
    else if |keys| != |answers| then Err(LengthMismatch(DecodingKeys, |answers|, |keys|))
    else if |lengths| != |answers| then Err(LengthMismatch(DecodingOutputs, |answers|, |lengths|))
    else
      var i := FirstBadPair(answers, keys, 0);
      if i < |answers| then ValidateDecode(answers[i], keys[i])
      else
        var j := FirstBadOutput(answers, lengths, 0);
        if j < |answers| then Err(LengthMismatch(DecodingOutput, answers[j].rows, lengths[j])) else Ok
  }

  ghost predicate PairwiseDistinct(outputs: seq<array<int>>) {
    forall i, j | 0 <= i < j < |outputs| :: outputs[i] != outputs[j]
  }

  function Lengths(outputs: seq<array<int>>): (l: seq<nat>)
    ensures |l| == |outputs|
  {
    seq(|outputs|, i requires 0 <= i < |outputs| => outputs[i].Length)
  }

  /** Validation is all-or-nothing: a refused batch writes no output. Answers
      are taken in any order, each decoded exactly as on its own. */
  method DecodeBatchInto(answers: seq<Answer>, keys: seq<DecodingKey>, outputs: seq<array<int>>,
                         order: seq<int>, rowOrders: seq<seq<int>>, p: int) returns (r: Status)
    requires p > 0 && PairwiseDistinct(outputs)
    requires Permutes(order, |answers|) && |rowOrders| == |answers|
    requires forall i | 0 <= i < |answers| :: Permutes(rowOrders[i], answers[i].rows)
    modifies set i | 0 <= i < |outputs| :: outputs[i]
    ensures r == BatchCheck(answers, keys, Lengths(outputs))
    ensures r.Err? ==> forall i | 0 <= i < |outputs| :: outputs[i][..] == old(outputs[i][..])
    ensures r.Ok? ==> forall i | 0 <= i < |answers| :: outputs[i][..] == DecodedOf(answers[i], keys[i], p)
  {
    hide DecodedOf, Permutes;
    r := BatchCheck(answers, keys, Lengths(outputs));
    if r.Err? { return; }
    var step := 0;
    while step < |answers|
      invariant 0 <= step <= |answers|
      invariant forall j | 0 <= j < step :: DecodedAt(answers, keys, outputs, p, OrderAt(order, |answers|, j))
    {
      var i := OrderAt(order, |answers|, step);
      assert DecodeCheck(answers[i], keys[i], Lengths(outputs)[i]).Ok?;
      FillDecoded(answers[i], keys[i], outputs[i], rowOrders[i], p);
      assert outputs[i][..] == outputs[i][..answers[i].rows];
      assert DecodedAt(answers, keys, outputs, p, i);
      forall j | 0 <= j < step ensures DecodedAt(answers, keys, outputs, p, OrderAt(order, |answers|, j)) {
        OrderDistinct(order, |answers|, j, step);
      }
      step := step + 1;
    }
    forall i | 0 <= i < |answers| ensures outputs[i][..] == DecodedOf(answers[i], keys[i], p) {
      OrderHits(order, |answers|, i);
      assert DecodedAt(answers, keys, outputs, p, i);
    }
  }

  function OrderAt(order: seq<int>, n: nat, j: nat): (i: nat)
    requires Permutes(order, n) && j < n
    ensures i < n
  {
    order[j]
  }

  lemma OrderDistinct(order: seq<int>, n: nat, j: nat, k: nat)
    requires Permutes(order, n) && j < k < n
    ensures OrderAt(order, n, j) != OrderAt(order, n, k)
  {
  }

  lemma OrderHits(order: seq<int>, n: nat, i: nat)
    requires Permutes(order, n) && i < n
    ensures exists j: nat :: j < n && OrderAt(order, n, j) == i
  {
    PermutesHitsAll(order, n);
    assert i in order;
    var j :| 0 <= j < n && order[j] == i;
    assert OrderAt(order, n, j) == i;
  }

  ghost predicate DecodedAt(answers: seq<Answer>, keys: seq<DecodingKey>, outputs: seq<array<int>>, p: int, i: nat)
    requires p > 0 && |answers| == |keys| == |outputs|
    reads if i < |outputs| then {outputs[i]} else {}
  {
    i < |outputs| && outputs[i][..] == DecodedOf(answers[i], keys[i], p)
  }
}
