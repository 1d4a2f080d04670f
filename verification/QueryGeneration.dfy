/** Query generation: reserved identifiers, reused scratch, and batches. */
module QueryGeneration {
  import opened Arithmetic
  import opened Code
  import opened Encryption
  import opened Inversion
  import opened Kernels
  import opened NumberTheory
  import opened Prf
  import opened ProtocolSpec
  import opened Sums

  datatype QueryResult = Issued(query: EncryptedQuery, key: DecodingKey) | QueryFailed(error: ProtocolError)

  /** The query of one reserved identifier, as a function of its inputs. */
  ghost function QueryOutcome(sec: Secrets, q: seq<int>, p: nat, id: nat): QueryResult
    requires sec.Valid(p)
  {
    if |q| != sec.ell then QueryFailed(LengthMismatch(QueryVector, sec.ell, |q|))
    else if !IndexAllowed(id) then QueryFailed(IndexOutOfRange(id))
    else Issued(QueryOf(sec, q, p, id), KeyOf(sec, q, p, id))
  }

  class QueryScratch {
    const code: CodeScratch
    const qTilde: array<int>

    ghost predicate Separate() {
      code.Separate() && qTilde != code.transform && qTilde != code.operand && qTilde != code.product
    }

    ghost predicate Fits(sec: Secrets) { qTilde.Length == sec.N() && ScratchFits(sec.code, code) }

    ghost function Buffers(): set<object> { {qTilde, code.transform, code.operand, code.product} }

    constructor (sec: Secrets)
      ensures Separate() && Fits(sec) && fresh(Buffers())
    {
      var scratch := new CodeScratch(sec.code.planLength, sec.code.k);
      code := scratch;
      qTilde := new int[sec.N()](i => 0);
    }
  }

  /** `r' = R v`, one mask row at a time. */
  method MaskApply(sec: Secrets, v: seq<int>, output: array<int>, p: nat)
    requires p > 0 && output.Length == sec.rows
    modifies output
    ensures forall row | 0 <= row < sec.rows :: output[row] == MaskCell(sec.mask, sec.N(), v, p, row)
  {
    var n, row := sec.N(), 0;
    while row < sec.rows
      invariant 0 <= row <= sec.rows
      invariant forall r | 0 <= r < row :: output[r] == MaskCell(sec.mask, n, v, p, r)
    {
      var sum, i := 0, 0;
      while i < n
        invariant 0 <= i <= n
        invariant sum == Sum(i => MaskTerm(sec.mask, n, v, row, i), i)
      {
        sum := sum + MaskTerm(sec.mask, n, v, row, i);
        i := i + 1;
      }
      output[row] := sum % p;
      row := row + 1;
    }
  }

  /** Adds the query onto the systematic half of the codeword. */
  method AddQuery(sec: Secrets, q: seq<int>, qTilde: array<int>, id: nat, p: nat)
    requires sec.Valid(p) && IndexAllowed(id) && |q| == sec.ell && qTilde.Length == sec.N()
    requires qTilde[..] == Codeword(sec.code.multiplier, sec.message(id), p)
    modifies qTilde
    ensures qTilde[..] == Shifted(sec, q, p, id)
  {
    ghost var codeword := qTilde[..];
    var i := 0;
    while i < |q|
      invariant 0 <= i <= |q|
      invariant forall j | 0 <= j < qTilde.Length ::
                  qTilde[j] == if sec.k <= j < sec.k + i then FAdd(codeword[j], At(q, j - sec.k), p) else codeword[j]
    {
      qTilde[sec.k + i] := FAdd(qTilde[sec.k + i], q[i], p);
      i := i + 1;
    }
  }

  method ScaleBlock(qHat: array<int>, start: nat, length: nat, alpha: int, p: int)
    requires p > 0 && start + length <= qHat.Length
    modifies qHat
    ensures SameOutside(old(qHat[..]), qHat[..], start, length)
    ensures forall j | start <= j < start + length :: qHat[j] == FMul(old(qHat[j]), alpha, p)
  {
    var i := start;
    while i < start + length
      invariant start <= i <= start + length
      invariant SameOutside(old(qHat[..]), qHat[..], start, length)
      invariant forall j | start <= j < i :: qHat[j] == FMul(old(qHat[j]), alpha, p)
      invariant forall j | i <= j < start + length :: qHat[j] == old(qHat[j])
    {
      qHat[i] := FMul(qHat[i], alpha, p);
      i := i + 1;
    }
  }

  /** What `qHat` holds once the first `done` blocks are scaled. */
  ghost function ScaledCell(gathered: seq<int>, scalar: seq<int>, b: nat, p: int, done: int, i: int): int
    requires b > 0 && p > 0
  {
    if i < done * b then FMul(At(gathered, i), At(scalar, i / b), p) else At(gathered, i)
  }

  lemma ScaledStep(gathered: seq<int>, scalar: seq<int>, b: nat, p: int, block: nat, i: nat)
    requires b > 0 && p > 0
    ensures block * b + b == (block + 1) * b
    ensures i < block * b || i >= block * b + b ==>
              ScaledCell(gathered, scalar, b, p, block + 1, i) == ScaledCell(gathered, scalar, b, p, block, i)
    ensures block * b <= i < block * b + b ==>
              ScaledCell(gathered, scalar, b, p, block, i) == At(gathered, i)
              && ScaledCell(gathered, scalar, b, p, block + 1, i) == FMul(At(gathered, i), At(scalar, block), p)
  {
    if block * b <= i < block * b + b { QuotientOf(block, b, i - block * b); }
  }

  /** Hides every block behind its scalar. The head of `qTilde`, dead by now,
      stages the scalars for the batch inversion. */
  method ScaleBlocks(sec: Secrets, scalar: seq<int>, qTilde: array<int>, qHat: array<int>, p: nat)
    requires sec.Valid(p) && |scalar| == sec.Blocks() && qTilde != qHat
    requires qTilde.Length == qHat.Length == sec.N()
    modifies qTilde, qHat
    ensures sec.Blocks() <= sec.N() && qTilde[..sec.Blocks()] == scalar
    ensures forall i | 0 <= i < sec.N() :: qHat[i] == FMul(old(qHat[i]), At(scalar, i / sec.b), p)
  {
    ghost var gathered := qHat[..];
    var b, s := sec.b, sec.Blocks();
    sec.BlocksTile();
    MulMono(1, b, s);
    assert s * b == b * s;
    var block := 0;
    while block < s
      invariant 0 <= block <= s
      invariant qTilde[..block] == scalar[..block]
      invariant forall i | 0 <= i < qHat.Length :: qHat[i] == ScaledCell(gathered, scalar, b, p, block, i)
    {
      CellBound(block, s, 0, b);
      ghost var before := qHat[..];
      var alpha := scalar[block];
      qTilde[block] := alpha;
      ScaleBlock(qHat, block * b, b, alpha, p);
      forall i | 0 <= i < qHat.Length ensures qHat[i] == ScaledCell(gathered, scalar, b, p, block + 1, i) {
        ScaledStep(gathered, scalar, b, p, block, i);
        assert before[i] == ScaledCell(gathered, scalar, b, p, block, i);
        if i < block * b || i >= block * b + b { assert qHat[..][i] == before[i]; }
      }
      assert qTilde[..block + 1] == qTilde[..block] + [alpha] && scalar[..block + 1] == scalar[..block] + [alpha];
      block := block + 1;
    }
    assert scalar[..s] == scalar;
  }

  /** Generates one query. The result depends on nothing the scratch held. */
  method QueryCore(sec: Secrets, q: seq<int>, id: nat, scratch: QueryScratch, p: nat) returns (r: QueryResult)
    requires sec.Valid(p) && scratch.Separate()
    modifies scratch.Buffers()
    ensures scratch.Fits(sec) ==> r == QueryOutcome(sec, q, p, id)
    ensures !scratch.Fits(sec) ==> r.QueryFailed?
  {
    hide Shifted, Codeword;
    if |q| != sec.ell { return QueryFailed(LengthMismatch(QueryVector, sec.ell, |q|)); }
    if scratch.qTilde.Length != sec.N() {
      return QueryFailed(LengthMismatch(QueryScratchVector, sec.N(), scratch.qTilde.Length));
    }
    if !IndexAllowed(id) { return QueryFailed(IndexOutOfRange(id)); }
    var status := SampleCodeword(sec.code, sec.message(id), scratch.qTilde, scratch.code, p);
    if !status.Coded? { return QueryFailed(CodeFailure(status)); }
    AddQuery(sec, q, scratch.qTilde, id, p);
    var query, key := EncryptAndKey(sec, q, id, scratch.qTilde, p);
    r := Issued(query, key);
  }

  /** The mask share, the gathered query, its block scalars, and their inverses,
      in the order that lets the dead head of `qTilde` be reused. */
  method EncryptAndKey(sec: Secrets, ghost q: seq<int>, id: nat, qTilde: array<int>, p: nat)
    returns (query: EncryptedQuery, key: DecodingKey)
    requires sec.Valid(p) && IndexAllowed(id) && qTilde.Length == sec.N() && qTilde[..] == Shifted(sec, q, p, id)
    modifies qTilde
    ensures query == QueryOf(sec, q, p, id) && key == KeyOf(sec, q, p, id)
  {
    hide Shifted, MaskCell, Inverse;
    var rPrime := new int[sec.rows](i => 0);
    MaskApply(sec, qTilde[..], rPrime, p);

    var qHat := new int[sec.N()](i => 0);
    Gather(sec.permutation, qTilde, qHat, 0);

    var pPrime := new int[sec.Blocks()](i => 0);
    ScaleBlocks(sec, sec.scalar(id), qTilde, qHat, p);
    var inverted := BatchInvert(qTilde[..sec.Blocks()], pPrime, p);

    query := EncryptedQuery(qHat[..], sec.instanceId, id);
    key := DecodingKey(pPrime[..], rPrime[..], sec.instanceId, id);
    assert query.values == QueryOf(sec, q, p, id).values;
    assert key.pPrime == KeyOf(sec, q, p, id).pPrime;
    assert key.rPrime == KeyOf(sec, q, p, id).rPrime;
  }

  // ----- The query counter -----

  datatype Reservation = Reserved(first: nat, count: nat) | Refused(error: ProtocolError)

  /** One contiguous identifier range, or no change at all. */
  function Reserve(next: nat, count: nat): (r: Reservation)
    ensures r.Reserved? ==> r.first == next && r.count == count
    ensures r.Reserved? <==> next + count < TWO64 && (count == 0 || IndexAllowed(next + count - 1))
  {
    if next + count >= TWO64 then Refused(Overflow)
    else if count > 0 && !IndexAllowed(next + count - 1) then Refused(IndexOutOfRange(next + count - 1))
    else Reserved(next, count)
  }

  datatype BatchResult = BatchIssued(results: seq<QueryResult>) | BatchFailed(error: ProtocolError)

  /** The first vector of the wrong length, if any. */
  function FirstMisshapen(queries: seq<seq<int>>, ell: nat, from: nat): (i: nat)
    requires from <= |queries|
    ensures from <= i <= |queries|
    ensures i < |queries| ==> |queries[i]| != ell
    ensures forall j | from <= j < i :: |queries[j]| == ell
    decreases |queries| - from
  {
    if from == |queries| || |queries[from]| != ell then from else FirstMisshapen(queries, ell, from + 1)
  }

  function CheckBatch(queries: seq<seq<int>>, ell: nat): (status: Status)
    ensures status.Ok? <==> queries != [] && forall i | 0 <= i < |queries| :: |queries[i]| == ell
  {
    if queries == [] then Err(LengthMismatch(Queries, 1, 0))
    else
      var i := FirstMisshapen(queries, ell, 0);
      if i < |queries| then Err(LengthMismatch(QueryVector, ell, |queries[i]|)) else Ok
  }

  /** A worker and the query it takes. */
  datatype Assignment = Assignment(worker: nat, query: nat)

  /** Every query is taken exactly once, by some worker. */
  ghost predicate CoversOnce(schedule: seq<Assignment>, workers: nat, queries: nat) {
    && |schedule| == queries
    && (forall i | 0 <= i < |schedule| :: schedule[i].worker < workers && schedule[i].query < queries)
    && (forall i, j | 0 <= i < j < |schedule| :: schedule[i].query != schedule[j].query)
  }

  lemma EveryQueryTaken(schedule: seq<Assignment>, workers: nat, queries: nat, query: nat)
    requires CoversOnce(schedule, workers, queries) && query < queries
    ensures exists i :: 0 <= i < |schedule| && schedule[i].query == query
  {
    var taken := seq(queries, i requires 0 <= i < queries => schedule[i].query as int);
    assert Permutes(taken, queries);
    PermutesHitsAll(taken, queries);
    assert query in taken;
  }

  /** The secrets of one matrix instance with its persisted query counter. */
  class DerivedState {
    const sec: Secrets
    const p: nat
    const scratch: QueryScratch
    var nextQueryIndex: nat
    var encrypted: bool

    ghost predicate Valid()
      reads this
    {
      sec.Valid(p) && scratch.Separate() && scratch.Fits(sec) && nextQueryIndex < TWO64
    }

    constructor (sec: Secrets, p: nat, nextQueryIndex: nat)
      requires sec.Valid(p) && nextQueryIndex < TWO64
      ensures Valid() && fresh(scratch.Buffers())
      ensures this.sec == sec && this.p == p && this.nextQueryIndex == nextQueryIndex && !encrypted
    {
      this.sec, this.p, this.nextQueryIndex := sec, p, nextQueryIndex;
      encrypted := false;
      scratch := new QueryScratch(sec);
    }

    /** A state encrypts one matrix; a refusal changes nothing. `order` is the
        order in which the rows happen to be processed. */
    method Encrypt(matrix: seq<int>, order: seq<int>) returns (r: Status, cipher: EncryptedMatrix)
      requires Valid() && Permutes(order, sec.rows)
      modifies `encrypted
      ensures Valid()
      ensures r.Ok? <==> !old(encrypted) && |matrix| == sec.rows * sec.ell && sec.rows * sec.ell < TWO64
      ensures r.Ok? ==> cipher == Encrypted(sec, matrix, p)
      ensures encrypted == (old(encrypted) || r.Ok?)
    {
      cipher := EncryptedMatrix(0, 0, 0, []);
      if encrypted { return Err(AlreadyEncrypted), cipher; }
      if sec.rows * sec.ell >= TWO64 { return Err(Overflow), cipher; }
      if |matrix| != sec.rows * sec.ell { return Err(LengthMismatch(InputMatrix, sec.rows * sec.ell, |matrix|)), cipher; }
      var encoded := new int[|sec.mask|](i requires 0 <= i < |sec.mask| => sec.mask[i]);
      assert encoded[..] == sec.mask;
      FillEncryptedRows(sec, matrix, encoded, order, p);
      cipher := EncryptedMatrix(sec.instanceId, sec.rows, sec.N(), encoded[..]);
      encrypted := true;
      r := Ok;
    }

    method ReserveQueryIds(count: nat) returns (r: Reservation)
      requires Valid() && count < TWO64
      modifies `nextQueryIndex
      ensures Valid() && r == Reserve(old(nextQueryIndex), count)
      ensures nextQueryIndex == old(nextQueryIndex) + (if r.Reserved? then count else 0)
    {
      var start := nextQueryIndex;
      if start + count >= TWO64 { return Refused(Overflow); }
      var end := start + count;
      if count > 0 && !IndexAllowed(end - 1) { return Refused(IndexOutOfRange(end - 1)); }
      nextQueryIndex := end;
      r := Reserved(start, count);
    }

    method Query(q: seq<int>) returns (r: QueryResult)
      requires Valid()
      modifies `nextQueryIndex, scratch.Buffers()
      ensures Valid()
      ensures (nextQueryIndex, r) == SerialStep(sec, p, old(nextQueryIndex), q)
    {
      if |q| != sec.ell { return QueryFailed(LengthMismatch(QueryVector, sec.ell, |q|)); }
      var reservation := ReserveQueryIds(1);
      if reservation.Refused? { return QueryFailed(reservation.error); }
      r := QueryCore(sec, q, reservation.first, scratch, p);
    }

    /** Validates all-or-nothing, reserves one range, and lets the workers take
        the queries in any order, each reusing its own scratch. */
    method QueryBatch(queries: seq<seq<int>>, workers: seq<QueryScratch>, schedule: seq<Assignment>)
      returns (r: BatchResult)
      requires Valid() && |queries| < TWO64 && CoversOnce(schedule, |workers|, |queries|)
      requires forall w | 0 <= w < |workers| :: workers[w].Separate() && workers[w].Fits(sec)
      modifies `nextQueryIndex, set w, o | 0 <= w < |workers| && o in workers[w].Buffers() :: o
      ensures Valid()
      ensures (nextQueryIndex, r) == BatchStep(sec, p, old(nextQueryIndex), queries)
    {
      hide BatchOutcomes, QueryOutcome, CoversOnce, Canonical, Prime, Permutes, FirstMisshapen;
      var check := CheckBatch(queries, sec.ell);
      if check.Err? { return BatchFailed(check.error); }
      var reservation := ReserveQueryIds(|queries|);
      if reservation.Refused? { return BatchFailed(reservation.error); }
      var results := RunSchedule(sec, p, reservation.first, queries, workers, schedule);
      r := BatchIssued(results);
    }
  }

  /** The workers take the queries in the order of the schedule. */
  method RunSchedule(sec: Secrets, p: nat, first: nat, queries: seq<seq<int>>, workers: seq<QueryScratch>,
                     schedule: seq<Assignment>) returns (results: seq<QueryResult>)
    requires sec.Valid(p) && CoversOnce(schedule, |workers|, |queries|)
    requires forall w | 0 <= w < |workers| :: workers[w].Separate() && workers[w].Fits(sec)
    modifies set w, o | 0 <= w < |workers| && o in workers[w].Buffers() :: o
    ensures results == BatchOutcomes(sec, p, first, queries)
  {
    hide QueryOutcome;
    results := seq(|queries|, i => QueryFailed(Overflow));
    var i := 0;
    while i < |schedule|
      invariant 0 <= i <= |schedule| && |results| == |queries|
      invariant forall j | 0 <= j < i :: TakenRight(results, sec, p, first, queries, schedule[j].query)
    {
      var query := schedule[i].query;
      ghost var before := results;
      var result := QueryCore(sec, queries[query], first + query, workers[schedule[i].worker], p);
      results := results[query := result];
      forall j | 0 <= j <= i ensures TakenRight(results, sec, p, first, queries, schedule[j].query) {
        if j < i { assert TakenRight(before, sec, p, first, queries, schedule[j].query); }
      }
      i := i + 1;
    }
    forall k | 0 <= k < |queries| ensures TakenRight(results, sec, p, first, queries, k) {
      EveryQueryTaken(schedule, |workers|, |queries|, k);
    }
    ghost var expected := BatchOutcomes(sec, p, first, queries);
    forall k | 0 <= k < |queries| ensures results[k] == expected[k] {
      assert TakenRight(results, sec, p, first, queries, k);
    }
  }

  ghost predicate TakenRight(results: seq<QueryResult>, sec: Secrets, p: nat, first: nat, queries: seq<seq<int>>, k: nat)
    requires sec.Valid(p) && |results| == |queries|
  {
    k < |queries| && results[k] == QueryOutcome(sec, queries[k], p, first + k)
  }

  /** One call of the serial entry point: the new counter and the result. */
  ghost function SerialStep(sec: Secrets, p: nat, next: nat, q: seq<int>): (nat, QueryResult)
    requires sec.Valid(p)
  {
    if |q| != sec.ell then (next, QueryFailed(LengthMismatch(QueryVector, sec.ell, |q|)))
    else
      match Reserve(next, 1)
      case Refused(error) => (next, QueryFailed(error))
      case Reserved(first, _) => (next + 1, QueryOutcome(sec, q, p, first))
  }

  ghost function BatchOutcomes(sec: Secrets, p: nat, first: nat, queries: seq<seq<int>>): (s: seq<QueryResult>)
    requires sec.Valid(p)
    ensures |s| == |queries|
  {
    seq(|queries|, i requires 0 <= i < |queries| => QueryOutcome(sec, queries[i], p, first + i))
  }

  ghost function BatchStep(sec: Secrets, p: nat, next: nat, queries: seq<seq<int>>): (nat, BatchResult)
    requires sec.Valid(p)
  {
    match CheckBatch(queries, sec.ell)
    case Err(error) => (next, BatchFailed(error))
    case Ok =>
      match Reserve(next, |queries|)
      case Refused(error) => (next, BatchFailed(error))
      case Reserved(first, _) => (next + |queries|, BatchIssued(BatchOutcomes(sec, p, first, queries)))
  }

  // ----- Batches and loops -----

  /** Calling the serial entry point once per vector, in order. */
  ghost function SerialLoop(sec: Secrets, p: nat, next: nat, queries: seq<seq<int>>): (nat, seq<QueryResult>)
    requires sec.Valid(p)
    decreases |queries|
  {
    if queries == [] then (next, [])
    else
      var (after, r) := SerialStep(sec, p, next, queries[0]);
      var (end, rest) := SerialLoop(sec, p, after, queries[1..]);
      (end, [r] + rest)
  }

  /** An accepted batch is the serial loop: the same artifacts, the same final
      counter, and every call of the loop succeeds. */
  lemma {:induction false} BatchEqualsLoop(sec: Secrets, p: nat, next: nat, queries: seq<seq<int>>)
    requires sec.Valid(p) && next < TWO64
    requires forall i | 0 <= i < |queries| :: |queries[i]| == sec.ell
    requires Reserve(next, |queries|).Reserved?
    ensures SerialLoop(sec, p, next, queries) == (next + |queries|, BatchOutcomes(sec, p, next, queries))
    ensures forall i | 0 <= i < |queries| :: BatchOutcomes(sec, p, next, queries)[i].Issued?
    decreases |queries|
  {
    if queries == [] {
      assert BatchOutcomes(sec, p, next, queries) == [];
    } else {
      hide QueryOf, KeyOf;
      var rest := queries[1..];
      assert Reserve(next, 1).Reserved?;
      BatchEqualsLoop(sec, p, next + 1, rest);
      var whole, tail := BatchOutcomes(sec, p, next, queries), BatchOutcomes(sec, p, next + 1, rest);
      forall i | 1 <= i < |queries| ensures whole[i] == tail[i - 1] { assert queries[i] == rest[i - 1]; }
      assert whole == [whole[0]] + tail;
      forall i | 0 <= i < |queries| ensures whole[i].Issued? {
        if i > 0 { assert whole[i] == tail[i - 1]; }
      }
    }
  }

  /** A batch is accepted exactly when every call of the serial loop would
      succeed, and there is at least one. */
  lemma {:induction false} LoopAllIssuedIffReserved(sec: Secrets, p: nat, next: nat, queries: seq<seq<int>>)
    requires sec.Valid(p) && next < TWO64
    ensures (forall r | r in SerialLoop(sec, p, next, queries).1 :: r.Issued?)
            <==> (forall i | 0 <= i < |queries| :: |queries[i]| == sec.ell) && (queries == [] || Reserve(next, |queries|).Reserved?)
    decreases |queries|
  {
    hide QueryOf, KeyOf;
    if queries != [] {
      var rest := queries[1..];
      var (after, r) := SerialStep(sec, p, next, queries[0]);
      var loop := SerialLoop(sec, p, next, queries).1;
      assert loop == [r] + SerialLoop(sec, p, after, rest).1;
      if r.Issued? {
        assert after == next + 1;
        LoopAllIssuedIffReserved(sec, p, after, rest);
        assert forall i | 0 <= i < |rest| :: rest[i] == queries[i + 1];
        assert forall i | 1 <= i < |queries| :: queries[i] == rest[i - 1];
        assert forall x | x in loop :: x == r || x in SerialLoop(sec, p, after, rest).1;
        assert forall x | x in SerialLoop(sec, p, after, rest).1 :: x in loop;
      } else {
        assert r in loop;
      }
    }
  }

  // ----- Every identifier is accounted for -----

  /** A query uses exactly the next identifier, or fails and uses none: it fails
      only for its length or for lack of identifiers. */
  lemma QueryAccounts(sec: Secrets, p: nat, next: nat, q: seq<int>)
    requires sec.Valid(p)
    ensures var (after, r) := SerialStep(sec, p, next, q);
            && (r.Issued? <==> |q| == sec.ell && IndexAllowed(next))
            && (r.Issued? ==> after == next + 1 && r.query.queryId == next == r.key.queryId)
            && (r.QueryFailed? ==> after == next)
  {
    hide QueryCell, MaskCell, Shifted, Inverse;
  }

  /** A batch uses exactly the next identifiers, in order, or none at all: it fails
      only when it is empty, holds a vector of the wrong length, or runs out of
      identifiers. */
  lemma BatchAccounts(sec: Secrets, p: nat, next: nat, queries: seq<seq<int>>)
    requires sec.Valid(p)
    ensures var (after, r) := BatchStep(sec, p, next, queries);
            && (r.BatchIssued? <==>
                  queries != [] && (forall i | 0 <= i < |queries| :: |queries[i]| == sec.ell) && IndexAllowed(next + |queries| - 1))
            && (r.BatchIssued? ==>
                  && after == next + |queries| && |r.results| == |queries|
                  && forall i | 0 <= i < |queries| :: r.results[i].Issued? && r.results[i].query.queryId == next + i == r.results[i].key.queryId)
            && (r.BatchFailed? ==> after == next)
  {
    hide QueryCell, MaskCell, Shifted, Inverse, Canonical;
  }

  // ----- No identifier is ever reused -----

  datatype Op = ReserveOp(count: nat) | QueryOp(q: seq<int>) | BatchOp(queries: seq<seq<int>>)

  function Ids(first: nat, count: nat): (s: seq<nat>)
    ensures |s| == count
  {
    seq(count, i => first + i)
  }

  /** The counter after one operation, and the identifiers it gave out (used or
      merely consumed by a later failure). */
  ghost function Step(sec: Secrets, p: nat, next: nat, op: Op): (nat, seq<nat>)
    requires sec.Valid(p)
  {
    var after := match op
      case ReserveOp(count) => next + (if Reserve(next, count).Reserved? then count else 0)
      case QueryOp(q) => SerialStep(sec, p, next, q).0
      case BatchOp(queries) => BatchStep(sec, p, next, queries).0;
    (after, Ids(next, if after >= next then after - next else 0))
  }

  ghost function Trace(sec: Secrets, p: nat, next: nat, ops: seq<Op>): (nat, seq<nat>)
    requires sec.Valid(p)
    decreases |ops|
  {
    if ops == [] then (next, [])
    else
      var (after, ids) := Step(sec, p, next, ops[0]);
      var (end, rest) := Trace(sec, p, after, ops[1..]);
      (end, ids + rest)
  }

  ghost predicate IncreasingWithin(ids: seq<nat>, from: nat, end: nat) {
    && (forall i, j | 0 <= i < j < |ids| :: ids[i] < ids[j])
    && (forall i | 0 <= i < |ids| :: from <= ids[i] < end && IndexAllowed(ids[i]))
  }

  lemma StepIncreases(sec: Secrets, p: nat, next: nat, op: Op)
    requires sec.Valid(p) && next < TWO64
    ensures var (after, ids) := Step(sec, p, next, op);
            next <= after < TWO64 && IncreasingWithin(ids, next, after)
  {
    hide QueryOutcome, BatchOutcomes;
  }

  lemma ConcatIncreasing(a: seq<nat>, b: seq<nat>, from: nat, middle: nat, end: nat)
    requires IncreasingWithin(a, from, middle) && IncreasingWithin(b, middle, end) && from <= middle <= end
    ensures IncreasingWithin(a + b, from, end)
  {
  }

  /** Over any sequence of reservations, queries and batches, failing ones
      included, the identifiers given out strictly increase and stay inside the
      index budget. */
  lemma {:induction false} TraceIncreases(sec: Secrets, p: nat, next: nat, ops: seq<Op>)
    requires sec.Valid(p) && next < TWO64
    ensures var (end, ids) := Trace(sec, p, next, ops);
            next <= end < TWO64 && IncreasingWithin(ids, next, end)
    decreases |ops|
  {
    if ops != [] {
      var (after, ids) := Step(sec, p, next, ops[0]);
      StepIncreases(sec, p, next, ops[0]);
      TraceIncreases(sec, p, after, ops[1..]);
      var (end, rest) := Trace(sec, p, after, ops[1..]);
      ConcatIncreasing(ids, rest, next, after, end);
    }
  }

  /** No two uses of any generator read the same words of the root stream. */
  lemma {:induction false} NoRandomnessReuse(sec: Secrets, p: nat, next: nat, ops: seq<Op>, i: nat, j: nat, a: nat, b: nat)
    requires sec.Valid(p) && next < TWO64
    requires i < |Trace(sec, p, next, ops).1| && j < |Trace(sec, p, next, ops).1| && (i != j || a != b)
    ensures DisjointSlots(Position(a, Trace(sec, p, next, ops).1[i]), Position(b, Trace(sec, p, next, ops).1[j]))
  {
    TraceIncreases(sec, p, next, ops);
    var ids := Trace(sec, p, next, ops).1;
    SlotsDisjoint(a, ids[i], b, ids[j]);
  }
}
