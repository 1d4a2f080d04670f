/** The client's side of a run: checking the acknowledgment, building the
    request, and verifying every product against the plaintext. */
module Client {
  import opened Acknowledgment
  import opened Arithmetic
  import opened Bytes
  import opened Codec
  import opened CodecLaws
  import opened Decoding
  import opened ErrorFrames
  import opened Frame
  import opened Kernels
  import opened Layout
  import opened Messages
  import opened ParameterSets
  import opened ProtocolSpec
  import opened Sums

  /** One derived, encrypted matrix and everything needed to verify its products. */
  datatype Instance = Instance(rows: nat, plaintext: seq<int>, plaintextQueries: seq<seq<int>>,
                               queries: seq<EncryptedQuery>, keys: seq<DecodingKey>, encrypted: EncryptedMatrix)

  datatype ShapeProblem =
    | Closed | OtherFrame
    | EntryCount | OtherMatrix | OtherInstance | OtherRows | OtherBlocks | AnswerCount | OtherKey

  datatype RunError =
    | UploadAcknowledge(uploaded: nat, acknowledged: nat)
    | ZeroIdentifier
    | RepeatedIdentifier
    | ProductsShape(problem: ShapeProblem)
    | ParamsProblem(params: ParamsError)
    | ProtocolProblem(protocol: ProtocolError)
    | Verification(matrixId: nat, queryId: nat)
    | CodecProblem(codec: CodecError)
    | Server(response: ErrorResponse)

  datatype Check = Passed | Refused(error: RunError)

  // ----- The acknowledgment -----

  ghost predicate DistinctIds(identifiers: seq<nat>) {
    forall i, j | 0 <= i < j < |identifiers| :: identifiers[i] != identifiers[j]
  }

  ghost predicate BlamesReply(identifiers: seq<nat>, uploaded: nat, error: RunError) {
    match error
    case UploadAcknowledge(u, a) => u == uploaded != a == |identifiers|
    case ZeroIdentifier => 0 in identifiers
    case RepeatedIdentifier => !DistinctIds(identifiers)
    case _ => false
  }

  /** One identifier per matrix, each nonzero and distinct. */
  method ValidateUploadReply(identifiers: seq<nat>, uploaded: nat) returns (r: Check)
    ensures r.Passed? <==> |identifiers| == uploaded && 0 !in identifiers && DistinctIds(identifiers)
    ensures r.Refused? ==> BlamesReply(identifiers, uploaded, r.error)
  {
    if |identifiers| != uploaded { return Refused(UploadAcknowledge(uploaded, |identifiers|)); }
    if 0 in identifiers { return Refused(ZeroIdentifier); }
    var index := 0;
    while index < |identifiers|
      invariant 0 <= index <= |identifiers| && DistinctIds(identifiers[..index])
    {
      if identifiers[index] in identifiers[..index] {
        var earlier :| 0 <= earlier < index && identifiers[earlier] == identifiers[index];
        return Refused(RepeatedIdentifier);
      }
      assert identifiers[..index + 1] == identifiers[..index] + [identifiers[index]];
      index := index + 1;
    }
    assert identifiers[..index] == identifiers;
    r := Passed;
  }

  datatype ReplyResult = Accepted(identifiers: seq<nat>) | NotAccepted(error: RunError)

  /** A frame of the given kind stands at the head of the input, whole. */
  ghost predicate FrameAhead(input: seq<Byte>, kind: FrameKind) {
    && |input| >= HEADER_BYTES && FromByte(input[0]) == Some(kind)
    && HEADER_BYTES + FromLE(input[1..HEADER_BYTES]) <= |input|
  }

  ghost function PayloadAhead(input: seq<Byte>, kind: FrameKind): seq<Byte>
    requires FrameAhead(input, kind)
  {
    input[HEADER_BYTES..][..FromLE(input[1..HEADER_BYTES])]
  }

  ghost function PastFrame(input: seq<Byte>, kind: FrameKind): seq<Byte>
    requires FrameAhead(input, kind)
  {
    input[HEADER_BYTES..][FromLE(input[1..HEADER_BYTES])..]
  }

  ghost predicate Acknowledges(input: seq<Byte>, uploaded: nat, identifiers: seq<nat>) {
    && FrameAhead(input, UploadAccepted)
    && ParseIds(PayloadAhead(input, UploadAccepted)) == Ids(identifiers)
    && |identifiers| == uploaded && DistinctIds(identifiers)
  }

  /** A whole rejection stands at the head of the input. */
  ghost predicate Rejects(input: seq<Byte>, isText: seq<Byte> -> bool, response: ErrorResponse) {
    FrameAhead(input, ErrorFrame) && ParseError(PayloadAhead(input, ErrorFrame), isText) == Response(response)
  }

  /** Reads a rejection, whatever it says, after its header. */
  method ReadRejection(stream: Stream, payloadLen: nat, ghost input: seq<Byte>, refused: bool, isText: seq<Byte> -> bool)
    returns (error: RunError)
    requires |input| >= HEADER_BYTES && FromByte(input[0]) == Some(ErrorFrame) && payloadLen == FromLE(input[1..HEADER_BYTES])
    requires stream.input == input[HEADER_BYTES..]
    modifies stream
    ensures error.Server? ==> Rejects(input, isText, error.response)
    ensures !refused ==> forall response | Rejects(input, isText, response) :: error == Server(response)
    ensures error.Server? || error.CodecProblem?
  {
    hide FromLE, ParseError;
    var frame := new FrameReader(stream, payloadLen);
    var outcome := ReadErrorPayload(frame, refused, isText);
    if outcome.ErrorUnread? { return CodecProblem(outcome.error); }
    error := Server(outcome.response);
  }

  lemma NoZeroParsed(payload: seq<Byte>)
    requires ParseIds(payload).Ids?
    ensures 0 !in ParseIds(payload).identifiers
  {
    hide FromLE, DecodeTable;
  }

  /** Reads the acknowledgment, mapping every other reply to its error: a rejection
      to what it says. */
  method ReadUploadReply(stream: Stream, uploaded: nat, refused: bool, isText: seq<Byte> -> bool) returns (r: ReplyResult)
    modifies stream
    ensures r.Accepted? ==>
              && Acknowledges(old(stream.input), uploaded, r.identifiers)
              && stream.input == PastFrame(old(stream.input), UploadAccepted)
    ensures !refused ==>
              forall identifiers | Acknowledges(old(stream.input), uploaded, identifiers) :: r == Accepted(identifiers)
    ensures r.NotAccepted? && r.error.Server? ==> Rejects(old(stream.input), isText, r.error.response)
    ensures !refused ==>
              forall response | Rejects(old(stream.input), isText, response) :: r == NotAccepted(Server(response))
  {
    hide ParseIds, FromLE, ParseError;
    ghost var input := stream.input;
    var header := stream.ReadHeader();
    if header.EndOfStream? { return NotAccepted(ProductsShape(Closed)); }
    if header.BadHeader? { return NotAccepted(CodecProblem(header.error)); }
    match header.kind {
      case UploadAccepted =>
        var frame := new FrameReader(stream, header.payloadLen);
        var ids := ReadIds(frame, refused);
        if ids.IdsFailed? { return NotAccepted(CodecProblem(ids.error)); }
        NoZeroParsed(PayloadAhead(input, UploadAccepted));
        var check := ValidateUploadReply(ids.identifiers, uploaded);
        if check.Refused? { return NotAccepted(check.error); }
        r := Accepted(ids.identifiers);
      case ErrorFrame =>
        var error := ReadRejection(stream, header.payloadLen, input, refused, isText);
        r := NotAccepted(error);
      case _ => r := NotAccepted(ProductsShape(OtherFrame));
    }
  }

  datatype ProductsResult = Received(products: seq<ProductEntry>) | NotReceived(error: RunError)

  ghost predicate Delivers(input: seq<Byte>, p: nat, products: seq<ProductEntry>) {
    && FrameAhead(input, Products)
    && var outcome := ParseMessage(ProductsKind, PayloadAhead(input, Products), p);
       && outcome.Decoded? && (forall i | 0 <= i < |outcome.parts| :: ProductShaped(outcome.parts[i]))
       && products == ProductsOf(outcome.parts)
  }

  lemma DecodedProducts(payload: seq<Byte>, p: nat)
    requires |payload| < TWO64 && ParseMessage(ProductsKind, payload, p).Decoded?
    ensures forall i | 0 <= i < |ParseMessage(ProductsKind, payload, p).parts| ::
              ProductShaped(ParseMessage(ProductsKind, payload, p).parts[i])
  {
    hide ParseMessage;
    EncodeInvertsParse(ProductsKind, payload, p);
    var parts := ParseMessage(ProductsKind, payload, p).parts;
    forall i | 0 <= i < |parts| ensures ProductShaped(parts[i]) {
      assert PartFits(ProductsKind, parts[i], p);
      AcceptedProduct(parts[i], p);
    }
  }

  /** Reads the products into the reused workspace, mapping every other reply to
      its error: a rejection to what it says. */
  method ReadProducts(stream: Stream, workspace: Workspace, refusedPlan: bool, refusal: Refusal, isText: seq<Byte> -> bool, p: nat)
    returns (r: ProductsResult)
    modifies stream, workspace, workspace.arena
    ensures workspace.arena == old(workspace.arena) || fresh(workspace.arena)
    ensures r.Received? ==>
              Delivers(old(stream.input), p, r.products) && stream.input == PastFrame(old(stream.input), Products)
    ensures !refusedPlan && refusal == NoRefusal ==> forall products | Delivers(old(stream.input), p, products) :: r == Received(products)
    ensures r.NotReceived? && r.error.Server? ==> Rejects(old(stream.input), isText, r.error.response)
    ensures !refusedPlan ==>
              forall response | Rejects(old(stream.input), isText, response) :: r == NotReceived(Server(response))
  {
    hide ParseMessage, FromLE, ParseError;
    ghost var input := stream.input;
    var header := stream.ReadHeader();
    if header.EndOfStream? { return NotReceived(ProductsShape(Closed)); }
    if header.BadHeader? { return NotReceived(CodecProblem(header.error)); }
    match header.kind {
      case Products =>
        var frame := new FrameReader(stream, header.payloadLen);
        var status := DecodePayload(ProductsKind, frame, workspace, refusedPlan, refusal, p);
        if status.Bad? { return NotReceived(CodecProblem(status.error)); }
        DecodedProducts(PayloadAhead(input, Products), p);
        r := Received(ProductsOf(workspace.Views()));
      case ErrorFrame =>
        var error := ReadRejection(stream, header.payloadLen, input, refusedPlan, isText);
        r := NotReceived(error);
      case _ => r := NotReceived(ProductsShape(OtherFrame));
    }
  }

  // ----- The request -----

  function EntryFor(instances: seq<Instance>, matrixIds: seq<nat>, i: nat): EvaluateEntry
    requires i < |instances| == |matrixIds|
  {
    EvaluateEntry(matrixIds[i], instances[i].queries)
  }

  function AllRefs(instances: seq<Instance>, n: nat): (refs: seq<EncryptedQuery>)
    requires n <= |instances|
  {
    if n == 0 then [] else AllRefs(instances, n - 1) + instances[n - 1].queries
  }

  lemma {:induction false} RefsOf(instances: seq<Instance>, i: nat, n: nat)
    requires i < n <= |instances|
    ensures |AllRefs(instances, i)| + |instances[i].queries| <= |AllRefs(instances, n)|
    ensures AllRefs(instances, n)[|AllRefs(instances, i)|..|AllRefs(instances, i)| + |instances[i].queries|] == instances[i].queries
  {
    if i + 1 < n { RefsOf(instances, i, n - 1); }
  }

  /** The reusable buffers of one connection. */
  class ClientBuffers {
    var queryRefs: seq<EncryptedQuery>
    var decoded: array<int>
    var expected: array<int>

    ghost predicate Apart()
      reads this
    {
      decoded != expected
    }

    constructor ()
      ensures Apart() && fresh(decoded) && fresh(expected)
    {
      queryRefs := [];
      var first, second := new int[0], new int[0];
      decoded, expected := first, second;
    }

    /** One entry per instance, its queries cut from the refilled scratch. */
    method EvaluateEntries(instances: seq<Instance>, matrixIds: seq<nat>) returns (entries: seq<EvaluateEntry>)
      requires |instances| == |matrixIds|
      modifies `queryRefs
      ensures |entries| == |instances| && forall i | 0 <= i < |instances| :: entries[i] == EntryFor(instances, matrixIds, i)
    {
      queryRefs := [];
      var i := 0;
      while i < |instances|
        invariant 0 <= i <= |instances| && queryRefs == AllRefs(instances, i)
      {
        queryRefs := queryRefs + instances[i].queries;
        i := i + 1;
      }
      entries := [];
      var offset := 0;
      i := 0;
      while i < |instances|
        invariant queryRefs == AllRefs(instances, |instances|)
        invariant 0 <= i <= |instances| && |entries| == i && offset == |AllRefs(instances, i)|
        invariant forall j | 0 <= j < i :: entries[j] == EntryFor(instances, matrixIds, j)
      {
        RefsOf(instances, i, |instances|);
        var end := offset + |instances[i].queries|;
        entries := entries + [EvaluateEntry(matrixIds[i], queryRefs[offset..end])];
        offset := end;
        i := i + 1;
      }
    }

    /** Grows a verification buffer; neither buffer ever shrinks. */
    method EnsureCapacity(rows: nat)
      requires Apart()
      modifies `decoded, `expected
      ensures Apart() && decoded.Length >= rows && expected.Length >= rows
      ensures (decoded == old(decoded) || fresh(decoded)) && (expected == old(expected) || fresh(expected))
    {
      if decoded.Length < rows {
        var contents := decoded[..];
        decoded := new int[rows](i => At(contents, i));
      }
      if expected.Length < rows {
        var contents := expected[..];
        expected := new int[rows](i => At(contents, i));
      }
    }

    /** Decodes one answer and compares it with the plaintext product. */
    method VerifyAnswer(answer: Answer, key: DecodingKey, plaintextQuery: seq<int>, instance: Instance, matrixId: nat,
                        order: seq<int>, p: nat) returns (r: Check)
      requires p > 0 && Apart() && Permutes(order, answer.rows)
      requires |instance.plaintext| == instance.rows * |plaintextQuery|
      modifies this, decoded, expected
      ensures Apart() && (decoded == old(decoded) || fresh(decoded)) && (expected == old(expected) || fresh(expected))
      ensures r.Passed? <==>
                && answer.queryId == key.queryId && DecodeCheck(answer, key, instance.rows).Ok?
                && DecodedOf(answer, key, p) == PlainProduct(instance, plaintextQuery, p)
    {
      if answer.queryId != key.queryId { return Refused(ProductsShape(OtherKey)); }
      var rows := instance.rows;
      EnsureCapacity(rows);
      var status := DecodeInto(answer, key, decoded, rows, order, p);
      if status.Err? { return Refused(ProtocolProblem(status.error)); }
      PlaintextProductInto(instance.plaintext, plaintextQuery, expected, rows, p);
      if decoded[..rows] != expected[..rows] { return Refused(Verification(matrixId, key.queryId)); }
      r := Passed;
    }

    /** Checks the whole response against the request and verifies every answer.
        It passes exactly when every product is the plaintext product, and counts
        them. */
    method VerifyProducts(products: seq<ProductEntry>, instances: seq<Instance>, matrixIds: seq<nat>, params: EmvpParams,
                          orders: nat -> seq<int>, p: nat) returns (r: Check, verified: nat)
      requires p > 0 && Apart() && |matrixIds| == |instances| && WellShaped(params)
      requires forall i | 0 <= i < |instances| :: InstanceShaped(instances[i])
      requires forall rows :: Permutes(orders(rows), rows)
      modifies this, decoded, expected
      ensures Apart() && (decoded == old(decoded) || fresh(decoded)) && (expected == old(expected) || fresh(expected))
      ensures r.Passed? <==>
                |products| == |instances|
                && forall i | 0 <= i < |instances| :: EntryVerifies(products[i], instances[i], matrixIds[i], params, p)
      ensures r.Passed? ==> verified == TotalQueries(instances, |instances|)
    {
      hide EntryVerifies, InstanceShaped, WellShaped;
      verified := 0;
      if |products| != |instances| { return Refused(ProductsShape(EntryCount)), 0; }
      var i := 0;
      while i < |instances|
        invariant 0 <= i <= |instances| && verified == TotalQueries(instances, i)
        invariant Apart() && (decoded == old(decoded) || fresh(decoded)) && (expected == old(expected) || fresh(expected))
        invariant forall k | 0 <= k < i :: EntryVerifies(products[k], instances[k], matrixIds[k], params, p)
      {
        r := VerifyEntry(products[i], instances[i], matrixIds[i], params, orders, p);
        if r.Refused? { return; }
        verified := verified + |instances[i].keys|;
        i := i + 1;
      }
      r := Passed;
    }

    method VerifyEntry(entry: ProductEntry, instance: Instance, matrixId: nat, params: EmvpParams, orders: nat -> seq<int>, p: nat)
      returns (r: Check)
      requires p > 0 && Apart() && WellShaped(params) && InstanceShaped(instance)
      requires forall rows :: Permutes(orders(rows), rows)
      modifies this, decoded, expected
      ensures Apart() && (decoded == old(decoded) || fresh(decoded)) && (expected == old(expected) || fresh(expected))
      ensures r.Passed? <==> EntryVerifies(entry, instance, matrixId, params, p)
    {
      hide DecodedOf, PlainProduct, Permutes, DecodeCheck;
      if entry.matrixId != matrixId { return Refused(ProductsShape(OtherMatrix)); }
      if entry.instanceId != instance.encrypted.instanceId { return Refused(ProductsShape(OtherInstance)); }
      if entry.rows != instance.rows { return Refused(ProductsShape(OtherRows)); }
      if entry.blocks != 2 * params.k / params.b { return Refused(ProductsShape(OtherBlocks)); }
      if |entry.answers| != |instance.keys| { return Refused(ProductsShape(AnswerCount)); }
      var j := 0;
      while j < |instance.keys|
        invariant 0 <= j <= |instance.keys|
        invariant Apart() && (decoded == old(decoded) || fresh(decoded)) && (expected == old(expected) || fresh(expected))
        invariant forall k | 0 <= k < j :: AnswerVerifies(entry.answers[k], instance, k, p)
      {
        r := VerifyAnswer(entry.answers[j], instance.keys[j], instance.plaintextQueries[j], instance, matrixId,
                          orders(entry.answers[j].rows), p);
        if r.Refused? {
          assert !AnswerVerifies(entry.answers[j], instance, j, p);
          return;
        }
        j := j + 1;
      }
      r := Passed;
    }
  }

  /** The reference product of one plaintext query. */
  ghost function PlainProduct(instance: Instance, query: seq<int>, p: nat): seq<int>
    requires p > 0
  {
    ProtocolSpec.ProductOf(instance.plaintext, query, instance.rows, |query|, p)
  }

  ghost predicate InstanceShaped(instance: Instance) {
    && |instance.keys| == |instance.plaintextQueries|
    && forall j | 0 <= j < |instance.plaintextQueries| :: |instance.plaintext| == instance.rows * |instance.plaintextQueries[j]|
  }

  ghost predicate AnswerVerifies(answer: Answer, instance: Instance, j: nat, p: nat)
    requires p > 0 && j < |instance.keys| == |instance.plaintextQueries|
  {
    && answer.queryId == instance.keys[j].queryId && DecodeCheck(answer, instance.keys[j], instance.rows).Ok?
    && DecodedOf(answer, instance.keys[j], p) == PlainProduct(instance, instance.plaintextQueries[j], p)
  }

  ghost predicate EntryVerifies(entry: ProductEntry, instance: Instance, matrixId: nat, params: EmvpParams, p: nat)
    requires p > 0 && InstanceShaped(instance) && WellShaped(params)
  {
    && entry.matrixId == matrixId && entry.instanceId == instance.encrypted.instanceId
    && entry.rows == instance.rows && entry.blocks == 2 * params.k / params.b
    && |entry.answers| == |instance.keys|
    && forall j | 0 <= j < |instance.keys| :: AnswerVerifies(entry.answers[j], instance, j, p)
  }

  function TotalQueries(instances: seq<Instance>, n: nat): nat
    requires n <= |instances|
  {
    if n == 0 then 0 else TotalQueries(instances, n - 1) + |instances[n - 1].keys|
  }

  lemma PlainCell(row: nat, rows: nat, column: nat, ell: nat, plaintext: seq<int>, query: seq<int>)
    requires |plaintext| == rows * ell && row < rows && column < ell == |query|
    ensures 0 <= row * ell + column < |plaintext|
    ensures plaintext[row * ell + column] * query[column] == ProductTerm(plaintext, query, ell, row, column)
  {
    CellBound(row, rows, column, ell);
  }

  /** One row of the reference product. */
  method PlainRow(plaintext: seq<int>, query: seq<int>, rows: nat, row: nat, p: nat) returns (accumulator: int)
    requires p > 0 && |plaintext| == rows * |query| && row < rows
    ensures accumulator == Sum(t => ProductTerm(plaintext, query, |query|, row, t), |query|) % p
  {
    hide ProductTerm;
    ghost var f := t => ProductTerm(plaintext, query, |query|, row, t);
    var column := 0;
    accumulator := 0;
    while column < |query|
      invariant 0 <= column <= |query| && accumulator == Sum(f, column) % p
    {
      PlainCell(row, rows, column, |query|, plaintext, query);
      AccumulateStep(Sum(f, column), f(column), p);
      assert Sum(f, column + 1) == Sum(f, column) + f(column);
      accumulator := FAdd(accumulator, FMul(plaintext[row * |query| + column], query[column], p), p);
      column := column + 1;
    }
  }

  /** Writes the plaintext product, the reference every answer is compared with. */
  method PlaintextProductInto(plaintext: seq<int>, query: seq<int>, output: array<int>, rows: nat, p: nat)
    requires p > 0 && |plaintext| == rows * |query| && rows <= output.Length
    modifies output
    ensures output[..rows] == ProtocolSpec.ProductOf(plaintext, query, rows, |query|, p)
  {
    hide Sum;
    ghost var product := ProtocolSpec.ProductOf(plaintext, query, rows, |query|, p);
    var row := 0;
    while row < rows
      invariant 0 <= row <= rows
      invariant forall r | 0 <= r < row :: output[r] == product[r]
    {
      output[row] := PlainRow(plaintext, query, rows, row, p);
      row := row + 1;
    }
  }
}
