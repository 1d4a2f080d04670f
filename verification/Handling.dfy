/** What the session may do with one frame, and with a whole connection: every
    outcome with its reply and its cause. */
module Handling {
  import opened Acknowledgment
  import opened Answering
  import opened Arithmetic
  import opened Bytes
  import opened Codec
  import Codes
  import opened CodecLaws
  import opened Engine
  import opened Frame
  import opened Grids
  import opened Kernels
  import opened Layout
  import opened Messages
  import opened ParallelTier
  import opened ParameterSets
  import opened ProtocolSpec
  import opened Requests
  import opened Upload
  import opened Writer

  // ----- Error codes -----

  function CodecCode(error: CodecError): Codes.ErrorCode {
    match error
    case UnknownFrameKind(_) => Codes.UnknownFrameKind
    case TruncatedFrame => Codes.TruncatedFrame
    case TrailingFrameBytes(_) => Codes.TrailingFrameBytes
    case NonCanonicalField(_) => Codes.NonCanonicalFieldElement
    case CountMismatch(_, _) => Codes.CountMismatch
    case DimensionOverflow => Codes.DimensionOverflow
    case AllocationFailed => Codes.AllocationFailed
    case InvalidUtf8 => Codes.InvalidUtf8
    case InvalidDimensions => Codes.InvalidParameters
    case UnexpectedFrame(_) => Codes.UnexpectedFrame
  }

  function FailureCode(failure: RequestFailure): Codes.ErrorCode {
    match failure
    case BadParameters(_) => Codes.InvalidParameters
    case SizeOverflow => Codes.InvalidParameters
    case ColumnsMismatch(_, _) => Codes.CountMismatch
    case QueryWidthMismatch(_, _) => Codes.CountMismatch
    case WrongInstance(_, _) => Codes.InstanceMismatch
    case UnknownMatrix(_) => Codes.UnknownMatrixId
    case DuplicateMatrix(_) => Codes.DuplicateMatrixEntry
    case DuplicateQuery(_, _) => Codes.DuplicateQueryId
    case EmptyRequest => Codes.EmptyRequest
  }

  /** An error frame with the given code; its diagnostic text is free. */
  ghost predicate IsErrorReply(reply: seq<Byte>, code: Codes.ErrorCode) {
    exists text: Diagnostic :: reply == ErrorReply(code, text)
  }

  function ErrorReply(code: Codes.ErrorCode, text: Diagnostic): seq<Byte> {
    FrameBytes(ErrorFrame, ErrorPayload(Codes.ToU32(code), text))
  }

  // ----- Outcomes -----

  datatype SessionError =
    | TransportError(codec: CodecError)
    | UploadError(prepare: PrepareError)
    | EngineFailure(engine: EngineError)

  datatype Fate = Clean | Abnormal(error: SessionError)

  datatype Outcome = Continue | Close(fate: Fate)

  datatype Phase = EmptyPhase | Loaded(matrices: map<nat, StoredMatrix>)

  /** What the host decides for one frame: allocator refusals, diagnostic texts,
      the tier policy, and how workers are scheduled. */
  datatype Host = Host(refuseDecodePlan: bool, refusal: Refusal, refuseSlotAt: nat, refuseAck: bool, refuseEngineArena: bool,
                       text: Codes.ErrorCode -> Diagnostic, tier: (nat, nat, nat) -> Backend, schedule: EnginePlan -> Schedules)
  {
    /** Every planned row is eventually scheduled to the end. */
    ghost predicate Fair(p: nat) { forall plan :: WellPlanned(plan) ==> Finishes(plan, schedule(plan), p) }

    /** No allocation is refused. */
    predicate Generous(uploads: nat) {
      !refuseDecodePlan && refusal == NoRefusal && refuseSlotAt >= uploads && !refuseAck && !refuseEngineArena
    }
  }

  function SerialSchedules(plan: EnginePlan): Schedules {
    Schedules(seq(|plan.entries|, e requires 0 <= e < |plan.entries| =>
      OneByOne(|plan.entries[e].queries| * plan.entries[e].matrix.matrix.rows)))
  }

  /** A host with enough memory that evaluates row by row. */
  function SerialHost(uploads: nat): Host {
    Host(false, NoRefusal, uploads, false, false, code => [], (queries: nat, rows: nat, n: nat) => SingleCore, plan => SerialSchedules(plan))
  }

  /** Fair and generous hosts exist. */
  lemma SerialHostServes(uploads: nat, p: nat)
    ensures SerialHost(uploads).Fair(p) && SerialHost(uploads).Generous(uploads)
  {
    hide WellPlanned, Finishes;
    forall plan ensures Finishes(plan, SerialHost(uploads).schedule(plan), p) { SerialFinishes(plan, p); }
  }

  lemma SerialFinishes(plan: EnginePlan, p: nat)
    ensures Finishes(plan, SerialSchedules(plan), p)
  {
    hide Complete;
    forall e | 0 <= e < |plan.entries| ensures Complete(WorkOf(plan.entries[e], p), SerialSchedules(plan).tasks[e]) {
      OneByOneIsComplete(WorkOf(plan.entries[e], p));
    }
  }

  // ----- Uploads as decoded -----

  function UploadsOf(parts: seq<Part>): (uploads: seq<UploadRef>)
    requires forall i | 0 <= i < |parts| :: |parts[i].record| == 7
    ensures |uploads| == |parts|
  {
    seq(|parts|, i requires 0 <= i < |parts| => UploadOf(parts[i]))
  }

  /** What passes the session's own validation. */
  ghost predicate AcceptableUpload(uploads: seq<UploadRef>) {
    && uploads != [] && (forall i | 0 <= i < |uploads| :: FitsParameters(uploads[i]))
    && 4 * Upload.Words(uploads, |uploads|) < TWO64
  }

  lemma DecodedUploads(payload: seq<Byte>, p: nat)
    requires |payload| < TWO64 && ParseMessage(UploadKind, payload, p).Decoded?
    ensures var parts := ParseMessage(UploadKind, payload, p).parts;
            && (forall i | 0 <= i < |parts| :: |parts[i].record| == 7 && parts[i].items == [])
            && DecodedViews(UploadsOf(parts)) && 60 * |parts| < TWO64
            && forall i | 0 <= i < |parts| :: Canonical(UploadOf(parts[i]).matrix.values, p)
  {
    EncodeInvertsParse(UploadKind, payload, p);
    var parts := ParseMessage(UploadKind, payload, p).parts;
    forall i | 0 <= i < |parts|
      ensures |parts[i].record| == 7 && parts[i].items == [] && DecodedView(UploadOf(parts[i]))
      ensures Canonical(UploadOf(parts[i]).matrix.values, p)
    {
      assert PartFits(UploadKind, parts[i], p);
      AcceptedUpload(parts[i], p);
    }
  }

  // ----- Evaluations as decoded, products as served -----

  function EntriesOf(parts: seq<Part>): (entries: seq<EvaluateEntry>)
    requires forall i | 0 <= i < |parts| :: EvaluateShaped(parts[i])
    ensures |entries| == |parts|
  {
    seq(|parts|, i requires 0 <= i < |parts| => EvaluateOf(parts[i]))
  }

  lemma DecodedEntries(payload: seq<Byte>, p: nat)
    requires |payload| < TWO64 && ParseMessage(EvaluateKind, payload, p).Decoded?
    ensures var parts := ParseMessage(EvaluateKind, payload, p).parts;
            forall i | 0 <= i < |parts| :: EvaluateShaped(parts[i])
  {
    EncodeInvertsParse(EvaluateKind, payload, p);
    var parts := ParseMessage(EvaluateKind, payload, p).parts;
    forall i | 0 <= i < |parts| ensures EvaluateShaped(parts[i]) {
      assert PartFits(EvaluateKind, parts[i], p);
      AcceptedEvaluate(parts[i], p);
    }
  }

  /** The answer to one query of one prepared matrix. */
  ghost function ServedAnswer(prepared: PreparedMatrix, query: EncryptedQuery, p: nat): Answer
    requires p > 0 && prepared.Valid()
  {
    Answer(prepared.matrix.instanceId, query.queryId, prepared.matrix.rows, prepared.Blocks(),
           AnswerOf(prepared.matrix, query.values, prepared.params.b, prepared.Blocks(), p))
  }

  /** The products entry of one job: every query answered, in request order. */
  ghost function ServedEntry(matrixId: nat, job: AnswerJob, p: nat): ProductEntry
    requires p > 0 && job.matrix.Valid()
  {
    ProductEntry(matrixId, job.matrix.matrix.instanceId, job.matrix.matrix.rows, job.matrix.Blocks(),
                 seq(|job.queries|, j requires 0 <= j < |job.queries| => ServedAnswer(job.matrix, job.queries[j], p)))
  }

  ghost function ServedProducts(entries: seq<EvaluateEntry>, jobs: seq<AnswerJob>, p: nat): (products: seq<ProductEntry>)
    requires p > 0 && |jobs| == |entries| && AllValid(jobs)
    ensures |products| == |entries|
  {
    seq(|entries|, i requires 0 <= i < |entries| => ServedEntry(entries[i].matrixId, jobs[i], p))
  }

  /** A served entry has the shape its descriptor declares, and only canonical
      values. */
  lemma ServedIsWritable(matrixId: nat, job: AnswerJob, p: nat)
    requires p > 0 && job.matrix.Valid()
    ensures var e := ServedEntry(matrixId, job, p); NaturalProduct(e) && PairedEntry(e) && ShapedAnswers(e)
    ensures var e := ServedEntry(matrixId, job, p); forall j | 0 <= j < |e.answers| :: Canonical(e.answers[j].values, p)
  {
    var e := ServedEntry(matrixId, job, p);
    var m := job.matrix.matrix;
    forall j | 0 <= j < |e.answers| ensures NaturalAnswer(e.answers[j]) && Canonical(e.answers[j].values, p) {
      GridCanonical((row, blk) => AnswerCell(m.values, job.queries[j].values, m.columns, job.matrix.params.b, p, row, blk),
                    m.rows, job.matrix.Blocks(), p);
    }
    BlocksFit(job.matrix);
  }

  lemma BlocksFit(prepared: PreparedMatrix)
    requires prepared.Valid()
    ensures 0 < prepared.Blocks() <= prepared.matrix.columns
    ensures prepared.matrix.rows * prepared.Blocks() < TWO64
  {
    var n, b := prepared.matrix.columns, prepared.params.b;
    var s := n / b;
    assert n == s * b + n % b && n % b == 0;
    if s <= 0 { MulMono(s, 0, b); assert false; }
    MulMono(1, b, s);
    Commute(b, s);
    MulMono(s, n, prepared.matrix.rows);
    Commute(s, prepared.matrix.rows);
    Commute(n, prepared.matrix.rows);
  }

  function OneTo(n: nat): (ids: seq<nat>)
    ensures |ids| == n
  {
    seq(n, i requires 0 <= i < n => i + 1)
  }

  // ----- One handled frame -----

  /** One frame and everything its handling did: the stream before and after the
      payload, the phase before and after, the bytes sent, and the set loaded by
      then. */
  datatype Handled = Handled(kind: FrameKind, input: seq<Byte>, payloadLen: nat, rest: seq<Byte>, before: Phase, after: Phase,
                             reply: seq<Byte>, outcome: Outcome, uploads: seq<UploadRef>, firstId: nat)
  {
    /** The stream holds the whole declared payload. */
    ghost predicate Whole() { payloadLen <= |input| }

    ghost function Payload(): seq<Byte>
      requires Whole()
    {
      input[..payloadLen]
    }
  }

  /** The session refuses with an error frame and closes; the phase stays. */
  ghost predicate Refuses(h: Handled, code: Codes.ErrorCode, fate: Fate) {
    IsErrorReply(h.reply, code) && h.outcome == Close(fate) && h.after == h.before
  }

  /** A frame the phase does not permit: refused without reading its payload. */
  ghost predicate StateViolation(h: Handled, code: Codes.ErrorCode, fate: Fate) { Refuses(h, code, fate) && h.rest == h.input }

  /** The payload does not decode, or the allocator refused its decoding. */
  ghost predicate DecodeRefusal(kind: Kind, h: Handled, error: CodecError, p: nat, host: Host) {
    && Refuses(h, CodecCode(error), Abnormal(TransportError(error)))
    && (h.Whole() ==>
          || ParseMessage(kind, h.Payload(), p) == DecodeFailed(error)
          || (error == AllocationFailed && (host.refuseDecodePlan || host.refusal != NoRefusal)))
  }

  // ----- Uploads -----

  /** The payload's matrices, in order. */
  ghost predicate UploadDecodes(payload: seq<Byte>, p: nat, uploads: seq<UploadRef>) {
    && |payload| < TWO64 && ParseMessage(UploadKind, payload, p).Decoded?
    && (forall i | 0 <= i < |ParseMessage(UploadKind, payload, p).parts| :: |ParseMessage(UploadKind, payload, p).parts[i].record| == 7)
    && uploads == UploadsOf(ParseMessage(UploadKind, payload, p).parts)
  }

  ghost predicate UploadIs(payload: seq<Byte>, p: nat, uploads: seq<UploadRef>) {
    UploadDecodes(payload, p, uploads) && AcceptableUpload(uploads)
  }

  /** The failure names what is wrong with the set. */
  ghost predicate BlamesSet(uploads: seq<UploadRef>, failure: RequestFailure) {
    || (uploads == [] && failure == EmptyRequest)
    || exists i :: 0 <= i < |uploads| && (forall j | 0 <= j < i :: FitsParameters(uploads[j])) && BlamesUpload(uploads, i, failure)
  }

  ghost predicate ValidationRefusal(h: Handled, uploads: seq<UploadRef>, failure: RequestFailure, p: nat) {
    && Refuses(h, FailureCode(failure), Clean)
    && h.Whole() && UploadDecodes(h.Payload(), p, uploads) && BlamesSet(uploads, failure)
  }

  ghost predicate SlotRefusal(h: Handled, uploads: seq<UploadRef>, p: nat, host: Host) {
    && Refuses(h, Codes.UploadFailed, Clean)
    && h.Whole() && UploadIs(h.Payload(), p, uploads) && host.refuseSlotAt < |uploads|
  }

  /** The payload was consumed exactly and its set loaded under `1 ..= n`. Unless
      the acknowledgment's own buffer was refused, it was sent. */
  ghost predicate UploadLoads(h: Handled, p: nat, engineId: nat, host: Host) {
    && h.Whole() && h.rest == h.input[h.payloadLen..]
    && UploadIs(h.Payload(), p, h.uploads)
    && h.after.Loaded? && LoadedSet(h.after.matrices, engineId, h.firstId, h.uploads)
    && if host.refuseAck then
         IsErrorReply(h.reply, CodecCode(AllocationFailed)) && h.outcome == Close(Abnormal(TransportError(AllocationFailed)))
       else
         h.reply == FrameBytes(UploadAccepted, EncodeIds(OneTo(|h.uploads|))) && h.outcome == Continue
  }

  /** Why staging refused: as the three refusals say, before any reply. */
  ghost predicate UploadCause(input: seq<Byte>, payloadLen: nat, code: Codes.ErrorCode, fate: Fate, p: nat, host: Host) {
    forall h: Handled | h.input == input && h.payloadLen == payloadLen && Refuses(h, code, fate) ::
      || (exists error :: DecodeRefusal(UploadKind, h, error, p, host))
      || (exists uploads, failure :: ValidationRefusal(h, uploads, failure, p))
      || (exists uploads :: SlotRefusal(h, uploads, p, host))
  }

  lemma DecodeCauses(kind: Kind, input: seq<Byte>, payloadLen: nat, error: CodecError, p: nat, host: Host)
    requires payloadLen <= |input| ==>
               || ParseMessage(kind, input[..payloadLen], p) == DecodeFailed(error)
               || (error == AllocationFailed && (host.refuseDecodePlan || host.refusal != NoRefusal))
    ensures kind == UploadKind ==> UploadCause(input, payloadLen, CodecCode(error), Abnormal(TransportError(error)), p, host)
  {
    hide ParseMessage, Refuses;
    forall h: Handled | h.input == input && h.payloadLen == payloadLen && Refuses(h, CodecCode(error), Abnormal(TransportError(error)))
      ensures DecodeRefusal(kind, h, error, p, host)
    {
    }
  }

  lemma InvalidCauses(input: seq<Byte>, payloadLen: nat, uploads: seq<UploadRef>, failure: RequestFailure, p: nat, host: Host)
    requires payloadLen <= |input| && UploadDecodes(input[..payloadLen], p, uploads) && BlamesSet(uploads, failure)
    ensures UploadCause(input, payloadLen, FailureCode(failure), Clean, p, host)
  {
    hide UploadDecodes, BlamesSet, Refuses;
    forall h: Handled | h.input == input && h.payloadLen == payloadLen && Refuses(h, FailureCode(failure), Clean)
      ensures ValidationRefusal(h, uploads, failure, p)
    {
    }
  }

  lemma SlotCauses(input: seq<Byte>, payloadLen: nat, uploads: seq<UploadRef>, p: nat, host: Host)
    requires payloadLen <= |input| && UploadIs(input[..payloadLen], p, uploads) && host.refuseSlotAt < |uploads|
    ensures UploadCause(input, payloadLen, Codes.UploadFailed, Clean, p, host)
  {
    hide UploadIs, Refuses;
    forall h: Handled | h.input == input && h.payloadLen == payloadLen && Refuses(h, Codes.UploadFailed, Clean)
      ensures SlotRefusal(h, uploads, p, host)
    {
    }
  }

  lemma CauseHandles(h: Handled, code: Codes.ErrorCode, fate: Fate, p: nat, engineId: nat, host: Host)
    requires UploadCause(h.input, h.payloadLen, code, fate, p, host) && Refuses(h, code, fate)
    ensures UploadHandled(h, p, engineId, host)
  {
    hide Refuses, DecodeRefusal, ValidationRefusal, SlotRefusal, UploadLoads;
  }

  lemma LoadHandles(h: Handled, p: nat, engineId: nat, host: Host)
    requires UploadLoads(h, p, engineId, host)
    ensures UploadHandled(h, p, engineId, host)
  {
  }

  ghost predicate UploadHandled(h: Handled, p: nat, engineId: nat, host: Host) {
    || UploadLoads(h, p, engineId, host)
    || (exists error :: DecodeRefusal(UploadKind, h, error, p, host))
    || (exists uploads, failure :: ValidationRefusal(h, uploads, failure, p))
    || (exists uploads :: SlotRefusal(h, uploads, p, host))
  }

  /** A payload that loads: it decodes, it passes validation, and the host has the
      memory. */
  ghost predicate WillLoad(payload: seq<Byte>, p: nat, host: Host) {
    exists uploads :: UploadIs(payload, p, uploads) && host.Generous(|uploads|)
  }

  lemma BlamedIsUnacceptable(uploads: seq<UploadRef>, failure: RequestFailure)
    requires BlamesSet(uploads, failure)
    ensures !AcceptableUpload(uploads)
  {
    if uploads != [] {
      var i :| 0 <= i < |uploads| && (forall j | 0 <= j < i :: FitsParameters(uploads[j])) && BlamesUpload(uploads, i, failure);
      WordsGrow(uploads, i + 1, |uploads|);
    }
  }

  /** Nothing but an undecodable payload, an invalid set or the allocator keeps an
      upload from loading. */
  lemma LoadsWhenItCan(h: Handled, p: nat, engineId: nat, host: Host)
    requires UploadHandled(h, p, engineId, host) && h.Whole() && WillLoad(h.Payload(), p, host)
    ensures UploadLoads(h, p, engineId, host) && h.outcome == Continue
  {
    hide ParseMessage, AcceptableUpload, LoadedSet, IsErrorReply, FrameBytes, EncodeIds, BlamesSet;
    var uploads :| UploadIs(h.Payload(), p, uploads) && host.Generous(|uploads|);
    if views, failure :| ValidationRefusal(h, views, failure, p) { BlamedIsUnacceptable(views, failure); }
  }

  lemma {:induction false} ValidatedAccepts(uploads: seq<UploadRef>)
    requires DecodedViews(uploads) && uploads != [] && (forall i | 0 <= i < |uploads| :: FitsParameters(uploads[i]))
    requires 4 * Upload.Words(uploads, |uploads|) < TWO64
    ensures AcceptableUpload(uploads) && ServableUpTo(uploads, |uploads|)
  {
    ValidatedIsServable(uploads);
  }

  // ----- Evaluations -----

  ghost predicate ValidRequest(matrices: map<nat, StoredMatrix>, entries: seq<EvaluateEntry>) {
    && entries != [] && EntriesFitUpTo(matrices, entries, |entries|)
    && (forall i | 0 <= i < |entries| :: entries[i].matrixId in matrices)
    && AllValid(JobsOf(matrices, entries))
  }

  ghost predicate RequestIs(payload: seq<Byte>, p: nat) {
    && ParseMessage(EvaluateKind, payload, p).Decoded?
    && forall i | 0 <= i < |ParseMessage(EvaluateKind, payload, p).parts| :: EvaluateShaped(ParseMessage(EvaluateKind, payload, p).parts[i])
  }

  ghost function RequestOf(payload: seq<Byte>, p: nat): seq<EvaluateEntry>
    requires RequestIs(payload, p)
  {
    EntriesOf(ParseMessage(EvaluateKind, payload, p).parts)
  }

  /** The bytes that answer a valid request: the served products, in request
      order. */
  ghost function ProductsReply(matrices: map<nat, StoredMatrix>, entries: seq<EvaluateEntry>, p: nat): seq<Byte>
    requires p > 0 && ValidRequest(matrices, entries)
  {
    ServedAreNatural(entries, JobsOf(matrices, entries), p);
    FrameBytes(Products, Encode(ProductsKind, ProductParts(ServedProducts(entries, JobsOf(matrices, entries), p))))
  }

  ghost function ProductsLength(matrices: map<nat, StoredMatrix>, entries: seq<EvaluateEntry>, p: nat): nat
    requires p > 0 && ValidRequest(matrices, entries)
  {
    ServedAreNatural(entries, JobsOf(matrices, entries), p);
    PayloadBytes(ProductsKind, ProductParts(ServedProducts(entries, JobsOf(matrices, entries), p)))
  }

  lemma ServedAreNatural(entries: seq<EvaluateEntry>, jobs: seq<AnswerJob>, p: nat)
    requires p > 0 && |jobs| == |entries| && AllValid(jobs)
    ensures forall i | 0 <= i < |entries| :: NaturalProduct(ServedProducts(entries, jobs, p)[i]) && ShapedAnswers(ServedProducts(entries, jobs, p)[i])
  {
    hide ServedEntry, NaturalProduct, ShapedAnswers, PairedEntry, ValidateMatrixShape;
    forall i | 0 <= i < |entries|
      ensures NaturalProduct(ServedProducts(entries, jobs, p)[i]) && ShapedAnswers(ServedProducts(entries, jobs, p)[i])
    {
      ServedIsWritable(entries[i].matrixId, jobs[i], p);
    }
  }

  /** The answers of a valid request can be laid out in one arena. */
  ghost predicate ArenaFits(matrices: map<nat, StoredMatrix>, entries: seq<EvaluateEntry>)
    requires ValidRequest(matrices, entries)
  {
    Offset(JobsOf(matrices, entries), |entries|) < TWO64
  }

  /** And sent in one frame. */
  ghost predicate WireFits(matrices: map<nat, StoredMatrix>, entries: seq<EvaluateEntry>, p: nat)
    requires p > 0 && ValidRequest(matrices, entries)
  {
    ProductsLength(matrices, entries, p) + HEADER_BYTES < TWO64
  }

  /** Either the products of a valid request, which then fit, or one in-band
      rejection that names what is wrong with it. */
  ghost predicate Replied(matrices: map<nat, StoredMatrix>, entries: seq<EvaluateEntry>, reply: seq<Byte>, p: nat)
    requires p > 0
  {
    if ValidRequest(matrices, entries) then
      ArenaFits(matrices, entries) && WireFits(matrices, entries, p) && reply == ProductsReply(matrices, entries, p)
    else
      exists failure ::
        && ((entries == [] && failure == EmptyRequest) || BlamesSomeEntry(matrices, entries, failure))
        && IsErrorReply(reply, FailureCode(failure))
  }

  /** The request's payload was consumed exactly and it was replied to. */
  ghost predicate RequestReplied(h: Handled, p: nat)
    requires p > 0 && h.before.Loaded?
  {
    && h.outcome == Continue && h.after == h.before
    && h.Whole() && h.rest == h.input[h.payloadLen..]
    && RequestIs(h.Payload(), p) && Replied(h.before.matrices, RequestOf(h.Payload(), p), h.reply, p)
  }

  /** The engine refuses a valid request only because its answers do not fit an
      arena, or because the allocator refused the arena. */
  ghost predicate EngineRefusal(h: Handled, error: EngineError, p: nat, host: Host)
    requires h.before.Loaded?
  {
    && Refuses(h, Codes.GpuFailure, Abnormal(EngineFailure(error)))
    && h.Whole() && RequestIs(h.Payload(), p)
    && var entries := RequestOf(h.Payload(), p);
       && ValidRequest(h.before.matrices, entries)
       && if error.Capacity? then host.refuseEngineArena && ArenaFits(h.before.matrices, entries)
          else TooManyWords(JobsOf(h.before.matrices, entries), error)
  }

  ghost predicate TooManyWords(jobs: seq<AnswerJob>, error: EngineError)
    requires AllValid(jobs)
  {
    error.ProtocolFailure? && error.source == Overflow && error.entry < |jobs| && Offset(jobs, error.entry + 1) >= TWO64
  }

  /** The products of a valid request do not fit the wire: nothing is sent when
      their length does not, and too late to stop when only the total does not. */
  ghost predicate Unwritable(h: Handled, p: nat)
    requires p > 0 && h.before.Loaded?
  {
    && h.outcome == Close(Abnormal(TransportError(CodecError.DimensionOverflow))) && h.after == h.before
    && h.Whole() && RequestIs(h.Payload(), p)
    && var entries := RequestOf(h.Payload(), p);
       && ValidRequest(h.before.matrices, entries)
       && ArenaFits(h.before.matrices, entries) && !WireFits(h.before.matrices, entries, p)
       && h.reply == if ProductsLength(h.before.matrices, entries, p) < TWO64 then ProductsReply(h.before.matrices, entries, p) else []
  }

  ghost predicate EvaluateHandled(h: Handled, p: nat, host: Host)
    requires p > 0 && h.before.Loaded?
  {
    || RequestReplied(h, p)
    || (exists error :: DecodeRefusal(EvaluateKind, h, error, p, host))
    || (exists error :: EngineRefusal(h, error, p, host))
    || Unwritable(h, p)
  }

  /** How answering a valid request may end. */
  ghost predicate AnswerOutcome(matrices: map<nat, StoredMatrix>, entries: seq<EvaluateEntry>, o: Outcome, reply: seq<Byte>, p: nat, host: Host)
    requires p > 0 && ValidRequest(matrices, entries)
  {
    match o
    case Continue => ArenaFits(matrices, entries) && WireFits(matrices, entries, p) && reply == ProductsReply(matrices, entries, p)
    case Close(Abnormal(EngineFailure(error))) =>
      && IsErrorReply(reply, Codes.GpuFailure)
      && if error.Capacity? then host.refuseEngineArena && ArenaFits(matrices, entries)
         else TooManyWords(JobsOf(matrices, entries), error)
    case Close(fate) =>
      && fate == Abnormal(TransportError(CodecError.DimensionOverflow))
      && ArenaFits(matrices, entries) && !WireFits(matrices, entries, p)
      && reply == if ProductsLength(matrices, entries, p) < TWO64 then ProductsReply(matrices, entries, p) else []
  }

  lemma DecodeHandles(h: Handled, error: CodecError, p: nat, host: Host)
    requires p > 0 && h.before.Loaded? && DecodeRefusal(EvaluateKind, h, error, p, host)
    ensures EvaluateHandled(h, p, host)
  {
    hide DecodeRefusal;
  }

  lemma ValidRequestIs(matrices: map<nat, StoredMatrix>, entries: seq<EvaluateEntry>)
    requires entries != [] && EntriesFitUpTo(matrices, entries, |entries|)
    requires (forall i | 0 <= i < |entries| :: entries[i].matrixId in matrices) && AllValid(JobsOf(matrices, entries))
    ensures ValidRequest(matrices, entries)
  {
  }

  lemma RejectedInBand(matrices: map<nat, StoredMatrix>, entries: seq<EvaluateEntry>, failure: RequestFailure, reply: seq<Byte>, p: nat)
    requires p > 0 && !(entries != [] && EntriesFitUpTo(matrices, entries, |entries|))
    requires (entries == [] && failure == EmptyRequest) || BlamesSomeEntry(matrices, entries, failure)
    requires IsErrorReply(reply, FailureCode(failure))
    ensures !ValidRequest(matrices, entries) && Replied(matrices, entries, reply, p)
  {
    hide IsErrorReply, BlamesSomeEntry, EntriesFitUpTo;
  }

  /** A decoded request is handled, whether it was answered or refused. */
  lemma RequestHandles(h: Handled, entries: seq<EvaluateEntry>, p: nat, host: Host)
    requires p > 0 && h.before.Loaded? && h.after == h.before && h.Whole() && h.rest == h.input[h.payloadLen..]
    requires RequestIs(h.Payload(), p) && entries == RequestOf(h.Payload(), p)
    requires if ValidRequest(h.before.matrices, entries) then AnswerOutcome(h.before.matrices, entries, h.outcome, h.reply, p, host)
             else h.outcome == Continue && Replied(h.before.matrices, entries, h.reply, p)
    ensures EvaluateHandled(h, p, host)
  {
    hide RequestIs, RequestOf, ValidRequest, IsErrorReply, ProductsReply, ProductsLength, TooManyWords, JobsOf, BlamesSomeEntry;
    if h.outcome.Continue? {
      assert RequestReplied(h, p);
    } else if h.outcome.fate.Abnormal? && h.outcome.fate.error.EngineFailure? {
      assert EngineRefusal(h, h.outcome.fate.error.engine, p, host);
    } else {
      assert Unwritable(h, p);
    }
  }

  /** A request that is answered: it decodes, it is valid, its answers fit the
      arena and the wire, and the host has the memory. */
  ghost predicate WillAnswer(matrices: map<nat, StoredMatrix>, payload: seq<Byte>, p: nat, host: Host)
    requires p > 0
  {
    && RequestIs(payload, p) && host.Generous(0)
    && var entries := RequestOf(payload, p);
       && ValidRequest(matrices, entries) && ArenaFits(matrices, entries) && WireFits(matrices, entries, p)
  }

  lemma EngineServes(h: Handled, error: EngineError, p: nat, host: Host)
    requires p > 0 && h.before.Loaded? && h.Whole() && WillAnswer(h.before.matrices, h.Payload(), p, host)
    ensures !EngineRefusal(h, error, p, host)
  {
    hide ParseMessage, ProductsLength, RequestOf, RequestIs, IsErrorReply, Offset, EntriesFitUpTo, ValidateMatrixShape;
    var entries := RequestOf(h.Payload(), p);
    var jobs := JobsOf(h.before.matrices, entries);
    if TooManyWords(jobs, error) { OffsetGrows(jobs, error.entry + 1, |entries|); }
  }

  /** Nothing but an undecodable payload, an oversized answer or the allocator
      keeps a request on a loaded session from its reply. */
  lemma RepliesWhenItCan(h: Handled, p: nat, host: Host)
    requires p > 0 && h.before.Loaded? && EvaluateHandled(h, p, host)
    requires h.Whole() && WillAnswer(h.before.matrices, h.Payload(), p, host)
    ensures RequestReplied(h, p) && h.reply == ProductsReply(h.before.matrices, RequestOf(h.Payload(), p), p)
  {
    hide ParseMessage, ProductsReply, ProductsLength, ValidRequest, RequestOf, IsErrorReply, EngineRefusal, Offset, JobsOf, RequestIs,
         BlamesSomeEntry;
    forall error ensures !EngineRefusal(h, error, p, host) { EngineServes(h, error, p, host); }
    DecodedRequest(h.Payload(), p);
  }

  lemma DecodedIsRequest(payload: seq<Byte>, p: nat)
    requires |payload| < TWO64 && ParseMessage(EvaluateKind, payload, p).Decoded?
    ensures var parts := ParseMessage(EvaluateKind, payload, p).parts;
            && (forall i | 0 <= i < |parts| :: EvaluateShaped(parts[i]))
            && RequestIs(payload, p) && RequestOf(payload, p) == EntriesOf(parts)
  {
    hide ParseMessage, EvaluateShaped;
    DecodedEntries(payload, p);
  }

  lemma DecodedRequest(payload: seq<Byte>, p: nat)
    requires RequestIs(payload, p)
    ensures ParseMessage(EvaluateKind, payload, p).Decoded?
  {
  }

  /** A request the planner can still reject has answers that overflow the arena:
      everything else was settled before. */
  lemma OnlyOverflowIsLeft(engineId: nat, jobs: seq<AnswerJob>, error: EngineError)
    requires AllValid(jobs) && jobs != [] && AcceptedUpTo(engineId, jobs, |jobs|) && Engine.Explains(engineId, jobs, error)
    ensures TooManyWords(jobs, error)
  {
    hide ValidateMatrixShape, QueriesFit, Offset;
    if !error.EmptyJobs? && !error.Capacity? { assert EntryAcceptable(engineId, jobs, error.entry); }
  }

  // ----- Any frame -----

  ghost predicate FrameHandled(h: Handled, p: nat, engineId: nat, host: Host)
    requires p > 0
  {
    match h.kind
    case UploadMatrices =>
      if h.before.Loaded? then StateViolation(h, Codes.AlreadyLoaded, Clean) else UploadHandled(h, p, engineId, host)
    case Evaluate =>
      if h.before.EmptyPhase? then StateViolation(h, Codes.NotLoaded, Clean) else EvaluateHandled(h, p, host)
    case _ => StateViolation(h, Codes.UnexpectedFrame, Abnormal(TransportError(UnexpectedFrame(ToByte(h.kind)))))
  }

  /** The phase only moves from empty to loaded, on an upload; an evaluation
      continues only on a loaded session; and a frame that continues consumed
      exactly its payload. */
  lemma FrameIsSafe(h: Handled, p: nat, engineId: nat, host: Host)
    requires p > 0 && FrameHandled(h, p, engineId, host)
    ensures h.after == h.before || (h.before.EmptyPhase? && h.after.Loaded? && h.kind == UploadMatrices)
    ensures h.outcome.Continue? ==> h.Whole() && h.rest == h.input[h.payloadLen..] && h.after.Loaded?
    ensures h.outcome.Continue? ==> h.kind == UploadMatrices || (h.kind == Evaluate && h.before.Loaded?)
  {
    hide ParseMessage, Replied, UploadIs, UploadDecodes, RequestIs, LoadedSet, IsErrorReply, ValidRequest;
  }

  // ----- Whole connections -----

  /** One handled frame, with the stream position of its header. */
  datatype Event = Event(at: nat, handled: Handled)

  ghost function PhaseAfter(trace: seq<Event>): Phase {
    if trace == [] then EmptyPhase else trace[|trace| - 1].handled.after
  }

  ghost function PositionAfter(trace: seq<Event>): nat {
    if trace == [] then 0 else trace[|trace| - 1].at + HEADER_BYTES + trace[|trace| - 1].handled.payloadLen
  }

  /** Everything the handled frames sent, in order. */
  ghost function Replies(trace: seq<Event>): seq<Byte> {
    if trace == [] then [] else Replies(trace[..|trace| - 1]) + trace[|trace| - 1].handled.reply
  }

  /** A well-formed header at a position of the input. */
  ghost predicate HeaderAt(input: seq<Byte>, at: nat) { at + HEADER_BYTES <= |input| && FromByte(input[at]).Some? }

  /** The event's header and the stream behind it. */
  ghost predicate EventIn(event: Event, input: seq<Byte>) {
    && HeaderAt(input, event.at) && FromByte(input[event.at]).value == event.handled.kind
    && FromLE(input[event.at + 1..event.at + HEADER_BYTES]) == event.handled.payloadLen
    && event.handled.input == input[event.at + HEADER_BYTES..]
  }

  ghost predicate Follows(event: Event, earlier: seq<Event>) {
    && event.handled.before == PhaseAfter(earlier) && event.at == PositionAfter(earlier)
    && (earlier != [] ==> earlier[|earlier| - 1].handled.outcome.Continue?)
  }

  /** The frames of the input, one after the other: each is the next frame on the
      stream, is handled in the phase its predecessor left, and only the last may
      close. */
  ghost predicate Served(trace: seq<Event>, input: seq<Byte>, p: nat, engineId: nat, hosts: nat -> Host)
    requires p > 0
  {
    forall i: nat | i < |trace| ::
      EventIn(trace[i], input) && FrameHandled(trace[i].handled, p, engineId, hosts(i)) && Follows(trace[i], trace[..i])
  }

  /** Why serving stopped where it did: the last frame closed; or the input ended
      on a frame boundary; or what follows is no header. `tail` is what was sent
      beyond the frames' own replies. */
  ghost predicate Ended(trace: seq<Event>, input: seq<Byte>, fate: Fate, tail: seq<Byte>) {
    if trace != [] && trace[|trace| - 1].handled.outcome.Close? then
      fate == trace[|trace| - 1].handled.outcome.fate && tail == []
    else
      var at := PositionAfter(trace);
      && at <= |input|
      && if at == |input| then fate == Clean && tail == []
         else if at + HEADER_BYTES > |input| then fate == Abnormal(TransportError(TruncatedFrame)) && tail == []
         else
           && FromByte(input[at]).None?
           && fate == Abnormal(TransportError(UnknownFrameKind(input[at])))
           && IsErrorReply(tail, CodecCode(UnknownFrameKind(input[at])))
  }

  lemma InputEnds(trace: seq<Event>, input: seq<Byte>)
    requires PositionAfter(trace) <= |input| && input[PositionAfter(trace)..] == []
    requires trace != [] ==> trace[|trace| - 1].handled.outcome.Continue?
    ensures Ended(trace, input, Clean, [])
  {
  }

  lemma BadHeaderEnds(trace: seq<Event>, input: seq<Byte>, error: CodecError, tail: seq<Byte>)
    requires PositionAfter(trace) <= |input| && input[PositionAfter(trace)..] != []
    requires trace != [] ==> trace[|trace| - 1].handled.outcome.Continue?
    requires var left := input[PositionAfter(trace)..];
             if |left| < HEADER_BYTES then error == TruncatedFrame && tail == []
             else FromByte(left[0]).None? && error == UnknownFrameKind(left[0]) && IsErrorReply(tail, CodecCode(error))
    ensures Ended(trace, input, Abnormal(TransportError(error)), tail)
  {
    hide IsErrorReply;
  }

  lemma LastCloses(trace: seq<Event>, input: seq<Byte>)
    requires trace != [] && trace[|trace| - 1].handled.outcome.Close?
    ensures Ended(trace, input, trace[|trace| - 1].handled.outcome.fate, [])
  {
  }

  /** What `ReadHeader` returned at the event's position is its header. */
  lemma HeaderIsEvent(event: Event, input: seq<Byte>)
    requires event.at + HEADER_BYTES <= |input| && FromByte(input[event.at..][0]) == Some(event.handled.kind)
    requires FromLE(input[event.at..][1..HEADER_BYTES]) == event.handled.payloadLen
    requires event.handled.input == input[event.at..][HEADER_BYTES..]
    ensures EventIn(event, input)
  {
    hide FromLE;
    assert input[event.at..][1..HEADER_BYTES] == input[event.at + 1..event.at + HEADER_BYTES];
  }

  lemma FollowsLast(event: Event, trace: seq<Event>)
    requires event.handled.before == PhaseAfter(trace) && event.at == PositionAfter(trace)
    requires trace != [] ==> trace[|trace| - 1].handled.outcome.Continue?
    ensures Follows(event, trace)
  {
  }

  lemma NothingServed(input: seq<Byte>, p: nat, engineId: nat, hosts: nat -> Host)
    requires p > 0
    ensures Served([], input, p, engineId, hosts) && PhaseAfter([]) == EmptyPhase && PositionAfter([]) == 0 && Replies([]) == []
  {
  }

  lemma {:induction false} ServeOneMore(trace: seq<Event>, event: Event, input: seq<Byte>, p: nat, engineId: nat, hosts: nat -> Host)
    requires p > 0 && Served(trace, input, p, engineId, hosts)
    requires EventIn(event, input) && FrameHandled(event.handled, p, engineId, hosts(|trace|)) && Follows(event, trace)
    ensures Served(trace + [event], input, p, engineId, hosts)
    ensures PhaseAfter(trace + [event]) == event.handled.after
    ensures PositionAfter(trace + [event]) == event.at + HEADER_BYTES + event.handled.payloadLen
    ensures Replies(trace + [event]) == Replies(trace) + event.handled.reply
  {
    hide EventIn, FrameHandled, Follows;
    var longer := trace + [event];
    forall i: nat | i < |longer|
      ensures EventIn(longer[i], input) && FrameHandled(longer[i].handled, p, engineId, hosts(i)) && Follows(longer[i], longer[..i])
    {
      assert longer[..i] == if i < |trace| then trace[..i] else trace;
    }
    assert longer[..|trace|] == trace;
  }

  /** One event of a served connection: it starts in the phase the previous one
      left, and leaves that phase only for a load. */
  lemma ServedStep(trace: seq<Event>, input: seq<Byte>, p: nat, engineId: nat, hosts: nat -> Host, j: nat)
    requires p > 0 && Served(trace, input, p, engineId, hosts) && j < |trace|
    ensures var h := trace[j].handled;
            && h.before == (if j == 0 then EmptyPhase else trace[j - 1].handled.after)
            && (h.after == h.before || (h.before.EmptyPhase? && h.after.Loaded? && h.kind == UploadMatrices))
    ensures j > 0 ==> trace[j - 1].handled.outcome.Continue?
    ensures trace[j].at == if j == 0 then 0 else trace[j - 1].at + HEADER_BYTES + trace[j - 1].handled.payloadLen
  {
    hide EventIn, FrameHandled;
    assert FrameHandled(trace[j].handled, p, engineId, hosts(j)) && Follows(trace[j], trace[..j]);
    FrameIsSafe(trace[j].handled, p, engineId, hosts(j));
    assert j > 0 ==> trace[..j][j - 1] == trace[j - 1];
  }

  /** Once loaded, always the same set; and the empty phase is left at most once. */
  lemma {:induction false} LoadedForGood(trace: seq<Event>, input: seq<Byte>, p: nat, engineId: nat, hosts: nat -> Host, i: nat, j: nat)
    requires p > 0 && Served(trace, input, p, engineId, hosts) && i <= j < |trace| && trace[i].handled.after.Loaded?
    ensures trace[j].handled.after == trace[i].handled.after
    decreases j - i
  {
    hide Served;
    if i < j {
      LoadedForGood(trace, input, p, engineId, hosts, i, j - 1);
      ServedStep(trace, input, p, engineId, hosts, j);
    }
  }

  lemma LeavesEmptyOnce(trace: seq<Event>, input: seq<Byte>, p: nat, engineId: nat, hosts: nat -> Host, i: nat, j: nat)
    requires p > 0 && Served(trace, input, p, engineId, hosts) && i < j < |trace|
    requires trace[i].handled.before.EmptyPhase? && trace[i].handled.after.Loaded?
    ensures trace[j].handled.before.Loaded?
  {
    hide Served;
    LoadedForGood(trace, input, p, engineId, hosts, i, j - 1);
    ServedStep(trace, input, p, engineId, hosts, j);
  }

  /** Every request that is handled on a loaded session comes after an upload that
      loaded the set it is answered from. */
  lemma {:induction false} LoadedBeforeEvaluated(trace: seq<Event>, input: seq<Byte>, p: nat, engineId: nat, hosts: nat -> Host, j: nat)
    returns (i: nat)
    requires p > 0 && Served(trace, input, p, engineId, hosts) && j < |trace| && trace[j].handled.before.Loaded?
    ensures i < j && trace[i].handled.kind == UploadMatrices && trace[i].handled.before.EmptyPhase?
    ensures trace[i].handled.after == trace[j].handled.before
    decreases j
  {
    hide Served;
    ServedStep(trace, input, p, engineId, hosts, j);
    ServedStep(trace, input, p, engineId, hosts, j - 1);
    if trace[j - 1].handled.before.Loaded? {
      i := LoadedBeforeEvaluated(trace, input, p, engineId, hosts, j - 1);
    } else {
      i := j - 1;
    }
  }

  /** Serving does not stop before a frame: where every frame so far continued and
      a header follows, one more frame was handled. */
  lemma NoFrameIsSkipped(trace: seq<Event>, input: seq<Byte>, fate: Fate, tail: seq<Byte>, p: nat, engineId: nat, hosts: nat -> Host, n: nat)
    requires p > 0 && Served(trace, input, p, engineId, hosts) && Ended(trace, input, fate, tail) && n <= |trace|
    requires n > 0 ==> trace[n - 1].handled.outcome.Continue?
    requires HeaderAt(input, PositionAfter(trace[..n]))
    ensures n < |trace|
  {
    assert trace[..|trace|] == trace;
  }

  /** Serving stops where the input does: past a frame that ends the input, nothing
      more is handled or sent. */
  lemma NothingPastTheEnd(trace: seq<Event>, input: seq<Byte>, fate: Fate, tail: seq<Byte>, p: nat, engineId: nat, hosts: nat -> Host, n: nat)
    requires p > 0 && Served(trace, input, p, engineId, hosts) && Ended(trace, input, fate, tail) && 0 < n <= |trace|
    requires trace[n - 1].handled.outcome.Continue? && PositionAfter(trace[..n]) == |input|
    ensures |trace| == n && fate == Clean && tail == []
  {
    hide FrameHandled;
    forall i: nat | i < |trace| ensures PositionAfter(trace[..i]) + HEADER_BYTES <= |input| {
      assert EventIn(trace[i], input) && Follows(trace[i], trace[..i]);
    }
    assert trace[..|trace|] == trace;
  }

  method BuildProducts(arena: seq<int>, ghost entries: seq<EvaluateEntry>, ghost jobs: seq<AnswerJob>,
                       evaluated: seq<EvaluatedEntry>, plan: EnginePlan, p: nat) returns (products: seq<ProductEntry>)
    requires p > 0 && AllValid(jobs) && |jobs| == |entries| == |evaluated|
    requires forall i | 0 <= i < |entries| :: jobs[i].queries != [] && evaluated[i].matrixId == entries[i].matrixId
    requires PlannedUpTo(plan.entries, jobs, |jobs|) && WellPlanned(plan)
    requires forall e | 0 <= e < |plan.entries| :: RangeHolds(arena, plan.entries[e], p)
    ensures products == ServedProducts(entries, jobs, p)
  {
    hide EntryAnswers, ServedEntry, RangeEnd, EntryWell, Offset, ValidateMatrixShape, WellPlanned;
    products := [];
    var index := 0;
    while index < |plan.entries|
      invariant 0 <= index <= |plan.entries| && |products| == index
      invariant forall i | 0 <= i < index :: products[i] == ServedEntry(entries[i].matrixId, jobs[i], p)
    {
      var entry := plan.entries[index];
      assert PlansTo(entry, jobs[index], Offset(jobs, index)) && jobs[index] == AnswerJob(entry.matrix, entry.queries);
      PlannedEntry(plan, index);
      assert RangeHolds(arena, entry, p);
      var product := BuildProduct(evaluated[index].matrixId, entry, arena[entry.offsetWords..RangeEnd(entry)], p);
      products := products + [product];
      index := index + 1;
    }
  }

  /** One entry's products: its answers in query order, with the shape of the
      first one. */
  method BuildProduct(matrixId: nat, entry: EntryPlan, range: seq<int>, p: nat) returns (product: ProductEntry)
    requires p > 0 && EntryWell(entry) && entry.queries != [] && range == EntryAnswers(entry, p)
    ensures product == ServedEntry(matrixId, AnswerJob(entry.matrix, entry.queries), p)
  {
    hide EntryAnswers;
    var answers: seq<Answer> := [];
    var j := 0;
    while j < |entry.queries|
      invariant 0 <= j <= |entry.queries| && |answers| == j
      invariant forall i | 0 <= i < j :: answers[i] == ServedAnswer(entry.matrix, entry.queries[i], p)
    {
      ViewsAreAnswers(entry, j, p);
      var paired := PairAnswer(range, entry.shape, entry.queries, j);
      answers := answers + [paired.answer];
      j := j + 1;
    }
    var first := answers[0];
    product := ProductEntry(matrixId, first.instanceId, first.rows, first.blocks, answers);
  }
}
