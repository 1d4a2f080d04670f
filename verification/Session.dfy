/** The load-once server session: one frame at a time, and a whole connection. */
module Session {
  import opened Acknowledgment
  import opened Answering
  import opened Arithmetic
  import opened Bytes
  import opened Codec
  import Codes
  import opened CodecLaws
  import opened Engine
  import opened Frame
  import opened Handling
  import opened Layout
  import opened Messages
  import opened ProtocolSpec
  import opened Requests
  import opened Upload
  import opened Writer

  datatype StageResult = Staged(views: seq<UploadRef>, handles: seq<PreparedMatrix>) | Refused(code: Codes.ErrorCode, fate: Fate)

  class ServerSession {
    const engineId: nat
    const p: nat
    const uploadWs: Workspace
    const evaluateWs: Workspace
    const engineWs: EngineWorkspace
    var prepareWs: PrepareWorkspace
    var phase: Phase
    var nextMatrixId: nat
    /** The accepted upload and its first handle, once loaded. */
    ghost var uploads: seq<UploadRef>
    ghost var firstId: nat

    ghost predicate Valid()
      reads this, prepareWs
    {
      && p > 0 && prepareWs.Valid()
      && (phase.Loaded? ==> LoadedSet(phase.matrices, engineId, firstId, uploads) && uploads != [])
    }

    /** Everything a frame may overwrite besides the phase. */
    ghost function Buffers(): set<object>
      reads this, uploadWs, evaluateWs, engineWs
    {
      {uploadWs, evaluateWs, engineWs, prepareWs, uploadWs.arena, evaluateWs.arena, engineWs.arena}
    }

    constructor (engineId: nat, p: nat, nextMatrixId: nat)
      requires p > 0
      ensures Valid() && phase == EmptyPhase && fresh(Buffers())
      ensures this.engineId == engineId && this.p == p
    {
      this.engineId, this.p, this.nextMatrixId := engineId, p, nextMatrixId;
      uploadWs := new Workspace();
      evaluateWs := new Workspace();
      engineWs := new EngineWorkspace();
      prepareWs := new PrepareWorkspace();
      phase := EmptyPhase;
      uploads, firstId := [], 0;
    }

    method SendError(sink: Sink, code: Codes.ErrorCode, host: Host) returns (ghost reply: seq<Byte>)
      modifies sink
      ensures sink.output == old(sink.output) + reply && IsErrorReply(reply, code)
    {
      hide LE;
      var sent := sink.WriteError(code, host.text(code));
      reply := ErrorReply(code, host.text(code));
    }

    /** The payload of one message kind, decoded into its reusable workspace. */
    method ReadMessage(kind: Kind, stream: Stream, payloadLen: nat, workspace: Workspace, host: Host)
      returns (r: MessageOutcome)
      requires p > 0
      modifies stream, workspace, workspace.arena
      ensures workspace.arena == old(workspace.arena) || fresh(workspace.arena)
      ensures r.Decoded? ==>
                && payloadLen <= |old(stream.input)| && stream.input == old(stream.input)[payloadLen..]
                && r == ParseMessage(kind, old(stream.input)[..payloadLen], p)
      ensures r.DecodeFailed? && payloadLen <= |old(stream.input)| ==>
                || r == ParseMessage(kind, old(stream.input)[..payloadLen], p)
                || (r.error == AllocationFailed && (host.refuseDecodePlan || host.refusal != NoRefusal))
    {
      hide ParseMessage;
      var frame := new FrameReader(stream, payloadLen);
      var status := DecodePayload(kind, frame, workspace, host.refuseDecodePlan, host.refusal, p);
      if status.Bad? { return DecodeFailed(status.error); }
      r := Decoded(workspace.Views());
    }

    // ----- Uploads -----

    /** Decodes, validates, stages and commits one upload frame; nothing is loaded
        before all of it succeeded, and a refusal names its cause. */
    method StageUpload(stream: Stream, payloadLen: nat, host: Host) returns (r: StageResult)
      requires Valid() && payloadLen < TWO64
      modifies this`prepareWs, prepareWs, stream, uploadWs, uploadWs.arena
      ensures prepareWs.Valid() && (fresh(prepareWs) || prepareWs == old(prepareWs))
      ensures uploadWs.arena == old(uploadWs.arena) || fresh(uploadWs.arena)
      ensures r.Staged? ==>
                && payloadLen <= |old(stream.input)| && stream.input == old(stream.input)[payloadLen..]
                && UploadIs(old(stream.input)[..payloadLen], p, r.views) && r.views != [] && 60 * |r.views| < TWO64
                && ServableUpTo(r.views, |r.views|) && HandlesOf(r.handles, r.views, engineId, nextMatrixId)
      ensures r.Refused? ==> UploadCause(old(stream.input), payloadLen, r.code, r.fate, p, host)
    {
      hide ParseMessage, AcceptableUpload, UploadCause;
      ghost var input := stream.input;
      var message := ReadMessage(UploadKind, stream, payloadLen, uploadWs, host);
      if message.DecodeFailed? {
        DecodeCauses(UploadKind, input, payloadLen, message.error, p, host);
        return Refused(CodecCode(message.error), Abnormal(TransportError(message.error)));
      }
      DecodedUploads(input[..payloadLen], p);
      var views := UploadsOf(message.parts);
      var check := ValidateUploadViews(views);
      if check.UploadInvalid? {
        InvalidCauses(input, payloadLen, views, check.failure, p, host);
        return Refused(FailureCode(check.failure), Clean);
      }
      ValidatedAccepts(views);
      var prepared := StagedUpload(engineId, nextMatrixId, views, prepareWs, host.refuseSlotAt);
      prepareWs := new PrepareWorkspace();
      if prepared.PrepareFailed? {
        var failure := prepared.failure;
        var fate := if failure.SlotCapacity? then Clean else Abnormal(UploadError(failure));
        SlotCauses(input, payloadLen, views, p, host);
        return Refused(Codes.UploadFailed, fate);
      }
      r := Staged(views, prepared.handles);
    }

    /** Assigns the identifiers `1 ..= n` in upload order and acknowledges them;
        the set is loaded even when the acknowledgment cannot be built. */
    method LoadAndReply(sink: Sink, handles: seq<PreparedMatrix>, views: seq<UploadRef>, host: Host)
      returns (o: Outcome, ghost reply: seq<Byte>)
      requires p > 0 && prepareWs.Valid() && views != [] && 60 * |views| < TWO64
      requires ServableUpTo(views, |views|) && HandlesOf(handles, views, engineId, nextMatrixId)
      modifies this`phase, this`nextMatrixId, this`uploads, this`firstId, sink
      ensures Valid() && phase.Loaded? && uploads == views && sink.output == old(sink.output) + reply
      ensures host.refuseAck ==>
                IsErrorReply(reply, CodecCode(AllocationFailed)) && o == Close(Abnormal(TransportError(AllocationFailed)))
      ensures !host.refuseAck ==> o == Continue && reply == FrameBytes(UploadAccepted, EncodeIds(OneTo(|views|)))
    {
      hide FrameBytes, EncodeIds, IsErrorReply;
      var matrices: map<nat, StoredMatrix> := map[];
      var index := 0;
      while index < |handles|
        invariant 0 <= index <= |handles|
        invariant forall id :: id in matrices <==> 1 <= id <= index
        invariant forall id | 1 <= id <= index :: matrices[id] == StoredAt(engineId, nextMatrixId, views, id)
      {
        var info := MatrixInfo(views[index].matrix.instanceId, views[index].matrix.columns);
        matrices := matrices[index + 1 := StoredMatrix(info, handles[index])];
        index := index + 1;
      }
      phase := Loaded(matrices);
      uploads, firstId := views, nextMatrixId;
      nextMatrixId := nextMatrixId + |handles|;
      if host.refuseAck {
        reply := SendError(sink, CodecCode(AllocationFailed), host);
        o := Close(Abnormal(TransportError(AllocationFailed)));
        return;
      }
      var written := sink.WriteUploadAccepted(OneTo(|handles|));
      reply := FrameBytes(UploadAccepted, EncodeIds(OneTo(|views|)));
      o := Continue;
    }

    /** The one permitted upload. */
    method HandleUpload(stream: Stream, sink: Sink, payloadLen: nat, host: Host) returns (o: Outcome, ghost reply: seq<Byte>)
      requires Valid() && payloadLen < TWO64 && phase.EmptyPhase?
      modifies this, Buffers(), stream, sink
      ensures Valid() && fresh(Buffers() - old(Buffers())) && sink.output == old(sink.output) + reply
      ensures UploadHandled(Handled(UploadMatrices, old(stream.input), payloadLen, stream.input, old(phase), phase, reply, o,
                                    uploads, firstId), p, engineId, host)
    {
      hide ParseMessage, FrameBytes, EncodeIds, LoadedSet, UploadIs, UploadCause, IsErrorReply, UploadHandled, ServableUpTo, HandlesOf;
      ghost var input, before := stream.input, phase;
      var staged := StageUpload(stream, payloadLen, host);
      if staged.Refused? {
        reply := SendError(sink, staged.code, host);
        o := Close(staged.fate);
        ghost var h := Handled(UploadMatrices, input, payloadLen, stream.input, before, phase, reply, o, uploads, firstId);
        CauseHandles(h, staged.code, staged.fate, p, engineId, host);
        return;
      }
      o, reply := LoadAndReply(sink, staged.handles, staged.views, host);
      LoadHandles(Handled(UploadMatrices, input, payloadLen, stream.input, before, phase, reply, o, uploads, firstId), p, engineId, host);
    }

    // ----- Evaluations -----

    /** One evaluation request: decoded, validated in full, and only then planned,
        executed and answered in request order. */
    method HandleEvaluate(stream: Stream, sink: Sink, payloadLen: nat, host: Host) returns (o: Outcome, ghost reply: seq<Byte>)
      requires Valid() && payloadLen < TWO64 && host.Fair(p) && phase.Loaded?
      modifies Buffers(), stream, sink
      ensures Valid() && fresh(Buffers() - old(Buffers())) && prepareWs == old(prepareWs)
      ensures sink.output == old(sink.output) + reply
      ensures EvaluateHandled(Handled(Evaluate, old(stream.input), payloadLen, stream.input, phase, phase, reply, o, uploads, firstId),
                              p, host)
    {
      hide ParseMessage, LoadedSet, EntriesFitUpTo, Replied, BlamesSomeEntry, IsErrorReply, EvaluateHandled, ValidRequest, RequestIs,
           RequestOf, AnswerOutcome, CodecCode, FailureCode, EvaluateShaped;
      ghost var input := stream.input;
      ghost var payload := if payloadLen <= |stream.input| then stream.input[..payloadLen] else [];
      var message := ReadMessage(EvaluateKind, stream, payloadLen, evaluateWs, host);
      if message.DecodeFailed? {
        reply := SendError(sink, CodecCode(message.error), host);
        o := Close(Abnormal(TransportError(message.error)));
        ghost var h := Handled(Evaluate, input, payloadLen, stream.input, phase, phase, reply, o, uploads, firstId);
        DecodeHandles(h, message.error, p, host);
        return;
      }
      DecodedIsRequest(payload, p);
      var entries := EntriesOf(message.parts);
      var checked := PrepareEvaluate(phase.matrices, entries);
      if checked.EvaluateInvalid? {
        reply := SendError(sink, FailureCode(checked.failure), host);
        o := Continue;
        RejectedInBand(phase.matrices, entries, checked.failure, reply, p);
      } else {
        PrevalidationIsComplete(phase.matrices, engineId, firstId, uploads, entries);
        ValidRequestIs(phase.matrices, entries);
        o, reply := AnswerRequest(sink, entries, checked.entries, checked.queryRefs, host);
      }
      ghost var h := Handled(Evaluate, input, payloadLen, stream.input, phase, phase, reply, o, uploads, firstId);
      RequestHandles(h, entries, p, host);
    }

    /** Plans, reserves, executes and replies; every failure here ends the
        session, for one of three causes. */
    method AnswerRequest(sink: Sink, entries: seq<EvaluateEntry>, evaluated: seq<EvaluatedEntry>,
                         queryRefs: seq<EncryptedQuery>, host: Host) returns (o: Outcome, ghost reply: seq<Byte>)
      requires Valid() && phase.Loaded? && host.Fair(p) && ValidRequest(phase.matrices, entries)
      requires queryRefs == AllQueries(entries, |entries|) && |evaluated| == |entries|
      requires forall i | 0 <= i < |entries| :: evaluated[i] == EntryRecord(entries, i)
      modifies engineWs, engineWs.arena, sink
      ensures engineWs.arena == old(engineWs.arena) || fresh(engineWs.arena)
      ensures sink.output == old(sink.output) + reply
      ensures AnswerOutcome(phase.matrices, entries, o, reply, p, host)
    {
      hide AnswerWords, EntryAcceptable, PlansTo, EntriesFitUpTo, LoadedSet, Offset, WellPlanned, Finishes, AllQueries,
           FrameBytes, ServedProducts, RangeEnd, ServedEntry, IsErrorReply, AcceptedUpTo, PlannedUpTo, Engine.Explains, ProductsReply,
           ProductsLength;
      PrevalidationIsComplete(phase.matrices, engineId, firstId, uploads, entries);
      var jobs := BindJobs(entries, evaluated, queryRefs);
      var planned := PlanJobs(engineId, jobs, host.tier);
      if planned.PlanRejected? {
        OnlyOverflowIsLeft(engineId, jobs, planned.error);
        reply := SendError(sink, Codes.GpuFailure, host);
        o := Close(Abnormal(EngineFailure(planned.error)));
        return;
      }
      var plan := planned.plan;
      PlannedIsWellPlanned(engineId, jobs, plan);
      var reserved := engineWs.Reserve(plan, host.refuseEngineArena);
      if reserved.ExecuteFailed? {
        reply := SendError(sink, Codes.GpuFailure, host);
        o := Close(Abnormal(EngineFailure(reserved.error)));
        return;
      }
      var executed := engineWs.Execute(plan, host.schedule(plan), p);
      if executed.ExecuteFailed? { assert false; }
      o, reply := SendProducts(sink, entries, jobs, evaluated, plan);
    }

    /** Pairs every entry with its stored matrix and its own slice of the refs. */
    method BindJobs(ghost entries: seq<EvaluateEntry>, evaluated: seq<EvaluatedEntry>, queryRefs: seq<EncryptedQuery>)
      returns (jobs: seq<AnswerJob>)
      requires phase.Loaded? && queryRefs == AllQueries(entries, |entries|) && |evaluated| == |entries|
      requires forall i | 0 <= i < |entries| :: evaluated[i] == EntryRecord(entries, i) && entries[i].matrixId in phase.matrices
      ensures jobs == JobsOf(phase.matrices, entries)
    {
      hide AllQueries;
      jobs := [];
      var i := 0;
      while i < |evaluated|
        invariant 0 <= i <= |evaluated| && jobs == JobsOf(phase.matrices, entries)[..i]
      {
        RangesTileQueries(entries, i);
        var record := evaluated[i];
        jobs := jobs + [AnswerJob(phase.matrices[record.matrixId].prepared, queryRefs[record.queries.start..record.queries.end])];
        i := i + 1;
      }
    }

    /** Materializes the answers in entry order and writes one products frame. */
    method SendProducts(sink: Sink, ghost entries: seq<EvaluateEntry>, ghost jobs: seq<AnswerJob>,
                        evaluated: seq<EvaluatedEntry>, plan: EnginePlan) returns (o: Outcome, ghost reply: seq<Byte>)
      requires p > 0 && phase.Loaded? && ValidRequest(phase.matrices, entries)
      requires |jobs| == |entries| == |evaluated| && jobs == JobsOf(phase.matrices, entries)
      requires forall i | 0 <= i < |entries| :: entries[i].queries != [] && evaluated[i].matrixId == entries[i].matrixId
      requires PlannedUpTo(plan.entries, jobs, |jobs|) && WellPlanned(plan)
      requires forall e | 0 <= e < |plan.entries| :: RangeHolds(engineWs.arena[..], plan.entries[e], p)
      modifies sink
      ensures sink.output == old(sink.output) + reply
      ensures o.Continue? ==> reply == ProductsReply(phase.matrices, entries, p)
      ensures o.Close? ==> o.fate == Abnormal(TransportError(CodecError.DimensionOverflow))
      ensures o.Close? ==> reply == if ProductsLength(phase.matrices, entries, p) < TWO64 then ProductsReply(phase.matrices, entries, p) else []
      ensures o.Continue? <==> ProductsLength(phase.matrices, entries, p) + HEADER_BYTES < TWO64
    {
      hide EntryAnswers, ServedEntry, RangeEnd, EntryWell, FrameBytes, Encode, PayloadBytes, ShapedAnswers, NaturalProduct, EntriesFitUpTo;
      ServedAreNatural(entries, jobs, p);
      var products := BuildProducts(engineWs.arena[..], entries, jobs, evaluated, plan, p);
      reply := if PayloadBytes(ProductsKind, ProductParts(products)) >= TWO64 then []
               else FrameBytes(Products, Encode(ProductsKind, ProductParts(products)));
      var written := sink.WriteProducts(products);
      if written.WriteFailed? { o := Close(Abnormal(TransportError(written.error))); } else { o := Continue; }
    }

    // ----- Frames and connections -----

    /** Handles one frame and reports everything it did. */
    method HandleFrame(stream: Stream, sink: Sink, kind: FrameKind, payloadLen: nat, host: Host)
      returns (o: Outcome, ghost h: Handled)
      requires Valid() && payloadLen < TWO64 && host.Fair(p)
      modifies this, Buffers(), stream, sink
      ensures Valid() && fresh(Buffers() - old(Buffers()))
      ensures h == Handled(kind, old(stream.input), payloadLen, stream.input, old(phase), phase, h.reply, o, uploads, firstId)
      ensures sink.output == old(sink.output) + h.reply
      ensures FrameHandled(h, p, engineId, host)
    {
      hide LoadedSet, UploadHandled, EvaluateHandled, IsErrorReply;
      ghost var input, before := stream.input, phase;
      ghost var reply;
      match kind {
        case UploadMatrices =>
          if phase.Loaded? {
            reply := SendError(sink, Codes.AlreadyLoaded, host);
            o := Close(Clean);
          } else {
            o, reply := HandleUpload(stream, sink, payloadLen, host);
          }
        case Evaluate =>
          if phase.EmptyPhase? {
            reply := SendError(sink, Codes.NotLoaded, host);
            o := Close(Clean);
          } else {
            o, reply := HandleEvaluate(stream, sink, payloadLen, host);
          }
        case _ =>
          reply := SendError(sink, Codes.UnexpectedFrame, host);
          o := Close(Abnormal(TransportError(UnexpectedFrame(ToByte(kind)))));
      }
      h := Handled(kind, input, payloadLen, stream.input, before, phase, reply, o, uploads, firstId);
    }

    /** Handles the frame whose header was just read, as the next event. */
    method HandleNext(stream: Stream, sink: Sink, kind: FrameKind, payloadLen: nat, hosts: nat -> Host, frames: nat,
                      ghost input: seq<Byte>, ghost at: nat, ghost trace: seq<Event>) returns (o: Outcome, ghost event: Event)
      requires Valid() && payloadLen < TWO64 && hosts(frames).Fair(p) && frames == |trace|
      requires at + HEADER_BYTES <= |input| && stream.input == input[at..][HEADER_BYTES..]
      requires FromByte(input[at..][0]) == Some(kind) && FromLE(input[at..][1..HEADER_BYTES]) == payloadLen
      requires Served(trace, input, p, engineId, hosts) && (trace != [] ==> trace[|trace| - 1].handled.outcome.Continue?)
      requires phase == PhaseAfter(trace) && at == PositionAfter(trace)
      modifies this, Buffers(), stream, sink
      ensures Valid() && fresh(Buffers() - old(Buffers()))
      ensures Served(trace + [event], input, p, engineId, hosts) && event.handled.outcome == o
      ensures phase == PhaseAfter(trace + [event]) && PositionAfter(trace + [event]) == at + HEADER_BYTES + payloadLen
      ensures Replies(trace + [event]) == Replies(trace) + event.handled.reply
      ensures sink.output == old(sink.output) + event.handled.reply
      ensures o.Continue? ==>
                at + HEADER_BYTES + payloadLen <= |input| && stream.input == input[at + HEADER_BYTES + payloadLen..]
    {
      hide LoadedSet, FrameHandled, Served, FromLE, PhaseAfter, PositionAfter, Replies;
      ghost var h;
      o, h := HandleFrame(stream, sink, kind, payloadLen, hosts(frames));
      event := Event(at, h);
      HeaderIsEvent(event, input);
      FollowsLast(event, trace);
      ServeOneMore(trace, event, input, p, engineId, hosts);
      FrameIsSafe(h, p, engineId, hosts(frames));
    }

    /** One turn of the connection loop: the next header, and its frame if there
        is one. */
    method ServeNext(stream: Stream, sink: Sink, hosts: nat -> Host, frames: nat,
                     ghost input: seq<Byte>, ghost at: nat, ghost trace: seq<Event>)
      returns (o: Outcome, ghost served: seq<Event>, ghost tail: seq<Byte>)
      requires Valid() && hosts(frames).Fair(p) && frames == |trace| && at <= |input| && stream.input == input[at..]
      requires Served(trace, input, p, engineId, hosts) && (trace != [] ==> trace[|trace| - 1].handled.outcome.Continue?)
      requires phase == PhaseAfter(trace) && at == PositionAfter(trace)
      modifies this, Buffers(), stream, sink
      ensures Valid() && fresh(Buffers() - old(Buffers())) && phase == PhaseAfter(served)
      ensures Served(served, input, p, engineId, hosts)
      ensures exists sent :: sink.output == old(sink.output) + sent && Replies(served) + tail == Replies(trace) + sent
      ensures o.Close? ==> Ended(served, input, o.fate, tail)
      ensures o.Continue? ==>
                && tail == [] && |served| == |trace| + 1 && served[|trace|].handled.outcome.Continue?
                && at < PositionAfter(served) <= |input| && stream.input == input[PositionAfter(served)..]
    {
      hide Served, FromLE, PhaseAfter, PositionAfter, Replies, IsErrorReply, Host.Fair, Ended, LoadedSet, CodecCode;
      served, tail := trace, [];
      ghost var before := sink.output;
      var header := stream.ReadHeader();
      match header {
        case EndOfStream =>
          InputEnds(trace, input);
          assert sink.output == before + [];
          o := Close(Clean);
        case BadHeader(error) =>
          if error.UnknownFrameKind? { tail := SendError(sink, CodecCode(error), hosts(frames)); }
          BadHeaderEnds(trace, input, error, tail);
          assert sink.output == before + tail;
          o := Close(Abnormal(TransportError(error)));
        case Header(kind, payloadLen) =>
          ghost var event;
          o, event := HandleNext(stream, sink, kind, payloadLen, hosts, frames, input, at, trace);
          served := trace + [event];
          assert Replies(served) + tail == Replies(trace) + event.handled.reply;
          if o.Close? { LastCloses(served, input); }
      }
    }

    /** Serves frames until the client disconnects, the input is no frame, or the
        session closes. `hosts` decides per frame. */
    method ServeConnection(stream: Stream, sink: Sink, hosts: nat -> Host)
      returns (fate: Fate, ghost trace: seq<Event>, ghost tail: seq<Byte>)
      requires Valid() && phase.EmptyPhase? && forall i :: hosts(i).Fair(p)
      modifies this, Buffers(), stream, sink
      ensures Served(trace, old(stream.input), p, engineId, hosts)
      ensures Ended(trace, old(stream.input), fate, tail)
      ensures sink.output == old(sink.output) + (Replies(trace) + tail)
      ensures phase == PhaseAfter(trace)
    {
      hide Served, PhaseAfter, PositionAfter, Replies, Host.Fair, Ended, LoadedSet;
      NothingServed(stream.input, p, engineId, hosts);
      ghost var input, before := stream.input, sink.output;
      trace, tail := [], [];
      var frames := 0;
      while true
        invariant Valid() && fresh(Buffers() - old(Buffers()))
        invariant PositionAfter(trace) <= |input| && stream.input == input[PositionAfter(trace)..] && phase == PhaseAfter(trace)
        invariant Served(trace, input, p, engineId, hosts) && frames == |trace| && tail == []
        invariant sink.output == before + (Replies(trace) + tail)
        invariant trace != [] ==> trace[|trace| - 1].handled.outcome.Continue?
        decreases |stream.input|
      {
        ghost var at, earlier := PositionAfter(trace), trace;
        ghost var soFar := sink.output;
        var o;
        o, trace, tail := ServeNext(stream, sink, hosts, frames, input, at, trace);
        SentSoFar(before, soFar, sink.output, Replies(earlier), Replies(trace) + tail);
        if o.Close? { return o.fate, trace, tail; }
        frames := frames + 1;
      }
    }
  }

  lemma SentSoFar(before: seq<Byte>, soFar: seq<Byte>, now: seq<Byte>, earlier: seq<Byte>, total: seq<Byte>)
    requires soFar == before + (earlier + []) && exists sent :: now == soFar + sent && total == earlier + sent
    ensures now == before + total
  {
    var sent :| now == soFar + sent && total == earlier + sent;
  }
}
