/** What the session says when it refuses: which code a bad request gets, that a
    rejected request costs the client nothing but the reply, and that the client
    reads back the code it was sent. */
module Rejections {
  import opened Acceptance
  import opened Acknowledgment
  import opened Arithmetic
  import opened Bytes
  import opened Client
  import Codes
  import opened CodecLaws
  import opened Conversation
  import opened Delivery
  import opened Engine
  import opened ErrorFrames
  import opened Frame
  import opened Handling
  import opened Layout
  import opened Messages
  import opened ParameterSets
  import opened ProtocolSpec
  import opened Requests
  import opened Upload
  import opened Writer

  // ----- The code of a rejected request -----

  /** Only one entry is the first bad one. */
  lemma FirstBadIsOne(matrices: map<nat, StoredMatrix>, entries: seq<EvaluateEntry>, i: nat, failure: RequestFailure)
    requires i < |entries| && EntriesFitUpTo(matrices, entries, i) && !EntryFits(matrices, entries, i)
    requires BlamesSomeEntry(matrices, entries, failure)
    ensures BlamesEntry(matrices, entries, i, failure)
  {
    hide BlamesEntry, EntryFits;
    var e: nat :| e < |entries| && EntriesFitUpTo(matrices, entries, e) && BlamesEntry(matrices, entries, e, failure);
    if e < i { BlamedDoesNotFit(matrices, entries, e, failure); }
  }

  lemma BlamedDoesNotFit(matrices: map<nat, StoredMatrix>, entries: seq<EvaluateEntry>, e: nat, failure: RequestFailure)
    requires e < |entries| && BlamesEntry(matrices, entries, e, failure)
    ensures !EntryFits(matrices, entries, e)
  {
    var entry := entries[e];
    if entry.matrixId in matrices && BlamesSomeQuery(matrices[entry.matrixId].info, entry.matrixId, entry.queries, failure) {
      var info := matrices[entry.matrixId].info;
      var j: nat :| j < |entry.queries| && (forall i: nat | i < j :: QueryFits(info, entry.queries, i))
                    && BlamesQuery(info, entry.matrixId, entry.queries, j, failure);
      assert !QueryFits(info, entry.queries, j);
    }
  }

  /** The reply to a bad request carries the code of the first check its first bad
      entry fails. */
  lemma RejectionCode(matrices: map<nat, StoredMatrix>, entries: seq<EvaluateEntry>, i: nat, reply: seq<Byte>, p: nat)
    requires p > 0 && Replied(matrices, entries, reply, p)
    requires i < |entries| && EntriesFitUpTo(matrices, entries, i) && !EntryFits(matrices, entries, i)
    ensures !ValidRequest(matrices, entries)
    ensures var entry := entries[i];
            if entry.matrixId !in matrices then IsErrorReply(reply, Codes.UnknownMatrixId)
            else if exists j :: 0 <= j < i && entries[j].matrixId == entry.matrixId then IsErrorReply(reply, Codes.DuplicateMatrixEntry)
            else if entry.queries == [] then IsErrorReply(reply, Codes.EmptyRequest)
            else exists failure :: BlamesSomeQuery(matrices[entry.matrixId].info, entry.matrixId, entry.queries, failure)
                                   && IsErrorReply(reply, FailureCode(failure))
  {
    hide IsErrorReply, EntryFits, BlamesSomeQuery, ProductsReply;
    assert !ValidRequest(matrices, entries) by { assert !EntriesFitUpTo(matrices, entries, |entries|); }
    var failure :| ((entries == [] && failure == EmptyRequest) || BlamesSomeEntry(matrices, entries, failure))
                   && IsErrorReply(reply, FailureCode(failure));
    FirstBadIsOne(matrices, entries, i, failure);
  }

  /** Within an entry, the first bad query decides, by its first failed check. */
  lemma QueryRejectionCode(info: MatrixInfo, matrixId: nat, queries: seq<EncryptedQuery>, j: nat, failure: RequestFailure, reply: seq<Byte>)
    requires j < |queries| && (forall i: nat | i < j :: QueryFits(info, queries, i)) && !QueryFits(info, queries, j)
    requires BlamesSomeQuery(info, matrixId, queries, failure) && IsErrorReply(reply, FailureCode(failure))
    ensures var query := queries[j];
            IsErrorReply(reply, if |query.values| != info.width then Codes.CountMismatch
                                else if query.instanceId != info.instanceId then Codes.InstanceMismatch
                                else Codes.DuplicateQueryId)
  {
    hide IsErrorReply;
    var e: nat :| e < |queries| && (forall i: nat | i < e :: QueryFits(info, queries, i))
                  && BlamesQuery(info, matrixId, queries, e, failure);
    assert !QueryFits(info, queries, e);
    assert e == j;
  }

  /** A request with no entries is an empty request too. */
  lemma NoEntriesCode(matrices: map<nat, StoredMatrix>, reply: seq<Byte>, p: nat)
    requires p > 0 && Replied(matrices, [], reply, p)
    ensures IsErrorReply(reply, Codes.EmptyRequest)
  {
    hide IsErrorReply;
  }

  /** A refused upload carries the code of the first check its first bad matrix
      fails. */
  lemma {:induction false} UploadRejectionCode(h: Handled, uploads: seq<UploadRef>, failure: RequestFailure, i: nat, p: nat)
    requires ValidationRefusal(h, uploads, failure, p)
    requires i < |uploads| && (forall j | 0 <= j < i :: FitsParameters(uploads[j])) && !FitsParameters(uploads[i])
    requires 4 * Upload.Words(uploads, i) < TWO64
    ensures h.outcome == Close(Clean) && h.after == h.before
    ensures IsErrorReply(h.reply, if !WellShaped(uploads[i].params) then Codes.InvalidParameters else Codes.CountMismatch)
  {
    hide IsErrorReply, UploadDecodes, WellShaped;
    var e :| 0 <= e < |uploads| && (forall j | 0 <= j < e :: FitsParameters(uploads[j])) && BlamesUpload(uploads, e, failure);
    if e < i { WordsGrow(uploads, e + 1, i); }
  }

  lemma NoMatricesCode(h: Handled, failure: RequestFailure, p: nat)
    requires ValidationRefusal(h, [], failure, p)
    ensures h.outcome == Close(Clean) && h.after == h.before && IsErrorReply(h.reply, Codes.EmptyRequest)
  {
    hide IsErrorReply, UploadDecodes;
  }

  /** The number each cause travels under. */
  lemma WireNumbers(codec: CodecError, failure: RequestFailure)
    ensures Codes.ToU32(CodecCode(codec)) == match codec
              case UnknownFrameKind(_) => 1 case TruncatedFrame => 2 case TrailingFrameBytes(_) => 3 case NonCanonicalField(_) => 4
              case CountMismatch(_, _) => 6 case DimensionOverflow => 7 case AllocationFailed => 8 case InvalidUtf8 => 9
              case InvalidDimensions => 10 case UnexpectedFrame(_) => 20
    ensures Codes.ToU32(FailureCode(failure)) == match failure
              case BadParameters(_) => 10 case SizeOverflow => 10 case ColumnsMismatch(_, _) => 6 case QueryWidthMismatch(_, _) => 6
              case WrongInstance(_, _) => 11 case UnknownMatrix(_) => 12 case DuplicateMatrix(_) => 13 case DuplicateQuery(_, _) => 14
              case EmptyRequest => 15
    ensures Codes.ToU32(Codes.NotLoaded) == 16 && Codes.ToU32(Codes.AlreadyLoaded) == 17 && Codes.ToU32(Codes.UploadFailed) == 18
    ensures Codes.ToU32(Codes.GpuFailure) == 19
  {
  }

  // ----- Payloads that do not decode -----

  /** A payload the codec refuses is reported by that refusal's code and closes the
      connection, whichever of the two requests it was. */
  lemma UndecodableCloses(h: Handled, error: CodecError, p: nat, engineId: nat, host: Host)
    requires p > 0 && FrameHandled(h, p, engineId, host) && host.Generous(0) && h.Whole()
    requires if h.kind == UploadMatrices then h.before.EmptyPhase? && ParseMessage(UploadKind, h.Payload(), p) == DecodeFailed(error)
             else h.kind == Evaluate && h.before.Loaded? && ParseMessage(EvaluateKind, h.Payload(), p) == DecodeFailed(error)
    ensures IsErrorReply(h.reply, CodecCode(error)) && h.outcome == Close(Abnormal(TransportError(error))) && h.after == h.before
  {
    hide ParseMessage, IsErrorReply, Replied, LoadedSet, AcceptableUpload, BlamesSet, TooManyWords, ArenaFits, WireFits, ValidRequest, CodecCode,
         RequestOf, JobsOf, ProductsLength, ProductsReply;
  }

  /** So a request cut short is answered with a truncation and one that runs on
      with trailing bytes. */
  lemma MisframedRequest(h: Handled, payload: seq<Byte>, n: nat, more: seq<Byte>, p: nat, engineId: nat, host: Host)
    requires p > 0 && FrameHandled(h, p, engineId, host) && host.Generous(0) && h.Whole() && h.kind == Evaluate && h.before.Loaded?
    requires |payload| + |more| < TWO64 && ParseMessage(EvaluateKind, payload, p).Decoded?
    ensures n < |payload| && h.Payload() == payload[..n] ==>
              IsErrorReply(h.reply, Codes.TruncatedFrame) && h.outcome == Close(Abnormal(TransportError(CodecError.TruncatedFrame)))
    ensures more != [] && h.Payload() == payload + more ==>
              IsErrorReply(h.reply, Codes.TrailingFrameBytes) && h.outcome == Close(Abnormal(TransportError(TrailingFrameBytes(|more|))))
  {
    hide ParseMessage, IsErrorReply, FrameHandled;
    if n < |payload| && h.Payload() == payload[..n] {
      CutIsTruncated(EvaluateKind, payload, n, p);
      UndecodableCloses(h, CodecError.TruncatedFrame, p, engineId, host);
    }
    if more != [] && h.Payload() == payload + more {
      MoreIsTrailing(EvaluateKind, payload, more, p);
      UndecodableCloses(h, TrailingFrameBytes(|more|), p, engineId, host);
    }
  }

  // ----- What becomes of a valid request -----

  lemma OverflowDoesNotFit(matrices: map<nat, StoredMatrix>, entries: seq<EvaluateEntry>, error: EngineError)
    requires ValidRequest(matrices, entries) && TooManyWords(JobsOf(matrices, entries), error)
    ensures !ArenaFits(matrices, entries)
  {
    hide EntriesFitUpTo, Offset;
    OffsetGrows(JobsOf(matrices, entries), error.entry + 1, |entries|);
  }

  /** When nothing is refused, a valid request is answered exactly when its answers
      fit the arena and the wire; otherwise the session ends, with an engine
      failure for the arena and an overflow for the wire. */
  lemma ValidRequestOutcome(h: Handled, p: nat, host: Host)
    requires p > 0 && h.before.Loaded? && EvaluateHandled(h, p, host) && host.Generous(0)
    requires h.Whole() && RequestIs(h.Payload(), p) && ValidRequest(h.before.matrices, RequestOf(h.Payload(), p))
    ensures h.after == h.before
    ensures var matrices, entries := h.before.matrices, RequestOf(h.Payload(), p);
            && (h.outcome.Continue? <==> ArenaFits(matrices, entries) && WireFits(matrices, entries, p))
            && (h.outcome.Continue? ==> h.reply == ProductsReply(matrices, entries, p) && h.rest == h.input[h.payloadLen..])
            && (!ArenaFits(matrices, entries) ==>
                  && IsErrorReply(h.reply, Codes.GpuFailure)
                  && h.outcome.Close? && h.outcome.fate.Abnormal? && h.outcome.fate.error.EngineFailure?)
            && (ArenaFits(matrices, entries) && !WireFits(matrices, entries, p) ==>
                  && h.outcome == Close(Abnormal(TransportError(CodecError.DimensionOverflow)))
                  && h.reply == if ProductsLength(matrices, entries, p) < TWO64 then ProductsReply(matrices, entries, p) else [])
  {
    hide ParseMessage, ValidRequest, RequestOf, RequestIs, IsErrorReply, JobsOf, TooManyWords, ProductsLength, ProductsReply, ArenaFits, WireFits,
         BlamesSomeEntry;
    DecodedRequest(h.Payload(), p);
    if error :| EngineRefusal(h, error, p, host) {
      if !error.Capacity? { OverflowDoesNotFit(h.before.matrices, RequestOf(h.Payload(), p), error); }
    }
  }

  // ----- A rejected request leaves the session as it was -----

  /** A request that decodes but is not valid is answered in band: the session
      stays, its payload is consumed exactly, and the next frame follows. */
  lemma RejectedInBandOnly(h: Handled, p: nat, host: Host)
    requires p > 0 && h.before.Loaded? && EvaluateHandled(h, p, host) && host.Generous(0)
    requires h.Whole() && RequestIs(h.Payload(), p) && !ValidRequest(h.before.matrices, RequestOf(h.Payload(), p))
    ensures h.outcome == Continue && h.after == h.before && h.rest == h.input[h.payloadLen..]
    ensures Replied(h.before.matrices, RequestOf(h.Payload(), p), h.reply, p)
  {
    hide ParseMessage, ValidRequest, RequestOf, IsErrorReply, JobsOf, Replied, TooManyWords, ProductsLength, ProductsReply;
    DecodedRequest(h.Payload(), p);
  }

  /** No loaded set makes the request valid. */
  ghost predicate NeverValid(request: seq<Byte>, p: nat, engineId: nat, uploads: seq<UploadRef>) {
    && RequestIs(request, p)
    && forall matrices, firstId | LoadedSet(matrices, engineId, firstId, uploads) :: !ValidRequest(matrices, RequestOf(request, p))
  }

  lemma NeverValidDecodes(request: seq<Byte>, p: nat, engineId: nat, uploads: seq<UploadRef>)
    requires NeverValid(request, p, engineId, uploads)
    ensures RequestIs(request, p)
  {
    hide RequestIs;
  }

  lemma EmptyEntryNeverValid(entries: seq<EvaluateEntry>, i: nat, request: seq<Byte>, p: nat, engineId: nat, uploads: seq<UploadRef>)
    requires RequestIs(request, p) && RequestOf(request, p) == entries && i < |entries| && entries[i].queries == []
    ensures NeverValid(request, p, engineId, uploads)
  {
    hide RequestIs, RequestOf, LoadedSet;
    forall matrices, firstId | LoadedSet(matrices, engineId, firstId, uploads) ensures !ValidRequest(matrices, RequestOf(request, p)) {
      assert !EntryFits(matrices, entries, i);
    }
  }

  /** An entry without queries travels the wire and is rejected in band: on a
      loaded session the frame is consumed exactly, the set stays, the session goes
      on, and when it is the first bad entry the reply says the request is empty. */
  lemma EmptyEntryInBand(h: Handled, entries: seq<EvaluateEntry>, i: nat, p: nat, host: Host)
    requires 0 < p <= TWO32 && h.before.Loaded? && EvaluateHandled(h, p, host) && host.Generous(0)
    requires h.Whole() && |h.Payload()| < TWO64 && EncodesRequest(entries, h.Payload(), p)
    requires i < |entries| && entries[i].queries == []
    ensures h.outcome == Continue && h.after == h.before && h.rest == h.input[h.payloadLen..]
    ensures EntriesFitUpTo(h.before.matrices, entries, i) && entries[i].matrixId in h.before.matrices
            && (forall j | 0 <= j < i :: entries[j].matrixId != entries[i].matrixId)
            ==> IsErrorReply(h.reply, Codes.EmptyRequest)
  {
    hide EncodesRequest, RequestIs, RequestOf, EvaluateHandled, Replied, IsErrorReply, BlamesSomeQuery;
    RequestAccepted(h.Payload(), p);
    assert !EntryFits(h.before.matrices, entries, i);
    assert !ValidRequest(h.before.matrices, entries);
    RejectedInBandOnly(h, p, host);
    if EntriesFitUpTo(h.before.matrices, entries, i) { RejectionCode(h.before.matrices, entries, i, h.reply, p); }
  }

  lemma SecondRejected(event: Event, earlier: seq<Event>, before: seq<Byte>, request: seq<Byte>, rest: seq<Byte>, p: nat, engineId: nat,
                       host: Host, uploads: seq<UploadRef>, firstId: nat)
    requires p > 0 && |request| < TWO64 && EventIn(event, before + FrameBytes(Evaluate, request) + rest) && event.at == |before|
    requires Follows(event, earlier) && PhaseAfter(earlier).Loaded? && LoadedSet(PhaseAfter(earlier).matrices, engineId, firstId, uploads)
    requires FrameHandled(event.handled, p, engineId, host) && host.Generous(0) && NeverValid(request, p, engineId, uploads)
    ensures var h := event.handled;
            && h.outcome == Continue && h.before == PhaseAfter(earlier) == h.after && h.payloadLen == |request|
            && Replied(h.before.matrices, RequestOf(request, p), h.reply, p)
  {
    hide FrameBytes, EvaluateHandled, LoadedSet, FromLE, EventIn, RequestIs, RequestOf, ValidRequest, Replied, PhaseAfter;
    EventSees(event, before, Evaluate, request, rest);
    RejectedInBandOnly(event.handled, p, host);
  }

  /** An upload and then a bad request: the rejection is sent after the
      acknowledgment, the set stays loaded, and whatever frame follows is handled
      next. */
  lemma {:induction false} RejectionIsSkipped(trace: seq<Event>, input: seq<Byte>, fate: Fate, tail: seq<Byte>, p: nat, engineId: nat,
                                              hosts: nat -> Host, upload: seq<Byte>, uploads: seq<UploadRef>, request: seq<Byte>, rest: seq<Byte>)
    requires p > 0 && Served(trace, input, p, engineId, hosts) && Ended(trace, input, fate, tail)
    requires |upload| < TWO64 && |request| < TWO64
    requires input == FrameBytes(UploadMatrices, upload) + FrameBytes(Evaluate, request) + rest
    requires UploadIs(upload, p, uploads) && hosts(0).Generous(|uploads|)
    requires hosts(1).Generous(0) && NeverValid(request, p, engineId, uploads)
    ensures |trace| >= 2 && trace[0].handled.after.Loaded? && trace[1].handled.outcome == Continue
    ensures LoadedSet(trace[0].handled.after.matrices, engineId, trace[0].handled.firstId, uploads)
    ensures trace[1].handled.after == trace[0].handled.after && RequestIs(request, p)
    ensures Replies(trace[..2]) == FrameBytes(UploadAccepted, EncodeIds(OneTo(|uploads|))) + trace[1].handled.reply
    ensures Replied(trace[0].handled.after.matrices, RequestOf(request, p), trace[1].handled.reply, p)
    ensures PositionAfter(trace[..2]) == |input| - |rest|
    ensures HeaderAt(input, |input| - |rest|) ==> |trace| >= 3
  {
    hide FrameBytes, UploadIs, EncodeIds, LoadedSet, Ended, FromLE, FrameHandled, EventIn, RequestIs, RequestOf, ValidRequest, Replied,
         NeverValid, Replies;
    var head, body := FrameBytes(UploadMatrices, upload), FrameBytes(Evaluate, request);
    assert input == head + (body + rest);
    FirstLoads(trace, input, fate, tail, p, engineId, hosts, upload, uploads, body + rest);
    FrameInside(head, Evaluate, request, rest);
    NoFrameIsSkipped(trace, input, fate, tail, p, engineId, hosts, 1);
    assert EventIn(trace[1], input) && FrameHandled(trace[1].handled, p, engineId, hosts(1)) && Follows(trace[1], trace[..1]);
    assert trace[..1] == [trace[0]];
    SecondRejected(trace[1], trace[..1], head, request, rest, p, engineId, hosts(1), uploads, trace[0].handled.firstId);
    assert RequestIs(request, p) by { NeverValidDecodes(request, p, engineId, uploads); }
    assert trace[..2] == [trace[0], trace[1]];
    TwoReplies(trace[..2]);
    if HeaderAt(input, |input| - |rest|) { NoFrameIsSkipped(trace, input, fate, tail, p, engineId, hosts, 2); }
  }

  lemma ThirdReplies(event: Event, earlier: seq<Event>, before: seq<Byte>, payload: seq<Byte>, p: nat, engineId: nat, host: Host,
                     uploads: seq<UploadRef>, firstId: nat)
    requires p > 0 && |payload| < TWO64 && EventIn(event, before + FrameBytes(Evaluate, payload) + []) && event.at == |before|
    requires Follows(event, earlier) && PhaseAfter(earlier).Loaded? && LoadedSet(PhaseAfter(earlier).matrices, engineId, firstId, uploads)
    requires FrameHandled(event.handled, p, engineId, host) && Conversation.Answerable(payload, p, engineId, uploads, host)
    ensures event.handled.outcome == Continue && event.handled.payloadLen == |payload| && RequestIs(payload, p)
    ensures ValidRequest(PhaseAfter(earlier).matrices, RequestOf(payload, p))
    ensures event.handled.reply == ProductsReply(PhaseAfter(earlier).matrices, RequestOf(payload, p), p)
  {
    hide FrameBytes, EvaluateHandled, LoadedSet, FromLE, EventIn, RequestIs, RequestOf, ValidRequest, ProductsReply, PhaseAfter;
    SecondReplies(event, earlier, before, payload, p, engineId, host, uploads, firstId);
  }

  /** An upload, a bad request, and a good one: the acknowledgment, one rejection,
      and then exactly the products the good request would have got anyway. */
  lemma {:induction false} RejectedThenServed(trace: seq<Event>, input: seq<Byte>, fate: Fate, tail: seq<Byte>, p: nat, engineId: nat,
                                              hosts: nat -> Host, upload: seq<Byte>, uploads: seq<UploadRef>, bad: seq<Byte>, good: seq<Byte>)
    requires p > 0 && Served(trace, input, p, engineId, hosts) && Ended(trace, input, fate, tail)
    requires |upload| < TWO64 && |bad| < TWO64 && |good| < TWO64
    requires input == FrameBytes(UploadMatrices, upload) + FrameBytes(Evaluate, bad) + FrameBytes(Evaluate, good)
    requires UploadIs(upload, p, uploads) && hosts(0).Generous(|uploads|)
    requires hosts(1).Generous(0) && NeverValid(bad, p, engineId, uploads)
    requires Conversation.Answerable(good, p, engineId, uploads, hosts(2))
    ensures fate == Clean && |trace| == 3 && trace[0].handled.after.Loaded? && RequestIs(bad, p) && RequestIs(good, p)
    ensures var matrices := trace[0].handled.after.matrices;
            && LoadedSet(matrices, engineId, trace[0].handled.firstId, uploads) && ValidRequest(matrices, RequestOf(good, p))
            && Replied(matrices, RequestOf(bad, p), trace[1].handled.reply, p)
            && Replies(trace) + tail == FrameBytes(UploadAccepted, EncodeIds(OneTo(|uploads|))) + trace[1].handled.reply
                                        + ProductsReply(matrices, RequestOf(good, p), p)
  {
    hide FrameBytes, UploadIs, EncodeIds, LoadedSet, Ended, FromLE, FrameHandled, EventIn, RequestIs, RequestOf, ValidRequest, Replied,
         NeverValid, Replies, ProductsReply, Conversation.Answerable;
    var before, last := FrameBytes(UploadMatrices, upload) + FrameBytes(Evaluate, bad), FrameBytes(Evaluate, good);
    FrameInside(before, Evaluate, good, []);
    assert input == before + last + [];
    RejectionIsSkipped(trace, input, fate, tail, p, engineId, hosts, upload, uploads, bad, last);
    assert EventIn(trace[2], input) && FrameHandled(trace[2].handled, p, engineId, hosts(2)) && Follows(trace[2], trace[..2]);
    ThirdReplies(trace[2], trace[..2], before, good, p, engineId, hosts(2), uploads, trace[0].handled.firstId);
    assert trace[..3] == trace[..2] + [trace[2]];
    NothingPastTheEnd(trace, input, fate, tail, p, engineId, hosts, 3);
    assert trace == trace[..3] && trace[..|trace| - 1] == trace[..2];
    LastReply(trace);
  }

  lemma {:induction false} LastReply(trace: seq<Event>)
    requires trace != []
    ensures Replies(trace) == Replies(trace[..|trace| - 1]) + trace[|trace| - 1].handled.reply
  {
  }

  // ----- Frames out of turn -----

  /** A frame that closes is the last one handled. */
  lemma ClosingIsLast(trace: seq<Event>, input: seq<Byte>, p: nat, engineId: nat, hosts: nat -> Host, n: nat)
    requires p > 0 && Served(trace, input, p, engineId, hosts) && n < |trace| && trace[n].handled.outcome.Close?
    ensures |trace| == n + 1
  {
    hide Served;
    if n + 1 < |trace| { ServedStep(trace, input, p, engineId, hosts, n + 1); }
  }

  lemma RefusedTooEarly(event: Event, request: seq<Byte>, rest: seq<Byte>, p: nat, engineId: nat, host: Host)
    requires p > 0 && |request| < TWO64 && EventIn(event, [] + FrameBytes(Evaluate, request) + rest)
    requires Follows(event, []) && FrameHandled(event.handled, p, engineId, host)
    ensures event.handled.outcome == Close(Clean) && IsErrorReply(event.handled.reply, Codes.NotLoaded)
  {
    hide FrameBytes, FromLE, EventIn, IsErrorReply;
    EventSees(event, [], Evaluate, request, rest);
  }

  /** A request before any upload: its payload is not even read, the reply says
      that nothing is loaded, and the connection ends. */
  lemma {:induction false} AskedTooEarly(trace: seq<Event>, input: seq<Byte>, fate: Fate, tail: seq<Byte>, p: nat, engineId: nat,
                                         hosts: nat -> Host, request: seq<Byte>, rest: seq<Byte>)
    requires p > 0 && Served(trace, input, p, engineId, hosts) && Ended(trace, input, fate, tail)
    requires |request| < TWO64 && input == FrameBytes(Evaluate, request) + rest
    ensures |trace| == 1 && fate == Clean && IsErrorReply(Replies(trace) + tail, Codes.NotLoaded)
  {
    hide FrameBytes, FromLE, EventIn, IsErrorReply, FrameHandled, Ended, Replies;
    assert [] + FrameBytes(Evaluate, request) + rest == input;
    FrameInside([], Evaluate, request, rest);
    assert trace[..0] == [];
    NoFrameIsSkipped(trace, input, fate, tail, p, engineId, hosts, 0);
    assert EventIn(trace[0], input) && FrameHandled(trace[0].handled, p, engineId, hosts(0)) && Follows(trace[0], trace[..0]);
    RefusedTooEarly(trace[0], request, rest, p, engineId, hosts(0));
    ClosingIsLast(trace, input, p, engineId, hosts, 0);
    ClosedEnd(trace, input, fate, tail);
    OneReply(trace);
    assert Replies(trace) + tail == trace[0].handled.reply;
  }

  lemma RefusedDirection(event: Event, kind: FrameKind, payload: seq<Byte>, rest: seq<Byte>, p: nat, engineId: nat, host: Host)
    requires p > 0 && |payload| < TWO64 && EventIn(event, [] + FrameBytes(kind, payload) + rest)
    requires kind != UploadMatrices && kind != Evaluate
    requires Follows(event, []) && FrameHandled(event.handled, p, engineId, host)
    ensures event.handled.outcome == Close(Abnormal(TransportError(UnexpectedFrame(ToByte(kind)))))
    ensures IsErrorReply(event.handled.reply, Codes.UnexpectedFrame)
  {
    hide FrameBytes, FromLE, EventIn, IsErrorReply;
    EventSees(event, [], kind, payload, rest);
  }

  /** A frame that only a server sends: refused unread, and the connection ends
      abnormally. */
  lemma {:induction false} WrongDirection(trace: seq<Event>, input: seq<Byte>, fate: Fate, tail: seq<Byte>, p: nat, engineId: nat,
                                          hosts: nat -> Host, kind: FrameKind, payload: seq<Byte>, rest: seq<Byte>)
    requires p > 0 && Served(trace, input, p, engineId, hosts) && Ended(trace, input, fate, tail)
    requires kind != UploadMatrices && kind != Evaluate && |payload| < TWO64 && input == FrameBytes(kind, payload) + rest
    ensures |trace| == 1 && fate == Abnormal(TransportError(UnexpectedFrame(ToByte(kind))))
    ensures IsErrorReply(Replies(trace) + tail, Codes.UnexpectedFrame)
  {
    hide FrameBytes, FromLE, EventIn, IsErrorReply, FrameHandled, Ended, Replies;
    assert [] + FrameBytes(kind, payload) + rest == input;
    FrameInside([], kind, payload, rest);
    assert trace[..0] == [];
    NoFrameIsSkipped(trace, input, fate, tail, p, engineId, hosts, 0);
    assert EventIn(trace[0], input) && FrameHandled(trace[0].handled, p, engineId, hosts(0)) && Follows(trace[0], trace[..0]);
    RefusedDirection(trace[0], kind, payload, rest, p, engineId, hosts(0));
    ClosingIsLast(trace, input, p, engineId, hosts, 0);
    ClosedEnd(trace, input, fate, tail);
    OneReply(trace);
    assert Replies(trace) + tail == trace[0].handled.reply;
  }

  /** A second upload: refused whatever it holds, and the connection ends. */
  lemma {:induction false} UploadedTwice(trace: seq<Event>, input: seq<Byte>, fate: Fate, tail: seq<Byte>, p: nat, engineId: nat,
                                         hosts: nat -> Host, upload: seq<Byte>, uploads: seq<UploadRef>, again: seq<Byte>, rest: seq<Byte>)
    requires p > 0 && Served(trace, input, p, engineId, hosts) && Ended(trace, input, fate, tail)
    requires |upload| < TWO64 && |again| < TWO64
    requires input == FrameBytes(UploadMatrices, upload) + FrameBytes(UploadMatrices, again) + rest
    requires UploadIs(upload, p, uploads) && hosts(0).Generous(|uploads|)
    ensures |trace| == 2 && fate == Clean && trace[1].handled.after == trace[0].handled.after
    ensures exists reply :: Replies(trace) + tail == FrameBytes(UploadAccepted, EncodeIds(OneTo(|uploads|))) + reply
                            && IsErrorReply(reply, Codes.AlreadyLoaded)
  {
    hide FrameBytes, UploadIs, EncodeIds, LoadedSet, Ended, FromLE, EventIn, IsErrorReply, Replies;
    var head, body := FrameBytes(UploadMatrices, upload), FrameBytes(UploadMatrices, again);
    assert input == head + (body + rest);
    FirstLoads(trace, input, fate, tail, p, engineId, hosts, upload, uploads, body + rest);
    FrameInside(head, UploadMatrices, again, rest);
    NoFrameIsSkipped(trace, input, fate, tail, p, engineId, hosts, 1);
    assert EventIn(trace[1], input) && FrameHandled(trace[1].handled, p, engineId, hosts(1)) && Follows(trace[1], trace[..1]);
    assert trace[..1] == [trace[0]];
    EventSees(trace[1], head, UploadMatrices, again, rest);
    ClosingIsLast(trace, input, p, engineId, hosts, 1);
    TwoReplies(trace);
    ClosedEnd(trace, input, fate, tail);
    assert Replies(trace) + tail == FrameBytes(UploadAccepted, EncodeIds(OneTo(|uploads|))) + trace[1].handled.reply;
  }

  lemma ClosedEnd(trace: seq<Event>, input: seq<Byte>, fate: Fate, tail: seq<Byte>)
    requires trace != [] && trace[|trace| - 1].handled.outcome.Close? && Ended(trace, input, fate, tail)
    ensures fate == trace[|trace| - 1].handled.outcome.fate && tail == []
  {
  }

  // ----- What the client makes of it -----

  /** A client that reads an error reply learns its code, whatever the text. */
  lemma ClientIsTold(reply: seq<Byte>, code: Codes.ErrorCode, isText: seq<Byte> -> bool)
    requires IsErrorReply(reply, code) && forall text: Diagnostic :: isText(text)
    ensures exists text :: Rejects(reply, isText, ErrorResponse(Codes.ToU32(code), text)) && Codes.FromU32(Codes.ToU32(code)) == Some(code)
    ensures forall response | Rejects(reply, isText, response) :: response.Code() == Some(code)
  {
    hide FromLE, ErrorPayload, ParseError;
    var text: Diagnostic :| reply == ErrorReply(code, text);
    var payload := ErrorPayload(Codes.ToU32(code), text);
    PayloadSize(Codes.ToU32(code), text);
    FrameArrives(ErrorFrame, payload, []);
    assert payload + [] == payload && reply + [] == reply;
    ErrorArrives(Codes.ToU32(code), text, isText);
    Codes.CodeReadsBack(code);
    assert PayloadAhead(reply, ErrorFrame) == payload;
    assert Rejects(reply, isText, ErrorResponse(Codes.ToU32(code), text));
  }
}
