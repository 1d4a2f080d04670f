/** What the connection loop does with an upload frame, and with an upload frame
    followed by a request frame. */
module Conversation {
  import opened Acknowledgment
  import opened Arithmetic
  import opened Bytes
  import opened CodecLaws
  import opened Delivery
  import opened Engine
  import opened Frame
  import opened Handling
  import opened Layout
  import opened Messages
  import opened Requests
  import opened Upload
  import opened Writer

  /** A frame at a position of the input: its header, its payload, and where it
      ends. */
  lemma FrameInside(before: seq<Byte>, kind: FrameKind, payload: seq<Byte>, rest: seq<Byte>)
    requires |payload| < TWO64
    ensures var input, at := before + FrameBytes(kind, payload) + rest, |before|;
            && HeaderAt(input, at) && FromByte(input[at]) == Some(kind)
            && FromLE(input[at + 1..at + HEADER_BYTES]) == |payload|
            && input[at + HEADER_BYTES..] == payload + rest
            && at + HEADER_BYTES + |payload| + |rest| == |input|
  {
    hide FrameBytes, FromLE;
    FrameArrives(kind, payload, rest);
    var frame := FrameBytes(kind, payload) + rest;
    assert before + FrameBytes(kind, payload) + rest == before + frame;
    var input, at := before + frame, |before|;
    assert input[at..] == frame && input[at] == frame[0];
    assert input[at + 1..at + HEADER_BYTES] == frame[1..HEADER_BYTES];
    assert input[at + HEADER_BYTES..] == frame[HEADER_BYTES..];
  }

  /** The event handling a known frame sees that frame's payload. */
  lemma EventSees(event: Event, before: seq<Byte>, kind: FrameKind, payload: seq<Byte>, rest: seq<Byte>)
    requires |payload| < TWO64 && event.at == |before| && EventIn(event, before + FrameBytes(kind, payload) + rest)
    ensures var h := event.handled;
            h.kind == kind && h.payloadLen == |payload| && h.Whole() && h.Payload() == payload
  {
    hide FrameBytes, FromLE;
    FrameInside(before, kind, payload, rest);
    assert (payload + rest)[..|payload|] == payload;
  }

  /** The first frame is an acceptable upload: it is handled first, its set is
      loaded, and its acknowledgment is the first thing sent. */
  lemma FirstLoads(trace: seq<Event>, input: seq<Byte>, fate: Fate, tail: seq<Byte>, p: nat, engineId: nat, hosts: nat -> Host,
                   payload: seq<Byte>, uploads: seq<UploadRef>, rest: seq<Byte>)
    requires p > 0 && Served(trace, input, p, engineId, hosts) && Ended(trace, input, fate, tail)
    requires |payload| < TWO64 && input == FrameBytes(UploadMatrices, payload) + rest
    requires UploadIs(payload, p, uploads) && hosts(0).Generous(|uploads|)
    ensures |trace| >= 1
    ensures var h := trace[0].handled;
            && h.outcome == Continue && h.after.Loaded? && LoadedSet(h.after.matrices, engineId, h.firstId, uploads)
            && h.reply == FrameBytes(UploadAccepted, EncodeIds(OneTo(|uploads|)))
    ensures PositionAfter(trace[..1]) == |input| - |rest|
  {
    hide FrameBytes, UploadIs, UploadHandled, LoadedSet, EncodeIds, FromLE, FrameHandled, EventIn, Ended, Follows;
    assert [] + FrameBytes(UploadMatrices, payload) + rest == input;
    FrameInside([], UploadMatrices, payload, rest);
    assert trace[..0] == [];
    NoFrameIsSkipped(trace, input, fate, tail, p, engineId, hosts, 0);
    assert EventIn(trace[0], input) && FrameHandled(trace[0].handled, p, engineId, hosts(0)) && Follows(trace[0], trace[..0]);
    FirstLoad(trace[0], [], payload, rest, p, engineId, hosts(0), uploads);
    assert trace[..1] == [trace[0]];
  }

  lemma FirstLoad(event: Event, before: seq<Byte>, payload: seq<Byte>, rest: seq<Byte>, p: nat, engineId: nat, host: Host,
                  uploads: seq<UploadRef>)
    requires p > 0 && |payload| < TWO64 && EventIn(event, before + FrameBytes(UploadMatrices, payload) + rest)
    requires before == [] && Follows(event, []) && FrameHandled(event.handled, p, engineId, host)
    requires UploadIs(payload, p, uploads) && host.Generous(|uploads|)
    ensures var h := event.handled;
            && h.outcome == Continue && h.after.Loaded? && LoadedSet(h.after.matrices, engineId, h.firstId, uploads)
            && h.reply == FrameBytes(UploadAccepted, EncodeIds(OneTo(|uploads|))) && h.payloadLen == |payload| && event.at == 0
  {
    hide FrameBytes, UploadIs, UploadHandled, LoadedSet, EncodeIds, FromLE, EventIn;
    EventSees(event, before, UploadMatrices, payload, rest);
    LoadsWhenItCan(event.handled, p, engineId, host);
    UploadIsUnique(payload, p, uploads, event.handled.uploads);
  }

  lemma UploadIsUnique(payload: seq<Byte>, p: nat, first: seq<UploadRef>, second: seq<UploadRef>)
    requires UploadIs(payload, p, first) && UploadIs(payload, p, second)
    ensures first == second
  {
  }

  /** An upload frame alone: the connection ends cleanly once the client is done,
      and has sent exactly the acknowledgment. */
  lemma {:induction false} UploadAlone(trace: seq<Event>, input: seq<Byte>, fate: Fate, tail: seq<Byte>, p: nat, engineId: nat, hosts: nat -> Host,
                    payload: seq<Byte>, uploads: seq<UploadRef>)
    requires p > 0 && Served(trace, input, p, engineId, hosts) && Ended(trace, input, fate, tail)
    requires |payload| < TWO64 && input == FrameBytes(UploadMatrices, payload)
    requires UploadIs(payload, p, uploads) && hosts(0).Generous(|uploads|)
    ensures fate == Clean && Replies(trace) + tail == FrameBytes(UploadAccepted, EncodeIds(OneTo(|uploads|)))
  {
    hide FrameBytes, UploadIs, EncodeIds, LoadedSet, Served, Ended;
    assert input == FrameBytes(UploadMatrices, payload) + [];
    FirstLoads(trace, input, fate, tail, p, engineId, hosts, payload, uploads, []);
    NothingPastTheEnd(trace, input, fate, tail, p, engineId, hosts, 1);
    OneReply(trace);
  }

  lemma {:induction false} OneReply(trace: seq<Event>)
    requires |trace| == 1
    ensures Replies(trace) == trace[0].handled.reply
  {
    assert trace[..0] == [];
  }

  lemma {:induction false} TwoReplies(trace: seq<Event>)
    requires |trace| == 2
    ensures Replies(trace) == trace[0].handled.reply + trace[1].handled.reply
  {
    OneReply(trace[..1]);
  }

  /** A request the loaded set will answer, whichever handles it was given. */
  ghost predicate Answerable(payload: seq<Byte>, p: nat, engineId: nat, uploads: seq<UploadRef>, host: Host)
    requires p > 0
  {
    forall matrices, firstId | LoadedSet(matrices, engineId, firstId, uploads) :: WillAnswer(matrices, payload, p, host)
  }

  lemma SecondReplies(event: Event, earlier: seq<Event>, before: seq<Byte>, payload: seq<Byte>, p: nat, engineId: nat, host: Host,
                      uploads: seq<UploadRef>, firstId: nat)
    requires p > 0 && |payload| < TWO64 && EventIn(event, before + FrameBytes(Evaluate, payload) + []) && event.at == |before|
    requires Follows(event, earlier) && PhaseAfter(earlier).Loaded? && LoadedSet(PhaseAfter(earlier).matrices, engineId, firstId, uploads)
    requires FrameHandled(event.handled, p, engineId, host) && Answerable(payload, p, engineId, uploads, host)
    ensures var h := event.handled;
            && h.outcome == Continue && h.payloadLen == |payload| && RequestIs(payload, p)
            && h.before == PhaseAfter(earlier) && ValidRequest(h.before.matrices, RequestOf(payload, p))
            && h.reply == ProductsReply(h.before.matrices, RequestOf(payload, p), p)
  {
    hide FrameBytes, EvaluateHandled, LoadedSet, FromLE, EventIn, RequestIs, RequestOf, ValidRequest, ProductsReply, PhaseAfter;
    EventSees(event, before, Evaluate, payload, []);
    RepliesWhenItCan(event.handled, p, host);
  }

  /** An upload frame followed by a request frame: the connection ends cleanly,
      and has sent exactly the acknowledgment and then the products. */
  lemma {:induction false} UploadThenRequest(trace: seq<Event>, input: seq<Byte>, fate: Fate, tail: seq<Byte>, p: nat, engineId: nat, hosts: nat -> Host,
                          upload: seq<Byte>, uploads: seq<UploadRef>, request: seq<Byte>)
    requires p > 0 && Served(trace, input, p, engineId, hosts) && Ended(trace, input, fate, tail)
    requires |upload| < TWO64 && |request| < TWO64
    requires input == FrameBytes(UploadMatrices, upload) + FrameBytes(Evaluate, request)
    requires UploadIs(upload, p, uploads) && hosts(0).Generous(|uploads|)
    requires Answerable(request, p, engineId, uploads, hosts(1))
    ensures fate == Clean && |trace| == 2 && trace[0].handled.after.Loaded? && RequestIs(request, p)
    ensures var matrices := trace[0].handled.after.matrices;
            && LoadedSet(matrices, engineId, trace[0].handled.firstId, uploads) && ValidRequest(matrices, RequestOf(request, p))
            && Replies(trace) + tail == FrameBytes(UploadAccepted, EncodeIds(OneTo(|uploads|)))
                                        + ProductsReply(matrices, RequestOf(request, p), p)
  {
    hide FrameBytes, UploadIs, EncodeIds, LoadedSet, Ended, FromLE, FrameHandled, EventIn, RequestIs, RequestOf, ValidRequest, ProductsReply,
         Answerable, Replies;
    var head, body := FrameBytes(UploadMatrices, upload), FrameBytes(Evaluate, request);
    FirstLoads(trace, input, fate, tail, p, engineId, hosts, upload, uploads, body);
    assert input == head + body + [];
    FrameInside(head, Evaluate, request, []);
    NoFrameIsSkipped(trace, input, fate, tail, p, engineId, hosts, 1);
    assert EventIn(trace[1], input) && FrameHandled(trace[1].handled, p, engineId, hosts(1)) && Follows(trace[1], trace[..1]);
    assert trace[..1] == [trace[0]];
    SecondReplies(trace[1], trace[..1], head, request, p, engineId, hosts(1), uploads, trace[0].handled.firstId);
    assert trace[..2] == [trace[0], trace[1]];
    NothingPastTheEnd(trace, input, fate, tail, p, engineId, hosts, 2);
    TwoReplies(trace);
  }
}
