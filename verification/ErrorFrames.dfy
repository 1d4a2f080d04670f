/** Rejections on the wire: reading back what was written, and the guarantee that
    an error reply names its code and its text. */
module ErrorFrames {
  import opened Arithmetic
  import opened Bytes
  import Codes
  import opened Frame
  import opened Handling
  import opened Layout
  import opened Writer

  /** The number is not resolved: a newer server may send codes unknown here. */
  datatype ErrorResponse = ErrorResponse(code: nat, message: seq<Byte>) {
    function Code(): Option<Codes.ErrorCode> { Codes.FromU32(code) }
  }

  datatype ErrorOutcome = Response(response: ErrorResponse) | ErrorUnread(error: CodecError)

  /** What an error payload says. `isText` is the host's UTF-8 check. */
  function ParseError(payload: seq<Byte>, isText: seq<Byte> -> bool): ErrorOutcome {
    if |payload| < 12 then ErrorUnread(TruncatedFrame)
    else
      var length := FromLE(payload[4..12]);
      if length > |payload| - 12 then ErrorUnread(TruncatedFrame)
      else if !isText(payload[12..12 + length]) then ErrorUnread(InvalidUtf8)
      else if length < |payload| - 12 then ErrorUnread(TrailingFrameBytes(|payload| - 12 - length))
      else Response(ErrorResponse(FromLE(payload[..4]), payload[12..]))
  }

  /** A written rejection reads back as its code and its text. */
  lemma ErrorArrives(code: nat, text: Diagnostic, isText: seq<Byte> -> bool)
    requires code < TWO32 && isText(text)
    ensures ParseError(ErrorPayload(code, text), isText) == Response(ErrorResponse(code, text))
  {
    hide LE, FromLE;
    WordPower();
    EightBytes();
    LERoundTrip(4, code);
    LERoundTrip(8, |text|);
    var payload := ErrorPayload(code, text);
    assert payload[..4] == LE(4, code) && payload[4..12] == LE(8, |text|) && payload[12..] == text;
    assert payload[12..12 + |text|] == text;
  }

  /** An accepted rejection re-encodes to its own bytes. */
  lemma ErrorReturns(payload: seq<Byte>, isText: seq<Byte> -> bool)
    requires ParseError(payload, isText).Response? && |payload| < 0x8000_0000_0000_0000
    ensures var response := ParseError(payload, isText).response;
            response.code < TWO32 && isText(response.message) && ErrorPayload(response.code, response.message) == payload
  {
    hide LE, FromLE;
    WordPower();
    FromLEBound(payload[..4]);
    FromLERoundTrip(payload[..4]);
    FromLERoundTrip(payload[4..12]);
    assert payload == payload[..4] + payload[4..12] + payload[12..];
    assert payload[12..12 + FromLE(payload[4..12])] == payload[12..];
  }

  /** Two rejections with the same bytes are the same rejection. */
  lemma ErrorFramesDiffer(code1: nat, text1: Diagnostic, code2: nat, text2: Diagnostic)
    requires code1 < TWO32 && code2 < TWO32
    requires FrameBytes(ErrorFrame, ErrorPayload(code1, text1)) == FrameBytes(ErrorFrame, ErrorPayload(code2, text2))
    ensures code1 == code2 && text1 == text2
  {
    hide LE, FromLE, ErrorPayload;
    var payload1, payload2 := ErrorPayload(code1, text1), ErrorPayload(code2, text2);
    PayloadSize(code1, text1);
    PayloadSize(code2, text2);
    FrameArrives(ErrorFrame, payload1, []);
    FrameArrives(ErrorFrame, payload2, []);
    assert payload1 + [] == payload1 && payload2 + [] == payload2;
    ErrorArrives(code1, text1, text => true);
    ErrorArrives(code2, text2, text => true);
  }

  lemma PayloadSize(code: nat, text: Diagnostic)
    ensures |ErrorPayload(code, text)| == 12 + |text| < TWO64
  {
  }

  /** The reply of a refused frame names its code: no reply is an error reply of
      two codes. */
  lemma ReplyNamesItsCode(reply: seq<Byte>, code1: Codes.ErrorCode, code2: Codes.ErrorCode)
    requires IsErrorReply(reply, code1) && IsErrorReply(reply, code2)
    ensures code1 == code2
  {
    hide FrameBytes, ErrorPayload;
    var text1: Diagnostic :| reply == ErrorReply(code1, text1);
    var text2: Diagnostic :| reply == ErrorReply(code2, text2);
    ErrorFramesDiffer(Codes.ToU32(code1), text1, Codes.ToU32(code2), text2);
    Codes.CodeReadsBack(code1);
    Codes.CodeReadsBack(code2);
  }

  /** An error reply is never an acknowledgment or a products frame. */
  lemma ErrorsStandApart(reply: seq<Byte>, code: Codes.ErrorCode, kind: FrameKind, payload: seq<Byte>)
    requires IsErrorReply(reply, code) && kind != ErrorFrame
    ensures reply != FrameBytes(kind, payload)
  {
    hide LE, ErrorPayload;
    var text: Diagnostic :| reply == ErrorReply(code, text);
    assert reply[0] == ToByte(ErrorFrame);
  }

  // ----- Reading -----

  /** Reads the error payload and requires it to end the frame; `refused` stands
      for the allocator. */
  method ReadErrorPayload(frame: FrameReader, refused: bool, isText: seq<Byte> -> bool) returns (r: ErrorOutcome)
    modifies frame, frame.inner
    ensures old(frame.Whole()) ==> r == ParseError(old(frame.Payload()), isText) || (refused && r == ErrorUnread(AllocationFailed))
    ensures r.Response? ==> old(frame.Whole()) && frame.Advanced(old(frame.inner.input), old(frame.remaining), old(frame.remaining))
  {
    hide FromLE;
    ghost var input, before, whole := frame.inner.input, frame.remaining, frame.Whole();
    ghost var payload := if whole then input[..before] else [];
    var code := frame.ReadUint(4);
    if code.NoValue? { return ErrorUnread(TruncatedFrame); }
    var length := frame.ReadUint(8);
    if length.NoValue? { return ErrorUnread(TruncatedFrame); }
    if whole {
      assert payload[..4] == input[..4];
      assert payload[4..12] == input[4..][..8];
    }
    if length.v > frame.remaining { return ErrorUnread(TruncatedFrame); }
    if refused { return ErrorUnread(AllocationFailed); }
    var ok, text := frame.ReadExact(length.v);
    if !ok { return ErrorUnread(TruncatedFrame); }
    assert text == input[12..][..length.v] by { assert input[4..][8..] == input[12..]; }
    if whole { assert payload[12..12 + length.v] == text; }
    if !isText(text) { return ErrorUnread(InvalidUtf8); }
    var finished := frame.Finish();
    if finished.Bad? { return ErrorUnread(finished.error); }
    if whole { assert payload[12..] == text; }
    assert input[4..][8..][length.v..] == input[before..];
    r := Response(ErrorResponse(code.v, text));
  }
}
