/** The writers: exact payload lengths first, then one streaming pass. */
module Writer {
  import opened Acknowledgment
  import opened Arithmetic
  import opened Bytes
  import Codes
  import opened CodecLaws
  import opened Frame
  import opened Layout
  import opened Messages
  import opened ProtocolSpec
  import opened Upload

  datatype WriteResult = Written(total: nat) | WriteFailed(error: CodecError)

  /** A frame: kind byte, little-endian payload length, payload. */
  function FrameBytes(kind: FrameKind, payload: seq<Byte>): seq<Byte> { [ToByte(kind)] + LE(8, |payload|) + payload }

  function FrameKindOf(kind: Kind): FrameKind {
    match kind case UploadKind => UploadMatrices case EvaluateKind => Evaluate case ProductsKind => Products
  }

  /** Diagnostic text; no host string reaches half the address space. */
  type Diagnostic = text: seq<Byte> | |text| < 0x8000_0000_0000_0000 witness []

  function ErrorPayload(code: nat, text: Diagnostic): seq<Byte> { LE(4, code) + LE(8, |text|) + text }

  class Sink {
    var output: seq<Byte>

    constructor ()
      ensures output == []
    {
      output := [];
    }

    method WriteUint(w: nat, v: nat)
      modifies this
      ensures output == old(output) + LE(w, v)
    {
      output := output + LE(w, v);
    }

    method WriteHeader(kind: FrameKind, payloadLen: nat)
      modifies this
      ensures output == old(output) + [ToByte(kind)] + LE(8, payloadLen)
    {
      output := output + [ToByte(kind)];
      WriteUint(8, payloadLen);
    }

    method WriteRecord(widths: seq<Width>, record: seq<nat>)
      requires |record| == |widths|
      modifies this
      ensures output == old(output) + EncodeRecord(widths, record)
      decreases |widths|
    {
      hide LE;
      if widths == [] { return; }
      WriteUint(widths[0], record[0]);
      WriteRecord(widths[1..], record[1..]);
    }

    method WriteTable(widths: seq<Width>, rows: seq<seq<nat>>)
      requires forall i | 0 <= i < |rows| :: |rows[i]| == |widths|
      modifies this
      ensures output == old(output) + EncodeTable(widths, rows)
    {
      hide EncodeRecord;
      var i := 0;
      while i < |rows|
        invariant 0 <= i <= |rows|
        invariant old(output) + EncodeTable(widths, rows) == output + EncodeTable(widths, rows[i..])
      {
        assert rows[i..][0] == rows[i] && rows[i..][1..] == rows[i + 1..];
        ghost var rest := EncodeTable(widths, rows[i + 1..]);
        ghost var before := output;
        WriteRecord(widths, rows[i]);
        assert before + (EncodeRecord(widths, rows[i]) + rest) == output + rest;
        i := i + 1;
      }
      assert output + [] == output;
    }

    /** Chunk by chunk; the chunks leave no trace in the bytes. */
    method WriteFieldSlice(values: seq<nat>)
      modifies this
      ensures output == old(output) + EncodeFields(values)
    {
      hide EncodeFields;
      NoFields();
      var done := 0;
      while done < |values|
        invariant 0 <= done <= |values| && output == old(output) + EncodeFields(values[..done])
      {
        var take := Min(|values| - done, CHUNK_FIELDS);
        var chunk := values[done..done + take];
        assert values[..done + take] == values[..done] + chunk;
        EncodeFieldsConcat(values[..done], chunk);
        output := output + EncodeFields(chunk);
        done := done + take;
      }
      assert values[..done] == values;
    }

    /** Writes the value regions of the parts, one after the other. */
    method WriteValues(parts: seq<Part>)
      modifies this
      ensures output == old(output) + EncodeFields(Values(parts))
    {
      hide EncodeFields;
      var i := 0;
      while i < |parts|
        invariant 0 <= i <= |parts|
        invariant old(output) + EncodeFields(Values(parts)) == output + EncodeFields(Values(parts[i..]))
      {
        assert parts[i..][0] == parts[i] && parts[i..][1..] == parts[i + 1..];
        EncodeFieldsConcat(parts[i].values, Values(parts[i + 1..]));
        ghost var before, rest := output, EncodeFields(Values(parts[i + 1..]));
        WriteFieldSlice(parts[i].values);
        assert before + (EncodeFields(parts[i].values) + rest) == output + rest;
        i := i + 1;
      }
      NoFields();
      assert output + [] == output;
    }

    /** One message: nothing is written when its length does not fit the wire. */
    method WriteMessage(kind: Kind, parts: seq<Part>) returns (r: WriteResult)
      requires Writable(kind, parts)
      modifies this
      ensures r.Written? <==> PayloadBytes(kind, parts) + HEADER_BYTES < TWO64
      ensures r.Written? ==> r.total == PayloadBytes(kind, parts) + HEADER_BYTES
      ensures PayloadBytes(kind, parts) < TWO64 ==> output == old(output) + FrameBytes(FrameKindOf(kind), Encode(kind, parts))
      ensures PayloadBytes(kind, parts) >= TWO64 ==> output == old(output)
      ensures r.WriteFailed? ==> r.error == DimensionOverflow
    {
      hide EncodeRecord, EncodeTable, EncodeFields, Items, Values, LE, PayloadBytes, Summary;
      var payloadLen := PayloadBytes(kind, parts);
      if payloadLen >= TWO64 { return WriteFailed(DimensionOverflow); }
      EncodedLength(kind, parts);
      WritableItems(kind, parts);
      WriteHeader(FrameKindOf(kind), payloadLen);
      ghost var header := output;
      WriteRecord(SummaryWidths(kind), Summary(kind, parts));
      WriteTable(EntryWidths(kind), Records(parts));
      WriteTable(ItemWidths(kind), Items(parts));
      WriteValues(parts);
      Regroup(header, EncodeRecord(SummaryWidths(kind), Summary(kind, parts)), EncodeTable(EntryWidths(kind), Records(parts)),
              EncodeTable(ItemWidths(kind), Items(parts)), EncodeFields(Values(parts)));
      Regroup(old(output), [ToByte(FrameKindOf(kind))], LE(8, payloadLen), Encode(kind, parts), []);
      if payloadLen + HEADER_BYTES >= TWO64 { return WriteFailed(DimensionOverflow); }
      r := Written(payloadLen + HEADER_BYTES);
    }

    // ----- The typed writers -----

    method WriteUploadMatrices(uploads: seq<UploadRef>) returns (r: WriteResult)
      requires forall i | 0 <= i < |uploads| :: NaturalUpload(uploads[i])
      modifies this
      ensures Writable(UploadKind, UploadParts(uploads))
      ensures r.Written? ==> output == old(output) + FrameBytes(UploadMatrices, Encode(UploadKind, UploadParts(uploads)))
      ensures r.Written? <==> PayloadBytes(UploadKind, UploadParts(uploads)) + HEADER_BYTES < TWO64
    {
      r := WriteMessage(UploadKind, UploadParts(uploads));
    }

    /** Queries of one entry that disagree on their width are refused before any
        byte is written. */
    method WriteEvaluate(entries: seq<EvaluateEntry>) returns (r: WriteResult)
      requires forall i | 0 <= i < |entries| :: NaturalEntry(entries[i])
      modifies this
      ensures Writable(EvaluateKind, EvaluateParts(entries))
      ensures r.Written? <==>
                (forall i | 0 <= i < |entries| :: SameWidths(entries[i]))
                && PayloadBytes(EvaluateKind, EvaluateParts(entries)) + HEADER_BYTES < TWO64
      ensures r.Written? ==> output == old(output) + FrameBytes(Evaluate, Encode(EvaluateKind, EvaluateParts(entries)))
      ensures r.WriteFailed? && r.error.CountMismatch? ==> output == old(output)
    {
      var i := 0;
      while i < |entries|
        invariant 0 <= i <= |entries| && forall k | 0 <= k < i :: SameWidths(entries[k])
        invariant output == old(output)
      {
        var j := 0;
        while j < |entries[i].queries|
          invariant 0 <= j <= |entries[i].queries|
          invariant forall k | 0 <= k < j :: |entries[i].queries[k].values| == QueryWidth(entries[i])
          invariant output == old(output)
        {
          var length := |entries[i].queries[j].values|;
          if length != QueryWidth(entries[i]) { return WriteFailed(CountMismatch(QueryWidth(entries[i]), length)); }
          j := j + 1;
        }
        i := i + 1;
      }
      r := WriteMessage(EvaluateKind, EvaluateParts(entries));
    }

    /** An answer that contradicts its entry's shape is refused before any byte is
        written. */
    method WriteProducts(entries: seq<ProductEntry>) returns (r: WriteResult)
      requires forall i | 0 <= i < |entries| :: NaturalProduct(entries[i])
      modifies this
      ensures Writable(ProductsKind, ProductParts(entries))
      ensures r.Written? <==>
                (forall i | 0 <= i < |entries| :: ShapedAnswers(entries[i]))
                && PayloadBytes(ProductsKind, ProductParts(entries)) + HEADER_BYTES < TWO64
      ensures r.Written? ==> output == old(output) + FrameBytes(Products, Encode(ProductsKind, ProductParts(entries)))
      ensures r.WriteFailed? && r.error.CountMismatch? ==> output == old(output)
      ensures (forall i | 0 <= i < |entries| :: ShapedAnswers(entries[i])) ==>
                && (r.WriteFailed? ==> r.error == DimensionOverflow)
                && output == old(output) + if PayloadBytes(ProductsKind, ProductParts(entries)) >= TWO64 then []
                                           else FrameBytes(Products, Encode(ProductsKind, ProductParts(entries)))
    {
      var i := 0;
      while i < |entries|
        invariant 0 <= i <= |entries| && forall k | 0 <= k < i :: ShapedAnswers(entries[k])
        invariant output == old(output)
      {
        var words := entries[i].rows * entries[i].blocks;
        if words >= TWO64 { return WriteFailed(DimensionOverflow); }
        var j := 0;
        while j < |entries[i].answers|
          invariant 0 <= j <= |entries[i].answers|
          invariant forall k | 0 <= k < j :: |entries[i].answers[k].values| == words
          invariant output == old(output)
        {
          var length := |entries[i].answers[j].values|;
          if length != words { return WriteFailed(CountMismatch(words, length)); }
          j := j + 1;
        }
        i := i + 1;
      }
      r := WriteMessage(ProductsKind, ProductParts(entries));
    }

    method WriteUploadAccepted(identifiers: seq<nat>) returns (r: WriteResult)
      modifies this
      ensures r.Written? <==> 8 + 8 * |identifiers| + HEADER_BYTES < TWO64
      ensures r.Written? ==> output == old(output) + FrameBytes(UploadAccepted, EncodeIds(identifiers))
      ensures r.WriteFailed? ==> r.error == DimensionOverflow
    {
      hide EncodeTable, LE, IdTable;
      var payloadLen := 8 + 8 * |identifiers|;
      if payloadLen >= TWO64 { return WriteFailed(DimensionOverflow); }
      WriteHeader(UploadAccepted, payloadLen);
      ghost var header := output;
      WriteUint(8, |identifiers|);
      IdRows(identifiers);
      WriteTable([8], IdTable(identifiers));
      Regroup(header, LE(8, |identifiers|), EncodeTable([8], IdTable(identifiers)), [], []);
      Regroup(old(output), [ToByte(UploadAccepted)], LE(8, payloadLen), EncodeIds(identifiers), []);
      if payloadLen + HEADER_BYTES >= TWO64 { return WriteFailed(DimensionOverflow); }
      r := Written(payloadLen + HEADER_BYTES);
    }

    /** A rejection: its code and its diagnostic text. */
    method WriteError(code: Codes.ErrorCode, text: Diagnostic) returns (r: WriteResult)
      modifies this
      ensures r == Written(12 + |text| + HEADER_BYTES)
      ensures output == old(output) + FrameBytes(ErrorFrame, ErrorPayload(Codes.ToU32(code), text))
    {
      hide LE;
      WriteHeader(ErrorFrame, 12 + |text|);
      ghost var header := output;
      WriteUint(4, Codes.ToU32(code));
      WriteUint(8, |text|);
      output := output + text;
      Regroup(header, LE(4, Codes.ToU32(code)), LE(8, |text|), text, []);
      Regroup(old(output), [ToByte(ErrorFrame)], LE(8, 12 + |text|), ErrorPayload(Codes.ToU32(code), text), []);
      r := Written(12 + |text| + HEADER_BYTES);
    }
  }

  // ----- Frames -----

  /** A written frame is read back as its kind, its length and its payload, and
      leaves the stream at whatever follows. */
  lemma FrameArrives(kind: FrameKind, payload: seq<Byte>, rest: seq<Byte>)
    requires |payload| < TWO64
    ensures var input := FrameBytes(kind, payload) + rest;
            && |input| >= HEADER_BYTES && FromByte(input[0]) == Some(kind)
            && FromLE(input[1..HEADER_BYTES]) == |payload|
            && input[HEADER_BYTES..] == payload + rest
    ensures (payload + rest)[..|payload|] == payload && (payload + rest)[|payload|..] == rest
  {
    hide LE, FromLE;
    var length := LE(8, |payload|);
    var input := FrameBytes(kind, payload) + rest;
    assert input == [ToByte(kind)] + length + (payload + rest);
    assert input[1..HEADER_BYTES] == length;
    EightBytes();
    LERoundTrip(8, |payload|);
    KindRoundTrip(kind);
  }

  lemma KindRoundTrip(kind: FrameKind)
    ensures FromByte(ToByte(kind)) == Some(kind)
  {
  }

  lemma Regroup(a: seq<Byte>, b: seq<Byte>, c: seq<Byte>, d: seq<Byte>, e: seq<Byte>)
    ensures a + b + c + d + e == a + (b + c + d + e)
    ensures a + [] == a && b + c + d + [] == b + c + d && b + c + [] + [] == b + c
  {
  }

  lemma NoFields()
    ensures EncodeFields([]) == []
  {
  }

  function UploadParts(uploads: seq<UploadRef>): (parts: seq<Part>)
    requires forall i | 0 <= i < |uploads| :: NaturalUpload(uploads[i])
    ensures |parts| == |uploads| && Writable(UploadKind, parts)
  {
    seq(|uploads|, i requires 0 <= i < |uploads| => UploadPart(uploads[i]))
  }

  function EvaluateParts(entries: seq<EvaluateEntry>): (parts: seq<Part>)
    requires forall i | 0 <= i < |entries| :: NaturalEntry(entries[i])
    ensures |parts| == |entries| && Writable(EvaluateKind, parts)
  {
    seq(|entries|, i requires 0 <= i < |entries| => EvaluatePart(entries[i]))
  }

  function ProductParts(entries: seq<ProductEntry>): (parts: seq<Part>)
    requires forall i | 0 <= i < |entries| :: NaturalProduct(entries[i])
    ensures |parts| == |entries| && Writable(ProductsKind, parts)
  {
    seq(|entries|, i requires 0 <= i < |entries| => ProductPart(entries[i]))
  }

  ghost predicate SameWidths(e: EvaluateEntry) {
    forall j | 0 <= j < |e.queries| :: |e.queries[j].values| == QueryWidth(e)
  }

  ghost predicate ShapedAnswers(e: ProductEntry) {
    && e.rows * e.blocks < TWO64
    && forall j | 0 <= j < |e.answers| :: |e.answers[j].values| == e.rows * e.blocks
  }
}
