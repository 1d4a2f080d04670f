/** Exactly which payloads the codec accepts, what becomes of one that is cut
    short or runs on, and where each field stands on the wire. */
module Acceptance {
  import opened Acknowledgment
  import opened Arithmetic
  import opened Bytes
  import Codes
  import opened CodecLaws
  import opened Delivery
  import opened Frame
  import opened Handling
  import opened Kernels
  import opened Layout
  import opened Messages
  import opened ParameterSets
  import opened ProtocolSpec
  import opened Upload
  import opened Writer

  // ----- Accepted payloads -----

  /** The payload is a sendable request's encoding. */
  ghost predicate EncodesRequest(entries: seq<EvaluateEntry>, payload: seq<Byte>, p: nat) {
    && EntriesSendable(entries, p) && (forall i | 0 <= i < |entries| :: NaturalEntry(entries[i]))
    && payload == Encode(EvaluateKind, EvaluateParts(entries))
  }

  lemma {:induction false} ChunkCanonical(values: seq<nat>, count: nat, width: nat, j: nat, p: nat)
    requires |values| == count * width && j < count && CanonicalWords(values, p)
    ensures Canonical(Chop(values, count, width)[j], p)
  {
    ChopAt(values, count, width, j);
  }

  lemma AcceptedQuery(part: Part, p: nat, j: nat)
    requires PartFits(EvaluateKind, part, p) && EvaluateShaped(part) && j < |part.items|
    ensures QuerySendable(EvaluateOf(part).queries[j], part.record[2], p)
  {
    hide RowOf, Chop;
    assert RecordFits(ItemWidths(EvaluateKind), part.items[j]);
    ChunkCanonical(part.values, part.record[1], part.record[2], j, p);
    WidthBounds();
  }

  lemma AcceptedEntry(part: Part, p: nat)
    requires PartFits(EvaluateKind, part, p) && EvaluateShaped(part)
    ensures EntrySendable(EvaluateOf(part), p)
  {
    hide RowOf, Chop, QuerySendable, TableFits, CanonicalWords;
    WidthBounds();
    var e := EvaluateOf(part);
    forall j | 0 <= j < |part.items| ensures QuerySendable(e.queries[j], part.record[2], p) { AcceptedQuery(part, p, j); }
    EvaluatePartOfView(part);
    assert EvaluatePart(e).record[2] == QueryWidth(e);
    assert RecordFits(EntryWidths(EvaluateKind), part.record);
  }

  /** The accepted request payloads are exactly the encodings of sendable requests:
      lists of entries that each hold no queries at all or queries of one positive
      width, all of it canonical. */
  lemma RequestAccepted(payload: seq<Byte>, p: nat)
    requires |payload| < TWO64 && p <= TWO32
    ensures ParseMessage(EvaluateKind, payload, p).Decoded? <==> exists entries :: EncodesRequest(entries, payload, p)
    ensures forall entries | EncodesRequest(entries, payload, p) :: RequestIs(payload, p) && RequestOf(payload, p) == entries
  {
    hide ParseMessage, Encode, PayloadBytes, EvaluatePart, EvaluateOf, NaturalEntry, EntrySendable, PartFits, EvaluateShaped;
    if ParseMessage(EvaluateKind, payload, p).Decoded? {
      RequestReturns(payload, p);
      EncodeInvertsParse(EvaluateKind, payload, p);
      var parts, entries := ParseMessage(EvaluateKind, payload, p).parts, RequestOf(payload, p);
      forall i | 0 <= i < |entries| ensures EntrySendable(entries[i], p) {
        assert PartFits(EvaluateKind, parts[i], p) && EvaluateShaped(parts[i]);
        AcceptedEntry(parts[i], p);
      }
      assert EncodesRequest(entries, payload, p);
    }
    forall entries | EncodesRequest(entries, payload, p) ensures RequestIs(payload, p) && RequestOf(payload, p) == entries {
      EncodedLength(EvaluateKind, EvaluateParts(entries));
      RequestArrives(entries, p);
    }
  }

  /** What the wire can carry of an uploaded matrix: its fields at their widths,
      positive dimensions, and exactly its canonical row-major values. */
  ghost predicate UploadCarried(u: UploadRef, p: nat) {
    && u.params.k < TWO64 && u.params.ell < TWO64 && u.params.b < TWO64 && u.params.lambda < TWO32
    && u.matrix.instanceId < Pow(256, 16) && 0 < u.matrix.rows < TWO64 && 0 < u.matrix.columns < TWO64
    && |u.matrix.values| == u.matrix.rows * u.matrix.columns && Canonical(u.matrix.values, p)
  }

  ghost predicate EncodesUpload(uploads: seq<UploadRef>, payload: seq<Byte>, p: nat) {
    && (forall i | 0 <= i < |uploads| :: NaturalUpload(uploads[i]) && UploadCarried(uploads[i], p))
    && payload == Encode(UploadKind, UploadParts(uploads))
  }

  lemma CarriedFits(u: UploadRef, p: nat)
    requires UploadCarried(u, p) && NaturalUpload(u) && |u.matrix.values| < TWO64
    ensures PartFits(UploadKind, UploadPart(u), p)
  {
    WidthBounds();
    var widths, record := EntryWidths(UploadKind), UploadPart(u).record;
    forall i | 0 <= i < 7 ensures record[i] < Pow(256, widths[i]) {}
  }

  lemma AcceptedIsCarried(part: Part, p: nat)
    requires PartFits(UploadKind, part, p)
    ensures |part.record| == 7 && UploadCarried(UploadOf(part), p)
  {
    WidthBounds();
    AcceptedUpload(part, p);
    var widths, record := EntryWidths(UploadKind), part.record;
    forall i | 0 <= i < 7 ensures record[i] < Pow(256, widths[i]) {}
  }

  /** The accepted upload payloads are exactly the encodings of carried matrices. */
  lemma UploadAccepted(payload: seq<Byte>, p: nat)
    requires |payload| < TWO64 && p <= TWO32
    ensures ParseMessage(UploadKind, payload, p).Decoded? <==> exists uploads :: EncodesUpload(uploads, payload, p)
    ensures forall uploads | EncodesUpload(uploads, payload, p) ::
              ParseMessage(UploadKind, payload, p) == Decoded(UploadParts(uploads)) && UploadsOf(UploadParts(uploads)) == uploads
  {
    hide ParseMessage, Encode, PayloadBytes, UploadPart, UploadOf, NaturalUpload, UploadCarried, PartFits;
    if ParseMessage(UploadKind, payload, p).Decoded? {
      UploadReturns(payload, p);
      EncodeInvertsParse(UploadKind, payload, p);
      var parts := ParseMessage(UploadKind, payload, p).parts;
      var uploads := UploadsOf(parts);
      forall i | 0 <= i < |uploads| ensures UploadCarried(uploads[i], p) {
        assert PartFits(UploadKind, parts[i], p);
        AcceptedIsCarried(parts[i], p);
      }
      assert EncodesUpload(uploads, payload, p);
    }
    forall uploads | EncodesUpload(uploads, payload, p)
      ensures ParseMessage(UploadKind, payload, p) == Decoded(UploadParts(uploads)) && UploadsOf(UploadParts(uploads)) == uploads
    {
      var parts := UploadParts(uploads);
      EncodedLength(UploadKind, parts);
      forall i | 0 <= i < |parts| ensures PartFits(UploadKind, parts[i], p) {
        OwnedFits(UploadKind, parts, i);
        UploadPartValues(uploads[i]);
        CarriedFits(uploads[i], p);
      }
      ParseInvertsEncode(UploadKind, parts, p);
      UploadViews(uploads);
    }
  }

  ghost predicate EncodesProducts(products: seq<ProductEntry>, payload: seq<Byte>, p: nat) {
    && (forall i | 0 <= i < |products| :: ProductSendable(products[i], p) && NaturalProduct(products[i]))
    && payload == Encode(ProductsKind, ProductParts(products))
  }

  lemma AcceptedProducts(part: Part, p: nat)
    requires PartFits(ProductsKind, part, p) && ProductShaped(part)
    ensures ProductSendable(Messages.ProductOf(part), p)
  {
    hide Chop, TableFits, CanonicalWords;
    WidthBounds();
    AcceptedProduct(part, p);
    ProductPartOfView(part);
    var e, widths := Messages.ProductOf(part), EntryWidths(ProductsKind);
    forall i | 0 <= i < 5 ensures part.record[i] < Pow(256, widths[i]) {}
    forall j | 0 <= j < |e.answers| ensures e.answers[j].queryId < TWO64 && Canonical(e.answers[j].values, p) {
      AcceptedAnswer(part, p, j);
    }
  }

  lemma AcceptedAnswer(part: Part, p: nat, j: nat)
    requires PartFits(ProductsKind, part, p) && ProductShaped(part) && j < |part.items|
    ensures var answer := Messages.ProductOf(part).answers[j]; answer.queryId < TWO64 && Canonical(answer.values, p)
  {
    hide RowOf, Chop;
    assert RecordFits(ItemWidths(ProductsKind), part.items[j]);
    ChunkCanonical(part.values, part.record[4], part.record[2] * part.record[3], j, p);
    WidthBounds();
  }

  /** The accepted products payloads are exactly the encodings of sendable
      products. */
  lemma ProductsAccepted(payload: seq<Byte>, p: nat)
    requires |payload| < TWO64 && p <= TWO32
    ensures ParseMessage(ProductsKind, payload, p).Decoded? <==> exists products :: EncodesProducts(products, payload, p)
  {
    hide ParseMessage, Encode, PayloadBytes, ProductPart, Messages.ProductOf, NaturalProduct, ProductSendable, PartFits, ProductShaped,
         PairedEntry;
    if ParseMessage(ProductsKind, payload, p).Decoded? {
      ReplyReturns(payload, p);
      EncodeInvertsParse(ProductsKind, payload, p);
      var parts := ParseMessage(ProductsKind, payload, p).parts;
      var products := ProductsOf(parts);
      forall i | 0 <= i < |products| ensures ProductSendable(products[i], p) {
        assert PartFits(ProductsKind, parts[i], p) && ProductShaped(parts[i]);
        AcceptedProducts(parts[i], p);
      }
      assert EncodesProducts(products, payload, p);
    }
    if products :| EncodesProducts(products, payload, p) {
      EncodedLength(ProductsKind, ProductParts(products));
      ReplyArrives(products, p);
    }
  }

  // ----- Cut short, or running on -----

  lemma PrefixRegion(payload: seq<Byte>, n: nat, from: nat, to: nat)
    requires from <= to <= n <= |payload|
    ensures payload[..n][from..to] == payload[from..to] && payload[..n][..to] == payload[..to]
  {
  }

  /** What planning sees of an accepted payload: counts that fit, entries that
      scan, and a region of exactly the declared size. */
  ghost predicate Sizes(kind: Kind, payload: seq<Byte>, count: nat, total: nat, fields: nat) {
    && |payload| == SummaryBytes(kind) + count * EntryBytes(kind) + total * ItemBytes(kind) + 4 * fields
    && count * EntryBytes(kind) >= 0 && total * ItemBytes(kind) >= 0
  }

  lemma AcceptedSizes(kind: Kind, payload: seq<Byte>, p: nat) returns (count: nat, total: nat, metas: seq<Meta>, fields: nat)
    requires |payload| < TWO64 && ParseMessage(kind, payload, p).Decoded?
    ensures RecordBytes(SummaryWidths(kind)) == SummaryBytes(kind) && RecordBytes(EntryWidths(kind)) == EntryBytes(kind)
    ensures Sizes(kind, payload, count, total, fields)
    ensures (count, total) == Counts(kind, payload)
    ensures Scan(kind, DecodeTable(EntryWidths(kind), count, payload[SummaryBytes(kind)..][..count * EntryBytes(kind)]), 0, 0)
            == Scanned(metas, total, fields)
  {
    hide Scan, DecodeTable, DecodeRecord;
    DescriptorSizes(kind);
    var plan := ParsePlan(kind, payload);
    SizesFit(kind, payload);
    count, total := Counts(kind, payload).0, Counts(kind, payload).1;
    metas, fields := plan.plan.metas, plan.plan.valueFields;
  }

  /** The summary of a payload that agrees on its first bytes reads the same. */
  lemma SameSummary(kind: Kind, payload: seq<Byte>, other: seq<Byte>)
    requires |payload| >= SummaryBytes(kind) && |other| >= SummaryBytes(kind)
    requires payload[..SummaryBytes(kind)] == other[..SummaryBytes(kind)]
    ensures ParsePlan(kind, other) == ParseTables(kind, Counts(kind, payload).0, Counts(kind, payload).1, other[SummaryBytes(kind)..])
  {
    hide DecodeRecord, ParseTables;
  }

  /** An accepted payload cut anywhere is refused as truncated. */
  lemma CutIsTruncated(kind: Kind, payload: seq<Byte>, n: nat, p: nat)
    requires |payload| < TWO64 && ParseMessage(kind, payload, p).Decoded? && n < |payload|
    ensures ParseMessage(kind, payload[..n], p) == DecodeFailed(TruncatedFrame)
  {
    hide Scan, DecodeTable, DecodeRecord, Counts, ParsePlan, ParseMessage;
    var count, total, metas, fields := AcceptedSizes(kind, payload, p);
    var s, cut := SummaryBytes(kind), payload[..n];
    if n < s {
      ShortIsTruncated(kind, cut, p);
    } else {
      var entries, items := count * EntryBytes(kind), total * ItemBytes(kind);
      PrefixRegion(payload, n, 0, s);
      SameSummary(kind, payload, cut);
      TablesCut(kind, count, total, fields, payload[s..], cut[s..], metas);
      PlanFailsMessage(kind, cut, TruncatedFrame, p);
    }
  }

  lemma ShortIsTruncated(kind: Kind, payload: seq<Byte>, p: nat)
    requires |payload| < SummaryBytes(kind)
    ensures ParseMessage(kind, payload, p) == DecodeFailed(TruncatedFrame)
  {
  }

  lemma PlanFailsMessage(kind: Kind, payload: seq<Byte>, error: CodecError, p: nat)
    requires ParsePlan(kind, payload) == PlanFailed(error)
    ensures ParseMessage(kind, payload, p) == DecodeFailed(error)
  {
    hide ParsePlan;
  }

  lemma {:induction false} TablesCut(kind: Kind, count: nat, total: nat, fields: nat, rest: seq<Byte>, cut: seq<Byte>, metas: seq<Meta>)
    requires RecordBytes(EntryWidths(kind)) == EntryBytes(kind)
    requires 0 <= count * EntryBytes(kind) && 0 <= total * ItemBytes(kind)
    requires |rest| == count * EntryBytes(kind) + total * ItemBytes(kind) + 4 * fields < TWO64
    requires |cut| < |rest| && cut == rest[..|cut|]
    requires Scan(kind, DecodeTable(EntryWidths(kind), count, rest[..count * EntryBytes(kind)]), 0, 0) == Scanned(metas, total, fields)
    ensures ParseTables(kind, count, total, cut) == PlanFailed(TruncatedFrame)
  {
    hide Scan, DecodeTable;
    var entries := count * EntryBytes(kind);
    if entries + total * ItemBytes(kind) <= |cut| { PrefixRegion(rest, |cut|, 0, entries); }
  }

  /** An accepted payload with anything after it is refused for exactly that many
      trailing bytes. */
  lemma MoreIsTrailing(kind: Kind, payload: seq<Byte>, more: seq<Byte>, p: nat)
    requires |payload| + |more| < TWO64 && ParseMessage(kind, payload, p).Decoded? && more != []
    ensures ParseMessage(kind, payload + more, p) == DecodeFailed(TrailingFrameBytes(|more|))
  {
    hide Scan, DecodeTable, DecodeRecord, Counts, ParsePlan, ParseMessage;
    var count, total, metas, fields := AcceptedSizes(kind, payload, p);
    var s, long := SummaryBytes(kind), payload + more;
    assert long[..s] == payload[..s] && long[s..] == payload[s..] + more;
    SameSummary(kind, payload, long);
    TablesRunOn(kind, count, total, fields, payload[s..], more, metas);
    PlanFailsMessage(kind, long, TrailingFrameBytes(|more|), p);
  }

  lemma {:induction false} TablesRunOn(kind: Kind, count: nat, total: nat, fields: nat, rest: seq<Byte>, more: seq<Byte>, metas: seq<Meta>)
    requires RecordBytes(EntryWidths(kind)) == EntryBytes(kind) && more != []
    requires 0 <= count * EntryBytes(kind) && 0 <= total * ItemBytes(kind)
    requires |rest| == count * EntryBytes(kind) + total * ItemBytes(kind) + 4 * fields < TWO64
    requires Scan(kind, DecodeTable(EntryWidths(kind), count, rest[..count * EntryBytes(kind)]), 0, 0) == Scanned(metas, total, fields)
    ensures ParseTables(kind, count, total, rest + more) == PlanFailed(TrailingFrameBytes(|more|))
  {
    hide Scan, DecodeTable;
    assert (rest + more)[..count * EntryBytes(kind)] == rest[..count * EntryBytes(kind)];
  }

  /** The same of acknowledgments. */
  lemma AcknowledgmentBounds(payload: seq<Byte>, n: nat, more: seq<Byte>)
    requires |payload| < TWO64 && ParseIds(payload).Ids?
    ensures n < |payload| ==> ParseIds(payload[..n]) == IdsFailed(TruncatedFrame)
    ensures more != [] ==> ParseIds(payload + more) == IdsFailed(TrailingFrameBytes(|more|))
  {
    hide FromLE, ParseList;
    if n < |payload| { if n >= 8 { PrefixRegion(payload, n, 0, 8); } }
    assert (payload + more)[..8] == payload[..8];
  }

  /** A list that names a zero anywhere is refused, and for that reason. */
  lemma ZeroIsRefused(identifiers: seq<nat>)
    requires 8 + 8 * |identifiers| < TWO64 && 0 in identifiers && forall i | 0 <= i < |identifiers| :: identifiers[i] < TWO64
    ensures ParseIds(EncodeIds(identifiers)) == IdsFailed(InvalidDimensions)
  {
    hide LE, FromLE, EncodeTable, DecodeTable;
    EightBytes();
    LERoundTrip(8, |identifiers|);
    EightWide();
    Seam(LE(8, |identifiers|), EncodeTable([8], IdTable(identifiers)));
    TableRoundTrip([8], IdTable(identifiers));
    assert FirstColumn(IdTable(identifiers)) == identifiers;
  }

  // ----- Where each field stands -----

  /** A frame on the wire: the kind's number, then the payload length with the
      least significant byte first, then the payload. */
  lemma {:induction false} FrameForm(kind: FrameKind, payload: seq<Byte>, i: nat)
    requires i < 8
    ensures FrameBytes(kind, payload)[0] == match kind
              case UploadMatrices => 1 case UploadAccepted => 2 case Evaluate => 3 case Products => 4 case ErrorFrame => 5
    ensures Pow(256, i) > 0 && FrameBytes(kind, payload)[1 + i] == |payload| / Pow(256, i) % 256
    ensures FrameBytes(kind, payload)[HEADER_BYTES..] == payload
  {
    LittleEndian(8, |payload|, i);
    hide LE;
    assert FrameBytes(kind, payload)[1..HEADER_BYTES] == LE(8, |payload|);
    assert FrameBytes(kind, payload)[1 + i] == FrameBytes(kind, payload)[1..HEADER_BYTES][i];
  }

  /** A rejection on the wire: its code's number in the first of four bytes, then
      the length of the text, then the text. */
  lemma {:induction false} ErrorForm(code: Codes.ErrorCode, text: Diagnostic)
    ensures ErrorPayload(Codes.ToU32(code), text)[..4] == [Codes.ToU32(code), 0, 0, 0]
    ensures ErrorPayload(Codes.ToU32(code), text)[4..12] == LE(8, |text|) && ErrorPayload(Codes.ToU32(code), text)[12..] == text
  {
    var v := Codes.ToU32(code);
    SmallWord(v);
    hide LE, Codes.ToU32;
    var payload := ErrorPayload(v, text);
    assert payload[..4] == LE(4, v) && payload[4..12] == LE(8, |text|) && payload[12..] == text;
  }

  lemma {:induction false} SmallWord(v: nat)
    requires v < 256
    ensures LE(4, v) == [v, 0, 0, 0]
  {
    ZeroBytes(3);
    assert LE(3, v / 256) == LE(3, 0);
  }

  lemma {:induction false} ZeroBytes(w: nat)
    ensures LE(w, 0) == seq(w, i => 0)
  {
    if w > 0 { ZeroBytes(w - 1); }
  }

  lemma {:induction false} NextField(widths: seq<Width>, record: seq<nat>)
    requires widths != [] && |record| == |widths|
    ensures EncodeRecord(widths, record) == LE(widths[0], record[0]) + EncodeRecord(widths[1..], record[1..])
  {
  }

  lemma {:induction false} TwoFields(u: Width, v: Width, a: nat, b: nat)
    ensures EncodeRecord([u], [a]) == LE(u, a) && EncodeRecord([u, v], [a, b]) == LE(u, a) + LE(v, b)
  {
    hide LE;
    NextField([u], [a]);
    NextField([v], [b]);
    NextField([u, v], [a, b]);
    assert [u, v][1..] == [v] && [a, b][1..] == [b];
  }

  lemma {:induction false} ThreeFields(u: Width, v: Width, w: Width, a: nat, b: nat, c: nat)
    ensures EncodeRecord([u, v, w], [a, b, c]) == LE(u, a) + LE(v, b) + LE(w, c)
  {
    hide LE;
    NextField([u, v, w], [a, b, c]);
    assert [u, v, w][1..] == [v, w] && [a, b, c][1..] == [b, c];
    TwoFields(v, w, b, c);
  }

  lemma {:induction false} RecordSplit(w1: seq<Width>, w2: seq<Width>, r1: seq<nat>, r2: seq<nat>)
    requires |w1| == |r1| && |w2| == |r2|
    ensures EncodeRecord(w1 + w2, r1 + r2) == EncodeRecord(w1, r1) + EncodeRecord(w2, r2)
    decreases |w1|
  {
    hide LE;
    if w1 == [] {
      assert w1 + w2 == w2 && r1 + r2 == r2;
    } else {
      RecordSplit(w1[1..], w2, r1[1..], r2);
      assert (w1 + w2)[1..] == w1[1..] + w2 && (r1 + r2)[1..] == r1[1..] + r2;
    }
  }

  lemma {:induction false} OneRow(widths: seq<Width>, record: seq<nat>)
    requires |record| == |widths|
    ensures EncodeTable(widths, [record]) == EncodeRecord(widths, record) && EncodeTable(widths, []) == []
  {
    hide EncodeRecord;
    assert [record][1..] == [];
  }

  /** The bytes of a message with one entry: the summary, the entry's record, its
      item table and its values. */
  lemma OneEntry(kind: Kind, part: Part)
    requires Writable(kind, [part])
    ensures |part.record| == |EntryWidths(kind)| && forall j | 0 <= j < |part.items| :: |part.items[j]| == |ItemWidths(kind)|
    ensures Encode(kind, [part])
            == EncodeRecord(SummaryWidths(kind), if kind.UploadKind? then [1] else [1, |part.items|])
               + EncodeRecord(EntryWidths(kind), part.record)
               + EncodeTable(ItemWidths(kind), part.items) + EncodeFields(part.values)
  {
    hide EncodeRecord, EncodeTable, EncodeFields;
    OnePart(part);
    OneRow(EntryWidths(kind), part.record);
    assert Records([part]) == [part.record];
  }

  /** An upload of one matrix: the count, then the parameters, the instance, the
      dimensions and the values. */
  lemma UploadForm(u: UploadRef)
    requires NaturalUpload(u)
    ensures Encode(UploadKind, UploadParts([u]))
            == LE(8, 1)
               + (LE(8, u.params.k) + LE(8, u.params.ell) + LE(8, u.params.b) + LE(4, u.params.lambda))
               + (LE(16, u.matrix.instanceId) + LE(8, u.matrix.rows) + LE(8, u.matrix.columns))
               + EncodeFields(u.matrix.values)
  {
    hide LE, EncodeRecord, EncodeTable, EncodeFields;
    var part := UploadPart(u);
    assert UploadParts([u]) == [part];
    OneEntry(UploadKind, part);
    TwoFields(8, 8, 1, 1);
    var r := part.record;
    RecordSplit([8, 8, 8, 4], [16, 8, 8], r[..4], r[4..]);
    RecordSplit([8, 8], [8, 4], r[..4][..2], r[..4][2..]);
    assert r[..4] == r[..4][..2] + r[..4][2..] && r == r[..4] + r[4..];
    assert r[..4][..2] == [r[0], r[1]] && r[..4][2..] == [r[2], r[3]] && r[4..] == [r[4], r[5], r[6]];
    TwoFields(8, 8, r[0], r[1]);
    TwoFields(8, 4, r[2], r[3]);
    ThreeFields(16, 8, 8, r[4], r[5], r[6]);
    assert [8, 8, 8, 4] + [16, 8, 8] == EntryWidths(UploadKind) && [8, 8] + [8, 4] == [8, 8, 8, 4];
    OneRow([], []);
  }

  /** A request of one query: both counts, then the matrix, the query count and
      width, then the query's instance and identifier, and the values. */
  lemma {:induction false} RequestForm(matrixId: nat, q: EncryptedQuery)
    requires NaturalQuery(q)
    ensures NaturalEntry(EvaluateEntry(matrixId, [q]))
    ensures Encode(EvaluateKind, EvaluateParts([EvaluateEntry(matrixId, [q])]))
            == (LE(8, 1) + LE(8, 1))
               + (LE(8, matrixId) + LE(8, 1) + LE(8, |q.values|))
               + (LE(16, q.instanceId) + LE(8, q.queryId))
               + EncodeFields(q.values)
  {
    hide LE, EncodeRecord, EncodeTable, EncodeFields;
    var e := EvaluateEntry(matrixId, [q]);
    var part := EvaluatePart(e);
    assert EvaluateParts([e]) == [part];
    OneEntry(EvaluateKind, part);
    TwoFields(8, 8, 1, 1);
    ThreeFields(8, 8, 8, matrixId, 1, |q.values|);
    TwoFields(16, 8, q.instanceId, q.queryId);
    OneRow([16, 8], [q.instanceId, q.queryId]);
    assert part.items == [[q.instanceId, q.queryId]];
    assert QueryChunks(e) == [q.values];
    OneChunk(q.values, part.values);
  }

  lemma {:induction false} OneChunk(values: seq<nat>, all: seq<nat>)
    requires all == Concat([values])
    ensures all == values
  {
    assert [values][1..] == [];
  }

  /** Products of one answer: both counts, then the matrix, the instance, the
      dimensions and the answer count, then the query's identifier, and the
      values. */
  lemma ProductsForm(e: ProductEntry)
    requires |e.answers| == 1 && NaturalProduct(e)
    ensures Encode(ProductsKind, ProductParts([e]))
            == (LE(8, 1) + LE(8, 1))
               + (LE(8, e.matrixId) + LE(16, e.instanceId)) + (LE(8, e.rows) + LE(8, e.blocks) + LE(8, 1))
               + LE(8, e.answers[0].queryId)
               + EncodeFields(e.answers[0].values)
  {
    hide LE, EncodeRecord, EncodeTable, EncodeFields;
    var part := ProductPart(e);
    assert ProductParts([e]) == [part];
    OneEntry(ProductsKind, part);
    TwoFields(8, 8, 1, 1);
    var r := part.record;
    RecordSplit([8, 16], [8, 8, 8], r[..2], r[2..]);
    assert r == r[..2] + r[2..] && r[..2] == [r[0], r[1]] && r[2..] == [r[2], r[3], r[4]];
    assert [8, 16] + [8, 8, 8] == EntryWidths(ProductsKind);
    TwoFields(8, 16, r[0], r[1]);
    ThreeFields(8, 8, 8, r[2], r[3], r[4]);
    TwoFields(8, 8, e.answers[0].queryId, 0);
    OneRow([8], [e.answers[0].queryId]);
    assert part.items == [[e.answers[0].queryId]];
    assert AnswerChunks(e) == [e.answers[0].values];
    OneChunk(e.answers[0].values, part.values);
  }
}
