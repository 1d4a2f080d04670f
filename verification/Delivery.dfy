/** What one side writes is what the other side reads: whole frames, carrying
    uploads, requests and products, through the codec unchanged. */
module Delivery {
  import opened Arithmetic
  import opened Bytes
  import opened CodecLaws
  import opened Frame
  import opened Handling
  import opened Kernels
  import opened Layout
  import opened Messages
  import opened ParameterSets
  import opened ProtocolSpec
  import opened Requests
  import opened Upload
  import opened Writer

  // ----- Parts inside a payload -----

  lemma OwnedFits(kind: Kind, parts: seq<Part>, i: nat)
    requires i < |parts| && PayloadBytes(kind, parts) < TWO64
    ensures |parts[i].values| < TWO64 && (!kind.UploadKind? ==> |parts[i].items| < TWO64) && |parts| < TWO64
  {
    hide Items, Values;
    ItemsSlice(parts, i);
    var entries, items := |parts| * EntryBytes(kind), |Items(parts)| * ItemBytes(kind);
    MulMono(1, EntryBytes(kind), |parts|);
    Commute(EntryBytes(kind), |parts|);
    if !kind.UploadKind? {
      MulMono(1, ItemBytes(kind), |Items(parts)|);
      Commute(ItemBytes(kind), |Items(parts)|);
    }
  }

  /** Items and values of the first `n` parts. */
  function ItemCountOf(parts: seq<Part>, n: nat): nat
    requires n <= |parts|
  {
    if n == 0 then 0 else ItemCountOf(parts, n - 1) + |parts[n - 1].items|
  }

  function ValueCountOf(parts: seq<Part>, n: nat): nat
    requires n <= |parts|
  {
    if n == 0 then 0 else ValueCountOf(parts, n - 1) + |parts[n - 1].values|
  }

  lemma {:induction false} CountsAreTotals(parts: seq<Part>, n: nat)
    requires n <= |parts|
    ensures |Items(parts[..n])| == ItemCountOf(parts, n) && |Values(parts[..n])| == ValueCountOf(parts, n)
  {
    if n == 0 {
      assert parts[..0] == [];
    } else {
      CountsAreTotals(parts, n - 1);
      assert parts[..n] == parts[..n - 1] + [parts[n - 1]];
      PartsConcat(parts[..n - 1], [parts[n - 1]]);
      OnePart(parts[n - 1]);
    }
  }

  /** A declared payload length counts its descriptors, items and values. */
  lemma {:induction false} PayloadCounts(kind: Kind, parts: seq<Part>)
    ensures PayloadBytes(kind, parts) == SummaryBytes(kind) + |parts| * EntryBytes(kind)
                                         + ItemCountOf(parts, |parts|) * ItemBytes(kind) + 4 * ValueCountOf(parts, |parts|)
  {
    CountsAreTotals(parts, |parts|);
    assert parts[..|parts|] == parts;
  }

  /** A declared bound on a wire integer of each width. */
  lemma WidthBounds()
    ensures Pow(256, 8) == TWO64 && Pow(256, 4) == TWO32
  {
    EightBytes();
    WordPower();
  }

  // ----- Uploads -----

  ghost predicate UploadSendable(u: UploadRef, p: nat) {
    && WellShaped(u.params) && u.params.lambda < TWO32 && u.matrix.instanceId < Pow(256, 16)
    && 0 < u.matrix.rows < TWO64 && u.matrix.columns == 2 * u.params.k
    && |u.matrix.values| == u.matrix.rows * u.matrix.columns && Canonical(u.matrix.values, p)
  }

  ghost predicate UploadsSendable(uploads: seq<UploadRef>, p: nat) {
    forall i | 0 <= i < |uploads| :: UploadSendable(uploads[i], p)
  }

  lemma SendableIsNatural(uploads: seq<UploadRef>, p: nat)
    requires UploadsSendable(uploads, p)
    ensures forall i | 0 <= i < |uploads| :: NaturalUpload(uploads[i])
  {
    forall i | 0 <= i < |uploads| ensures NaturalUpload(uploads[i]) { assert UploadSendable(uploads[i], p); }
  }

  lemma UploadPartFits(u: UploadRef, p: nat)
    requires UploadSendable(u, p) && NaturalUpload(u) && |u.matrix.values| < TWO64
    ensures PartFits(UploadKind, UploadPart(u), p)
  {
    WidthBounds();
    var widths, record := EntryWidths(UploadKind), UploadPart(u).record;
    forall i | 0 <= i < 7 ensures record[i] < Pow(256, widths[i]) {}
    MulMono(1, u.matrix.rows, u.matrix.columns);
  }

  lemma {:induction false} ValuesAreWords(uploads: seq<UploadRef>, n: nat)
    requires n <= |uploads| && forall i | 0 <= i < |uploads| :: NaturalUpload(uploads[i])
    ensures ValueCountOf(UploadParts(uploads), n) == Upload.Words(uploads, n)
  {
    if n > 0 {
      ValuesAreWords(uploads, n - 1);
      UploadPartValues(uploads[n - 1]);
    }
  }

  lemma UploadViews(uploads: seq<UploadRef>)
    requires forall i | 0 <= i < |uploads| :: NaturalUpload(uploads[i])
    ensures UploadsOf(UploadParts(uploads)) == uploads
  {
    forall i | 0 <= i < |uploads| ensures UploadOf(UploadParts(uploads)[i]) == uploads[i] { UploadViewOfPart(uploads[i]); }
  }

  /** A sendable set arrives as itself, and is acceptable. */
  lemma UploadArrives(uploads: seq<UploadRef>, p: nat)
    requires uploads != [] && UploadsSendable(uploads, p) && p <= TWO32
    requires forall i | 0 <= i < |uploads| :: NaturalUpload(uploads[i])
    requires PayloadBytes(UploadKind, UploadParts(uploads)) < TWO64
    ensures var payload := Encode(UploadKind, UploadParts(uploads));
            && |payload| == PayloadBytes(UploadKind, UploadParts(uploads))
            && UploadIs(payload, p, uploads)
  {
    hide ParseMessage, Encode, Values, Items, PartFits, WellShaped, UploadPart;
    var parts := UploadParts(uploads);
    forall i | 0 <= i < |parts| ensures PartFits(UploadKind, parts[i], p) {
      OwnedFits(UploadKind, parts, i);
      assert UploadSendable(uploads[i], p);
      UploadPartValues(uploads[i]);
      UploadPartFits(uploads[i], p);
    }
    ParseInvertsEncode(UploadKind, parts, p);
    EncodedLength(UploadKind, parts);
    UploadViews(uploads);
    ValuesAreWords(uploads, |uploads|);
    PayloadCounts(UploadKind, parts);
    forall i | 0 <= i < |uploads| ensures FitsParameters(uploads[i]) { assert UploadSendable(uploads[i], p); }
  }

  lemma UploadPartValues(u: UploadRef)
    requires NaturalUpload(u)
    ensures UploadPart(u).values == u.matrix.values && |UploadPart(u).record| == 7
  {
  }

  // ----- Requests -----

  ghost predicate QuerySendable(q: EncryptedQuery, width: nat, p: nat) {
    |q.values| == width && Canonical(q.values, p) && q.instanceId < Pow(256, 16) && q.queryId < TWO64
  }

  /** What the wire can carry: no queries at all, or queries of one positive width. */
  ghost predicate EntrySendable(e: EvaluateEntry, p: nat) {
    && e.matrixId < TWO64 && QueryWidth(e) < TWO64 && (e.queries != [] ==> QueryWidth(e) > 0)
    && forall j | 0 <= j < |e.queries| :: QuerySendable(e.queries[j], QueryWidth(e), p)
  }

  ghost predicate EntriesSendable(entries: seq<EvaluateEntry>, p: nat) {
    forall i | 0 <= i < |entries| :: EntrySendable(entries[i], p)
  }

  lemma SendableEntry(e: EvaluateEntry, p: nat)
    requires EntrySendable(e, p)
    ensures NaturalEntry(e) && UniformEntry(e) && SameWidths(e)
  {
    hide QueryWidth;
    forall j | 0 <= j < |e.queries| ensures NaturalQuery(e.queries[j]) && |e.queries[j].values| == QueryWidth(e) {
      assert QuerySendable(e.queries[j], QueryWidth(e), p);
    }
  }

  lemma EvaluatePartFits(e: EvaluateEntry, p: nat)
    requires EntrySendable(e, p) && NaturalEntry(e) && |EvaluatePart(e).values| < TWO64 && |e.queries| < TWO64
    ensures PartFits(EvaluateKind, EvaluatePart(e), p)
  {
    WidthBounds();
    SendableEntry(e, p);
    var part, chunks := EvaluatePart(e), QueryChunks(e);
    ConcatLength(chunks, QueryWidth(e));
    forall j | 0 <= j < |chunks| ensures CanonicalWords(chunks[j], p) {
      assert QuerySendable(e.queries[j], QueryWidth(e), p);
    }
    ConcatCanonical(chunks, p);
    forall j | 0 <= j < |part.items| ensures RecordFits(ItemWidths(EvaluateKind), part.items[j]) {
      assert QuerySendable(e.queries[j], QueryWidth(e), p);
    }
  }

  /** A sendable request arrives as itself, entries without queries included. */
  lemma RequestArrives(entries: seq<EvaluateEntry>, p: nat)
    requires EntriesSendable(entries, p) && p <= TWO32
    requires forall i | 0 <= i < |entries| :: NaturalEntry(entries[i])
    requires PayloadBytes(EvaluateKind, EvaluateParts(entries)) < TWO64
    ensures var payload := Encode(EvaluateKind, EvaluateParts(entries));
            && |payload| == PayloadBytes(EvaluateKind, EvaluateParts(entries))
            && RequestIs(payload, p) && RequestOf(payload, p) == entries
  {
    hide ParseMessage, Encode, Values, Items, PartFits, EntrySendable, NaturalEntry, EvaluatePart;
    var parts := EvaluateParts(entries);
    forall i | 0 <= i < |parts|
      ensures PartFits(EvaluateKind, parts[i], p) && EvaluateShaped(parts[i]) && EvaluateOf(parts[i]) == entries[i]
    {
      OwnedFits(EvaluateKind, parts, i);
      SendableEntry(entries[i], p);
      EvaluateViewOfPart(entries[i]);
      EvaluatePartFits(entries[i], p);
    }
    ParseInvertsEncode(EvaluateKind, parts, p);
    EncodedLength(EvaluateKind, parts);
    assert EntriesOf(parts) == entries;
  }

  // ----- Replies -----

  ghost predicate ProductSendable(e: ProductEntry, p: nat) {
    && e.matrixId < TWO64 && e.instanceId < Pow(256, 16) && 0 < e.rows < TWO64 && 0 < e.blocks < TWO64
    && e.rows * e.blocks < TWO64 && PairedEntry(e)
    && forall j | 0 <= j < |e.answers| :: e.answers[j].queryId < TWO64 && Canonical(e.answers[j].values, p)
  }

  lemma ProductPartFits(e: ProductEntry, p: nat)
    requires ProductSendable(e, p) && NaturalProduct(e) && |ProductPart(e).values| < TWO64 && |e.answers| < TWO64
    ensures PartFits(ProductsKind, ProductPart(e), p)
  {
    WidthBounds();
    var part, chunks, words := ProductPart(e), AnswerChunks(e), e.rows * e.blocks;
    ConcatLength(chunks, words);
    ConcatCanonical(chunks, p);
    hide Concat, AnswerChunks, PairedEntry, NaturalProduct, Canonical;
    var widths := EntryWidths(ProductsKind);
    forall i | 0 <= i < 5 ensures part.record[i] < Pow(256, widths[i]) {}
    forall j | 0 <= j < |part.items| ensures RecordFits(ItemWidths(ProductsKind), part.items[j]) {}
    assert RowOf(ProductsKind, part.record) == Row(|e.answers|, |e.answers| * words);
  }

  /** Sendable products arrive as themselves. */
  lemma ReplyArrives(products: seq<ProductEntry>, p: nat)
    requires p <= TWO32
    requires forall i | 0 <= i < |products| :: ProductSendable(products[i], p) && NaturalProduct(products[i])
    requires PayloadBytes(ProductsKind, ProductParts(products)) < TWO64
    ensures var parts := ProductParts(products);
            && |Encode(ProductsKind, parts)| == PayloadBytes(ProductsKind, parts)
            && ParseMessage(ProductsKind, Encode(ProductsKind, parts), p) == Decoded(parts)
            && (forall i | 0 <= i < |parts| :: ProductShaped(parts[i])) && ProductsOf(parts) == products
  {
    hide ParseMessage, Encode, Values, Items, PartFits, NaturalProduct, ProductPart;
    var parts := ProductParts(products);
    forall i | 0 <= i < |parts|
      ensures PartFits(ProductsKind, parts[i], p) && ProductShaped(parts[i]) && Messages.ProductOf(parts[i]) == products[i]
    {
      OwnedFits(ProductsKind, parts, i);
      ProductViewOfPart(products[i]);
      ProductPartFits(products[i], p);
    }
    ParseInvertsEncode(ProductsKind, parts, p);
    EncodedLength(ProductsKind, parts);
  }

  // ----- And back -----

  /** An accepted upload payload is the encoding of its own typed views. */
  lemma UploadReturns(payload: seq<Byte>, p: nat)
    requires |payload| < TWO64 && ParseMessage(UploadKind, payload, p).Decoded?
    ensures var parts := ParseMessage(UploadKind, payload, p).parts;
            && (forall i | 0 <= i < |parts| :: |parts[i].record| == 7)
            && var uploads := UploadsOf(parts);
               && (forall i | 0 <= i < |uploads| :: NaturalUpload(uploads[i]))
               && Encode(UploadKind, UploadParts(uploads)) == payload
  {
    hide ParseMessage, Encode, UploadOf, UploadPart, NaturalUpload, PartFits;
    EncodeInvertsParse(UploadKind, payload, p);
    var parts := ParseMessage(UploadKind, payload, p).parts;
    forall i | 0 <= i < |parts|
      ensures |parts[i].record| == 7 && NaturalUpload(UploadOf(parts[i])) && UploadPart(UploadOf(parts[i])) == parts[i]
    {
      assert PartFits(UploadKind, parts[i], p);
      AcceptedUpload(parts[i], p);
      UploadPartOfView(parts[i]);
    }
    assert UploadParts(UploadsOf(parts)) == parts;
  }

  /** An accepted request payload is the encoding of its own typed entries. */
  lemma RequestReturns(payload: seq<Byte>, p: nat)
    requires |payload| < TWO64 && ParseMessage(EvaluateKind, payload, p).Decoded?
    ensures RequestIs(payload, p)
    ensures var entries := RequestOf(payload, p);
            && (forall i | 0 <= i < |entries| :: NaturalEntry(entries[i]) && UniformEntry(entries[i]))
            && Encode(EvaluateKind, EvaluateParts(entries)) == payload
  {
    hide ParseMessage, Encode, EvaluateOf, EvaluatePart, NaturalEntry, UniformEntry, PartFits;
    EncodeInvertsParse(EvaluateKind, payload, p);
    var parts := ParseMessage(EvaluateKind, payload, p).parts;
    forall i | 0 <= i < |parts|
      ensures EvaluateShaped(parts[i]) && NaturalEntry(EvaluateOf(parts[i])) && UniformEntry(EvaluateOf(parts[i]))
      ensures EvaluatePart(EvaluateOf(parts[i])) == parts[i]
    {
      assert PartFits(EvaluateKind, parts[i], p);
      AcceptedEvaluate(parts[i], p);
      EvaluatePartOfView(parts[i]);
    }
    assert EvaluateParts(EntriesOf(parts)) == parts;
  }

  /** An accepted products payload is the encoding of its own typed entries. */
  lemma ReplyReturns(payload: seq<Byte>, p: nat)
    requires |payload| < TWO64 && ParseMessage(ProductsKind, payload, p).Decoded?
    ensures var parts := ParseMessage(ProductsKind, payload, p).parts;
            && (forall i | 0 <= i < |parts| :: ProductShaped(parts[i]))
            && var products := ProductsOf(parts);
               && (forall i | 0 <= i < |products| :: NaturalProduct(products[i]) && PairedEntry(products[i]))
               && Encode(ProductsKind, ProductParts(products)) == payload
  {
    hide ParseMessage, Encode, ProductPart, NaturalProduct, PairedEntry, PartFits;
    EncodeInvertsParse(ProductsKind, payload, p);
    var parts := ParseMessage(ProductsKind, payload, p).parts;
    forall i | 0 <= i < |parts|
      ensures ProductShaped(parts[i]) && NaturalProduct(Messages.ProductOf(parts[i])) && PairedEntry(Messages.ProductOf(parts[i]))
      ensures ProductPart(Messages.ProductOf(parts[i])) == parts[i]
    {
      assert PartFits(ProductsKind, parts[i], p);
      AcceptedProduct(parts[i], p);
      ProductPartOfView(parts[i]);
    }
    assert ProductParts(ProductsOf(parts)) == parts;
  }
}
