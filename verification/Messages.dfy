/** The typed messages and their wire parts, in both directions. */
module Messages {
  import opened Arithmetic
  import opened Bytes
  import opened CodecLaws
  import opened Kernels
  import opened Layout
  import opened ParameterSets
  import opened ProtocolSpec
  import opened Upload

  // ----- Equal-width chunks -----

  function Concat(chunks: seq<seq<nat>>): seq<nat> {
    if chunks == [] then [] else chunks[0] + Concat(chunks[1..])
  }

  ghost predicate Uniform(chunks: seq<seq<nat>>, width: nat) { forall i | 0 <= i < |chunks| :: |chunks[i]| == width }

  function Chop(values: seq<nat>, count: nat, width: nat): (chunks: seq<seq<nat>>)
    requires |values| == count * width
    ensures |chunks| == count && Uniform(chunks, width)
    decreases count
  {
    if count == 0 then []
    else
      TableRoom(count, width);
      [values[..width]] + Chop(values[width..], count - 1, width)
  }

  lemma {:induction false} ConcatLength(chunks: seq<seq<nat>>, width: nat)
    requires Uniform(chunks, width)
    ensures |Concat(chunks)| == |chunks| * width
  {
    if chunks != [] {
      ConcatLength(chunks[1..], width);
      TableRoom(|chunks|, width);
    }
  }

  lemma {:induction false} ChopInvertsConcat(chunks: seq<seq<nat>>, width: nat)
    requires Uniform(chunks, width)
    ensures |Concat(chunks)| == |chunks| * width && Chop(Concat(chunks), |chunks|, width) == chunks
  {
    ConcatLength(chunks, width);
    if chunks != [] {
      ChopInvertsConcat(chunks[1..], width);
      var tail := Concat(chunks[1..]);
      assert (chunks[0] + tail)[..width] == chunks[0] && (chunks[0] + tail)[width..] == tail;
      assert chunks == [chunks[0]] + chunks[1..];
    }
  }

  lemma {:induction false} ConcatInvertsChop(values: seq<nat>, count: nat, width: nat)
    requires |values| == count * width
    ensures Concat(Chop(values, count, width)) == values
    decreases count
  {
    if count > 0 {
      TableRoom(count, width);
      ConcatInvertsChop(values[width..], count - 1, width);
      assert Chop(values, count, width)[1..] == Chop(values[width..], count - 1, width);
      assert values == values[..width] + values[width..];
    } else {
      assert values == [];
    }
  }

  lemma {:induction false} ConcatCanonical(chunks: seq<seq<nat>>, p: nat)
    requires forall i | 0 <= i < |chunks| :: CanonicalWords(chunks[i], p)
    ensures CanonicalWords(Concat(chunks), p)
  {
    if chunks != [] { ConcatCanonical(chunks[1..], p); }
  }

  /** A view's `index`-th chunk is cut at `index * width`. */
  lemma {:induction false} ChopAt(values: seq<nat>, count: nat, width: nat, index: nat)
    requires |values| == count * width && index < count
    ensures 0 <= index * width && index * width + width <= |values|
    ensures Chop(values, count, width)[index] == values[index * width..index * width + width]
    decreases count
  {
    TableRoom(count, width);
    MulMono(index + 1, count, width);
    MulMono(0, index, width);
    assert (index + 1) * width == index * width + width;
    if index > 0 {
      ChopAt(values[width..], count - 1, width, index - 1);
      assert (index - 1) * width == index * width - width;
      assert values[width..][(index - 1) * width..(index - 1) * width + width] == values[index * width..index * width + width];
    }
  }

  // ----- Uploads -----

  /** The words of field values; a field element is never negative. */
  function Words(values: seq<int>): (w: seq<nat>)
    requires forall i | 0 <= i < |values| :: values[i] >= 0
    ensures w == values
  {
    values
  }

  ghost predicate NaturalUpload(u: UploadRef) { forall i | 0 <= i < |u.matrix.values| :: u.matrix.values[i] >= 0 }

  function UploadPart(u: UploadRef): (part: Part)
    requires NaturalUpload(u)
    ensures |part.record| == 7 && part.items == []
  {
    Part([u.params.k, u.params.ell, u.params.b, u.params.lambda, u.matrix.instanceId, u.matrix.rows, u.matrix.columns],
         [], Words(u.matrix.values))
  }

  function UploadOf(part: Part): (u: UploadRef)
    requires |part.record| == 7
    ensures NaturalUpload(u)
  {
    var r := part.record;
    UploadRef(EmvpParams(r[0], r[1], r[2], r[3]), EncryptedMatrix(r[4], r[5], r[6], part.values))
  }

  lemma UploadViewOfPart(u: UploadRef)
    requires NaturalUpload(u)
    ensures UploadOf(UploadPart(u)) == u
  {
  }

  lemma UploadPartOfView(part: Part)
    requires |part.record| == 7 && part.items == []
    ensures UploadPart(UploadOf(part)) == part
  {
    assert part.record == [part.record[0], part.record[1], part.record[2], part.record[3], part.record[4], part.record[5], part.record[6]];
  }

  // ----- Evaluations -----

  datatype EvaluateEntry = EvaluateEntry(matrixId: nat, queries: seq<EncryptedQuery>)

  ghost predicate NaturalQuery(q: EncryptedQuery) { forall i | 0 <= i < |q.values| :: q.values[i] >= 0 }

  ghost predicate NaturalEntry(e: EvaluateEntry) { forall j | 0 <= j < |e.queries| :: NaturalQuery(e.queries[j]) }

  /** The width written in the descriptor is the first query's, or zero. */
  function QueryWidth(e: EvaluateEntry): nat { if e.queries == [] then 0 else |e.queries[0].values| }

  function QueryChunks(e: EvaluateEntry): (c: seq<seq<nat>>)
    requires NaturalEntry(e)
    ensures |c| == |e.queries|
  {
    seq(|e.queries|, j requires 0 <= j < |e.queries| => assert NaturalQuery(e.queries[j]); Words(e.queries[j].values))
  }

  function EvaluatePart(e: EvaluateEntry): (part: Part)
    requires NaturalEntry(e)
    ensures |part.record| == 3 && |part.items| == |e.queries|
    ensures forall j | 0 <= j < |part.items| :: |part.items[j]| == 2
  {
    Part([e.matrixId, |e.queries|, QueryWidth(e)],
         seq(|e.queries|, j requires 0 <= j < |e.queries| => [e.queries[j].instanceId, e.queries[j].queryId]),
         Concat(QueryChunks(e)))
  }

  ghost predicate EvaluateShaped(part: Part) {
    && |part.record| == 3 && part.record[1] == |part.items|
    && |part.values| == part.record[1] * part.record[2]
    && (part.items == [] <==> part.record[2] == 0)
    && forall j | 0 <= j < |part.items| :: |part.items[j]| == 2
  }

  function EvaluateOf(part: Part): (e: EvaluateEntry)
    requires EvaluateShaped(part)
    ensures |e.queries| == |part.items|
  {
    var chunks := Chop(part.values, part.record[1], part.record[2]);
    EvaluateEntry(part.record[0],
      seq(|part.items|, j requires 0 <= j < |part.items| => EncryptedQuery(chunks[j], part.items[j][0], part.items[j][1])))
  }

  /** All queries of an entry share one positive width. */
  ghost predicate UniformEntry(e: EvaluateEntry) {
    forall j | 0 <= j < |e.queries| :: |e.queries[j].values| == QueryWidth(e) > 0
  }

  lemma EvaluateViewOfPart(e: EvaluateEntry)
    requires NaturalEntry(e) && UniformEntry(e)
    ensures EvaluateShaped(EvaluatePart(e)) && EvaluateOf(EvaluatePart(e)) == e
  {
    var chunks := QueryChunks(e);
    assert Uniform(chunks, QueryWidth(e));
    ChopInvertsConcat(chunks, QueryWidth(e));
    assert EvaluateOf(EvaluatePart(e)).queries == e.queries;
  }

  lemma EvaluatePartOfView(part: Part)
    requires EvaluateShaped(part)
    ensures NaturalEntry(EvaluateOf(part)) && UniformEntry(EvaluateOf(part))
    ensures EvaluatePart(EvaluateOf(part)) == part
  {
    var e := EvaluateOf(part);
    var chunks := Chop(part.values, part.record[1], part.record[2]);
    assert QueryChunks(e) == chunks;
    ConcatInvertsChop(part.values, part.record[1], part.record[2]);
    assert EvaluatePart(e).items == part.items by {
      forall j | 0 <= j < |part.items| ensures EvaluatePart(e).items[j] == part.items[j] {}
    }
    assert EvaluatePart(e).record == part.record;
  }

  // ----- Products -----

  datatype ProductEntry = ProductEntry(matrixId: nat, instanceId: nat, rows: nat, blocks: nat, answers: seq<Answer>)

  /** Every answer carries its entry's identifiers and shape. */
  ghost predicate PairedEntry(e: ProductEntry) {
    forall j | 0 <= j < |e.answers| ::
      && e.answers[j].instanceId == e.instanceId && e.answers[j].rows == e.rows && e.answers[j].blocks == e.blocks
      && |e.answers[j].values| == e.rows * e.blocks
  }

  ghost predicate NaturalAnswer(a: Answer) { forall i | 0 <= i < |a.values| :: a.values[i] >= 0 }

  ghost predicate NaturalProduct(e: ProductEntry) { forall j | 0 <= j < |e.answers| :: NaturalAnswer(e.answers[j]) }

  function AnswerChunks(e: ProductEntry): (c: seq<seq<nat>>)
    requires NaturalProduct(e)
    ensures |c| == |e.answers|
  {
    seq(|e.answers|, j requires 0 <= j < |e.answers| => assert NaturalAnswer(e.answers[j]); Words(e.answers[j].values))
  }

  function ProductPart(e: ProductEntry): (part: Part)
    requires NaturalProduct(e)
    ensures |part.record| == 5 && |part.items| == |e.answers|
    ensures forall j | 0 <= j < |part.items| :: |part.items[j]| == 1
  {
    Part([e.matrixId, e.instanceId, e.rows, e.blocks, |e.answers|],
         seq(|e.answers|, j requires 0 <= j < |e.answers| => [e.answers[j].queryId]),
         Concat(AnswerChunks(e)))
  }

  ghost predicate ProductShaped(part: Part) {
    && |part.record| == 5 && part.record[4] == |part.items|
    && |part.values| == part.record[4] * (part.record[2] * part.record[3])
    && forall j | 0 <= j < |part.items| :: |part.items[j]| == 1
  }

  function ProductOf(part: Part): (e: ProductEntry)
    requires ProductShaped(part)
    ensures |e.answers| == |part.items|
  {
    var r := part.record;
    var chunks := Chop(part.values, r[4], r[2] * r[3]);
    ProductEntry(r[0], r[1], r[2], r[3],
      seq(|part.items|, j requires 0 <= j < |part.items| => Answer(r[1], part.items[j][0], r[2], r[3], chunks[j])))
  }

  function ProductsOf(parts: seq<Part>): (products: seq<ProductEntry>)
    requires forall i | 0 <= i < |parts| :: ProductShaped(parts[i])
    ensures |products| == |parts|
  {
    seq(|parts|, i requires 0 <= i < |parts| => ProductOf(parts[i]))
  }

  lemma ProductViewOfPart(e: ProductEntry)
    requires NaturalProduct(e) && PairedEntry(e)
    ensures ProductShaped(ProductPart(e)) && ProductOf(ProductPart(e)) == e
  {
    assert Uniform(AnswerChunks(e), e.rows * e.blocks);
    ChopInvertsConcat(AnswerChunks(e), e.rows * e.blocks);
    assert ProductOf(ProductPart(e)).answers == e.answers;
  }

  lemma ProductPartOfView(part: Part)
    requires ProductShaped(part)
    ensures NaturalProduct(ProductOf(part)) && PairedEntry(ProductOf(part)) && ProductPart(ProductOf(part)) == part
  {
    var e := ProductOf(part);
    var r := part.record;
    var chunks := Chop(part.values, r[4], r[2] * r[3]);
    assert AnswerChunks(e) == chunks;
    ConcatInvertsChop(part.values, r[4], r[2] * r[3]);
    assert ProductPart(e).items == part.items by {
      forall j | 0 <= j < |part.items| ensures ProductPart(e).items[j] == part.items[j] {}
    }
    assert ProductPart(e).record == [r[0], r[1], r[2], r[3], r[4]] == r;
  }

  // ----- What an accepted part is -----

  /** An accepted upload part is a matrix with positive dimensions and exactly
      its row-major values. */
  lemma AcceptedUpload(part: Part, p: nat)
    requires PartFits(UploadKind, part, p)
    ensures |part.record| == 7 && part.items == []
    ensures var m := UploadOf(part).matrix;
            m.rows > 0 && m.columns > 0 && |m.values| == m.rows * m.columns < TWO64 && Canonical(m.values, p)
  {
  }

  lemma AcceptedEvaluate(part: Part, p: nat)
    requires PartFits(EvaluateKind, part, p)
    ensures EvaluateShaped(part)
  {
    if part.items == [] { assert part.record[1] == 0; }
    forall j | 0 <= j < |part.items| ensures |part.items[j]| == 2 { assert RecordFits(ItemWidths(EvaluateKind), part.items[j]); }
  }

  lemma AcceptedProduct(part: Part, p: nat)
    requires PartFits(ProductsKind, part, p)
    ensures ProductShaped(part) && part.record[2] > 0 && part.record[3] > 0
  {
    forall j | 0 <= j < |part.items| ensures |part.items[j]| == 1 { assert RecordFits(ItemWidths(ProductsKind), part.items[j]); }
  }
}
