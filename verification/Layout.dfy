/** The descriptor-table payload layouts, and the two directions of their
    correctness: parsing what was written gives it back, and writing what was
    parsed gives the payload back byte for byte. */
module Layout {
  import opened Arithmetic
  import opened Bytes

  datatype Kind = UploadKind | EvaluateKind | ProductsKind

  datatype CodecError =
    | TruncatedFrame
    | TrailingFrameBytes(extra: nat)
    | UnknownFrameKind(kind: nat)
    | UnexpectedFrame(actual: nat)
    | InvalidDimensions
    | CountMismatch(expected: nat, actual: nat)
    | DimensionOverflow
    | NonCanonicalField(value: nat)
    | AllocationFailed
    | InvalidUtf8

  // ----- Record shapes -----

  function SummaryWidths(kind: Kind): seq<Width> {
    match kind case UploadKind => [8] case _ => [8, 8]
  }

  function EntryWidths(kind: Kind): seq<Width> {
    match kind
    case UploadKind => [8, 8, 8, 4, 16, 8, 8]
    case EvaluateKind => [8, 8, 8]
    case ProductsKind => [8, 16, 8, 8, 8]
  }

  function ItemWidths(kind: Kind): seq<Width> {
    match kind
    case UploadKind => []
    case EvaluateKind => [16, 8]
    case ProductsKind => [8]
  }

  function SummaryBytes(kind: Kind): nat { match kind case UploadKind => 8 case _ => 16 }

  function EntryBytes(kind: Kind): nat {
    match kind case UploadKind => 60 case EvaluateKind => 24 case ProductsKind => 48
  }

  function ItemBytes(kind: Kind): nat { match kind case UploadKind => 0 case EvaluateKind => 24 case ProductsKind => 8 }

  /** The declared descriptor sizes are the sizes of the fields they list. */
  lemma DescriptorSizes(kind: Kind)
    ensures RecordBytes(SummaryWidths(kind)) == SummaryBytes(kind)
    ensures RecordBytes(EntryWidths(kind)) == EntryBytes(kind)
    ensures RecordBytes(ItemWidths(kind)) == ItemBytes(kind)
  {
    match kind
    case UploadKind =>
      WidthSum([8], [], 8);
      WidthSum([8, 8], [8], 16);
      WidthSum([16, 8, 8], [8, 8], 32);
      WidthSum([4, 16, 8, 8], [16, 8, 8], 36);
      WidthSum([8, 4, 16, 8, 8], [4, 16, 8, 8], 44);
      WidthSum([8, 8, 4, 16, 8, 8], [8, 4, 16, 8, 8], 52);
      WidthSum([8, 8, 8, 4, 16, 8, 8], [8, 8, 4, 16, 8, 8], 60);
    case EvaluateKind =>
      WidthSum([8], [], 8);
      WidthSum([8, 8], [8], 16);
      WidthSum([8, 8, 8], [8, 8], 24);
      WidthSum([16, 8], [8], 24);
    case ProductsKind =>
      WidthSum([8], [], 8);
      WidthSum([8, 8], [8], 16);
      WidthSum([8, 8, 8], [8, 8], 24);
      WidthSum([16, 8, 8, 8], [8, 8, 8], 40);
      WidthSum([8, 16, 8, 8, 8], [16, 8, 8, 8], 48);
  }

  lemma {:induction false} WidthSum(widths: seq<Width>, rest: seq<Width>, sum: nat)
    requires widths != [] && rest == widths[1..] && widths[0] + RecordBytes(rest) == sum
    ensures RecordBytes(widths) == sum
  {
  }

  // ----- Rows: what one entry descriptor declares -----

  /** Secondary descriptors and field words an entry owns. */
  datatype RowResult = Row(items: nat, fields: nat) | BadRow(error: CodecError)

  function RowOf(kind: Kind, record: seq<nat>): RowResult
    requires |record| == |EntryWidths(kind)|
  {
    match kind
    case UploadKind =>
      var rows, columns := record[5], record[6];
      if rows == 0 || columns == 0 then BadRow(InvalidDimensions)
      else if rows * columns >= TWO64 then BadRow(DimensionOverflow)
      else Row(0, rows * columns)
    case EvaluateKind =>
      var count, width := record[1], record[2];
      if count == 0 && width != 0 then BadRow(CountMismatch(0, width))
      else if count != 0 && width == 0 then BadRow(InvalidDimensions)
      else if count * width >= TWO64 then BadRow(DimensionOverflow)
      else Row(count, count * width)
    case ProductsKind =>
      var rows, blocks, count := record[2], record[3], record[4];
      if rows == 0 || blocks == 0 then BadRow(InvalidDimensions)
      else if rows * blocks >= TWO64 || count * (rows * blocks) >= TWO64 then BadRow(DimensionOverflow)
      else Row(count, count * (rows * blocks))
  }

  // ----- Plans -----

  datatype Meta = Meta(record: seq<nat>, itemOffset: nat, items: nat, valueOffset: nat, fields: nat)

  datatype ScanResult = Scanned(metas: seq<Meta>, itemTotal: nat, fieldTotal: nat) | ScanFailed(error: CodecError)

  ghost predicate Shaped(kind: Kind, records: seq<seq<nat>>) {
    forall i | 0 <= i < |records| :: |records[i]| == |EntryWidths(kind)|
  }

  function PrependMeta(meta: Meta, r: ScanResult): ScanResult {
    match r case ScanFailed(e) => ScanFailed(e) case Scanned(metas, it, ft) => Scanned([meta] + metas, it, ft)
  }

  /** Validates the entry descriptors in order, assigning consecutive ranges. */
  function Scan(kind: Kind, records: seq<seq<nat>>, itemOffset: nat, valueOffset: nat): ScanResult
    requires Shaped(kind, records)
    decreases |records|
  {
    if records == [] then Scanned([], itemOffset, valueOffset)
    else
      match RowOf(kind, records[0])
      case BadRow(error) => ScanFailed(error)
      case Row(items, fields) =>
        if itemOffset + items >= TWO64 || valueOffset + fields >= TWO64 then ScanFailed(DimensionOverflow)
        else
          PrependMeta(Meta(records[0], itemOffset, items, valueOffset, fields),
                      Scan(kind, records[1..], itemOffset + items, valueOffset + fields))
  }

  datatype Plan = Plan(metas: seq<Meta>, items: seq<seq<nat>>, valueFields: nat)

  datatype PlanOutcome = Planned(plan: Plan, values: seq<Byte>) | PlanFailed(error: CodecError)

  function ItemTotal(kind: Kind, summary: seq<nat>): nat
    requires |summary| == |SummaryWidths(kind)|
  {
    if kind.UploadKind? then 0 else summary[1]
  }

  /** Both descriptor tables must fit the bytes left, before anything is sized. */
  function DescriptorFit(kind: Kind, count: nat, total: nat, remaining: nat): (r: (bool, CodecError))
    ensures r.0 ==> count * EntryBytes(kind) + total * ItemBytes(kind) <= remaining
  {
    var tables := count * EntryBytes(kind) + total * ItemBytes(kind);
    if count * EntryBytes(kind) >= TWO64 || total * ItemBytes(kind) >= TWO64 || tables >= TWO64 then (false, DimensionOverflow)
    else if tables > remaining then (false, TruncatedFrame)
    else (true, TruncatedFrame)
  }

  /** The value region must fill the payload exactly. */
  function ExactRegion(fields: nat, remaining: nat): (r: (bool, CodecError))
    ensures r.0 ==> 4 * fields == remaining
  {
    if 4 * fields >= TWO64 then (false, DimensionOverflow)
    else if 4 * fields < remaining then (false, TrailingFrameBytes(remaining - 4 * fields))
    else if 4 * fields > remaining then (false, TruncatedFrame)
    else (true, TruncatedFrame)
  }

  /** What planning a complete payload yields, and the value region it leaves. */
  function ParsePlan(kind: Kind, payload: seq<Byte>): (r: PlanOutcome)
    ensures r.Planned? ==> |r.values| == 4 * r.plan.valueFields
  {
    DescriptorSizes(kind);
    if |payload| < SummaryBytes(kind) then PlanFailed(TruncatedFrame)
    else
      var summary := DecodeRecord(SummaryWidths(kind), payload[..SummaryBytes(kind)]);
      ParseTables(kind, summary[0], ItemTotal(kind, summary), payload[SummaryBytes(kind)..])
  }

  function ParseTables(kind: Kind, count: nat, total: nat, rest: seq<Byte>): (r: PlanOutcome)
    ensures r.Planned? ==> |r.values| == 4 * r.plan.valueFields
  {
    DescriptorSizes(kind);
    var fit := DescriptorFit(kind, count, total, |rest|);
    if !fit.0 then PlanFailed(fit.1)
    else
      var entries := count * EntryBytes(kind);
      match Scan(kind, DecodeTable(EntryWidths(kind), count, rest[..entries]), 0, 0)
      case ScanFailed(error) => PlanFailed(error)
      case Scanned(metas, itemTotal, fieldTotal) =>
        if itemTotal != total then PlanFailed(CountMismatch(total, itemTotal))
        else ParseItems(kind, metas, total, fieldTotal, rest[entries..])
  }

  function ParseItems(kind: Kind, metas: seq<Meta>, total: nat, fieldTotal: nat, rest: seq<Byte>): (r: PlanOutcome)
    requires total * ItemBytes(kind) <= |rest|
    ensures r.Planned? ==> |r.values| == 4 * r.plan.valueFields
  {
    DescriptorSizes(kind);
    var table := total * ItemBytes(kind);
    var exact := ExactRegion(fieldTotal, |rest| - table);
    if !exact.0 then PlanFailed(exact.1)
    else Planned(Plan(metas, DecodeTable(ItemWidths(kind), total, rest[..table]), fieldTotal), rest[table..])
  }

  // ----- Messages -----

  /** One entry with everything it owns. */
  datatype Part = Part(record: seq<nat>, items: seq<seq<nat>>, values: seq<nat>)

  datatype MessageOutcome = Decoded(parts: seq<Part>) | DecodeFailed(error: CodecError)

  ghost predicate InRange(meta: Meta, items: nat, fields: nat) {
    meta.itemOffset + meta.items <= items && meta.valueOffset + meta.fields <= fields
  }

  function PartAt(meta: Meta, items: seq<seq<nat>>, words: seq<nat>): Part
    requires InRange(meta, |items|, |words|)
  {
    Part(meta.record, items[meta.itemOffset..meta.itemOffset + meta.items],
         words[meta.valueOffset..meta.valueOffset + meta.fields])
  }

  function PartsAt(metas: seq<Meta>, items: seq<seq<nat>>, words: seq<nat>): (parts: seq<Part>)
    requires forall i | 0 <= i < |metas| :: InRange(metas[i], |items|, |words|)
    ensures |parts| == |metas|
  {
    seq(|metas|, i requires 0 <= i < |metas| => PartAt(metas[i], items, words))
  }

  /** The first word at or above the modulus. */
  function FirstNonCanonical(words: seq<nat>, p: nat): (i: nat)
    ensures i <= |words| && (i == |words| <==> CanonicalWords(words, p))
    ensures i < |words| ==> words[i] >= p && CanonicalWords(words[..i], p)
  {
    if words == [] then 0 else if words[0] >= p then 0 else 1 + FirstNonCanonical(words[1..], p)
  }

  ghost predicate RangesFit(plan: Plan) {
    forall i | 0 <= i < |plan.metas| :: InRange(plan.metas[i], |plan.items|, plan.valueFields)
  }

  /** The value region, word by word, cut up by the plan. */
  function ParseValues(plan: Plan, values: seq<Byte>, p: nat): MessageOutcome
    requires RangesFit(plan) && |values| == 4 * plan.valueFields
  {
    var words := DecodeWords(values);
    var bad := FirstNonCanonical(words, p);
    if bad < |words| then DecodeFailed(NonCanonicalField(words[bad])) else Decoded(PartsAt(plan.metas, plan.items, words))
  }

  /** What decoding a complete payload yields. */
  function ParseMessage(kind: Kind, payload: seq<Byte>, p: nat): MessageOutcome {
    match ParsePlan(kind, payload)
    case PlanFailed(error) => DecodeFailed(error)
    case Planned(plan, values) =>
      PlanRanges(kind, payload);
      ParseValues(plan, values, p)
  }

  // ----- Ranges -----

  /** Consecutive ranges from the given offsets to the given ends. */
  ghost predicate Tiles(metas: seq<Meta>, itemOffset: nat, valueOffset: nat, itemEnd: nat, valueEnd: nat)
    decreases |metas|
  {
    if metas == [] then itemOffset == itemEnd && valueOffset == valueEnd
    else
      && metas[0].itemOffset == itemOffset && metas[0].valueOffset == valueOffset
      && Tiles(metas[1..], itemOffset + metas[0].items, valueOffset + metas[0].fields, itemEnd, valueEnd)
  }

  lemma {:induction false} ScanTiles(kind: Kind, records: seq<seq<nat>>, itemOffset: nat, valueOffset: nat)
    requires Shaped(kind, records)
    ensures var r := Scan(kind, records, itemOffset, valueOffset);
            r.Scanned? ==> Tiles(r.metas, itemOffset, valueOffset, r.itemTotal, r.fieldTotal) && |r.metas| == |records|
    decreases |records|
  {
    if records != [] {
      match RowOf(kind, records[0])
      case BadRow(_) =>
      case Row(items, fields) =>
        ScanTiles(kind, records[1..], itemOffset + items, valueOffset + fields);
        var r := Scan(kind, records, itemOffset, valueOffset);
        if r.Scanned? { assert r.metas[1..] == Scan(kind, records[1..], itemOffset + items, valueOffset + fields).metas; }
    }
  }

  lemma {:induction false} TilesInRange(metas: seq<Meta>, itemOffset: nat, valueOffset: nat, itemEnd: nat, valueEnd: nat, i: nat)
    requires Tiles(metas, itemOffset, valueOffset, itemEnd, valueEnd) && i < |metas|
    ensures itemOffset <= metas[i].itemOffset && valueOffset <= metas[i].valueOffset
    ensures InRange(metas[i], itemEnd, valueEnd)
    ensures i + 1 < |metas| ==>
              metas[i + 1].itemOffset == metas[i].itemOffset + metas[i].items
              && metas[i + 1].valueOffset == metas[i].valueOffset + metas[i].fields
    decreases |metas|
  {
    var rest := metas[1..];
    TilesGrow(rest, itemOffset + metas[0].items, valueOffset + metas[0].fields, itemEnd, valueEnd);
    if i > 0 {
      TilesInRange(rest, itemOffset + metas[0].items, valueOffset + metas[0].fields, itemEnd, valueEnd, i - 1);
      assert rest[i - 1] == metas[i] && (i + 1 < |metas| ==> rest[i] == metas[i + 1]);
    } else if |metas| > 1 {
      assert rest[0] == metas[1];
    }
  }

  lemma {:induction false} TilesGrow(metas: seq<Meta>, itemOffset: nat, valueOffset: nat, itemEnd: nat, valueEnd: nat)
    requires Tiles(metas, itemOffset, valueOffset, itemEnd, valueEnd)
    ensures itemOffset <= itemEnd && valueOffset <= valueEnd
    decreases |metas|
  {
    if metas != [] {
      TilesGrow(metas[1..], itemOffset + metas[0].items, valueOffset + metas[0].fields, itemEnd, valueEnd);
    }
  }

  /** The ranges of an accepted plan are consecutive and tile both tables, and
      the descriptors with the value region are the whole payload. */
  lemma PlanRanges(kind: Kind, payload: seq<Byte>)
    ensures var r := ParsePlan(kind, payload);
            r.Planned? ==>
              && Tiles(r.plan.metas, 0, 0, |r.plan.items|, r.plan.valueFields)
              && RangesFit(r.plan)
              && SummaryBytes(kind) + |r.plan.metas| * EntryBytes(kind) + |r.plan.items| * ItemBytes(kind)
                 + 4 * r.plan.valueFields == |payload|
  {
    var r := ParsePlan(kind, payload);
    if r.Planned? {
      DescriptorSizes(kind);
      var summary := DecodeRecord(SummaryWidths(kind), payload[..SummaryBytes(kind)]);
      var rest := payload[SummaryBytes(kind)..];
      var records := DecodeTable(EntryWidths(kind), summary[0], rest[..summary[0] * EntryBytes(kind)]);
      ScanTiles(kind, records, 0, 0);
      forall i | 0 <= i < |r.plan.metas| ensures InRange(r.plan.metas[i], |r.plan.items|, r.plan.valueFields) {
        TilesInRange(r.plan.metas, 0, 0, |r.plan.items|, r.plan.valueFields, i);
      }
    }
  }
}
