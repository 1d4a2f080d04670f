/** The two directions of the wire codec: parsing inverts writing, and writing
    inverts parsing. */
module CodecLaws {
  import opened Arithmetic
  import opened Bytes
  import opened Layout

  // ----- Writing -----

  function Records(parts: seq<Part>): (r: seq<seq<nat>>)
    ensures |r| == |parts|
  {
    seq(|parts|, i requires 0 <= i < |parts| => parts[i].record)
  }

  function Items(parts: seq<Part>): seq<seq<nat>> {
    if parts == [] then [] else parts[0].items + Items(parts[1..])
  }

  function Values(parts: seq<Part>): seq<nat> {
    if parts == [] then [] else parts[0].values + Values(parts[1..])
  }

  ghost predicate PartFits(kind: Kind, part: Part, p: nat) {
    && RecordFits(EntryWidths(kind), part.record)
    && RowOf(kind, part.record) == Row(|part.items|, |part.values|)
    && TableFits(ItemWidths(kind), part.items)
    && CanonicalWords(part.values, p)
  }

  ghost predicate PartsFit(kind: Kind, parts: seq<Part>, p: nat) {
    forall i | 0 <= i < |parts| :: PartFits(kind, parts[i], p)
  }

  lemma {:induction false} ItemsFit(kind: Kind, parts: seq<Part>, p: nat)
    requires PartsFit(kind, parts, p)
    ensures TableFits(ItemWidths(kind), Items(parts)) && CanonicalWords(Values(parts), p)
    ensures kind.UploadKind? ==> Items(parts) == []
  {
    hide RecordFits;
    if parts != [] {
      ItemsFit(kind, parts[1..], p);
      assert PartFits(kind, parts[0], p);
      var first, rest := parts[0].items, Items(parts[1..]);
      assert kind.UploadKind? ==> first == [] && rest == [] && first + rest == [];
      forall j | 0 <= j < |first + rest| ensures RecordFits(ItemWidths(kind), (first + rest)[j]) {}
    }
  }

  function Summary(kind: Kind, parts: seq<Part>): (s: seq<nat>)
    ensures |s| == |SummaryWidths(kind)|
  {
    match kind case UploadKind => [|parts|] case _ => [|parts|, |Items(parts)|]
  }

  /** Every descriptor has its fields; nothing is said about what they declare. */
  ghost predicate Writable(kind: Kind, parts: seq<Part>) {
    forall i | 0 <= i < |parts| ::
      && |parts[i].record| == |EntryWidths(kind)|
      && forall j | 0 <= j < |parts[i].items| :: |parts[i].items[j]| == |ItemWidths(kind)|
  }

  lemma {:induction false} WritableItems(kind: Kind, parts: seq<Part>)
    requires Writable(kind, parts)
    ensures forall j | 0 <= j < |Items(parts)| :: |Items(parts)[j]| == |ItemWidths(kind)|
  {
    if parts != [] { WritableItems(kind, parts[1..]); }
  }

  lemma FittingIsWritable(kind: Kind, parts: seq<Part>, p: nat)
    requires PartsFit(kind, parts, p)
    ensures Writable(kind, parts)
  {
    forall i | 0 <= i < |parts|
      ensures |parts[i].record| == |EntryWidths(kind)|
      ensures forall j | 0 <= j < |parts[i].items| :: |parts[i].items[j]| == |ItemWidths(kind)|
    {
      assert PartFits(kind, parts[i], p);
    }
  }

  /** Header aside: summary, entry table, secondary table, value region. */
  ghost function Encode(kind: Kind, parts: seq<Part>): (b: seq<Byte>)
    requires Writable(kind, parts)
  {
    WritableItems(kind, parts);
    EncodeRecord(SummaryWidths(kind), Summary(kind, parts)) + EncodeTable(EntryWidths(kind), Records(parts))
    + EncodeTable(ItemWidths(kind), Items(parts)) + EncodeFields(Values(parts))
  }

  /** The declared payload length. */
  function PayloadBytes(kind: Kind, parts: seq<Part>): nat {
    SummaryBytes(kind) + |parts| * EntryBytes(kind) + |Items(parts)| * ItemBytes(kind) + 4 * |Values(parts)|
  }

  /** Written bytes are exactly as many as the header declares. */
  lemma EncodedLength(kind: Kind, parts: seq<Part>)
    requires Writable(kind, parts)
    ensures |Encode(kind, parts)| == PayloadBytes(kind, parts)
  {
    DescriptorSizes(kind);
    WritableItems(kind, parts);
  }

  /** A message the wire can carry. */
  ghost predicate WellFormed(kind: Kind, parts: seq<Part>, p: nat) {
    PartsFit(kind, parts, p) && PayloadBytes(kind, parts) < TWO64
  }

  // ----- Parsing what was written -----

  lemma {:induction false} ScanOfRecords(kind: Kind, parts: seq<Part>, p: nat, itemOffset: nat, valueOffset: nat)
    requires PartsFit(kind, parts, p)
    requires itemOffset + |Items(parts)| < TWO64 && valueOffset + |Values(parts)| < TWO64
    ensures Shaped(kind, Records(parts))
    ensures var r := Scan(kind, Records(parts), itemOffset, valueOffset);
            && r.Scanned? && |r.metas| == |parts|
            && r.itemTotal == itemOffset + |Items(parts)| && r.fieldTotal == valueOffset + |Values(parts)|
            && forall i | 0 <= i < |parts| :: MetaOf(r.metas[i], parts, i, itemOffset, valueOffset)
    decreases |parts|
  {
    RecordsShaped(kind, parts, p);
    hide RecordFits, TableFits, CanonicalWords, MetaOf, PartFits;
    if parts != [] {
      var rest := parts[1..];
      ScanStep(kind, parts, p, itemOffset, valueOffset);
      ScanOfRecords(kind, rest, p, itemOffset + |parts[0].items|, valueOffset + |parts[0].values|);
      hide Scan, Items, Values, Records, PartsFit;
      var r := Scan(kind, Records(parts), itemOffset, valueOffset);
      var tail := Scan(kind, Records(rest), itemOffset + |parts[0].items|, valueOffset + |parts[0].values|);
      FirstMeta(r.metas[0], parts, itemOffset, valueOffset);
      assert r.metas[1..] == tail.metas;
      MetasShift(r.metas, tail.metas, parts, itemOffset, valueOffset);
    }
  }

  lemma MetasShift(metas: seq<Meta>, tail: seq<Meta>, parts: seq<Part>, itemOffset: nat, valueOffset: nat)
    requires parts != [] && |tail| == |parts| - 1 && |metas| == |parts| && metas[1..] == tail
    requires forall i | 0 <= i < |tail| ::
               MetaOf(tail[i], parts[1..], i, itemOffset + |parts[0].items|, valueOffset + |parts[0].values|)
    ensures forall i | 0 < i < |parts| :: MetaOf(metas[i], parts, i, itemOffset, valueOffset)
  {
    hide MetaOf;
    forall i | 0 < i < |parts| ensures MetaOf(metas[i], parts, i, itemOffset, valueOffset) {
      assert metas[i] == tail[i - 1];
      MetaShifts(tail[i - 1], parts, i, itemOffset, valueOffset);
    }
  }

  lemma {:induction false} ScanStep(kind: Kind, parts: seq<Part>, p: nat, itemOffset: nat, valueOffset: nat)
    requires parts != [] && PartFits(kind, parts[0], p)
    requires Shaped(kind, Records(parts)) && Shaped(kind, Records(parts[1..]))
    requires itemOffset + |parts[0].items| < TWO64 && valueOffset + |parts[0].values| < TWO64
    ensures Scan(kind, Records(parts), itemOffset, valueOffset)
            == PrependMeta(Meta(parts[0].record, itemOffset, |parts[0].items|, valueOffset, |parts[0].values|),
                           Scan(kind, Records(parts[1..]), itemOffset + |parts[0].items|, valueOffset + |parts[0].values|))
  {
    hide RowOf, RecordFits, TableFits, CanonicalWords;
    assert Records(parts)[1..] == Records(parts[1..]);
  }

  lemma FirstMeta(meta: Meta, parts: seq<Part>, itemOffset: nat, valueOffset: nat)
    requires parts != []
    requires meta == Meta(parts[0].record, itemOffset, |parts[0].items|, valueOffset, |parts[0].values|)
    ensures MetaOf(meta, parts, 0, itemOffset, valueOffset)
  {
    assert parts[..0] == [];
  }

  lemma MetaShifts(meta: Meta, parts: seq<Part>, i: nat, itemOffset: nat, valueOffset: nat)
    requires 0 < i < |parts|
    requires MetaOf(meta, parts[1..], i - 1, itemOffset + |parts[0].items|, valueOffset + |parts[0].values|)
    ensures MetaOf(meta, parts, i, itemOffset, valueOffset)
  {
    assert parts[1..][..i - 1] == parts[..i][1..] && parts[..i][0] == parts[0];
  }

  lemma RecordsShaped(kind: Kind, parts: seq<Part>, p: nat)
    requires PartsFit(kind, parts, p)
    ensures Shaped(kind, Records(parts))
  {
    forall i | 0 <= i < |parts| ensures |Records(parts)[i]| == |EntryWidths(kind)| { assert PartFits(kind, parts[i], p); }
  }

  ghost predicate MetaOf(meta: Meta, parts: seq<Part>, i: nat, itemOffset: nat, valueOffset: nat)
    requires i < |parts|
  {
    && meta.record == parts[i].record
    && meta.itemOffset == itemOffset + |Items(parts[..i])| && meta.items == |parts[i].items|
    && meta.valueOffset == valueOffset + |Values(parts[..i])| && meta.fields == |parts[i].values|
  }

  lemma {:induction false} PartsConcat(a: seq<Part>, b: seq<Part>)
    ensures Items(a + b) == Items(a) + Items(b) && Values(a + b) == Values(a) + Values(b)
    decreases |a|
  {
    if a == [] {
      assert a + b == b;
    } else {
      PartsConcat(a[1..], b);
      assert (a + b)[1..] == a[1..] + b && (a + b)[0] == a[0];
    }
  }

  lemma OnePart(part: Part)
    ensures Items([part]) == part.items && Values([part]) == part.values
  {
    assert [part][1..] == [];
  }

  /** What part `i` owns sits right after what the parts before it own. */
  lemma {:induction false} ItemsSlice(parts: seq<Part>, i: nat)
    requires i < |parts|
    ensures |Items(parts[..i])| + |parts[i].items| <= |Items(parts)|
    ensures Items(parts)[|Items(parts[..i])|..|Items(parts[..i])| + |parts[i].items|] == parts[i].items
    ensures |Values(parts[..i])| + |parts[i].values| <= |Values(parts)|
    ensures Values(parts)[|Values(parts[..i])|..|Values(parts[..i])| + |parts[i].values|] == parts[i].values
  {
    hide Items, Values;
    var before, after := parts[..i], parts[i + 1..];
    assert parts == before + [parts[i]] + after;
    PartsConcat(before + [parts[i]], after);
    PartsConcat(before, [parts[i]]);
    OnePart(parts[i]);
  }

  lemma Pow8()
    ensures Pow(256, 8) == TWO64
  {
    WordPower();
    PowAdd(256, 4, 4);
  }

  lemma {:induction false} SummaryFits(kind: Kind, parts: seq<Part>)
    requires |parts| < TWO64 && |Items(parts)| < TWO64
    ensures RecordFits(SummaryWidths(kind), Summary(kind, parts))
  {
    Pow8();
  }

  lemma Seam(a: seq<Byte>, b: seq<Byte>)
    ensures (a + b)[..|a|] == a && (a + b)[|a|..] == b
  {
  }

  lemma {:induction false} ParseSummary(kind: Kind, parts: seq<Part>, rest: seq<Byte>)
    requires |parts| < TWO64 && |Items(parts)| < TWO64 && (kind.UploadKind? ==> Items(parts) == [])
    ensures ParsePlan(kind, EncodeRecord(SummaryWidths(kind), Summary(kind, parts)) + rest)
            == ParseTables(kind, |parts|, |Items(parts)|, rest)
  {
    hide EncodeRecord, DecodeRecord;
    DescriptorSizes(kind);
    SummaryFits(kind, parts);
    RecordRoundTrip(SummaryWidths(kind), Summary(kind, parts));
    Seam(EncodeRecord(SummaryWidths(kind), Summary(kind, parts)), rest);
  }

  lemma {:induction false} ParseEntryTable(kind: Kind, records: seq<seq<nat>>, total: nat, rest: seq<Byte>, scan: ScanResult)
    requires TableFits(EntryWidths(kind), records) && Shaped(kind, records)
    requires scan == Scan(kind, records, 0, 0) && scan.Scanned? && scan.itemTotal == total
    requires |records| * EntryBytes(kind) + total * ItemBytes(kind) < TWO64 && total * ItemBytes(kind) <= |rest|
    ensures ParseTables(kind, |records|, total, EncodeTable(EntryWidths(kind), records) + rest)
            == ParseItems(kind, scan.metas, total, scan.fieldTotal, rest)
  {
    hide EncodeTable, DecodeTable, Scan, ParseItems;
    DescriptorSizes(kind);
    TableRoundTrip(EntryWidths(kind), records);
    Seam(EncodeTable(EntryWidths(kind), records), rest);
  }

  lemma {:induction false} ParseItemTable(kind: Kind, metas: seq<Meta>, items: seq<seq<nat>>, values: seq<nat>)
    requires TableFits(ItemWidths(kind), items) && 4 * |values| < TWO64
    ensures |items| * ItemBytes(kind) == |EncodeTable(ItemWidths(kind), items)|
    ensures ParseItems(kind, metas, |items|, |values|, EncodeTable(ItemWidths(kind), items) + EncodeFields(values))
            == Planned(Plan(metas, items, |values|), EncodeFields(values))
  {
    hide EncodeTable, DecodeTable, EncodeFields;
    DescriptorSizes(kind);
    TableRoundTrip(ItemWidths(kind), items);
    Seam(EncodeTable(ItemWidths(kind), items), EncodeFields(values));
  }

  /** Planning a written payload recovers its descriptors. */
  lemma {:induction false} PlanOfEncoded(kind: Kind, parts: seq<Part>, p: nat)
    requires WellFormed(kind, parts, p)
    ensures Writable(kind, parts)
    ensures var r := ParsePlan(kind, Encode(kind, parts));
            && r.Planned? && r.values == EncodeFields(Values(parts))
            && r.plan.items == Items(parts) && r.plan.valueFields == |Values(parts)| && |r.plan.metas| == |parts|
            && forall i | 0 <= i < |parts| :: MetaOf(r.plan.metas[i], parts, i, 0, 0)
  {
    hide MetaOf, PartsFit, Scan, ParsePlan, ParseTables, ParseItems, EncodeTable, EncodeRecord, EncodeFields, Items, Values;
    DescriptorSizes(kind);
    FittingIsWritable(kind, parts, p);
    ItemsFit(kind, parts, p);
    RecordsFit(kind, parts, p);
    ItemCount(kind, parts, p);
    ScanOfRecords(kind, parts, p, 0, 0);
    var scan := Scan(kind, Records(parts), 0, 0);
    var b := EncodeTable(EntryWidths(kind), Records(parts));
    var c, d := EncodeTable(ItemWidths(kind), Items(parts)), EncodeFields(Values(parts));
    var a := EncodeRecord(SummaryWidths(kind), Summary(kind, parts));
    assert Encode(kind, parts) == a + (b + (c + d));
    ParseSummary(kind, parts, b + (c + d));
    ParseEntryTable(kind, Records(parts), |Items(parts)|, c + d, scan);
    ParseItemTable(kind, scan.metas, Items(parts), Values(parts));
  }

  lemma {:induction false} ItemCount(kind: Kind, parts: seq<Part>, p: nat)
    requires WellFormed(kind, parts, p)
    ensures |parts| < TWO64 && |Items(parts)| < TWO64
  {
    ItemsFit(kind, parts, p);
  }

  lemma RecordsFit(kind: Kind, parts: seq<Part>, p: nat)
    requires PartsFit(kind, parts, p)
    ensures TableFits(EntryWidths(kind), Records(parts))
  {
    forall i | 0 <= i < |parts| ensures RecordFits(EntryWidths(kind), Records(parts)[i]) {
      assert PartFits(kind, parts[i], p);
    }
  }

  lemma {:induction false} PartOfMeta(meta: Meta, parts: seq<Part>, i: nat)
    requires i < |parts| && MetaOf(meta, parts, i, 0, 0)
    ensures InRange(meta, |Items(parts)|, |Values(parts)|) && PartAt(meta, Items(parts), Values(parts)) == parts[i]
  {
    ItemsSlice(parts, i);
  }

  /** Decoding what was written gives back what was written. */
  lemma ParseInvertsEncode(kind: Kind, parts: seq<Part>, p: nat)
    requires WellFormed(kind, parts, p) && p <= TWO32
    ensures Writable(kind, parts) && ParseMessage(kind, Encode(kind, parts), p) == Decoded(parts)
  {
    hide Encode, ParsePlan, DecodeWords, EncodeFields;
    PlanOfEncoded(kind, parts, p);
    var payload := Encode(kind, parts);
    PlanRanges(kind, payload);
    ItemsFit(kind, parts, p);
    FieldsRoundTrip(Values(parts), p);
    var plan := ParsePlan(kind, payload).plan;
    var decoded := PartsAt(plan.metas, plan.items, Values(parts));
    hide MetaOf, PartAt, Items, Values, Tiles, PayloadBytes, InRange, RangesFit, PartFits;
    forall i | 0 <= i < |parts| ensures decoded[i] == parts[i] { PartOfMeta(plan.metas[i], parts, i); }
    assert decoded == parts;
  }

  // ----- Writing what was parsed -----

  /** Each scanned descriptor declared exactly the ranges it was given. */
  lemma {:induction false} ScanRows(kind: Kind, records: seq<seq<nat>>, itemOffset: nat, valueOffset: nat, i: nat)
    requires Shaped(kind, records) && Scan(kind, records, itemOffset, valueOffset).Scanned? && i < |records|
    ensures var metas := Scan(kind, records, itemOffset, valueOffset).metas;
            |metas| == |records| && metas[i].record == records[i]
            && RowOf(kind, records[i]) == Row(metas[i].items, metas[i].fields)
    decreases |records|
  {
    hide RowOf;
    ScanTiles(kind, records, itemOffset, valueOffset);
    if i > 0 {
      var row := RowOf(kind, records[0]);
      ScanRows(kind, records[1..], itemOffset + row.items, valueOffset + row.fields, i - 1);
    }
  }

  /** Consecutive ranges cut the tables into pieces that add up again. */
  lemma {:induction false} PiecesAddUp(metas: seq<Meta>, items: seq<seq<nat>>, words: seq<nat>, itemOffset: nat, valueOffset: nat)
    requires Tiles(metas, itemOffset, valueOffset, |items|, |words|)
    ensures itemOffset <= |items| && valueOffset <= |words|
    ensures forall i | 0 <= i < |metas| :: InRange(metas[i], |items|, |words|)
    ensures Items(PartsAt(metas, items, words)) == items[itemOffset..]
    ensures Values(PartsAt(metas, items, words)) == words[valueOffset..]
    decreases |metas|
  {
    forall i | 0 <= i < |metas| ensures InRange(metas[i], |items|, |words|) {
      TilesInRange(metas, itemOffset, valueOffset, |items|, |words|, i);
    }
    TilesGrow(metas, itemOffset, valueOffset, |items|, |words|);
    if metas != [] {
      var parts, rest := PartsAt(metas, items, words), PartsAt(metas[1..], items, words);
      PiecesAddUp(metas[1..], items, words, itemOffset + metas[0].items, valueOffset + metas[0].fields);
      assert parts[1..] == rest;
      assert parts[0] == PartAt(metas[0], items, words);
      Rejoin(items, itemOffset, metas[0].items);
      Rejoin(words, valueOffset, metas[0].fields);
    }
  }

  lemma Rejoin<T>(s: seq<T>, start: nat, length: nat)
    requires start + length <= |s|
    ensures s[start..start + length] + s[start + length..] == s[start..]
  {
  }

  lemma PieceFits(kind: Kind, meta: Meta, items: seq<seq<nat>>, words: seq<nat>, p: nat)
    requires RecordFits(EntryWidths(kind), meta.record) && RowOf(kind, meta.record) == Row(meta.items, meta.fields)
    requires InRange(meta, |items|, |words|) && TableFits(ItemWidths(kind), items) && CanonicalWords(words, p)
    ensures PartFits(kind, PartAt(meta, items, words), p)
  {
    hide RowOf, RecordFits;
  }

  /** The parts of an accepted payload fit the layout. */
  lemma {:induction false} PiecesFit(kind: Kind, records: seq<seq<nat>>, items: seq<seq<nat>>, words: seq<nat>, p: nat, scan: ScanResult)
    requires Shaped(kind, records) && TableFits(EntryWidths(kind), records) && TableFits(ItemWidths(kind), items)
    requires CanonicalWords(words, p) && scan == Scan(kind, records, 0, 0)
    requires scan.Scanned? && scan.itemTotal == |items| && scan.fieldTotal == |words|
    ensures forall i | 0 <= i < |scan.metas| :: InRange(scan.metas[i], |items|, |words|)
    ensures var parts := PartsAt(scan.metas, items, words);
            PartsFit(kind, parts, p) && Records(parts) == records && Items(parts) == items && Values(parts) == words
  {
    hide RowOf, RecordFits, PartFits, Scan, CanonicalWords, Items, Values;
    ScanTiles(kind, records, 0, 0);
    PiecesAddUp(scan.metas, items, words, 0, 0);
    assert items[0..] == items && words[0..] == words;
    var parts := PartsAt(scan.metas, items, words);
    forall i | 0 <= i < |parts| ensures PartFits(kind, parts[i], p) && parts[i].record == records[i] {
      ScanRows(kind, records, 0, 0, i);
      PieceFits(kind, scan.metas[i], items, words, p);
    }
    assert Records(parts) == records;
  }

  /** The four regions of a payload with the given counts. */
  datatype Regions = Regions(head: seq<Byte>, entries: seq<Byte>, items: seq<Byte>, values: seq<Byte>)

  function Counts(kind: Kind, payload: seq<Byte>): (nat, nat)
    requires |payload| >= SummaryBytes(kind)
  {
    DescriptorSizes(kind);
    var summary := DecodeRecord(SummaryWidths(kind), payload[..SummaryBytes(kind)]);
    (summary[0], ItemTotal(kind, summary))
  }

  /** The tables and the region of an accepted payload add up. */
  lemma SizesFit(kind: Kind, payload: seq<Byte>)
    requires ParsePlan(kind, payload).Planned?
    ensures |payload| >= SummaryBytes(kind)
    ensures var (count, total) := Counts(kind, payload);
            var left := |payload| - SummaryBytes(kind) - count * EntryBytes(kind) - total * ItemBytes(kind);
            left >= 0 && left % 4 == 0
  {
    hide Scan, DecodeTable, DecodeRecord;
    DescriptorSizes(kind);
  }

  lemma JoinFour(a: seq<Byte>, b: seq<Byte>, c: seq<Byte>, d: seq<Byte>, whole: seq<Byte>, afterA: seq<Byte>, afterB: seq<Byte>)
    requires whole == a + afterA && afterA == b + afterB && afterB == c + d
    ensures a + b + c + d == whole
  {
    assert a + (b + (c + d)) == a + b + c + d;
  }

  function Cut(payload: seq<Byte>, s: nat, e: nat, i: nat): (r: Regions)
    requires s + e + i <= |payload|
    ensures |r.head| == s && |r.entries| == e && |r.items| == i && |r.values| == |payload| - s - e - i
    ensures r.head + r.entries + r.items + r.values == payload
  {
    var rest := payload[s..];
    JoinFour(payload[..s], rest[..e], rest[e..][..i], rest[e..][i..], payload, rest, rest[e..]);
    Regions(payload[..s], rest[..e], rest[e..][..i], rest[e..][i..])
  }

  function RegionsOf(kind: Kind, payload: seq<Byte>): (r: Regions)
    requires ParsePlan(kind, payload).Planned?
    ensures |payload| >= SummaryBytes(kind) && |r.head| == SummaryBytes(kind) && |r.values| % 4 == 0
    ensures |r.entries| == Counts(kind, payload).0 * EntryBytes(kind) && |r.items| == Counts(kind, payload).1 * ItemBytes(kind)
    ensures r.head + r.entries + r.items + r.values == payload
  {
    SizesFit(kind, payload);
    Cut(payload, SummaryBytes(kind), Counts(kind, payload).0 * EntryBytes(kind), Counts(kind, payload).1 * ItemBytes(kind))
  }

  /** What an accepted payload's plan is made of. */
  lemma {:induction false} PlanFromRegions(kind: Kind, payload: seq<Byte>)
    requires ParsePlan(kind, payload).Planned?
    ensures var regions, plan := RegionsOf(kind, payload), ParsePlan(kind, payload);
            var (count, total) := Counts(kind, payload);
            && RecordBytes(EntryWidths(kind)) == EntryBytes(kind) && RecordBytes(ItemWidths(kind)) == ItemBytes(kind)
            && RecordBytes(SummaryWidths(kind)) == SummaryBytes(kind)
            && plan.values == regions.values
            && plan.plan.items == DecodeTable(ItemWidths(kind), total, regions.items)
            && Scan(kind, DecodeTable(EntryWidths(kind), count, regions.entries), 0, 0)
               == Scanned(plan.plan.metas, total, plan.plan.valueFields)
  {
    hide Scan, DecodeTable, DecodeRecord;
    DescriptorSizes(kind);
  }

  lemma {:induction false} HeadIsSummary(kind: Kind, payload: seq<Byte>, parts: seq<Part>)
    requires ParsePlan(kind, payload).Planned?
    requires |parts| == Counts(kind, payload).0 && |Items(parts)| == Counts(kind, payload).1
    ensures EncodeRecord(SummaryWidths(kind), Summary(kind, parts)) == RegionsOf(kind, payload).head
  {
    hide DecodeRecord, EncodeRecord;
    DescriptorSizes(kind);
    BytesRoundTrip(SummaryWidths(kind), payload[..SummaryBytes(kind)]);
    assert Summary(kind, parts) == DecodeRecord(SummaryWidths(kind), payload[..SummaryBytes(kind)]);
  }

  /** Re-encoding the views of any accepted payload reproduces it byte for byte. */
  lemma EncodeInvertsParse(kind: Kind, payload: seq<Byte>, p: nat)
    requires |payload| < TWO64 && ParseMessage(kind, payload, p).Decoded?
    ensures var parts := ParseMessage(kind, payload, p).parts;
            WellFormed(kind, parts, p) && Writable(kind, parts) && Encode(kind, parts) == payload
  {
    hide RowOf, Scan, PartsFit, TableFits, Items, Values, EncodeTable, EncodeRecord, EncodeFields, DecodeWords, DecodeTable,
         DecodeRecord, ParsePlan, Counts, RegionsOf, Summary;
    PlanFromRegions(kind, payload);
    var regions, plan := RegionsOf(kind, payload), ParsePlan(kind, payload).plan;
    var (count, total) := Counts(kind, payload);
    var records := DecodeTable(EntryWidths(kind), count, regions.entries);
    var words := DecodeWords(regions.values);
    TableBytesRoundTrip(EntryWidths(kind), count, regions.entries);
    TableBytesRoundTrip(ItemWidths(kind), total, regions.items);
    FieldBytesRoundTrip(regions.values);
    PiecesFit(kind, records, plan.items, words, p, Scan(kind, records, 0, 0));
    var parts := PartsAt(plan.metas, plan.items, words);
    assert ParseMessage(kind, payload, p) == Decoded(parts);
    HeadIsSummary(kind, payload, parts);
    FittingIsWritable(kind, parts, p);
    EncodedLength(kind, parts);
  }
}
