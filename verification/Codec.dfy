/** Planning, decoding and writing of the table-first messages, over reused
    workspaces. */
module Codec {
  import opened Arithmetic
  import opened Bytes
  import opened CodecLaws
  import opened Encryption
  import opened Frame
  import opened Layout

  // ----- Planning -----

  function PrependMetas(metas: seq<Meta>, r: ScanResult): ScanResult {
    match r case ScanFailed(e) => ScanFailed(e) case Scanned(rest, it, ft) => Scanned(metas + rest, it, ft)
  }

  lemma FirstRecord(kind: Kind, count: nat, table: seq<Byte>, metas: seq<Meta>, itemOffset: nat, valueOffset: nat)
    requires count > 0 && |table| == count * EntryBytes(kind) && RecordBytes(EntryWidths(kind)) == EntryBytes(kind)
    ensures |table| >= EntryBytes(kind) && |table[EntryBytes(kind)..]| == (count - 1) * EntryBytes(kind)
    ensures var record := DecodeRecord(EntryWidths(kind), table[..EntryBytes(kind)]);
            var whole := Scan(kind, DecodeTable(EntryWidths(kind), count, table), itemOffset, valueOffset);
            match RowOf(kind, record)
            case BadRow(error) => whole == ScanFailed(error)
            case Row(items, fields) =>
              if itemOffset + items >= TWO64 || valueOffset + fields >= TWO64 then whole == ScanFailed(DimensionOverflow)
              else
                var rest := Scan(kind, DecodeTable(EntryWidths(kind), count - 1, table[EntryBytes(kind)..]),
                                 itemOffset + items, valueOffset + fields);
                PrependMetas(metas, whole)
                == PrependMetas(metas + [Meta(record, itemOffset, items, valueOffset, fields)], rest)
  {
    hide DecodeRecord, RowOf;
    TableRoom(count, EntryBytes(kind));
    var rows := DecodeTable(EntryWidths(kind), count, table);
    var record := DecodeRecord(EntryWidths(kind), table[..EntryBytes(kind)]);
    assert rows == [record] + DecodeTable(EntryWidths(kind), count - 1, table[EntryBytes(kind)..]);
    assert rows[1..] == DecodeTable(EntryWidths(kind), count - 1, table[EntryBytes(kind)..]);
    match RowOf(kind, record)
    case BadRow(_) =>
    case Row(items, fields) =>
      var rest := Scan(kind, rows[1..], itemOffset + items, valueOffset + fields);
      if rest.Scanned? {
        var meta := Meta(record, itemOffset, items, valueOffset, fields);
        assert metas + ([meta] + rest.metas) == (metas + [meta]) + rest.metas;
      }
  }

  /** What is left of a table after `n` of its bytes. */
  lemma TableTail(input: seq<Byte>, now: seq<Byte>, done: nat, size: nat, w: nat)
    requires done + size <= |input| && now == input[done..] && w <= size
    ensures now[..size][..w] == now[..w] && now[..size][w..] == now[w..][..size - w]
    ensures now[w..] == input[done + w..]
  {
  }

  /** Reads and validates the entry descriptors one by one. */
  method ReadEntries(kind: Kind, frame: FrameReader, count: nat) returns (r: ScanResult)
    requires count * EntryBytes(kind) <= frame.remaining
    modifies frame, frame.inner
    ensures |old(frame.inner.input)| < count * EntryBytes(kind) ==> r.ScanFailed?
    ensures r.Scanned? ==> frame.Advanced(old(frame.inner.input), old(frame.remaining), count * EntryBytes(kind))
    ensures |old(frame.inner.input)| >= count * EntryBytes(kind) ==>
              RecordBytes(EntryWidths(kind)) == EntryBytes(kind)
              && r == Scan(kind, DecodeTable(EntryWidths(kind), count, old(frame.inner.input)[..count * EntryBytes(kind)]), 0, 0)
  {
    hide Scan, RowOf, DecodeTable, DecodeRecord;
    DescriptorSizes(kind);
    ghost var input, before, whole := frame.inner.input, frame.remaining, count * EntryBytes(kind);
    var w := EntryBytes(kind);
    var metas: seq<Meta> := [];
    var itemOffset, valueOffset, i := 0, 0, 0;
    ghost var done := 0;
    if |input| >= whole { PrependNothing(Scan(kind, DecodeTable(EntryWidths(kind), count, input[..whole]), 0, 0)); }
    while i < count
      invariant 0 <= i <= count && done + (count - i) * w == whole && 0 <= done
      invariant frame.Advanced(input, before, done)
      invariant itemOffset < TWO64 && valueOffset < TWO64
      invariant |input| >= whole ==>
                  Scan(kind, DecodeTable(EntryWidths(kind), count, input[..whole]), 0, 0)
                  == PrependMetas(metas, Scan(kind, DecodeTable(EntryWidths(kind), count - i, frame.inner.input[..(count - i) * w]),
                                              itemOffset, valueOffset))
    {
      TableRoom(count - i, w);
      ghost var table := frame.inner.input[..Min((count - i) * w, |frame.inner.input|)];
      if |input| >= whole {
        FirstRecord(kind, count - i, table, metas, itemOffset, valueOffset);
        TableTail(input, frame.inner.input, done, (count - i) * w, w);
      }
      var record := frame.ReadRecord(EntryWidths(kind));
      if record.NoRecord? { return ScanFailed(TruncatedFrame); }
      match RowOf(kind, record.record) {
        case BadRow(error) => return ScanFailed(error);
        case Row(items, fields) =>
          if itemOffset + items >= TWO64 || valueOffset + fields >= TWO64 { return ScanFailed(DimensionOverflow); }
          metas := metas + [Meta(record.record, itemOffset, items, valueOffset, fields)];
          itemOffset, valueOffset := itemOffset + items, valueOffset + fields;
      }
      done := done + w;
      i := i + 1;
    }
    r := Scanned(metas, itemOffset, valueOffset);
    if |input| >= whole { ScanNothing(kind, metas, itemOffset, valueOffset, frame.inner.input[..0]); }
  }

  lemma PrependNothing(r: ScanResult)
    ensures PrependMetas([], r) == r
  {
  }

  lemma {:induction false} ScanNothing(kind: Kind, metas: seq<Meta>, itemOffset: nat, valueOffset: nat, table: seq<Byte>)
    requires table == []
    ensures PrependMetas(metas, Scan(kind, DecodeTable(EntryWidths(kind), 0, table), itemOffset, valueOffset))
            == Scanned(metas, itemOffset, valueOffset)
  {
    assert metas + [] == metas;
  }

  datatype TableResult = Table(rows: seq<seq<nat>>) | NoTable

  /** Reads the secondary descriptors. */
  method ReadItems(kind: Kind, frame: FrameReader, count: nat) returns (r: TableResult)
    requires count * ItemBytes(kind) <= frame.remaining && (kind.UploadKind? ==> count == 0)
    modifies frame, frame.inner
    ensures r.Table? <==> |old(frame.inner.input)| >= count * ItemBytes(kind)
    ensures r.Table? ==>
              && frame.Advanced(old(frame.inner.input), old(frame.remaining), count * ItemBytes(kind))
              && RecordBytes(ItemWidths(kind)) == ItemBytes(kind)
              && r.rows == DecodeTable(ItemWidths(kind), count, old(frame.inner.input)[..count * ItemBytes(kind)])
  {
    hide DecodeTable, DecodeRecord, RecordBytes, ItemWidths;
    DescriptorSizes(kind);
    ghost var input, before, whole := frame.inner.input, frame.remaining, count * ItemBytes(kind);
    var w := ItemBytes(kind);
    var rows: seq<seq<nat>> := [];
    var i := 0;
    ghost var done := 0;
    while i < count
      invariant 0 <= i <= count && done + (count - i) * w == whole && 0 <= done
      invariant frame.Advanced(input, before, done)
      invariant |input| >= whole ==>
                  DecodeTable(ItemWidths(kind), count, input[..whole])
                  == rows + DecodeTable(ItemWidths(kind), count - i, frame.inner.input[..(count - i) * w])
    {
      TableRoom(count - i, w);
      if |input| >= whole {
        FirstRow(ItemWidths(kind), count - i, frame.inner.input[..(count - i) * w], rows);
        TableTail(input, frame.inner.input, done, (count - i) * w, w);
      }
      var record := frame.ReadRecord(ItemWidths(kind));
      if record.NoRecord? { return NoTable; }
      rows := rows + [record.record];
      done := done + w;
      i := i + 1;
    }
    r := Table(rows);
    if |input| >= whole { NoRows(ItemWidths(kind), rows, frame.inner.input[..0]); }
  }

  lemma FirstRow(widths: seq<Width>, count: nat, table: seq<Byte>, rows: seq<seq<nat>>)
    requires count > 0 && |table| == count * RecordBytes(widths)
    ensures |table| >= RecordBytes(widths) && |table[RecordBytes(widths)..]| == (count - 1) * RecordBytes(widths)
    ensures rows + DecodeTable(widths, count, table)
            == rows + [DecodeRecord(widths, table[..RecordBytes(widths)])]
               + DecodeTable(widths, count - 1, table[RecordBytes(widths)..])
  {
    TableRoom(count, RecordBytes(widths));
  }

  lemma {:induction false} NoRows(widths: seq<Width>, rows: seq<seq<nat>>, table: seq<Byte>)
    requires table == []
    ensures rows + DecodeTable(widths, 0, table) == rows
  {
  }

  datatype FramePlan = PlanOk(plan: Plan) | PlanErr(error: CodecError)

  /** The plan a complete payload leads to; `refused` is the allocator saying no
      to the descriptor metadata. */
  ghost predicate PlansLike(r: FramePlan, outcome: PlanOutcome, refused: bool) {
    || (refused && r == PlanErr(AllocationFailed))
    || (match outcome case Planned(plan, _) => r == PlanOk(plan) case PlanFailed(error) => r == PlanErr(error))
  }

  /** Reads both descriptor tables and verifies the exact byte budget, before
      anything is sized from untrusted counts. */
  method PlanFrame(kind: Kind, frame: FrameReader, refused: bool) returns (r: FramePlan)
    modifies frame, frame.inner
    ensures old(frame.Whole()) ==> PlansLike(r, ParsePlan(kind, old(frame.Payload())), refused)
    ensures r.PlanOk? ==>
              && frame.remaining == 4 * r.plan.valueFields <= old(frame.remaining) && frame.remaining < TWO64
              && frame.Advanced(old(frame.inner.input), old(frame.remaining), old(frame.remaining) - frame.remaining)
              && Tiles(r.plan.metas, 0, 0, |r.plan.items|, r.plan.valueFields)
    ensures old(frame.Whole()) && r.PlanOk? ==>
              ParsePlan(kind, old(frame.Payload())) == Planned(r.plan, frame.Payload())
  {
    hide DecodeRecord, ParseTables, ParsePlan, Tiles, RecordBytes, SummaryWidths, SummaryBytes;
    DescriptorSizes(kind);
    ghost var input, before, whole := frame.inner.input, frame.remaining, frame.Whole();
    if whole { SummaryOfPayload(kind, input, before); }
    var summary := frame.ReadRecord(SummaryWidths(kind));
    if summary.NoRecord? { return PlanErr(TruncatedFrame); }
    SummaryShape(kind);
    var count, total := summary.record[0], ItemTotal(kind, summary.record);
    r := PlanTables(kind, frame, count, total, refused);
    if r.PlanOk? { AdvancedTwice(frame, input, before, SummaryBytes(kind), before - SummaryBytes(kind) - frame.remaining); }
  }

  lemma SummaryShape(kind: Kind)
    ensures |SummaryWidths(kind)| >= 1 && (!kind.UploadKind? ==> |SummaryWidths(kind)| == 2)
  {
  }

  /** Planning a payload starts by reading its summary off the stream. */
  lemma SummaryOfPayload(kind: Kind, input: seq<Byte>, before: nat)
    requires before <= |input|
    ensures RecordBytes(SummaryWidths(kind)) == SummaryBytes(kind) && |SummaryWidths(kind)| >= 1
    ensures before < SummaryBytes(kind) ==> ParsePlan(kind, input[..before]) == PlanFailed(TruncatedFrame)
    ensures before >= SummaryBytes(kind) ==>
              var record := DecodeRecord(SummaryWidths(kind), input[..SummaryBytes(kind)]);
              ParsePlan(kind, input[..before])
              == ParseTables(kind, record[0], ItemTotal(kind, record), input[SummaryBytes(kind)..][..before - SummaryBytes(kind)])
  {
    hide DecodeRecord, ParseTables;
    DescriptorSizes(kind);
    if before >= SummaryBytes(kind) { PrefixOfPrefix(input, before, SummaryBytes(kind)); }
  }

  lemma AdvancedTwice(frame: FrameReader, input: seq<Byte>, before: nat, first: nat, second: nat)
    requires first <= before && first <= |input| && frame.Advanced(input[first..], before - first, second)
    ensures frame.Advanced(input, before, first + second)
  {
    assert input[first..][second..] == input[first + second..];
  }

  method PlanTables(kind: Kind, frame: FrameReader, count: nat, total: nat, refused: bool) returns (r: FramePlan)
    requires kind.UploadKind? ==> total == 0
    modifies frame, frame.inner
    ensures old(frame.Whole()) ==> PlansLike(r, ParseTables(kind, count, total, old(frame.Payload())), refused)
    ensures r.PlanOk? ==>
              && frame.remaining == 4 * r.plan.valueFields <= old(frame.remaining) && frame.remaining < TWO64
              && frame.Advanced(old(frame.inner.input), old(frame.remaining), old(frame.remaining) - frame.remaining)
              && Tiles(r.plan.metas, 0, 0, |r.plan.items|, r.plan.valueFields)
    ensures old(frame.Whole()) && r.PlanOk? ==>
              ParseTables(kind, count, total, old(frame.Payload())) == Planned(r.plan, frame.Payload())
  {
    hide Scan, DecodeTable, Tiles, RecordBytes, EntryWidths, ItemWidths;
    DescriptorSizes(kind);
    var fit := DescriptorFit(kind, count, total, frame.remaining);
    if !fit.0 { return PlanErr(fit.1); }
    if refused { return PlanErr(AllocationFailed); }
    ghost var input, before, whole := frame.inner.input, frame.remaining, frame.Whole();
    ghost var payload := if whole then frame.Payload() else [];
    ghost var entries, table := count * EntryBytes(kind), total * ItemBytes(kind);
    var scan := ReadEntries(kind, frame, count);
    if whole { PrefixOfPrefix(input, before, entries); }
    if scan.ScanFailed? { return PlanErr(scan.error); }
    if |input| >= entries {
      ScanTiles(kind, DecodeTable(EntryWidths(kind), count, input[..entries]), 0, 0);
    }
    if scan.itemTotal != total { return PlanErr(CountMismatch(total, scan.itemTotal)); }
    ghost var afterEntries := frame.inner.input;
    var items := ReadItems(kind, frame, total);
    if items.NoTable? { return PlanErr(TruncatedFrame); }
    if whole { RegionSlices(input, before, entries, table); }
    var exact := ExactRegion(scan.fieldTotal, frame.remaining);
    if !exact.0 { return PlanErr(exact.1); }
    r := PlanOk(Plan(scan.metas, items.rows, scan.fieldTotal));
    assert input[entries..][table..] == input[entries + table..];
  }

  lemma PrefixOfPrefix(input: seq<Byte>, before: nat, n: nat)
    requires n <= before <= |input|
    ensures input[..before][..n] == input[..n]
    ensures input[..before][n..] == input[n..][..before - n]
  {
  }

  lemma RegionSlices(input: seq<Byte>, before: nat, entries: nat, table: nat)
    requires entries + table <= before <= |input|
    ensures input[..before][entries..][..table] == input[entries..][..table]
    ensures input[..before][entries..][table..] == input[entries..][table..][..before - entries - table]
  {
    assert input[..before][entries..] == input[entries..before];
  }

  // ----- Workspaces -----

  /** Which growth of a workspace the allocator refuses, if any. */
  datatype Refusal = NoRefusal | ArenaGrowth | EntryTable | ItemTable

  /** An arena plus the plan's scalar metadata, reused across frames. */
  class Workspace {
    var arena: array<nat>
    var metas: seq<Meta>
    var items: seq<seq<nat>>

    /** Every decoded range lies inside the arena. */
    ghost predicate Ready()
      reads this, arena
    {
      forall i | 0 <= i < |metas| :: InRange(metas[i], |items|, arena.Length)
    }

    /** The views: one part per entry, cut from the arena on access. */
    function Views(): (parts: seq<Part>)
      reads this, arena
      requires Ready()
    {
      PartsAt(metas, items, arena[..])
    }

    constructor ()
      ensures arena.Length == 0 && metas == [] && items == [] && fresh(arena)
    {
      arena := new nat[0];
      metas, items := [], [];
    }

    /** Grows the arena if needed, never shrinks it, and replaces the metadata.
        A refusal part-way leaves what was grown or replaced before it. */
    method Reserve(plan: Plan, refusal: Refusal) returns (r: Status)
      modifies this
      ensures r.Bad? ==> r.error == AllocationFailed && refusal != NoRefusal
      ensures r.Good? ==> metas == plan.metas && items == plan.items && arena.Length == Max(old(arena.Length), plan.valueFields)
      ensures arena.Length >= old(arena.Length) && arena[..old(arena.Length)] == old(arena[..])
      ensures arena == old(arena) || fresh(arena)
    {
      if arena.Length < plan.valueFields {
        if refusal.ArenaGrowth? { return Bad(AllocationFailed); }
        var contents := arena[..];
        arena := new nat[plan.valueFields](i requires 0 <= i => if i < |contents| then contents[i] else 0);
        assert arena[..|contents|] == contents;
      }
      if refusal.EntryTable? { return Bad(AllocationFailed); }
      metas := plan.metas;
      if refusal.ItemTable? { return Bad(AllocationFailed); }
      items := plan.items;
      r := Good;
    }

    /** Streams the value region into the arena, entry by entry, and proves the
        payload was consumed exactly. */
    method Decode(frame: FrameReader, plan: Plan, p: nat) returns (r: Status)
      requires metas == plan.metas && items == plan.items && arena.Length >= plan.valueFields
      requires Tiles(plan.metas, 0, 0, |plan.items|, plan.valueFields) && RangesFit(plan) && 4 * plan.valueFields < TWO64
      requires frame.remaining == 4 * plan.valueFields
      modifies frame, frame.inner, arena
      ensures Ready()
      ensures r.Good? ==> frame.remaining == 0 && frame.Advanced(old(frame.inner.input), old(frame.remaining), 4 * plan.valueFields)
      ensures old(frame.Whole()) ==>
                match ParseValues(plan, old(frame.Payload()), p)
                case Decoded(parts) => r.Good? && Views() == parts
                case DecodeFailed(error) => r == Bad(error)
    {
      hide FirstNonCanonical, DecodeWords, SameOutside;
      ghost var input, before, whole := frame.inner.input, frame.remaining, frame.Whole();
      RangesReady(plan.metas, |plan.items|, plan.valueFields, arena.Length);
      var i := 0;
      ghost var done: nat := 0;
      NoWords(p);
      while i < |metas|
        invariant 0 <= i <= |metas| && done <= plan.valueFields
        invariant i < |metas| ==> metas[i].valueOffset == done
        invariant i == |metas| ==> done == plan.valueFields
        invariant frame.Advanced(input, before, 4 * done)
        invariant CanonicalWords(DecodeWords(input[..4 * done]), p) && arena[..done] == DecodeWords(input[..4 * done])
      {
        var meta := metas[i];
        TilesInRange(plan.metas, 0, 0, |plan.items|, plan.valueFields, i);
        ghost var arenaBefore := arena[..];
        var read := frame.ReadFieldSlice(arena, meta.valueOffset, meta.fields, p);
        if read.Bad? {
          if whole { BadSlice(input, done, meta.fields, plan, p); }
          return read;
        }
        ChunkSplit(input, done, meta.fields, p);
        Extends(arenaBefore, arena[..], done, meta.fields);
        done := done + meta.fields;
        LastTile(plan, i);
        i := i + 1;
      }
      r := frame.Finish();
      if whole { AllDecoded(plan, input[..before], arena[..], p); }
    }

    /** Drops the decoded contents. */
    method Clear()
      modifies this
      ensures metas == [] && items == [] && arena.Length == 0
    {
      arena := new nat[0];
      metas, items := [], [];
    }
  }

  lemma {:induction false} RangesReady(metas: seq<Meta>, items: nat, fields: nat, length: nat)
    requires Tiles(metas, 0, 0, items, fields) && fields <= length
    ensures forall i | 0 <= i < |metas| :: InRange(metas[i], items, length)
    ensures metas != [] ==> metas[0].valueOffset == 0
    ensures metas == [] ==> fields == 0
  {
    forall i | 0 <= i < |metas| ensures InRange(metas[i], items, length) { TilesInRange(metas, 0, 0, items, fields, i); }
  }

  lemma {:induction false} TilesEnd(metas: seq<Meta>, itemOffset: nat, valueOffset: nat, itemEnd: nat, valueEnd: nat)
    requires Tiles(metas, itemOffset, valueOffset, itemEnd, valueEnd) && metas != []
    ensures metas[|metas| - 1].valueOffset + metas[|metas| - 1].fields == valueEnd
    decreases |metas|
  {
    if |metas| > 1 {
      TilesEnd(metas[1..], itemOffset + metas[0].items, valueOffset + metas[0].fields, itemEnd, valueEnd);
    } else {
      assert metas[1..] == [];
    }
  }

  lemma LastTile(plan: Plan, i: nat)
    requires Tiles(plan.metas, 0, 0, |plan.items|, plan.valueFields) && i < |plan.metas|
    ensures i + 1 < |plan.metas| ==> plan.metas[i + 1].valueOffset == plan.metas[i].valueOffset + plan.metas[i].fields
    ensures i + 1 == |plan.metas| ==> plan.metas[i].valueOffset + plan.metas[i].fields == plan.valueFields
  {
    TilesInRange(plan.metas, 0, 0, |plan.items|, plan.valueFields, i);
    TilesEnd(plan.metas, 0, 0, |plan.items|, plan.valueFields);
  }

  lemma Extends(before: seq<nat>, after: seq<nat>, done: nat, take: nat)
    requires SameOutside(before, after, done, take) && done + take <= |before|
    ensures after[..done + take] == before[..done] + after[done..done + take]
  {
  }

  lemma {:induction false} BadSlice(input: seq<Byte>, done: nat, fields: nat, plan: Plan, p: nat)
    requires RangesFit(plan) && done + fields <= plan.valueFields && 4 * plan.valueFields <= |input|
    requires CanonicalWords(DecodeWords(input[..4 * done]), p)
    requires !CanonicalWords(DecodeWords(input[4 * done..][..4 * fields]), p)
    ensures var chunk := DecodeWords(input[4 * done..][..4 * fields]);
            ParseValues(plan, input[..4 * plan.valueFields], p)
            == DecodeFailed(NonCanonicalField(chunk[FirstNonCanonical(chunk, p)]))
  {
    hide FirstNonCanonical, DecodeWords;
    ChunkBad(input, done, fields, plan.valueFields, p);
  }

  lemma {:induction false} AllDecoded(plan: Plan, region: seq<Byte>, arena: seq<nat>, p: nat)
    requires RangesFit(plan) && |region| == 4 * plan.valueFields && plan.valueFields <= |arena|
    requires CanonicalWords(DecodeWords(region), p) && arena[..plan.valueFields] == DecodeWords(region)
    requires forall i | 0 <= i < |plan.metas| :: InRange(plan.metas[i], |plan.items|, |arena|)
    ensures ParseValues(plan, region, p) == Decoded(PartsAt(plan.metas, plan.items, arena))
  {
    var words := DecodeWords(region);
    forall i | 0 <= i < |plan.metas|
      ensures PartAt(plan.metas[i], plan.items, arena) == PartAt(plan.metas[i], plan.items, words)
    {
      var m := plan.metas[i];
      assert arena[m.valueOffset..m.valueOffset + m.fields]
             == arena[..plan.valueFields][m.valueOffset..m.valueOffset + m.fields];
    }
    var a, b := PartsAt(plan.metas, plan.items, arena), PartsAt(plan.metas, plan.items, words);
    forall i | 0 <= i < |a| ensures a[i] == b[i] {
      assert a[i] == PartAt(plan.metas[i], plan.items, arena) && b[i] == PartAt(plan.metas[i], plan.items, words);
    }
    assert a == b;
  }

  lemma TilesFit(plan: Plan)
    requires Tiles(plan.metas, 0, 0, |plan.items|, plan.valueFields)
    ensures RangesFit(plan)
  {
    RangesReady(plan.metas, |plan.items|, plan.valueFields, plan.valueFields);
  }

  // ----- Decoding a whole payload -----

  /** Plan, reserve and decode one payload on a workspace with any history. The
      outcome is a function of the payload alone; success consumes exactly the
      declared bytes. */
  method DecodePayload(kind: Kind, frame: FrameReader, workspace: Workspace, refusedPlan: bool, refusal: Refusal, p: nat)
    returns (r: Status)
    modifies frame, frame.inner, workspace, workspace.arena
    ensures r.Good? ==> workspace.Ready()
    ensures r.Good? ==> old(frame.Whole()) && frame.remaining == 0 && frame.inner.input == old(frame.inner.input)[old(frame.remaining)..]
    ensures workspace.arena == old(workspace.arena) || fresh(workspace.arena)
    ensures old(frame.Whole()) ==> DecodesLike(r, workspace, ParseMessage(kind, old(frame.Payload()), p), refusedPlan || refusal != NoRefusal)
  {
    hide ParsePlan, ParseValues, Tiles;
    ghost var input, before, whole := frame.inner.input, frame.remaining, frame.Whole();
    ghost var payload := if whole then frame.Payload() else [];
    var planned := PlanFrame(kind, frame, refusedPlan);
    if planned.PlanErr? { return Bad(planned.error); }
    var plan := planned.plan;
    TilesFit(plan);
    r := workspace.Reserve(plan, refusal);
    if r.Bad? { return; }
    ghost var consumed := before - frame.remaining;
    r := workspace.Decode(frame, plan, p);
    if r.Good? { AdvancedTwice(frame, input, before, consumed, 4 * plan.valueFields); }
  }

  /** The views are the parsed message, or the error is the parse error; a
      refused allocation is the only other outcome. */
  ghost predicate DecodesLike(r: Status, workspace: Workspace, outcome: MessageOutcome, refused: bool)
    reads workspace, workspace.arena
  {
    || (refused && r == Bad(AllocationFailed))
    || (match outcome
        case Decoded(parts) => r.Good? && workspace.Ready() && workspace.Views() == parts
        case DecodeFailed(error) => r == Bad(error))
  }
}
