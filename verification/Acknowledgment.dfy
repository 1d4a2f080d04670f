/** The acknowledgment of an accepted upload: the identifier list and its bytes. */
module Acknowledgment {
  import opened Arithmetic
  import opened Bytes
  import opened Codec
  import opened CodecLaws
  import opened Frame
  import opened Layout

  function IdTable(identifiers: seq<nat>): (rows: seq<seq<nat>>)
    ensures |rows| == |identifiers| && forall i | 0 <= i < |rows| :: rows[i] == [identifiers[i]]
  {
    seq(|identifiers|, i requires 0 <= i < |identifiers| => [identifiers[i]])
  }

  lemma IdRows(identifiers: seq<nat>)
    ensures |EncodeTable([8], IdTable(identifiers))| == 8 * |identifiers|
  {
    assert RecordBytes([8]) == 8 by { assert [8][1..] == []; }
  }

  function EncodeIds(identifiers: seq<nat>): (b: seq<Byte>)
    ensures |b| == 8 + 8 * |identifiers|
  {
    IdRows(identifiers);
    LE(8, |identifiers|) + EncodeTable([8], IdTable(identifiers))
  }

  datatype IdsOutcome = Ids(identifiers: seq<nat>) | IdsFailed(error: CodecError)

  function FirstColumn(rows: seq<seq<nat>>): (ids: seq<nat>)
    requires forall i | 0 <= i < |rows| :: |rows[i]| == 1
    ensures |ids| == |rows|
  {
    seq(|rows|, i requires 0 <= i < |rows| => rows[i][0])
  }

  function ParseList(count: nat, table: seq<Byte>): IdsOutcome
    requires |table| == count * RecordBytes([8])
  {
    var identifiers := FirstColumn(DecodeTable([8], count, table));
    if 0 in identifiers then IdsFailed(InvalidDimensions) else Ids(identifiers)
  }

  /** The identifier list must fill the payload exactly and name no zero. */
  function ParseIds(payload: seq<Byte>): IdsOutcome {
    if |payload| < 8 then IdsFailed(TruncatedFrame)
    else
      var count := FromLE(payload[..8]);
      if 8 * count >= TWO64 then IdsFailed(DimensionOverflow)
      else if 8 * count < |payload| - 8 then IdsFailed(TrailingFrameBytes(|payload| - 8 - 8 * count))
      else if 8 * count > |payload| - 8 then IdsFailed(TruncatedFrame)
      else
        EightWide();
        ParseList(count, payload[8..])
  }

  ghost predicate IdsFit(identifiers: seq<nat>) {
    8 + 8 * |identifiers| < TWO64 && forall i | 0 <= i < |identifiers| :: 0 < identifiers[i] < TWO64
  }

  lemma IdRecords(identifiers: seq<nat>)
    requires IdsFit(identifiers)
    ensures TableFits([8], IdTable(identifiers))
  {
    EightBytes();
  }

  lemma ParseInvertsIds(identifiers: seq<nat>)
    requires IdsFit(identifiers)
    ensures ParseIds(EncodeIds(identifiers)) == Ids(identifiers)
  {
    hide LE, FromLE, EncodeTable, DecodeTable;
    EightBytes();
    LERoundTrip(8, |identifiers|);
    var a, b := LE(8, |identifiers|), EncodeTable([8], IdTable(identifiers));
    Seam(a, b);
    assert RecordBytes([8]) == 8 by { assert [8][1..] == []; }
    IdRecords(identifiers);
    TableRoundTrip([8], IdTable(identifiers));
    assert FirstColumn(IdTable(identifiers)) == identifiers;
  }

  /** An accepted acknowledgment re-encodes to its own bytes. */
  lemma IdsInvertParse(payload: seq<Byte>)
    requires ParseIds(payload).Ids?
    ensures EncodeIds(ParseIds(payload).identifiers) == payload
  {
    hide LE, FromLE, EncodeTable, DecodeTable;
    var count := FromLE(payload[..8]);
    assert RecordBytes([8]) == 8 by { assert [8][1..] == []; }
    FromLERoundTrip(payload[..8]);
    TableBytesRoundTrip([8], count, payload[8..]);
    var rows := DecodeTable([8], count, payload[8..]);
    var identifiers := FirstColumn(rows);
    assert IdTable(identifiers) == rows by {
      forall i | 0 <= i < |rows| ensures IdTable(identifiers)[i] == rows[i] { assert rows[i] == [rows[i][0]]; }
    }
    assert payload == payload[..8] + payload[8..];
  }

  lemma EightWide()
    ensures RecordBytes([8]) == 8
  {
    assert [8][1..] == [];
  }

  /** Reads the identifier list; `refused` stands for the allocator. Success
      consumes exactly the payload. */
  method ReadIds(frame: FrameReader, refused: bool) returns (r: IdsOutcome)
    modifies frame, frame.inner
    ensures old(frame.Whole()) ==> r == ParseIds(old(frame.Payload())) || (refused && r == IdsFailed(AllocationFailed))
    ensures r.Ids? ==> old(frame.Whole()) && frame.Advanced(old(frame.inner.input), old(frame.remaining), old(frame.remaining))
  {
    hide LE, FromLE, DecodeTable;
    ghost var input, before, whole := frame.inner.input, frame.remaining, frame.Whole();
    EightWide();
    var first := frame.ReadUint(8);
    if first.NoValue? { return IdsFailed(TruncatedFrame); }
    var count := first.v;
    ghost var rest := frame.inner.input;
    if whole {
      assert input[..before][..8] == input[..8];
      assert input[..before][8..] == rest[..before - 8];
    }
    if 8 * count >= TWO64 { return IdsFailed(DimensionOverflow); }
    if 8 * count < frame.remaining { return IdsFailed(TrailingFrameBytes(frame.remaining - 8 * count)); }
    if 8 * count > frame.remaining { return IdsFailed(TruncatedFrame); }
    if refused { return IdsFailed(AllocationFailed); }
    r := ReadList(frame, count);
    if r.Ids? { assert input[8..][before - 8..] == input[before..]; }
  }

  /** The identifiers themselves, up to the first zero. */
  method ReadList(frame: FrameReader, count: nat) returns (r: IdsOutcome)
    requires frame.remaining == 8 * count
    modifies frame, frame.inner
    ensures old(frame.Whole()) ==> RecordBytes([8]) == 8 && r == ParseList(count, old(frame.Payload()))
    ensures r.Ids? ==> old(frame.Whole()) && frame.Advanced(old(frame.inner.input), old(frame.remaining), old(frame.remaining))
  {
    hide LE, FromLE, DecodeTable;
    EightWide();
    ghost var rest, whole := frame.inner.input, frame.Whole();
    ghost var table := if whole then rest[..8 * count] else [];
    var identifiers: seq<nat> := [];
    var i := 0;
    if whole { ColumnOfNothing(table, count); }
    while i < count
      invariant 0 <= i <= count && |identifiers| == i && 0 !in identifiers
      invariant frame.Advanced(rest, 8 * count, 8 * i)
      invariant whole ==> identifiers + FirstColumn(DecodeTable([8], count - i, frame.inner.input[..8 * (count - i)]))
                          == FirstColumn(DecodeTable([8], count, table))
    {
      if whole { NextId(frame.inner.input, count - i, identifiers); }
      var identifier := frame.ReadUint(8);
      if identifier.NoValue? { return IdsFailed(TruncatedFrame); }
      if identifier.v == 0 {
        if whole { assert 0 in FirstColumn(DecodeTable([8], count, table)); }
        return IdsFailed(InvalidDimensions);
      }
      identifiers := identifiers + [identifier.v];
      assert rest[8 * i..][8..] == rest[8 * (i + 1)..];
      i := i + 1;
    }
    r := Ids(identifiers);
    if whole { NoMoreIds(frame.inner.input[..0], identifiers); }
  }

  lemma {:induction false} ColumnOfNothing(table: seq<Byte>, count: nat)
    requires |table| == 8 * count && RecordBytes([8]) == 8
    ensures [] + FirstColumn(DecodeTable([8], count, table)) == FirstColumn(DecodeTable([8], count, table))
  {
  }

  lemma {:induction false} NoMoreIds(table: seq<Byte>, identifiers: seq<nat>)
    requires table == [] && RecordBytes([8]) == 8
    ensures identifiers + FirstColumn(DecodeTable([8], 0, table)) == identifiers
  {
  }

  lemma {:induction false} NextId(input: seq<Byte>, count: nat, identifiers: seq<nat>)
    requires count > 0 && 8 * count <= |input| && RecordBytes([8]) == 8
    ensures identifiers + FirstColumn(DecodeTable([8], count, input[..8 * count]))
            == identifiers + [FromLE(input[..8])] + FirstColumn(DecodeTable([8], count - 1, input[8..][..8 * (count - 1)]))
  {
    var table := input[..8 * count];
    assert table[..8] == input[..8] && table[8..] == input[8..][..8 * (count - 1)];
    var rows, tail := DecodeTable([8], count, table), DecodeTable([8], count - 1, table[8..]);
    assert DecodeRecord([8], table[..8])[0] == FromLE(table[..8]) by { assert table[..8][..8] == table[..8]; }
    assert rows == [DecodeRecord([8], table[..8])] + tail;
    assert FirstColumn(rows) == [FromLE(input[..8])] + FirstColumn(tail);
  }
}
