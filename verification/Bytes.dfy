/** Little-endian integers, fixed-width records, descriptor tables, and canonical
    field words, as bytes and back. */
module Bytes {
  import opened Arithmetic

  type Byte = b: nat | b < 256

  /** Field width in bytes; every wire integer is 1 to 16 bytes wide. */
  type Width = w: nat | 1 <= w <= 16 witness 1

  // ----- Integers -----

  function LE(w: nat, v: nat): (b: seq<Byte>)
    ensures |b| == w
  {
    if w == 0 then [] else [v % 256] + LE(w - 1, v / 256)
  }

  function FromLE(b: seq<Byte>): nat {
    if b == [] then 0 else b[0] + 256 * FromLE(b[1..])
  }

  lemma {:induction false} FromLEBound(b: seq<Byte>)
    ensures FromLE(b) < Pow(256, |b|)
  {
    if b != [] { FromLEBound(b[1..]); }
  }

  lemma {:induction false} LERoundTrip(w: nat, v: nat)
    requires v < Pow(256, w)
    ensures FromLE(LE(w, v)) == v
  {
    if w > 0 {
      QuotientFits(v, w);
      LERoundTrip(w - 1, v / 256);
      assert LE(w, v)[1..] == LE(w - 1, v / 256);
    }
  }

  lemma QuotientFits(v: nat, w: nat)
    requires w > 0 && v < Pow(256, w)
    ensures v / 256 < Pow(256, w - 1)
  {
  }

  lemma NextDigit(v: nat, power: nat)
    requires power > 0
    ensures v / 256 / power == v / (256 * power)
  {
    var q, r := v / 256, v % 256;
    var d, e := q / power, q % power;
    assert v == 256 * q + r && q == power * d + e;
    assert 256 * (power * d + e) == d * (256 * power) + 256 * e;
    DivModUnique(v, d, 256 * e + r, 256 * power);
  }

  lemma {:induction false} PowerOf256(i: nat)
    ensures Pow(256, i) > 0
  {
    if i > 0 { PowerOf256(i - 1); }
  }

  /** Byte `i` of a written integer is its digit of weight `256^i`: least
      significant byte first. */
  lemma {:induction false} LittleEndian(w: nat, v: nat, i: nat)
    requires i < w
    ensures Pow(256, i) > 0 && LE(w, v)[i] == v / Pow(256, i) % 256
  {
    PowerOf256(i);
    if i > 0 {
      LittleEndian(w - 1, v / 256, i - 1);
      NextDigit(v, Pow(256, i - 1));
    }
  }

  lemma {:induction false} FromLERoundTrip(b: seq<Byte>)
    ensures LE(|b|, FromLE(b)) == b
  {
    if b != [] {
      FromLERoundTrip(b[1..]);
      var v := FromLE(b[1..]);
      assert (b[0] + 256 * v) % 256 == b[0] && (b[0] + 256 * v) / 256 == v;
      assert b == [b[0]] + b[1..];
    }
  }

  // ----- Records -----

  function RecordBytes(widths: seq<Width>): nat {
    if widths == [] then 0 else widths[0] + RecordBytes(widths[1..])
  }

  ghost predicate RecordFits(widths: seq<Width>, record: seq<nat>) {
    |record| == |widths| && forall i | 0 <= i < |widths| :: record[i] < Pow(256, widths[i])
  }

  function EncodeRecord(widths: seq<Width>, record: seq<nat>): (b: seq<Byte>)
    requires |record| == |widths|
    ensures |b| == RecordBytes(widths)
  {
    if widths == [] then [] else LE(widths[0], record[0]) + EncodeRecord(widths[1..], record[1..])
  }

  function DecodeRecord(widths: seq<Width>, b: seq<Byte>): (record: seq<nat>)
    requires |b| == RecordBytes(widths)
    ensures |record| == |widths|
  {
    if widths == [] then [] else [FromLE(b[..widths[0]])] + DecodeRecord(widths[1..], b[widths[0]..])
  }

  lemma {:induction false} RecordRoundTrip(widths: seq<Width>, record: seq<nat>)
    requires RecordFits(widths, record)
    ensures DecodeRecord(widths, EncodeRecord(widths, record)) == record
  {
    if widths != [] {
      var head, tail := LE(widths[0], record[0]), EncodeRecord(widths[1..], record[1..]);
      assert (head + tail)[..widths[0]] == head && (head + tail)[widths[0]..] == tail;
      LERoundTrip(widths[0], record[0]);
      RecordRoundTrip(widths[1..], record[1..]);
      assert record == [record[0]] + record[1..];
    }
  }

  lemma {:induction false} BytesRoundTrip(widths: seq<Width>, b: seq<Byte>)
    requires |b| == RecordBytes(widths)
    ensures RecordFits(widths, DecodeRecord(widths, b))
    ensures EncodeRecord(widths, DecodeRecord(widths, b)) == b
  {
    if widths != [] {
      var record := DecodeRecord(widths, b);
      FromLEBound(b[..widths[0]]);
      FromLERoundTrip(b[..widths[0]]);
      BytesRoundTrip(widths[1..], b[widths[0]..]);
      assert record[1..] == DecodeRecord(widths[1..], b[widths[0]..]);
      forall i | 0 <= i < |widths| ensures record[i] < Pow(256, widths[i]) {
        if i > 0 { assert record[i] == record[1..][i - 1] && widths[i] == widths[1..][i - 1]; }
      }
      assert b == b[..widths[0]] + b[widths[0]..];
    }
  }

  // ----- Tables -----

  function EncodeTable(widths: seq<Width>, rows: seq<seq<nat>>): (b: seq<Byte>)
    requires forall i | 0 <= i < |rows| :: |rows[i]| == |widths|
    ensures |b| == |rows| * RecordBytes(widths)
  {
    if rows == [] then []
    else
      assert (|rows| - 1) * RecordBytes(widths) + RecordBytes(widths) == |rows| * RecordBytes(widths);
      EncodeRecord(widths, rows[0]) + EncodeTable(widths, rows[1..])
  }

  lemma TableRoom(count: nat, w: nat)
    requires count > 0
    ensures count * w == w + (count - 1) * w && count * w >= w && (count - 1) * w >= 0
  {
    MulMono(0, count - 1, w);
  }

  function DecodeTable(widths: seq<Width>, count: nat, b: seq<Byte>): (rows: seq<seq<nat>>)
    requires |b| == count * RecordBytes(widths)
    ensures |rows| == count && forall i | 0 <= i < |rows| :: |rows[i]| == |widths|
    decreases count
  {
    if count == 0 then []
    else
      TableRoom(count, RecordBytes(widths));
      [DecodeRecord(widths, b[..RecordBytes(widths)])] + DecodeTable(widths, count - 1, b[RecordBytes(widths)..])
  }

  ghost predicate TableFits(widths: seq<Width>, rows: seq<seq<nat>>) {
    forall i | 0 <= i < |rows| :: RecordFits(widths, rows[i])
  }

  lemma RowWidths(widths: seq<Width>, rows: seq<seq<nat>>)
    requires TableFits(widths, rows)
    ensures forall i | 0 <= i < |rows| :: |rows[i]| == |widths|
  {
    forall i | 0 <= i < |rows| ensures |rows[i]| == |widths| { assert RecordFits(widths, rows[i]); }
  }

  lemma {:induction false} TableRoundTrip(widths: seq<Width>, rows: seq<seq<nat>>)
    requires TableFits(widths, rows)
    ensures DecodeTable(widths, |rows|, EncodeTable(widths, rows)) == rows
  {
    hide EncodeRecord, DecodeRecord, RecordFits, RecordBytes;
    RowWidths(widths, rows);
    if rows != [] {
      var w := RecordBytes(widths);
      TableRoom(|rows|, w);
      var head, tail := EncodeRecord(widths, rows[0]), EncodeTable(widths, rows[1..]);
      assert (head + tail)[..w] == head && (head + tail)[w..] == tail;
      RecordRoundTrip(widths, rows[0]);
      TableRoundTrip(widths, rows[1..]);
      assert rows == [rows[0]] + rows[1..];
    }
  }

  lemma {:induction false} TableBytesRoundTrip(widths: seq<Width>, count: nat, b: seq<Byte>)
    requires |b| == count * RecordBytes(widths)
    ensures TableFits(widths, DecodeTable(widths, count, b))
    ensures EncodeTable(widths, DecodeTable(widths, count, b)) == b
    decreases count
  {
    if count > 0 {
      var w := RecordBytes(widths);
      TableRoom(count, w);
      BytesRoundTrip(widths, b[..w]);
      TableBytesRoundTrip(widths, count - 1, b[w..]);
      var rows := DecodeTable(widths, count, b);
      assert rows[1..] == DecodeTable(widths, count - 1, b[w..]);
      forall i | 0 <= i < |rows| ensures RecordFits(widths, rows[i]) { if i > 0 { assert rows[i] == rows[1..][i - 1]; } }
      assert b == b[..w] + b[w..];
    } else {
      assert b == [];
    }
  }

  // ----- Canonical field words -----

  const FIELD_BYTES: nat := 4

  function EncodeFields(values: seq<nat>): (b: seq<Byte>)
    ensures |b| == 4 * |values|
  {
    if values == [] then [] else LE(4, values[0]) + EncodeFields(values[1..])
  }

  function DecodeWords(b: seq<Byte>): (values: seq<nat>)
    requires |b| % 4 == 0
    ensures |values| == |b| / 4
  {
    if b == [] then [] else [FromLE(b[..4])] + DecodeWords(b[4..])
  }

  ghost predicate CanonicalWords(values: seq<nat>, p: nat) { forall i | 0 <= i < |values| :: values[i] < p }

  lemma WordPower()
    ensures Pow(256, 4) == TWO32
  {
    assert Pow(256, 1) == 256 * Pow(256, 0);
    assert Pow(256, 2) == 256 * Pow(256, 1);
    assert Pow(256, 3) == 256 * Pow(256, 2);
    assert Pow(256, 4) == 256 * Pow(256, 3);
  }

  lemma {:induction false} FieldsRoundTrip(values: seq<nat>, p: nat)
    requires CanonicalWords(values, p) && p <= TWO32
    ensures DecodeWords(EncodeFields(values)) == values
  {
    if values != [] {
      var head, tail := LE(4, values[0]), EncodeFields(values[1..]);
      assert (head + tail)[..4] == head && (head + tail)[4..] == tail;
      WordPower();
      LERoundTrip(4, values[0]);
      FieldsRoundTrip(values[1..], p);
      assert values == [values[0]] + values[1..];
    }
  }

  lemma {:induction false} FieldBytesRoundTrip(b: seq<Byte>)
    requires |b| % 4 == 0
    ensures EncodeFields(DecodeWords(b)) == b
  {
    if b != [] {
      FromLERoundTrip(b[..4]);
      FieldBytesRoundTrip(b[4..]);
      assert DecodeWords(b)[1..] == DecodeWords(b[4..]);
      assert b == b[..4] + b[4..];
    }
  }

  lemma {:induction false} EncodeFieldsConcat(a: seq<nat>, c: seq<nat>)
    ensures EncodeFields(a + c) == EncodeFields(a) + EncodeFields(c)
  {
    hide LE;
    if a == [] {
      assert a + c == c;
    } else {
      EncodeFieldsConcat(a[1..], c);
      assert (a + c)[1..] == a[1..] + c;
    }
  }

  lemma {:induction false} DecodeWordsConcat(a: seq<Byte>, c: seq<Byte>)
    requires |a| % 4 == 0 && |c| % 4 == 0
    ensures DecodeWords(a + c) == DecodeWords(a) + DecodeWords(c)
  {
    hide FromLE;
    if a == [] {
      assert a + c == c;
    } else {
      var b := a + c;
      assert b[4..] == a[4..] + c && b[..4] == a[..4];
      DecodeWordsConcat(a[4..], c);
      assert DecodeWords(b) == [FromLE(a[..4])] + DecodeWords(a[4..] + c);
      hide DecodeWords;
      var first, rest, last := [FromLE(a[..4])], DecodeWords(a[4..]), DecodeWords(c);
      assert first + (rest + last) == (first + rest) + last;
    }
  }
}
