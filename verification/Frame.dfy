/** Streams, bounded payload readers, and sinks: the stateful half of the wire
    codec. */
module Frame {
  import opened Arithmetic
  import opened Bytes
  import opened Encryption
  import opened Layout

  const HEADER_BYTES: nat := 9
  const CHUNK_FIELDS: nat := 4096

  datatype FrameKind = UploadMatrices | UploadAccepted | Evaluate | Products | ErrorFrame

  function ToByte(kind: FrameKind): Byte {
    match kind
    case UploadMatrices => 1
    case UploadAccepted => 2
    case Evaluate => 3
    case Products => 4
    case ErrorFrame => 5
  }

  datatype Option<T> = None | Some(value: T)

  function FromByte(b: Byte): (r: Option<FrameKind>)
    ensures r.Some? ==> ToByte(r.value) == b
    ensures r.None? ==> forall kind :: ToByte(kind) != b
  {
    if b == 1 then Some(UploadMatrices)
    else if b == 2 then Some(UploadAccepted)
    else if b == 3 then Some(Evaluate)
    else if b == 4 then Some(Products)
    else if b == 5 then Some(ErrorFrame)
    else None
  }

  datatype Status = Good | Bad(error: CodecError)

  datatype HeaderResult = EndOfStream | Header(kind: FrameKind, payloadLen: nat) | BadHeader(error: CodecError)

  /** The unread bytes of a connection; past them the peer has closed. */
  class Stream {
    var input: seq<Byte>

    constructor (input: seq<Byte>)
      ensures this.input == input
    {
      this.input := input;
    }

    /** A clean end before the first byte ends the session; a header that starts
        must complete. */
    method ReadHeader() returns (r: HeaderResult)
      modifies this
      ensures r.EndOfStream? <==> old(input) == []
      ensures r.Header? <==> |old(input)| >= HEADER_BYTES && FromByte(old(input)[0]).Some?
      ensures r.Header? ==>
                && r.kind == FromByte(old(input)[0]).value && r.payloadLen == FromLE(old(input)[1..HEADER_BYTES]) < TWO64
                && input == old(input)[HEADER_BYTES..]
      ensures r.BadHeader? ==>
                r.error == if |old(input)| < HEADER_BYTES then TruncatedFrame else UnknownFrameKind(old(input)[0])
    {
      if input == [] { return EndOfStream; }
      var kind := input[0];
      if |input| < HEADER_BYTES {
        input := [];
        return BadHeader(TruncatedFrame);
      }
      var length := input[1..HEADER_BYTES];
      input := input[HEADER_BYTES..];
      match FromByte(kind)
      case None => return BadHeader(UnknownFrameKind(kind));
      case Some(k) =>
        FromLEBound(length);
        EightBytes();
        return Header(k, FromLE(length));
    }
  }

  lemma EightBytes()
    ensures Pow(256, 8) == TWO64
  {
    WordPower();
    PowAdd(256, 4, 4);
  }

  datatype Value = Value(v: nat) | NoValue
  datatype RecordResult = Record(record: seq<nat>) | NoRecord

  /** A reader confined to one payload: it never reads past the declared length. */
  class FrameReader {
    const inner: Stream
    var remaining: nat

    /** The stream still holds everything the frame declared. */
    ghost predicate Whole()
      reads this, inner
    {
      |inner.input| >= remaining
    }

    /** The unread payload of a whole frame. */
    ghost function Payload(): seq<Byte>
      reads this, inner
      requires Whole()
    {
      inner.input[..remaining]
    }

    /** Exactly `n` more payload bytes were consumed since the given state. */
    ghost predicate Advanced(input: seq<Byte>, before: nat, n: nat)
      reads this, inner
    {
      n <= before && n <= |input| && remaining == before - n && inner.input == input[n..]
    }

    constructor (inner: Stream, payloadLen: nat)
      ensures this.inner == inner && remaining == payloadLen
    {
      this.inner, remaining := inner, payloadLen;
    }

    /** Refuses to cross the frame boundary before touching the stream. */
    method ReadExact(n: nat) returns (ok: bool, bytes: seq<Byte>)
      modifies this, inner
      ensures ok <==> n <= old(remaining) && n <= |old(inner.input)|
      ensures ok ==> Advanced(old(inner.input), old(remaining), n) && bytes == old(inner.input)[..n]
      ensures n > old(remaining) ==> inner.input == old(inner.input) && remaining == old(remaining)
    {
      if n > remaining { return false, []; }
      if n > |inner.input| {
        inner.input := [];
        return false, [];
      }
      bytes := inner.input[..n];
      inner.input := inner.input[n..];
      remaining := remaining - n;
      ok := true;
    }

    method ReadUint(w: nat) returns (r: Value)
      modifies this, inner
      ensures r.Value? <==> w <= old(remaining) && w <= |old(inner.input)|
      ensures r.Value? ==> Advanced(old(inner.input), old(remaining), w) && r.v == FromLE(old(inner.input)[..w])
    {
      var ok, bytes := ReadExact(w);
      if !ok { return NoValue; }
      r := Value(FromLE(bytes));
    }

    /** Reads the integers of one record in order. */
    method ReadRecord(widths: seq<Width>) returns (r: RecordResult)
      modifies this, inner
      ensures r.Record? <==> RecordBytes(widths) <= old(remaining) && RecordBytes(widths) <= |old(inner.input)|
      ensures r.Record? ==>
                && Advanced(old(inner.input), old(remaining), RecordBytes(widths))
                && r.record == DecodeRecord(widths, old(inner.input)[..RecordBytes(widths)])
      decreases |widths|
    {
      hide FromLE;
      if widths == [] { return Record([]); }
      var first := ReadUint(widths[0]);
      if first.NoValue? { return NoRecord; }
      ghost var input := old(inner.input);
      var rest := ReadRecord(widths[1..]);
      if rest.NoRecord? { return NoRecord; }
      r := Record([first.v] + rest.record);
      ghost var w := RecordBytes(widths);
      assert input[..w][..widths[0]] == input[..widths[0]];
      assert input[..w][widths[0]..] == input[widths[0]..][..w - widths[0]];
    }

    method Finish() returns (r: Status)
      ensures r == if remaining == 0 then Good else Bad(TrailingFrameBytes(remaining))
    {
      if remaining == 0 { return Good; }
      r := Bad(TrailingFrameBytes(remaining));
    }

    /** Decodes one staged chunk of words into the destination. */
    method StoreChunk(bytes: seq<Byte>, arena: array<nat>, start: nat, p: nat) returns (r: Status)
      requires |bytes| % 4 == 0 && start + |bytes| / 4 <= arena.Length
      modifies arena
      ensures SameOutside(old(arena[..]), arena[..], start, |bytes| / 4)
      ensures r.Good? <==> CanonicalWords(DecodeWords(bytes), p)
      ensures r.Good? ==> arena[start..start + |bytes| / 4] == DecodeWords(bytes)
      ensures r.Bad? ==> r.error == NonCanonicalField(DecodeWords(bytes)[FirstNonCanonical(DecodeWords(bytes), p)])
    {
      hide FromLE;
      var count := |bytes| / 4;
      ghost var words := DecodeWords(bytes);
      var i := 0;
      while i < count
        invariant 0 <= i <= count && SameOutside(old(arena[..]), arena[..], start, count)
        invariant CanonicalWords(words[..i], p) && arena[start..start + i] == words[..i]
      {
        var word := FromLE(bytes[4 * i..4 * i + 4]);
        WordAt(bytes, i);
        if word >= p {
          FirstBadAt(words, i, p);
          return Bad(NonCanonicalField(word));
        }
        arena[start + i] := word;
        assert arena[start..start + i + 1] == arena[start..start + i] + [word];
        assert words[..i + 1] == words[..i] + [words[i]];
        i := i + 1;
      }
      assert words[..count] == words;
      r := Good;
    }

    /** Streams field words into `arena[start .. start + count]` through a bounded
        chunk buffer; the chunks make no difference to the result. */
    method ReadFieldSlice(arena: array<nat>, start: nat, count: nat, p: nat) returns (r: Status)
      requires start + count <= arena.Length
      modifies this, inner, arena
      ensures SameOutside(old(arena[..]), arena[..], start, count)
      ensures r.Good? ==>
                && Advanced(old(inner.input), old(remaining), 4 * count)
                && CanonicalWords(DecodeWords(old(inner.input)[..4 * count]), p)
                && arena[start..start + count] == DecodeWords(old(inner.input)[..4 * count])
      ensures old(Whole()) && 4 * count < TWO64 && r.Bad? ==>
                if 4 * count > old(remaining) then r.error == TruncatedFrame
                else
                  var words := DecodeWords(old(inner.input)[..4 * count]);
                  !CanonicalWords(words, p) && r.error == NonCanonicalField(words[FirstNonCanonical(words, p)])
    {
      hide DecodeWords, FirstNonCanonical, CanonicalWords, SameOutside;
      Untouched(arena[..], start, count);
      if 4 * count >= TWO64 { return Bad(DimensionOverflow); }
      if 4 * count > remaining { return Bad(TruncatedFrame); }
      ghost var input, before := inner.input, remaining;
      var done: nat := 0;
      NoWords(p);
      while done < count
        invariant 0 <= done <= count && SameOutside(old(arena[..]), arena[..], start, count)
        invariant Advanced(input, before, 4 * done)
        invariant CanonicalWords(DecodeWords(input[..4 * done]), p)
        invariant arena[start..start + done] == DecodeWords(input[..4 * done])
      {
        var take := Min(count - done, CHUNK_FIELDS);
        ghost var arenaBefore := arena[..];
        var ok, bytes := ReadExact(4 * take);
        if !ok { return Bad(TruncatedFrame); }
        ChunkSplit(input, done, take, p);
        assert bytes == input[4 * done..][..4 * take];
        var stored := StoreChunk(bytes, arena, start + done, p);
        Widens(old(arena[..]), arenaBefore, arena[..], start, count, done, take);
        if stored.Bad? {
          if 4 * count <= |input| { ChunkBad(input, done, take, count, p); }
          return stored;
        }
        ChunkJoins(arenaBefore, arena[..], start, done, take);
        assert input[4 * done..][4 * take..] == input[4 * (done + take)..];
        done := done + take;
      }
      r := Good;
    }
  }

  lemma NoWords(p: nat)
    ensures DecodeWords([]) == [] && CanonicalWords([], p)
  {
  }

  lemma Untouched(a: seq<nat>, start: nat, length: nat)
    ensures SameOutside(a, a, start, length)
  {
  }

  lemma Widens(first: seq<nat>, before: seq<nat>, after: seq<nat>, start: nat, length: nat, from: nat, part: nat)
    requires SameOutside(first, before, start, length) && SameOutside(before, after, start + from, part) && from + part <= length
    ensures SameOutside(first, after, start, length)
  {
  }

  lemma {:induction false} WordAt(bytes: seq<Byte>, i: nat)
    requires |bytes| % 4 == 0 && 4 * i < |bytes|
    ensures 4 * i + 4 <= |bytes| && DecodeWords(bytes)[i] == FromLE(bytes[4 * i..4 * i + 4])
    decreases i
  {
    if i > 0 {
      WordAt(bytes[4..], i - 1);
      assert bytes[4..][4 * (i - 1)..4 * (i - 1) + 4] == bytes[4 * i..4 * i + 4];
    }
  }

  lemma {:induction false} FirstBadAt(words: seq<nat>, i: nat, p: nat)
    requires i < |words| && CanonicalWords(words[..i], p) && words[i] >= p
    ensures FirstNonCanonical(words, p) == i && !CanonicalWords(words, p)
  {
    if i > 0 {
      assert words[..i][0] == words[0];
      assert words[1..][..i - 1] == words[..i][1..];
      FirstBadAt(words[1..], i - 1, p);
    }
  }

  lemma {:induction false} FirstBadOfConcat(a: seq<nat>, b: seq<nat>, p: nat)
    requires CanonicalWords(a, p)
    ensures FirstNonCanonical(a + b, p) == |a| + FirstNonCanonical(b, p)
    ensures CanonicalWords(a + b, p) <==> CanonicalWords(b, p)
  {
    if a == [] {
      assert a + b == b;
    } else {
      FirstBadOfConcat(a[1..], b, p);
      assert (a + b)[1..] == a[1..] + b;
    }
  }

  /** One more chunk: the words so far and the words of the chunk. */
  lemma ChunkSplit(input: seq<Byte>, done: nat, take: nat, p: nat)
    requires 4 * (done + take) <= |input| && CanonicalWords(DecodeWords(input[..4 * done]), p)
    ensures DecodeWords(input[..4 * (done + take)]) == DecodeWords(input[..4 * done]) + DecodeWords(input[4 * done..][..4 * take])
    ensures CanonicalWords(DecodeWords(input[..4 * (done + take)]), p) <==> CanonicalWords(DecodeWords(input[4 * done..][..4 * take]), p)
  {
    hide DecodeWords, FirstNonCanonical;
    var a, b := input[..4 * done], input[4 * done..][..4 * take];
    assert input[..4 * (done + take)] == a + b;
    DecodeWordsConcat(a, b);
    FirstBadOfConcat(DecodeWords(a), DecodeWords(b), p);
  }

  /** A bad word in a chunk is the first bad word of the whole slice. */
  lemma {:induction false} ChunkBad(input: seq<Byte>, done: nat, take: nat, count: nat, p: nat)
    requires 4 * count <= |input| && done + take <= count && CanonicalWords(DecodeWords(input[..4 * done]), p)
    requires !CanonicalWords(DecodeWords(input[4 * done..][..4 * take]), p)
    ensures var words, chunk := DecodeWords(input[..4 * count]), DecodeWords(input[4 * done..][..4 * take]);
            !CanonicalWords(words, p) && words[FirstNonCanonical(words, p)] == chunk[FirstNonCanonical(chunk, p)]
  {
    hide DecodeWords;
    var a, b, c := input[..4 * done], input[4 * done..][..4 * take], input[4 * (done + take)..4 * count];
    assert input[..4 * count] == a + b + c;
    DecodeWordsConcat(a, b);
    DecodeWordsConcat(a + b, c);
    FirstBadOfConcat(DecodeWords(a), DecodeWords(b), p);
    var chunk := DecodeWords(b);
    BadPrefix(DecodeWords(a) + chunk, DecodeWords(c), |DecodeWords(a)| + FirstNonCanonical(chunk, p), p);
  }

  lemma {:induction false} BadPrefix(a: seq<nat>, b: seq<nat>, i: nat, p: nat)
    requires i < |a| && FirstNonCanonical(a, p) == i
    ensures FirstNonCanonical(a + b, p) == i && !CanonicalWords(a + b, p) && (a + b)[i] == a[i]
  {
    assert (a + b)[..i] == a[..i];
    FirstBadAt(a + b, i, p);
  }

  lemma ChunkJoins(before: seq<nat>, after: seq<nat>, start: nat, done: nat, take: nat)
    requires SameOutside(before, after, start + done, take) && start + done + take <= |before|
    ensures after[start..start + (done + take)] == before[start..start + done] + after[start + done..start + done + take]
  {
  }
}
