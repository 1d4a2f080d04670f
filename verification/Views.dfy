/** The accessors and iterators that build queries and answers lazily from a
    workspace's arena and metadata. */
module Views {
  import opened Arithmetic
  import opened Frame
  import opened Layout
  import opened Messages
  import opened ProtocolSpec

  /** The query at `index` of an entry view: `arena` is the entry's own range, and
      `items` starts at its first descriptor but may run past its last. */
  function QueryAt(meta: Meta, items: seq<seq<nat>>, arena: seq<nat>, index: nat): Option<EncryptedQuery>
    requires |meta.record| == 3 && forall i | 0 <= i < |items| :: |items[i]| == 2
  {
    var count, width := meta.record[1], meta.record[2];
    var start := index * width;
    if index >= count || index >= |items| then None
    else if start + width >= TWO64 || start + width > |arena| then None
    else Some(EncryptedQuery(arena[start..start + width], items[index][0], items[index][1]))
  }

  function AnswerAt(meta: Meta, items: seq<seq<nat>>, arena: seq<nat>, index: nat): Option<Answer>
    requires |meta.record| == 5 && forall i | 0 <= i < |items| :: |items[i]| == 1
  {
    var rows, blocks, count := meta.record[2], meta.record[3], meta.record[4];
    var words := rows * blocks;
    var start := index * words;
    if index >= count || index >= |items| then None
    else if start + words >= TWO64 || start + words > |arena| then None
    else Some(Answer(meta.record[1], items[index][0], rows, blocks, arena[start..start + words]))
  }

  /** An entry's accessor yields exactly the typed entry's queries, in order, and
      nothing past the last one. */
  lemma QueryAtIsQuery(meta: Meta, items: seq<seq<nat>>, arena: seq<nat>, index: nat)
    requires InRange(meta, |items|, |arena|) && |arena| < TWO64 && EvaluateShaped(PartAt(meta, items, arena))
    requires forall i | 0 <= i < |items| :: |items[i]| == 2
    ensures QueryAt(meta, items[meta.itemOffset..], arena[meta.valueOffset..meta.valueOffset + meta.fields], index)
            == var queries := EvaluateOf(PartAt(meta, items, arena)).queries;
               if index < |queries| then Some(queries[index]) else None
  {
    var part := PartAt(meta, items, arena);
    var count, width := part.record[1], part.record[2];
    if index < count {
      ChopAt(part.values, count, width, index);
      assert items[meta.itemOffset..][index] == part.items[index];
    }
  }

  lemma AnswerAtIsAnswer(meta: Meta, items: seq<seq<nat>>, arena: seq<nat>, index: nat)
    requires InRange(meta, |items|, |arena|) && |arena| < TWO64 && ProductShaped(PartAt(meta, items, arena))
    requires forall i | 0 <= i < |items| :: |items[i]| == 1
    ensures AnswerAt(meta, items[meta.itemOffset..], arena[meta.valueOffset..meta.valueOffset + meta.fields], index)
            == var answers := Messages.ProductOf(PartAt(meta, items, arena)).answers;
               if index < |answers| then Some(answers[index]) else None
  {
    var part := PartAt(meta, items, arena);
    var count, words := part.record[4], part.record[2] * part.record[3];
    if index < count {
      ChopAt(part.values, count, words, index);
      assert items[meta.itemOffset..][index] == part.items[index];
    }
  }

  /** The iterator of one entry: it advances until the accessor has no more. */
  class QueryIter {
    const meta: Meta
    const items: seq<seq<nat>>
    const arena: seq<nat>
    var index: nat

    ghost predicate Valid() {
      && InRange(meta, |items|, |arena|) && |arena| < TWO64 && EvaluateShaped(PartAt(meta, items, arena))
      && forall i | 0 <= i < |items| :: |items[i]| == 2
    }

    /** What is left to yield. */
    ghost function Rest(): seq<EncryptedQuery>
      requires Valid()
      reads this
    {
      var queries := EvaluateOf(PartAt(meta, items, arena)).queries;
      if index <= |queries| then queries[index..] else []
    }

    constructor (meta: Meta, items: seq<seq<nat>>, arena: seq<nat>)
      requires InRange(meta, |items|, |arena|) && |arena| < TWO64 && EvaluateShaped(PartAt(meta, items, arena))
      requires forall i | 0 <= i < |items| :: |items[i]| == 2
      ensures Valid() && Rest() == EvaluateOf(PartAt(meta, items, arena)).queries
    {
      this.meta, this.items, this.arena, index := meta, items, arena, 0;
    }

    method Next() returns (r: Option<EncryptedQuery>)
      requires Valid()
      modifies `index
      ensures old(Rest()) == [] ==> r == None && Rest() == []
      ensures old(Rest()) != [] ==> r == Some(old(Rest())[0]) && Rest() == old(Rest())[1..]
    {
      QueryAtIsQuery(meta, items, arena, index);
      r := QueryAt(meta, items[meta.itemOffset..], arena[meta.valueOffset..meta.valueOffset + meta.fields], index);
      if r.Some? { index := index + 1; }
    }
  }
}
