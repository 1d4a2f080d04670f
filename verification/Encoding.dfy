/** Unbiased sampling below a bound, over an arbitrary stream of 32-bit words. */
module Encoding {
  import opened Arithmetic

  type Word = w: nat | w < TWO32

  /** Past the accepted sample, or the stream ended first. */
  datatype Sample = Sampled(value: nat, cursor: nat) | Exhausted

  /** The largest multiple of `cardinality` not above `2^32`. */
  function AcceptanceBound(cardinality: nat): nat
    requires cardinality > 0
  {
    TWO32 / cardinality * cardinality
  }

  /** The accepted words that reduce to `v`. */
  function Preimages(v: nat, cardinality: nat, count: nat): (s: seq<nat>)
    ensures |s| == count
  {
    seq(count, j => v + j * cardinality)
  }

  ghost predicate NoRepeats(s: seq<nat>) { forall i, j | 0 <= i < j < |s| :: s[i] != s[j] }

  lemma PreimageAt(v: nat, cardinality: nat, q: nat, j: nat)
    requires j < q
    ensures Preimages(v, cardinality, q)[j] == v + j * cardinality
  {
  }

  lemma PreimageMember(w: nat, v: nat, cardinality: nat, q: nat)
    requires v < cardinality
    ensures w in Preimages(v, cardinality, q) <==> w < q * cardinality && w % cardinality == v
  {
    hide Preimages;
    var s := Preimages(v, cardinality, q);
    if w in s {
      var j :| 0 <= j < |s| && s[j] == w;
      PreimageAt(v, cardinality, q, j);
      MemberIsAccepted(w, j, v, cardinality, q);
    }
    if w < q * cardinality && w % cardinality == v {
      var j := w / cardinality;
      QuotientInRange(w, j, v, cardinality, q);
      PreimageAt(v, cardinality, q, j);
      assert s[j] == w;
    }
  }

  lemma MemberIsAccepted(w: nat, j: nat, v: nat, cardinality: nat, q: nat)
    requires v < cardinality && j < q && w == v + j * cardinality
    ensures w < q * cardinality && w % cardinality == v
  {
    DivModUnique(w, j, v, cardinality);
    MulMono(j + 1, q, cardinality);
  }

  lemma QuotientInRange(w: nat, j: int, v: nat, cardinality: nat, q: nat)
    requires v < cardinality && w == j * cardinality + v && w < q * cardinality
    ensures 0 <= j < q
  {
    if j >= q { MulMono(q, j, cardinality); }
    if j < 0 { MulMono(j, -1, cardinality); }
  }

  /** No word below the cardinality is rejected, and more than half of all words
      are accepted. */
  lemma BoundFits(cardinality: nat)
    requires 0 < cardinality <= TWO32
    ensures cardinality <= AcceptanceBound(cardinality) <= TWO32 < 2 * AcceptanceBound(cardinality)
  {
    var q, r := TWO32 / cardinality, TWO32 % cardinality;
    assert TWO32 == q * cardinality + r;
    if q <= 0 { MulMono(q, 0, cardinality); }
    MulMono(1, q, cardinality);
  }

  /** The first word below the acceptance bound at or after `cursor`. */
  function FirstAccepted(words: seq<Word>, bound: nat, cursor: nat): (i: nat)
    requires cursor <= |words|
    ensures cursor <= i <= |words|
    ensures i < |words| ==> words[i] < bound
    ensures forall j | cursor <= j < i :: words[j] >= bound
    decreases |words| - cursor
  {
    if cursor == |words| || words[cursor] < bound then cursor else FirstAccepted(words, bound, cursor + 1)
  }

  function SampleSpec(words: seq<Word>, cardinality: nat, cursor: nat): Sample
    requires cardinality > 0 && cursor <= |words|
  {
    var i := FirstAccepted(words, AcceptanceBound(cardinality), cursor);
    if i < |words| then Sampled(words[i] % cardinality, i + 1) else Exhausted
  }

  /** Sampling is unbiased: for every value below the bound there are exactly
      `floor(2^32 / cardinality)` first words on which the sampler returns that
      value at once, whatever follows them. */
  lemma EveryValueEquallyLikely(v: nat, cardinality: nat)
    requires v < cardinality <= TWO32
    ensures var s := Preimages(v, cardinality, TWO32 / cardinality);
            && |s| == TWO32 / cardinality
            && NoRepeats(s)
            && (forall i | 0 <= i < |s| :: s[i] < TWO32)
            && forall w: Word, rest: seq<Word> :: w in s <==> SampleSpec([w] + rest, cardinality, 0) == Sampled(v, 1)
  {
    var q := TWO32 / cardinality;
    var s := Preimages(v, cardinality, q);
    forall i, j | 0 <= i < j < |s| ensures s[i] != s[j] { MulMono(i + 1, j, cardinality); }
    BoundFits(cardinality);
    forall i | 0 <= i < |s| ensures s[i] < TWO32 { PreimageMember(s[i], v, cardinality, q); }
    forall w: Word, rest: seq<Word> ensures w in s <==> SampleSpec([w] + rest, cardinality, 0) == Sampled(v, 1) {
      PreimageMember(w, v, cardinality, q);
      AtOnce(w, rest, cardinality, v);
    }
  }

  /** The sampler returns on its first word exactly when it accepts that word, and
      then with its remainder. */
  lemma AtOnce(w: Word, rest: seq<Word>, cardinality: nat, v: nat)
    requires cardinality > 0
    ensures SampleSpec([w] + rest, cardinality, 0) == Sampled(v, 1) <==> w < AcceptanceBound(cardinality) && w % cardinality == v
  {
    var words := [w] + rest;
    var i := FirstAccepted(words, AcceptanceBound(cardinality), 0);
    if w < AcceptanceBound(cardinality) { assert i == 0; }
  }

  /** `r` is the first accepted word at or after `start`, reduced; the words passed
      over are exactly the rejected ones. */
  ghost predicate TakesFirst(words: seq<Word>, cardinality: nat, start: nat, r: Sample)
    requires cardinality > 0
  {
    match r
    case Sampled(value, cursor) =>
      && start < cursor <= |words| && words[cursor - 1] < AcceptanceBound(cardinality) && value == words[cursor - 1] % cardinality
      && forall j | start <= j < cursor - 1 :: words[j] >= AcceptanceBound(cardinality)
    case Exhausted => forall j | start <= j < |words| :: words[j] >= AcceptanceBound(cardinality)
  }

  /** The sampling loop, for a bound computed by the caller. */
  method SampleWithBound(words: seq<Word>, bound: nat, cardinality: nat, start: nat) returns (r: Sample)
    requires 0 < cardinality <= TWO32 && bound == AcceptanceBound(cardinality) && start <= |words|
    ensures r == SampleSpec(words, cardinality, start) && TakesFirst(words, cardinality, start, r)
  {
    var cursor: nat := start;
    while cursor < |words|
      invariant start <= cursor <= |words|
      invariant forall j | start <= j < cursor :: words[j] >= bound
      invariant FirstAccepted(words, bound, start) == FirstAccepted(words, bound, cursor)
    {
      var candidate := words[cursor];
      if candidate < bound { return Sampled(candidate % cardinality, cursor + 1); }
      cursor := cursor + 1;
    }
    return Exhausted;
  }

  method SampleBelow(words: seq<Word>, cardinality: nat, start: nat) returns (r: Sample)
    requires 0 < cardinality <= TWO32 && start <= |words|
    ensures r == SampleSpec(words, cardinality, start)
    ensures r.Sampled? ==>
              && start < r.cursor <= |words| && words[r.cursor - 1] < AcceptanceBound(cardinality)
              && r.value == words[r.cursor - 1] % cardinality < cardinality
    ensures r.Sampled? ==> forall j | start <= j < r.cursor - 1 :: words[j] >= AcceptanceBound(cardinality) && 2 * words[j] > TWO32
    ensures r.Exhausted? ==> forall j | start <= j < |words| :: words[j] >= cardinality && 2 * words[j] > TWO32
  {
    BoundFits(cardinality);
    r := SampleWithBound(words, AcceptanceBound(cardinality), cardinality, start);
  }

  method SampleNonzero(words: seq<Word>, modulus: nat, start: nat) returns (r: Sample)
    requires 1 < modulus <= TWO32 && start <= |words|
    ensures r.Sampled? ==> 0 < r.value < modulus && SampleSpec(words, modulus - 1, start) == Sampled(r.value - 1, r.cursor)
    ensures r.Sampled? ==>
              && start < r.cursor <= |words| && words[r.cursor - 1] < AcceptanceBound(modulus - 1)
              && r.value == words[r.cursor - 1] % (modulus - 1) + 1
    ensures r.Exhausted? <==> forall j | start <= j < |words| :: words[j] >= AcceptanceBound(modulus - 1)
  {
    r := SampleBelow(words, modulus - 1, start);
    if r.Sampled? { r := Sampled(r.value + 1, r.cursor); }
  }

  datatype Filled = Filled(values: seq<nat>, cursor: nat) | Starved

  /** What sampling `count` values one at a time yields, and where it stops. */
  function SampleMany(words: seq<Word>, cardinality: nat, cursor: nat, count: nat): Filled
    requires cardinality > 0 && cursor <= |words|
    decreases count
  {
    if count == 0 then Filled([], cursor)
    else
      match SampleSpec(words, cardinality, cursor)
      case Exhausted => Starved
      case Sampled(v, next) =>
        match SampleMany(words, cardinality, next, count - 1)
        case Starved => Starved
        case Filled(rest, end) => Filled([v] + rest, end)
  }

  function FirstKept(words: seq<Word>, cardinality: nat): seq<nat>
    requires cardinality > 0 && words != []
  {
    if words[0] < AcceptanceBound(cardinality) then [words[0] % cardinality] else []
  }

  /** The words an unbiased sampler keeps, reduced, in stream order. */
  function Kept(words: seq<Word>, cardinality: nat): seq<nat>
    requires cardinality > 0
  {
    if words == [] then [] else FirstKept(words, cardinality) + Kept(words[1..], cardinality)
  }

  lemma SameFirst(a: seq<Word>, b: seq<Word>, cardinality: nat)
    requires cardinality > 0 && a != []
    ensures FirstKept(a + b, cardinality) == FirstKept(a, cardinality)
  {
    assert (a + b)[0] == a[0];
  }

  lemma {:induction false} KeptConcat(a: seq<Word>, b: seq<Word>, cardinality: nat)
    requires cardinality > 0
    ensures Kept(a + b, cardinality) == Kept(a, cardinality) + Kept(b, cardinality)
  {
    hide AcceptanceBound;
    if a == [] {
      assert a + b == b;
    } else {
      hide FirstKept;
      KeptConcat(a[1..], b, cardinality);
      SameFirst(a, b, cardinality);
      assert (a + b)[1..] == a[1..] + b;
      assert Kept(a + b, cardinality) == FirstKept(a, cardinality) + Kept(a[1..] + b, cardinality);
      hide Kept;
      var first, rest, last := FirstKept(a, cardinality), Kept(a[1..], cardinality), Kept(b, cardinality);
      assert first + (rest + last) == (first + rest) + last;
    }
  }

  lemma {:induction false} NoneKept(words: seq<Word>, cardinality: nat)
    requires cardinality > 0 && forall j | 0 <= j < |words| :: words[j] >= AcceptanceBound(cardinality)
    ensures Kept(words, cardinality) == []
  {
    if words != [] { NoneKept(words[1..], cardinality); }
  }

  /** One sample extends what was kept by exactly its value. */
  lemma {:induction false} KeptSample(words: seq<Word>, cardinality: nat, start: nat, cursor: nat, r: Sample)
    requires cardinality > 0 && start <= cursor <= |words| && TakesFirst(words, cardinality, cursor, r) && r.Sampled?
    ensures Kept(words[start..r.cursor], cardinality) == Kept(words[start..cursor], cardinality) + [r.value]
  {
    var skipped, last := words[cursor..r.cursor - 1], [words[r.cursor - 1]];
    assert words[start..r.cursor] == words[start..cursor] + skipped + last;
    KeptConcat(words[start..cursor] + skipped, last, cardinality);
    KeptConcat(words[start..cursor], skipped, cardinality);
    NoneKept(skipped, cardinality);
    assert Kept(last, cardinality) == [r.value] by { assert last[1..] == []; }
  }

  /** Starving leaves fewer kept words than were asked for. */
  lemma {:induction false} KeptStarved(words: seq<Word>, cardinality: nat, start: nat, cursor: nat)
    requires cardinality > 0 && start <= cursor <= |words| && TakesFirst(words, cardinality, cursor, Exhausted)
    ensures Kept(words[start..], cardinality) == Kept(words[start..cursor], cardinality)
  {
    assert words[start..] == words[start..cursor] + words[cursor..];
    KeptConcat(words[start..cursor], words[cursor..], cardinality);
    NoneKept(words[cursor..], cardinality);
  }

  function Prepend(values: seq<nat>, f: Filled): Filled {
    match f case Starved => Starved case Filled(rest, end) => Filled(values + rest, end)
  }

  /** The batched fill computes its bound once, and yet consumes and writes
      exactly what one-by-one sampling does: the kept words, reduced, in order. */
  method FillBelow(words: seq<Word>, output: array<nat>, cardinality: nat, start: nat) returns (filled: bool, cursor: nat)
    requires 0 < cardinality <= TWO32 && start <= |words|
    modifies output
    ensures filled ==> SampleMany(words, cardinality, start, output.Length) == Filled(output[..], cursor)
    ensures !filled ==> SampleMany(words, cardinality, start, output.Length) == Starved
    ensures filled ==> start <= cursor <= |words| && output[..] == Kept(words[start..cursor], cardinality)
    ensures filled ==> if output.Length == 0 then cursor == start else cursor > start && words[cursor - 1] < AcceptanceBound(cardinality)
    ensures !filled ==> |Kept(words[start..], cardinality)| < output.Length
  {
    hide AcceptanceBound, Kept, TakesFirst, SampleMany, SampleSpec, Prepend;
    NoneKept(words[start..start], cardinality);
    var bound := AcceptanceBound(cardinality);
    cursor := start;
    var i := 0;
    ghost var whole := SampleMany(words, cardinality, start, output.Length);
    PrependNothing(whole);
    assert output[..0] == [];
    while i < output.Length
      invariant 0 <= i <= output.Length && start <= cursor <= |words|
      invariant output[..i] == Kept(words[start..cursor], cardinality)
      invariant if i == 0 then cursor == start else cursor > start && words[cursor - 1] < bound
      invariant whole == Prepend(output[..i], SampleMany(words, cardinality, cursor, output.Length - i))
    {
      ghost var before := output[..i];
      var sample := SampleWithBound(words, bound, cardinality, cursor);
      if sample.Exhausted? {
        KeptStarved(words, cardinality, start, cursor);
        StarvesNow(words, cardinality, cursor, output.Length - i, before);
        return false, cursor;
      }
      KeptSample(words, cardinality, start, cursor, sample);
      output[i] := sample.value;
      assert output[..i + 1] == before + [sample.value];
      PrependStep(words, cardinality, cursor, output.Length - i, before, output[..i + 1]);
      LastWord(words, cardinality, cursor, sample);
      cursor := sample.cursor;
      i := i + 1;
    }
    PrependAll(words, cardinality, cursor, output[..i]);
    assert output[..i] == output[..];
    filled := true;
  }

  lemma LastWord(words: seq<Word>, cardinality: nat, start: nat, r: Sample)
    requires cardinality > 0 && TakesFirst(words, cardinality, start, r) && r.Sampled?
    ensures start < r.cursor <= |words| && words[r.cursor - 1] < AcceptanceBound(cardinality)
  {
  }

  lemma PrependNothing(f: Filled)
    ensures Prepend([], f) == f
  {
  }

  lemma {:induction false} PrependAll(words: seq<Word>, cardinality: nat, cursor: nat, values: seq<nat>)
    requires cardinality > 0 && cursor <= |words|
    ensures Prepend(values, SampleMany(words, cardinality, cursor, 0)) == Filled(values, cursor)
  {
    assert values + [] == values;
  }

  lemma {:induction false} StarvesNow(words: seq<Word>, cardinality: nat, cursor: nat, count: nat, values: seq<nat>)
    requires cardinality > 0 && cursor <= |words| && count > 0 && SampleSpec(words, cardinality, cursor) == Exhausted
    ensures Prepend(values, SampleMany(words, cardinality, cursor, count)) == Starved
  {
  }

  lemma PrependStep(words: seq<Word>, cardinality: nat, cursor: nat, count: nat, before: seq<nat>, after: seq<nat>)
    requires cardinality > 0 && cursor <= |words| && count > 0
    requires SampleSpec(words, cardinality, cursor).Sampled?
    requires after == before + [SampleSpec(words, cardinality, cursor).value]
    ensures Prepend(before, SampleMany(words, cardinality, cursor, count))
            == Prepend(after, SampleMany(words, cardinality, SampleSpec(words, cardinality, cursor).cursor, count - 1))
  {
    var sample := SampleSpec(words, cardinality, cursor);
    match SampleMany(words, cardinality, sample.cursor, count - 1)
    case Starved =>
    case Filled(rest, end) => assert before + ([sample.value] + rest) == after + rest;
  }
}
