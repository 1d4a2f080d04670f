/** Finite sums over integer functions, and order-independent folds.

    A vector is a `seq<int>`; `At` reads it with zero padding, so every formula
    about vectors is total. */
module Sums {
  import opened Arithmetic

  function At(s: seq<int>, i: int): int { if 0 <= i < |s| then s[i] else 0 }

  function Sum(f: int -> int, n: nat): int {
    if n == 0 then 0 else Sum(f, n - 1) + f(n - 1)
  }

  lemma {:induction false} SumExt(f: int -> int, g: int -> int, n: nat)
    requires forall i | 0 <= i < n :: f(i) == g(i)
    ensures Sum(f, n) == Sum(g, n)
  {
    if n > 0 { SumExt(f, g, n - 1); }
  }

  lemma {:induction false} SumZero(f: int -> int, n: nat)
    requires forall i | 0 <= i < n :: f(i) == 0
    ensures Sum(f, n) == 0
  {
    if n > 0 { SumZero(f, n - 1); }
  }

  /** A sum with one term that is not zero. */
  lemma {:induction false} SumOnly(f: int -> int, n: nat, j: nat)
    requires j < n && forall i | 0 <= i < n && i != j :: f(i) == 0
    ensures Sum(f, n) == f(j)
  {
    if j == n - 1 { SumZero(f, n - 1); } else { SumOnly(f, n - 1, j); }
  }

  lemma {:induction false} SumPlus(f: int -> int, g: int -> int, n: nat)
    ensures Sum(i => f(i) + g(i), n) == Sum(f, n) + Sum(g, n)
  {
    if n > 0 { SumPlus(f, g, n - 1); }
  }

  lemma {:induction false} SumScale(c: int, f: int -> int, n: nat)
    ensures Sum(i => c * f(i), n) == c * Sum(f, n)
  {
    if n > 0 {
      SumScale(c, f, n - 1);
      assert c * (Sum(f, n - 1) + f(n - 1)) == c * Sum(f, n - 1) + c * f(n - 1);
    }
  }

  /** A common factor, given summand by summand. */
  lemma {:induction false} SumFactor(c: int, f: int -> int, h: int -> int, n: nat)
    requires forall i | 0 <= i < n :: h(i) == c * f(i)
    ensures Sum(h, n) == c * Sum(f, n)
  {
    SumScale(c, f, n);
    SumExt(h, i => c * f(i), n);
  }

  lemma {:induction false} SumSplit(f: int -> int, m: nat, n: nat)
    ensures Sum(f, m + n) == Sum(f, m) + Sum(i => f(m + i), n)
  {
    if n > 0 { SumSplit(f, m, n - 1); }
  }

  lemma {:induction false} SumFirst(f: int -> int, g: int -> int, n: nat)
    requires n > 0 && forall i | 0 <= i < n - 1 :: f(1 + i) == g(i)
    ensures Sum(f, n) == f(0) + Sum(g, n - 1)
  {
    assert Sum(f, 1) == Sum(f, 0) + f(0);
    SumSplit(f, 1, n - 1);
    hide Sum;
    SumExt(i => f(1 + i), g, n - 1);
  }

  /** Reading the summands backwards does not change the sum. */
  lemma {:induction false} SumReverse(f: int -> int, n: nat)
    ensures Sum(i => f(n - 1 - i), n) == Sum(f, n)
  {
    if n > 0 {
      SumFirst(i => f(n - 1 - i), i => f(n - 1 - 1 - i), n);
      SumReverse(f, n - 1);
    }
  }

  /** Exchanging the order of a double sum. */
  lemma {:induction false} SumSwap(f: (int, int) -> int, m: nat, n: nat)
    ensures Sum(i => Sum(j => f(i, j), n), m) == Sum(j => Sum(i => f(i, j), m), n)
  {
    if m == 0 {
      SumZero(j => Sum(i => f(i, j), m), n);
    } else {
      SumSwap(f, m - 1, n);
      var rows := i => Sum(j => f(i, j), n);
      var head := j => Sum(i => f(i, j), m - 1);
      var last := j => f(m - 1, j);
      SumPlus(head, last, n);
      SumExt(j => head(j) + last(j), j => Sum(i => f(i, j), m), n);
      assert rows(m - 1) == Sum(last, n) by { SumExt(j => f(m - 1, j), last, n); }
      assert Sum(rows, m) == Sum(rows, m - 1) + rows(m - 1);
    }
  }

  /** A sum over `s * b` indices taken block by block. */
  lemma {:induction false} SumBlocks(f: int -> int, s: nat, b: nat)
    ensures 0 <= s * b
    ensures Sum(f, s * b) == Sum(i => Sum(t => f(i * b + t), b), s)
  {
    if s > 0 {
      SumBlocks(f, s - 1, b);
      var blocks := i => Sum(t => f(i * b + t), b);
      assert Sum(blocks, s) == Sum(blocks, s - 1) + blocks(s - 1);
      hide Sum;
      assert s * b == (s - 1) * b + b;
      SumSplit(f, (s - 1) * b, b);
      SumExt(i => f((s - 1) * b + i), t => f((s - 1) * b + t), b);
    }
  }

  /** Congruent summands have congruent sums. */
  lemma {:induction false} SumMod(f: int -> int, g: int -> int, n: nat, p: int)
    requires p > 0
    requires forall i | 0 <= i < n :: Congruent(f(i), g(i), p)
    ensures Congruent(Sum(f, n), Sum(g, n), p)
  {
    if n > 0 {
      SumMod(f, g, n - 1, p);
      CongruentSum(Sum(f, n - 1), Sum(g, n - 1), f(n - 1), g(n - 1), p);
    }
  }

  // ----- Folds that ignore the order of their operands -----

  ghost predicate Distinct(s: seq<int>) {
    forall i, j | 0 <= i < j < |s| :: s[i] != s[j]
  }

  ghost predicate Permutes(s: seq<int>, n: nat) {
    && |s| == n
    && Distinct(s)
    && forall i | 0 <= i < n :: 0 <= s[i] < n
  }

  datatype Monoid = Additive | Multiplicative {
    function Unit(): int { if Additive? then 0 else 1 }
    function Op(x: int, y: int): int { if Additive? then x + y else x * y }
  }

  ghost function Fold(m: Monoid, f: int -> int, s: seq<int>): int {
    if s == [] then m.Unit() else m.Op(f(s[0]), Fold(m, f, s[1..]))
  }

  lemma OpRotate(m: Monoid, x: int, y: int, z: int)
    ensures m.Op(x, m.Op(y, z)) == m.Op(y, m.Op(x, z))
  {
    if m.Multiplicative? {
      assert x * (y * z) == y * (x * z);
    }
  }

  /** One operand can be pulled to the front of a fold. */
  lemma {:induction false} FoldExtract(m: Monoid, f: int -> int, s: seq<int>, k: nat)
    requires k < |s|
    ensures Fold(m, f, s) == m.Op(f(s[k]), Fold(m, f, s[..k] + s[k + 1..]))
  {
    if k == 0 {
      assert s[..0] + s[1..] == s[1..];
    } else {
      var rest := s[..k] + s[k + 1..];
      assert rest[0] == s[0] && rest[1..] == s[1..][..k - 1] + s[1..][k..];
      FoldExtract(m, f, s[1..], k - 1);
      OpRotate(m, f(s[0]), f(s[k]), Fold(m, f, rest[1..]));
    }
  }

  lemma NothingListed(t: seq<int>)
    requires forall x :: x !in t
    ensures t == []
  {
    var x := if t == [] then 0 else t[0];
    assert t == [] || x in t;
  }

  /** What is left of both listings once their common element is removed. */
  lemma RestListed(s: seq<int>, t: seq<int>, k: nat)
    requires Distinct(s) && Distinct(t) && s != [] && k < |t| && t[k] == s[0]
    requires forall x :: x in s <==> x in t
    ensures var rest := t[..k] + t[k + 1..];
            Distinct(rest) && Distinct(s[1..]) && forall x :: x in s[1..] <==> x in rest
  {
    var rest := t[..k] + t[k + 1..];
    forall x ensures x in s[1..] <==> x in rest {
      if x in s[1..] {
        assert x in t && x != s[0];
        var j :| 0 <= j < |t| && t[j] == x;
        assert rest[if j < k then j else j - 1] == x;
      }
      if x in rest {
        var j :| 0 <= j < |rest| && rest[j] == x;
        assert x == t[if j < k then j else j + 1];
        assert x in s && x != s[0];
      }
    }
  }

  /** Two listings of the same set fold to the same value. */
  lemma {:induction false} FoldSameElements(m: Monoid, f: int -> int, s: seq<int>, t: seq<int>)
    requires Distinct(s) && Distinct(t)
    requires forall x :: x in s <==> x in t
    ensures Fold(m, f, s) == Fold(m, f, t)
    decreases |s|
  {
    if s == [] {
      NothingListed(t);
    } else {
      assert s[0] in s;
      var k :| 0 <= k < |t| && t[k] == s[0];
      var rest := t[..k] + t[k + 1..];
      FoldExtract(m, f, t, k);
      RestListed(s, t, k);
      FoldSameElements(m, f, s[1..], rest);
    }
  }

  function Elements(s: seq<int>): set<int> { set x | x in s }

  function Range(n: nat): (r: set<int>)
    ensures forall x :: x in r <==> 0 <= x < n
  {
    if n == 0 then {} else Range(n - 1) + {n - 1}
  }

  lemma {:induction false} DistinctCardinality(s: seq<int>)
    requires Distinct(s)
    ensures |Elements(s)| == |s|
  {
    if s != [] {
      DistinctCardinality(s[1..]);
      assert Elements(s) == Elements(s[1..]) + {s[0]};
      assert s[0] !in Elements(s[1..]);
    }
  }

  lemma {:induction false} RangeCardinality(n: nat)
    ensures |Range(n)| == n
  {
    if n > 0 {
      RangeCardinality(n - 1);
      var rest := Range(n - 1);
      assert n - 1 !in rest;
      assert Range(n) == rest + {n - 1};
    }
  }

  lemma SubsetOfSameSize<T>(a: set<T>, b: set<T>)
    requires a <= b && |a| == |b|
    ensures a == b
  {
    assert |b - a| == |b| - |a|;
    assert b - a == {};
    assert b == a + (b - a);
  }

  /** A listing of `n` distinct values below `n` hits every one of them. */
  lemma PermutesHitsAll(s: seq<int>, n: nat)
    requires Permutes(s, n)
    ensures forall x :: x in s <==> 0 <= x < n
  {
    DistinctCardinality(s);
    RangeCardinality(n);
    assert Elements(s) <= Range(n);
    SubsetOfSameSize(Elements(s), Range(n));
    forall x ensures x in s <==> 0 <= x < n {
      assert x in Elements(s) <==> x in Range(n);
    }
  }

  function Iota(n: nat): (s: seq<int>) { seq(n, i => i) }

  lemma IotaLists(n: nat)
    ensures |Iota(n)| == n && Distinct(Iota(n)) && forall x :: x in Iota(n) <==> 0 <= x < n
    ensures forall i | 0 <= i < n :: At(Iota(n), i) == i
  {
    forall x ensures x in Iota(n) <==> 0 <= x < n {
      if 0 <= x < n { assert Iota(n)[x] == x; }
    }
  }

  lemma {:induction false} FoldSnoc(m: Monoid, f: int -> int, s: seq<int>, x: int)
    ensures Fold(m, f, s + [x]) == m.Op(Fold(m, f, s), f(x))
  {
    var t := s + [x];
    FoldExtract(m, f, t, |s|);
    assert t[|s|] == x;
    assert t[..|s|] + t[|s| + 1..] == s;
  }

  lemma {:induction false} SumIsFold(f: int -> int, s: seq<int>)
    ensures Sum(i => f(At(s, i)), |s|) == Fold(Additive, f, s)
    decreases |s|
  {
    if s != [] {
      var n := |s| - 1;
      var init := s[..n];
      var whole, part := i => f(At(s, i)), i => f(At(init, i));
      SumIsFold(f, init);
      forall i | 0 <= i < n ensures part(i) == whole(i) { assert At(init, i) == At(s, i); }
      SumExt(part, whole, n);
      FoldSnoc(Additive, f, init, s[n]);
      assert s == init + [s[n]];
      assert At(s, n) == s[n];
      assert whole(n) == f(At(s, n));
      assert Sum(whole, |s|) == Sum(whole, n) + whole(n);
    }
  }

  /** Reindexing a sum by a permutation leaves it unchanged. */
  lemma {:induction false} SumPermute(f: int -> int, perm: seq<int>, n: nat)
    requires Permutes(perm, n)
    ensures Sum(i => f(At(perm, i)), n) == Sum(f, n)
  {
    hide Sum, Fold, Iota;
    PermutesHitsAll(perm, n);
    SumIsFold(f, perm);
    var all := Iota(n);
    SumIsFold(f, all);
    IotaLists(n);
    FoldSameElements(Additive, f, perm, all);
    SumExt(f, i => f(At(all, i)), n);
  }
}
