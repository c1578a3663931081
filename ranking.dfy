/** What both strategies share: how many sentences the user asks for, the
    Python slice that keeps the first of them, the ranking a descending
    `sort_values` produces, and the ascending `list.sort()` that restores
    document order. */
module Ranking {

  type Pos = x: int | x > 0 witness 1

  /** The user's fraction, a finite Python float, as the exact rational num/den. */
  datatype Fraction = Fraction(num: int, den: Pos)

  /** `int(np.ceil(n * fraction))`: the number of sentences the user wants. */
  function SelectionCount(n: nat, f: Fraction): int
  {
    -((-(n * f.num)) / f.den)
  }

  /** The count is the ceiling of n * num / den: the least integer k with
      n * num <= k * den. */
  lemma SelectionCountIsCeiling(n: nat, f: Fraction)
    ensures var k := SelectionCount(n, f);
            (k - 1) * f.den < n * f.num <= k * f.den
  {
    var a := n * f.num;
    var q := (-a) / f.den;
    assert -a == q * f.den + (-a) % f.den;
  }

  /** For a non-empty document and 0 < fraction <= 1, at least one and at
      most all sentences are selected. */
  lemma SelectionCountInRange(n: nat, f: Fraction)
    requires n >= 1 && 0 < f.num <= f.den
    ensures 1 <= SelectionCount(n, f) <= n
  {
    var k := SelectionCount(n, f);
    SelectionCountIsCeiling(n, f);
    MulPositive(n, f.num);
    MulMonotone(f.num, f.den, n);
    if k < 1 {
      MulNonPositive(k, f.den);
      assert false;
    }
    if k > n {
      MulMonotone(n, k - 1, f.den);
      assert false;
    }
  }

  /** With fraction 1 every sentence is selected. */
  lemma SelectionCountWhole(n: nat, f: Fraction)
    requires f.num == f.den
    ensures SelectionCount(n, f) == n
  {
    var k := SelectionCount(n, f);
    SelectionCountIsCeiling(n, f);
    if k < n {
      MulMonotone(k, n - 1, f.den);
      assert false;
    } else if k > n {
      MulMonotone(n, k - 1, f.den);
      assert false;
    }
  }

  /** A fraction of at most 0 selects no sentence: the count is 0 when
      n * fraction lies in (-1, 0], and negative (a slice that drops from
      the end) when n * fraction is at most -1. */
  lemma SelectionCountNonPositive(n: nat, f: Fraction)
    requires n * f.num <= 0
    ensures SelectionCount(n, f) <= 0
    ensures SelectionCount(n, f) == 0 <==> 0 < f.den + n * f.num
  {
    var k := SelectionCount(n, f);
    SelectionCountIsCeiling(n, f);
    if k >= 1 {
      MulMonotone(0, k - 1, f.den);
      assert false;
    }
    if k < 0 && 0 < f.den + n * f.num {
      MulMonotone(k, -1, f.den);
      assert false;
    }
  }

  lemma MulNonPositive(a: int, b: int)
    requires a <= 0 && b > 0
    ensures a * b <= 0
  {
  }

  lemma MulPositive(a: int, b: int)
    requires a > 0 && b > 0
    ensures a * b >= 1
  {
  }

  lemma MulMonotone(a: int, b: int, c: int)
    requires a <= b && c >= 0
    ensures a * c <= b * c
  {
  }

  /** Length of the Python slice `xs[:stop]` of a list of length `len`
      (a negative `stop` counts from the end). */
  function SliceStop(len: nat, stop: int): (m: nat)
    ensures m <= len
  {
    if stop >= 0 then (if stop < len then stop else len)
    else if len + stop > 0 then len + stop else 0
  }

  /** `xs[:stop]`. */
  function Take<T>(xs: seq<T>, stop: int): seq<T>
  {
    xs[..SliceStop(|xs|, stop)]
  }

  /** `rank` lists every index of `scores` exactly once, by non-increasing
      score: what `scores.sort_values(ascending=False).index` yields. The
      sort is not stable, so equal scores may come in any order. */
  predicate IsRanking(scores: seq<real>, rank: seq<nat>)
  {
    && |rank| == |scores|
    && (forall p :: 0 <= p < |rank| ==> rank[p] < |scores|)
    && (forall p, q :: 0 <= p < q < |rank| ==> rank[p] != rank[q])
    && (forall i :: 0 <= i < |scores| ==> i in rank)
    && (forall p, q :: 0 <= p < q < |rank| ==> scores[rank[p]] >= scores[rank[q]])
  }

  /** Any prefix of a ranking scores at least as high as every index left
      out of it: the top-m selection is dominant, whatever the tie order. */
  lemma PrefixDominates(scores: seq<real>, rank: seq<nat>, m: nat, i: nat, j: nat)
    requires IsRanking(scores, rank) && m <= |rank|
    requires i in rank[..m] && j < |scores| && j !in rank[..m]
    ensures scores[i] >= scores[j]
  {
    var p :| 0 <= p < m && rank[p] == i;
    assert j in rank;
    var q :| 0 <= q < |rank| && rank[q] == j;
    if q < m {
      assert false;
    }
  }

  /** `[xs[i] for i in idx]`: the items at the given indices, in their order. */
  function Pick<T>(xs: seq<T>, idx: seq<nat>): (picked: seq<T>)
    requires forall p :: 0 <= p < |idx| ==> idx[p] < |xs|
    ensures |picked| == |idx|
  {
    seq(|idx|, p requires 0 <= p < |idx| => xs[idx[p]])
  }

  predicate Ascending(s: seq<nat>)
  {
    forall p, q :: 0 <= p < q < |s| ==> s[p] <= s[q]
  }

  predicate Distinct(s: seq<nat>)
  {
    forall p, q :: 0 <= p < q < |s| ==> s[p] != s[q]
  }

  /** Inserts `x` before the first element of `s` that is not below it. */
  function Insert(x: nat, s: seq<nat>): seq<nat>
  {
    if |s| == 0 then [x]
    else if x <= s[0] then [x] + s
    else [s[0]] + Insert(x, s[1..])
  }

  lemma AscendingTail(s: seq<nat>)
    requires Ascending(s) && |s| > 0
    ensures Ascending(s[1..])
  {
    forall p, q | 0 <= p < q < |s| - 1 ensures s[1..][p] <= s[1..][q] {
      assert s[1..][p] == s[p + 1] && s[1..][q] == s[q + 1];
    }
  }

  lemma AscendingCons(h: nat, t: seq<nat>)
    requires Ascending(t) && forall p :: 0 <= p < |t| ==> h <= t[p]
    ensures Ascending([h] + t)
  {
    forall p, q | 0 <= p < q < |t| + 1 ensures ([h] + t)[p] <= ([h] + t)[q] {
      assert ([h] + t)[q] == t[q - 1];
      if p > 0 {
        assert ([h] + t)[p] == t[p - 1];
      }
    }
  }

  /** The first element of an ascending sequence is its least. */
  lemma HeadIsLeast(s: seq<nat>, x: nat)
    requires Ascending(s) && x in s
    ensures s[0] <= x
  {
    var q :| 0 <= q < |s| && s[q] == x;
    assert s[0] <= s[q];
  }

  lemma MultisetCons(s: seq<nat>)
    requires |s| > 0
    ensures multiset(s) == multiset{s[0]} + multiset(s[1..])
  {
    assert s == [s[0]] + s[1..];
  }

  /** Inserting adds exactly `x` to the elements of any sequence. */
  lemma {:induction false} InsertElements(x: nat, s: seq<nat>)
    ensures multiset(Insert(x, s)) == multiset(s) + multiset{x}
  {
    if |s| > 0 {
      MultisetCons(s);
      if x > s[0] {
        InsertElements(x, s[1..]);
      }
    }
  }

  /** Inserting into an ascending sequence keeps it ascending. */
  lemma {:induction false} InsertAscending(x: nat, s: seq<nat>)
    requires Ascending(s)
    ensures Ascending(Insert(x, s))
  {
    if |s| == 0 {
    } else if x <= s[0] {
      forall p | 0 <= p < |s| ensures x <= s[p] {
        assert s[0] <= s[p];
      }
      AscendingCons(x, s);
    } else {
      var tail := s[1..];
      AscendingTail(s);
      InsertAscending(x, tail);
      InsertElements(x, tail);
      var rest := Insert(x, tail);
      forall p | 0 <= p < |rest| ensures s[0] <= rest[p] {
        assert rest[p] in multiset(rest);
        if rest[p] != x {
          assert rest[p] in tail;
          assert rest[p] in s;
          HeadIsLeast(s, rest[p]);
        }
      }
      AscendingCons(s[0], rest);
    }
  }

  /** `list.sort()` on a list of indices, as a value: the ascending
      arrangement of the same elements. */
  function SortAsc(s: seq<nat>): (r: seq<nat>)
    ensures Ascending(r) && multiset(r) == multiset(s)
  {
    if |s| == 0 then []
    else
      var init := s[..|s| - 1];
      assert s == init + [s[|s| - 1]];
      var sorted := SortAsc(init);
      InsertElements(s[|s| - 1], sorted);
      InsertAscending(s[|s| - 1], sorted);
      Insert(s[|s| - 1], sorted)
  }

  /** An ascending arrangement of a multiset is unique: whatever sorting
      method produced `a`, it equals `SortAsc` of any permutation of it. */
  lemma {:induction false} AscendingUnique(a: seq<nat>, b: seq<nat>)
    requires Ascending(a) && Ascending(b) && multiset(a) == multiset(b)
    ensures a == b
  {
    assert |a| == |multiset(a)| == |multiset(b)| == |b|;
    if |a| > 0 {
      assert a[0] in multiset(b);
      HeadIsLeast(b, a[0]);
      assert b[0] in multiset(a);
      HeadIsLeast(a, b[0]);
      MultisetCons(a);
      MultisetCons(b);
      assert a[0] == b[0];
      assert multiset(a[1..]) == multiset(a) - multiset{a[0]};
      assert multiset(b[1..]) == multiset(b) - multiset{b[0]};
      AscendingTail(a);
      AscendingTail(b);
      AscendingUnique(a[1..], b[1..]);
      assert a == [a[0]] + a[1..];
      assert b == [b[0]] + b[1..];
    }
  }

  /** At most one copy of each element in a sequence without repeats. */
  lemma {:induction false} DistinctCount(s: seq<nat>, x: nat)
    requires Distinct(s)
    ensures multiset(s)[x] <= 1
  {
    if |s| > 0 {
      assert s == [s[0]] + s[1..];
      DistinctCount(s[1..], x);
      if s[0] == x {
        assert x !in s[1..];
      }
    }
  }

  /** Rearranging a sequence without repeats leaves it without repeats. */
  lemma DistinctPermutation(s: seq<nat>, t: seq<nat>)
    requires Distinct(s) && multiset(s) == multiset(t)
    ensures Distinct(t)
  {
    forall p, q | 0 <= p < q < |t| ensures t[p] != t[q]
    {
      if t[p] == t[q] {
        var x := t[p];
        assert t == t[..p] + [t[p]] + t[p + 1..q] + [t[q]] + t[q + 1..];
        assert multiset(t)[x] >= 2;
        DistinctCount(s, x);
        assert false;
      }
    }
  }

  /** An ascending sequence of `n` distinct indices, all below `n`, is
      `0, 1, ..., n - 1`. */
  lemma {:induction false} FullSelectionIsIdentity(s: seq<nat>, n: nat)
    requires Ascending(s) && Distinct(s) && |s| == n
    requires forall p :: 0 <= p < |s| ==> s[p] < n
    ensures forall p :: 0 <= p < n ==> s[p] == p
  {
    forall p | 0 <= p < n ensures s[p] == p
    {
      LowerBound(s, p);
      LowerBound(s[p..], n - 1 - p);
      assert s[p..][n - 1 - p] == s[n - 1];
    }
  }

  /** In an ascending sequence without repeats each step adds at least one. */
  lemma {:induction false} LowerBound(s: seq<nat>, p: nat)
    requires Ascending(s) && Distinct(s) && p < |s|
    ensures s[p] >= s[0] + p
  {
    if p > 0 {
      LowerBound(s, p - 1);
      assert s[p - 1] <= s[p] && s[p - 1] != s[p];
    }
  }
}
