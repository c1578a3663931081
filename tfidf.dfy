/** `tfidf_based`: the sentences are ranked by the sum of their TF-IDF row
    (computed by the vectorizer and handed over here as `scores`), the first
    `k` of the ranking are kept, put back in document order, concatenated,
    and every newline is deleted. */
module TfIdf {
  import opened PyText
  import opened Ranking

  /** The kept indices in document order: `indexlist[:num_sent]`, then
      `needed.sort()`. */
  function SelectedInOrder(n: nat, rank: seq<nat>, f: Fraction): seq<nat>
  {
    SortAsc(Take(rank, SelectionCount(n, f)))
  }

  /** An index is kept exactly when it is among the first `k` of the ranking. */
  lemma SelectedMembers(n: nat, rank: seq<nat>, f: Fraction)
    ensures forall i :: i in SelectedInOrder(n, rank, f) <==> i in Take(rank, SelectionCount(n, f))
  {
    var top := Take(rank, SelectionCount(n, f));
    var order := SortAsc(top);
    forall i ensures i in order <==> i in top {
      assert i in order <==> i in multiset(order);
      assert i in top <==> i in multiset(top);
    }
  }

  /** The kept indices are the first `k` of the ranking, each once, in
      strictly ascending order, and all of them name a sentence. */
  lemma SelectedIsTopOfRanking(scores: seq<real>, rank: seq<nat>, f: Fraction)
    requires IsRanking(scores, rank)
    ensures var order := SelectedInOrder(|scores|, rank, f);
            && |order| == SliceStop(|scores|, SelectionCount(|scores|, f))
            && Ascending(order) && Distinct(order)
            && (forall p :: 0 <= p < |order| ==> order[p] < |scores|)
  {
    var top := Take(rank, SelectionCount(|scores|, f));
    var order := SortAsc(top);
    assert |order| == |multiset(order)| == |multiset(top)| == |top|;
    SelectedMembers(|scores|, rank, f);
    assert Distinct(top);
    DistinctPermutation(top, order);
    forall p | 0 <= p < |order| ensures order[p] < |scores|
    {
      assert order[p] in top;
    }
  }

  /** The summary `tfidf_based` returns. */
  function TfIdfSummary(sents: seq<string>, scores: seq<real>, rank: seq<nat>, f: Fraction): string
    requires |scores| == |sents| && IsRanking(scores, rank)
  {
    SelectedIsTopOfRanking(scores, rank, f);
    RemoveChar(Concat(Pick(sents, SelectedInOrder(|sents|, rank, f))), '\n')
  }

  /** The summary is, in ascending index order, each kept sentence with its
      own newlines removed, concatenated: removing the newlines keeps every
      other character where the concatenation put it. */
  lemma TfIdfSummaryPieces(sents: seq<string>, scores: seq<real>, rank: seq<nat>, f: Fraction)
    requires |scores| == |sents| && IsRanking(scores, rank)
    ensures var order := SelectedInOrder(|sents|, rank, f);
            && (forall p :: 0 <= p < |order| ==> order[p] < |sents|)
            && TfIdfSummary(sents, scores, rank, f)
               == Concat(seq(|order|, p requires 0 <= p < |order| && order[p] < |sents|
                                        => RemoveChar(sents[order[p]], '\n')))
  {
    var order := SelectedInOrder(|sents|, rank, f);
    SelectedIsTopOfRanking(scores, rank, f);
    var parts := Pick(sents, order);
    RemoveCharConcat(parts, '\n');
    assert seq(|parts|, p requires 0 <= p < |parts| => RemoveChar(parts[p], '\n'))
           == seq(|order|, p requires 0 <= p < |order| && order[p] < |sents|
                            => RemoveChar(sents[order[p]], '\n'));
  }

  /** Top-k dominance: every kept sentence scores at least as high as every
      sentence left out, whichever way ties were ordered. */
  lemma TfIdfKeepsHighestScores(scores: seq<real>, rank: seq<nat>, f: Fraction)
    requires IsRanking(scores, rank)
    ensures var order := SelectedInOrder(|scores|, rank, f);
            forall p, j :: 0 <= p < |order| && 0 <= j < |scores| && j !in order
                           ==> order[p] < |scores| && scores[order[p]] >= scores[j]
  {
    var k := SelectionCount(|scores|, f);
    var order := SelectedInOrder(|scores|, rank, f);
    SelectedIsTopOfRanking(scores, rank, f);
    SelectedMembers(|scores|, rank, f);
    forall p, j | 0 <= p < |order| && 0 <= j < |scores| && j !in order
      ensures order[p] < |scores| && scores[order[p]] >= scores[j]
    {
      PrefixDominates(scores, rank, SliceStop(|rank|, k), order[p], j);
    }
  }

  /** For a non-empty document and 0 < fraction <= 1 at least one and at most
      all sentences are kept; with fraction 1, all of them. */
  lemma TfIdfKeepCount(scores: seq<real>, rank: seq<nat>, f: Fraction)
    requires IsRanking(scores, rank) && |scores| >= 1 && 0 < f.num <= f.den
    ensures 1 <= |SelectedInOrder(|scores|, rank, f)| <= |scores|
    ensures f.num == f.den ==> |SelectedInOrder(|scores|, rank, f)| == |scores|
  {
    SelectedIsTopOfRanking(scores, rank, f);
    SelectionCountInRange(|scores|, f);
    if f.num == f.den {
      SelectionCountWhole(|scores|, f);
    }
  }

  /** When `k` reaches the number of sentences the summary is the whole
      text (the sentences concatenated in order) with its newlines removed. */
  lemma TfIdfWholeText(sents: seq<string>, scores: seq<real>, rank: seq<nat>, f: Fraction)
    requires |scores| == |sents| && IsRanking(scores, rank)
    requires SelectionCount(|sents|, f) >= |sents|
    ensures TfIdfSummary(sents, scores, rank, f) == RemoveChar(Concat(sents), '\n')
  {
    var order := SelectedInOrder(|sents|, rank, f);
    SelectedIsTopOfRanking(scores, rank, f);
    FullSelectionIsIdentity(order, |sents|);
    assert Pick(sents, order) == sents;
  }

  /** A one-sentence document summarises to that sentence, newlines removed. */
  lemma TfIdfSingleSentence(sent: string, scores: seq<real>, rank: seq<nat>, f: Fraction)
    requires |scores| == 1 && IsRanking(scores, rank) && 0 < f.num <= f.den
    ensures TfIdfSummary([sent], scores, rank, f) == RemoveChar(sent, '\n')
  {
    SelectionCountInRange(1, f);
    TfIdfWholeText([sent], scores, rank, f);
    assert [sent][..0] == [];
    assert Concat([sent]) == sent;
  }

  /** The state of one insertion pass: the element at `j` is moving left
      through `s[..i + 1]`; without it the prefix is ascending, it is below
      everything to its right, and everything to its left is at most
      everything to its right. */
  ghost predicate Inserting(s: seq<nat>, i: nat, j: nat)
  {
    && j <= i < |s|
    && (forall p, q :: 0 <= p < q <= i && p != j && q != j ==> s[p] <= s[q])
    && (forall q :: j < q <= i ==> s[j] < s[q])
    && (forall p, q :: 0 <= p < j < q <= i ==> s[p] <= s[q])
  }

  lemma InsertStart(s: seq<nat>, i: nat)
    requires i < |s| && Ascending(s[..i])
    ensures Inserting(s, i, i)
  {
    assert forall p :: 0 <= p < i ==> s[..i][p] == s[p];
  }

  lemma InsertStep(s: seq<nat>, i: nat, j: nat)
    requires Inserting(s, i, j) && 0 < j && s[j - 1] > s[j]
    ensures Inserting(s[j - 1 := s[j]][j := s[j - 1]], i, j - 1)
    ensures multiset(s[j - 1 := s[j]][j := s[j - 1]]) == multiset(s)
  {
    var t := s[j - 1 := s[j]][j := s[j - 1]];
    assert forall p :: 0 <= p < |s| && p != j - 1 && p != j ==> t[p] == s[p];
  }

  lemma InsertDone(s: seq<nat>, i: nat, j: nat)
    requires Inserting(s, i, j) && (j == 0 || s[j - 1] <= s[j])
    ensures Ascending(s[..i + 1])
  {
    forall p, q | 0 <= p < q <= i ensures s[p] <= s[q] {
      if q == j && p < j - 1 {
        assert s[p] <= s[j - 1];
      }
    }
  }

  /** `needed.sort()`: sorts the array of kept indices in place (insertion sort). */
  method SortInPlace(a: array<nat>)
    modifies a
    ensures Ascending(a[..])
    ensures multiset(a[..]) == old(multiset(a[..]))
  {
    var i := 0;
    while i < a.Length
      invariant 0 <= i <= a.Length
      invariant Ascending(a[..i])
      invariant multiset(a[..]) == old(multiset(a[..]))
    {
      InsertStart(a[..], i);
      assert a[..][..i] == a[..i];
      var j := i;
      while j > 0 && a[j - 1] > a[j]
        invariant Inserting(a[..], i, j)
        invariant multiset(a[..]) == old(multiset(a[..]))
      {
        InsertStep(a[..], i, j);
        a[j - 1], a[j] := a[j], a[j - 1];
        j := j - 1;
      }
      InsertDone(a[..], i, j);
      assert a[..][..i + 1] == a[..i + 1];
      i := i + 1;
    }
    assert a[..a.Length] == a[..];
  }

  /** The list `needed`, sorted in place: the result is `SortAsc` of it. */
  method SortNeeded(needed: seq<nat>) returns (order: seq<nat>)
    ensures order == SortAsc(needed)
  {
    var a := new nat[|needed|](p requires 0 <= p < |needed| => needed[p]);
    assert a[..] == needed;
    SortInPlace(a);
    order := a[..];
    AscendingUnique(order, SortAsc(needed));
  }

  /** The loop that appends `sents[i]` for each kept index `i`, in order. */
  method Gather(sents: seq<string>, order: seq<nat>) returns (parts: seq<string>)
    requires forall p :: 0 <= p < |order| ==> order[p] < |sents|
    ensures |parts| == |order|
    ensures forall p :: 0 <= p < |order| ==> parts[p] == sents[order[p]]
  {
    parts := [];
    var i := 0;
    while i < |order|
      invariant 0 <= i <= |order|
      invariant |parts| == i
      invariant forall p :: 0 <= p < i ==> parts[p] == sents[order[p]]
    {
      parts := parts + [sents[order[i]]];
      i := i + 1;
    }
  }

  /** `tfidf_based(msg, fraction)`, given the sentences, their TF-IDF row
      sums and the order in which the descending sort listed them. */
  method TfIdfBased(sents: seq<string>, scores: seq<real>, rank: seq<nat>, f: Fraction)
    returns (summary: string)
    requires |scores| == |sents| && IsRanking(scores, rank)
    ensures summary == TfIdfSummary(sents, scores, rank, f)
  {
    var numSent := SelectionCount(|sents|, f);
    var needed := Take(rank, numSent);
    var order := SortNeeded(needed);
    SelectedIsTopOfRanking(scores, rank, f);
    var parts := Gather(sents, order);
    assert parts == Pick(sents, order);
    summary := RemoveChar(Concat(parts), '\n');
  }
}
