/** `freq_based`: a word-frequency table over the lower-cased alphabetic
    non-stop-word tokens of the whole document, normalised by the highest
    count; each sentence weighs the sum of its tokens' table weights; the
    top `k` sentences by weight, at most five of them, are emitted stripped
    and joined, in ranking order. */
module Frequency {
  import opened PyText
  import opened Document
  import opened Ranking

  /** The word filter: `word.is_alpha and word.is_stop == False`. */
  predicate Qualifies(t: Token)
  {
    t.isAlpha && !t.isStop
  }

  /** The word list: the lower-cased text of every qualifying token of the
      document, in order. */
  function Words(tokens: seq<Token>): seq<string>
  {
    if |tokens| == 0 then []
    else (if Qualifies(tokens[0]) then [Lower(tokens[0].text)] else []) + Words(tokens[1..])
  }

  /** A word is listed exactly when some qualifying token lower-cases to it. */
  lemma {:induction false} WordsMembers(tokens: seq<Token>, w: string)
    ensures w in Words(tokens) <==>
            exists i :: 0 <= i < |tokens| && Qualifies(tokens[i]) && Lower(tokens[i].text) == w
  {
    if |tokens| > 0 {
      WordsMembers(tokens[1..], w);
      if w in Words(tokens[1..]) {
        var i :| 0 <= i < |tokens[1..]| && Qualifies(tokens[1..][i]) && Lower(tokens[1..][i].text) == w;
        assert tokens[i + 1] == tokens[1..][i];
      }
      if exists i :: 0 <= i < |tokens| && Qualifies(tokens[i]) && Lower(tokens[i].text) == w {
        var i :| 0 <= i < |tokens| && Qualifies(tokens[i]) && Lower(tokens[i].text) == w;
        if i > 0 {
          assert tokens[1..][i - 1] == tokens[i];
        }
      }
    }
  }

  /** A word of `from` whose count in `ws` (`Counter(words)`) is highest. */
  function MostFrequent(ws: seq<string>, from: seq<string>): (w: string)
    requires |from| > 0
    ensures w in from
    ensures forall x :: x in from ==> multiset(ws)[x] <= multiset(ws)[w]
  {
    if |from| == 1 then from[0]
    else
      var best := MostFrequent(ws, from[1..]);
      assert forall x :: x in from ==> x == from[0] || x in from[1..];
      if multiset(ws)[from[0]] >= multiset(ws)[best] then from[0] else best
  }

  /** `df.freq.max()`: the highest count of any word (0 for no words). */
  function MaxCount(ws: seq<string>): nat
  {
    if |ws| == 0 then 0 else multiset(ws)[MostFrequent(ws, ws)]
  }

  /** `df.freq / df.freq.max()` as a dictionary: each distinct word to its
      count over the highest count (exact, before the 3-decimal rounding). */
  function WeightTable(ws: seq<string>): map<string, real>
  {
    if |ws| == 0 then map[]
    else
      var top := MaxCount(ws);
      assert top >= multiset(ws)[ws[0]] >= 1;
      map w | w in ws :: multiset(ws)[w] as real / top as real
  }

  /** The normalised table: its keys are the words, every weight lies in
      (0, 1], and a word weighs exactly 1 when no word is more frequent;
      the most frequent word is such a word. */
  lemma WeightTableNormalised(ws: seq<string>)
    ensures forall w :: w in WeightTable(ws) <==> w in ws
    ensures forall w :: w in WeightTable(ws) ==> 0.0 < WeightTable(ws)[w] <= 1.0
    ensures forall w :: w in WeightTable(ws) ==>
              (WeightTable(ws)[w] == 1.0 <==> forall x :: x in ws ==> multiset(ws)[x] <= multiset(ws)[w])
    ensures |ws| > 0 ==> WeightTable(ws)[MostFrequent(ws, ws)] == 1.0
  {
    if |ws| > 0 {
      var table := WeightTable(ws);
      var top := MaxCount(ws);
      var best := MostFrequent(ws, ws);
      forall w | w in table
        ensures 0.0 < table[w] <= 1.0
        ensures table[w] == 1.0 <==> forall x :: x in ws ==> multiset(ws)[x] <= multiset(ws)[w]
      {
        var c := multiset(ws)[w];
        assert 1 <= c <= top;
        RatioBounds(c, top);
        if table[w] == 1.0 {
          forall x | x in ws ensures multiset(ws)[x] <= c {
            assert multiset(ws)[x] <= top;
          }
        }
        if forall x :: x in ws ==> multiset(ws)[x] <= c {
          assert top <= c;
        }
      }
      RatioBounds(top, top);
    }
  }

  /** Normalising keeps the order of the counts: one word weighs at most
      another exactly when it occurs at most as often. */
  lemma WeightTableKeepsOrder(ws: seq<string>, a: string, b: string)
    requires a in ws && b in ws
    ensures a in WeightTable(ws) && b in WeightTable(ws)
    ensures multiset(ws)[a] <= multiset(ws)[b] <==> WeightTable(ws)[a] <= WeightTable(ws)[b]
  {
    var top := MaxCount(ws);
    assert top >= multiset(ws)[ws[0]] >= 1;
    DivideKeepsOrder(multiset(ws)[a] as real, multiset(ws)[b] as real, top as real);
  }

  /** Dividing by a positive number keeps the order. */
  lemma DivideKeepsOrder(x: real, y: real, m: real)
    requires m > 0.0
    ensures x / m <= y / m <==> x <= y
  {
    assert (x / m) * m == x && (y / m) * m == y;
    if x / m <= y / m {
      assert (x / m) * m <= (y / m) * m;
    }
  }

  /** For counts 1 <= c <= m: 0 < c/m <= 1, and c/m is 1 exactly when c = m. */
  lemma RatioBounds(c: nat, m: nat)
    requires 1 <= c <= m
    ensures 0.0 < c as real / m as real <= 1.0
    ensures c as real / m as real == 1.0 <==> c == m
  {
    var r := c as real / m as real;
    assert r * m as real == c as real;
  }

  /** The table `freq_based` builds from the whole document. */
  function FreqTable(sents: seq<Sentence>): map<string, real>
  {
    WeightTable(Words(AllTokens(sents)))
  }

  /** The table holds a word exactly when some alphabetic non-stop-word token
      of the document lower-cases to it; every key is lower-case and every
      weight is in (0, 1]. */
  lemma FreqTableKeys(sents: seq<Sentence>, w: string)
    ensures var tokens := AllTokens(sents);
            w in FreqTable(sents) <==>
            exists i :: 0 <= i < |tokens| && Qualifies(tokens[i]) && Lower(tokens[i].text) == w
    ensures w in FreqTable(sents) ==> Lower(w) == w && 0.0 < FreqTable(sents)[w] <= 1.0
  {
    var tokens := AllTokens(sents);
    WeightTableNormalised(Words(tokens));
    WordsMembers(tokens, w);
    if w in FreqTable(sents) {
      var i :| 0 <= i < |tokens| && Qualifies(tokens[i]) && Lower(tokens[i].text) == w;
      LowerIdempotent(tokens[i].text);
    }
  }

  /** `wfreq_words[w]` when present, else 0: what a token adds to `temp`. */
  function Lookup(table: map<string, real>, w: string): real
  {
    if w in table then table[w] else 0.0
  }

  /** The value of `temp` once the inner loop has visited `tokens`. */
  function TokenWeight(tokens: seq<Token>, table: map<string, real>): real
  {
    if |tokens| == 0 then 0.0
    else TokenWeight(tokens[..|tokens| - 1], table) + Lookup(table, Lower(tokens[|tokens| - 1].text))
  }

  /** `sent_weight`: one weight per sentence. */
  function Weights(sents: seq<Sentence>, table: map<string, real>): (weights: seq<real>)
    ensures |weights| == |sents|
  {
    seq(|sents|, i requires 0 <= i < |sents| => TokenWeight(sents[i].tokens, table))
  }

  /** With table weights in [0, 1], a sentence weighs between 0 and its
      number of tokens. */
  lemma {:induction false} TokenWeightBounds(tokens: seq<Token>, table: map<string, real>)
    requires forall w :: w in table ==> 0.0 <= table[w] <= 1.0
    ensures 0.0 <= TokenWeight(tokens, table) <= |tokens| as real
  {
    if |tokens| > 0 {
      TokenWeightBounds(tokens[..|tokens| - 1], table);
    }
  }

  /** With positive table weights, a sentence weighs 0 exactly when none of
      its tokens is in the table. */
  lemma {:induction false} TokenWeightZero(tokens: seq<Token>, table: map<string, real>)
    requires forall w :: w in table ==> 0.0 < table[w]
    ensures TokenWeight(tokens, table) >= 0.0
    ensures TokenWeight(tokens, table) == 0.0 <==>
            forall i :: 0 <= i < |tokens| ==> Lower(tokens[i].text) !in table
  {
    if |tokens| > 0 {
      var init := tokens[..|tokens| - 1];
      TokenWeightZero(init, table);
      assert forall i :: 0 <= i < |init| ==> init[i] == tokens[i];
    }
  }

  /** The weights of the document's sentences under its own table are
      non-negative, bounded by the sentence lengths, and zero exactly for the
      sentences without a table word. */
  lemma FreqWeightsSpec(sents: seq<Sentence>)
    ensures var table := FreqTable(sents);
            var weights := Weights(sents, table);
            forall s :: 0 <= s < |sents| ==>
              && 0.0 <= weights[s] <= |sents[s].tokens| as real
              && (weights[s] == 0.0 <==>
                  forall i :: 0 <= i < |sents[s].tokens| ==> Lower(sents[s].tokens[i].text) !in table)
  {
    var table := FreqTable(sents);
    WeightTableNormalised(Words(AllTokens(sents)));
    forall s | 0 <= s < |sents|
      ensures var weights := Weights(sents, table);
              && 0.0 <= weights[s] <= |sents[s].tokens| as real
              && (weights[s] == 0.0 <==>
                  forall i :: 0 <= i < |sents[s].tokens| ==> Lower(sents[s].tokens[i].text) !in table)
    {
      TokenWeightBounds(sents[s].tokens, table);
      TokenWeightZero(sents[s].tokens, table);
    }
  }

  /** The nested loops of `freq_based` that fill `sent_weight`. */
  method SentenceWeights(sents: seq<Sentence>, table: map<string, real>) returns (weights: seq<real>)
    ensures weights == Weights(sents, table)
  {
    weights := [];
    var s := 0;
    while s < |sents|
      invariant 0 <= s <= |sents|
      invariant weights == Weights(sents[..s], table)
    {
      var tokens := sents[s].tokens;
      var temp := 0.0;
      var t := 0;
      while t < |tokens|
        invariant 0 <= t <= |tokens|
        invariant temp == TokenWeight(tokens[..t], table)
      {
        var w := Lower(tokens[t].text);
        if w in table {
          temp := temp + table[w];
        }
        assert tokens[..t + 1][..t] == tokens[..t];
        t := t + 1;
      }
      assert tokens[..t] == tokens;
      weights := weights + [temp];
      s := s + 1;
    }
    assert sents[..s] == sents;
  }

  /** The hard cap on emitted sentences: `indexlist[:5]`. */
  const MaxEmitted := 5

  /** The emitted indices, in ranking order: `rank[:numsentence][:5]`. */
  function EmittedIndices(n: nat, rank: seq<nat>, f: Fraction): seq<nat>
  {
    Take(Take(rank, SelectionCount(n, f)), MaxEmitted)
  }

  /** The emitted indices are the first min(k, n, 5) of the ranking (for
      k >= 0), in ranking order, so by non-increasing weight; none repeats,
      each names a sentence, and each outweighs every sentence left out. */
  lemma FreqEmitsTopInRankOrder(weights: seq<real>, rank: seq<nat>, f: Fraction)
    requires IsRanking(weights, rank)
    ensures var idx := EmittedIndices(|weights|, rank, f);
            var k := SelectionCount(|weights|, f);
            && |idx| <= MaxEmitted
            && |idx| <= |weights|
            && (k >= 0 ==> |idx| <= k)
            && (k >= 0 ==> |idx| == Min(Min(k, |weights|), MaxEmitted))
            && (forall p :: 0 <= p < |idx| ==> idx[p] == rank[p] && idx[p] < |weights|)
            && Distinct(idx)
            && (forall p, q :: 0 <= p < q < |idx| ==> weights[idx[p]] >= weights[idx[q]])
  {
    var idx := EmittedIndices(|weights|, rank, f);
    assert idx == rank[..|idx|];
  }

  /** Every emitted sentence outweighs every sentence not emitted. */
  lemma FreqEmitsDominant(weights: seq<real>, rank: seq<nat>, f: Fraction)
    requires IsRanking(weights, rank)
    ensures var idx := EmittedIndices(|weights|, rank, f);
            forall p, j :: 0 <= p < |idx| && 0 <= j < |weights| && j !in idx
                           ==> idx[p] < |weights| && weights[idx[p]] >= weights[j]
  {
    var idx := EmittedIndices(|weights|, rank, f);
    assert idx == rank[..|idx|];
    forall p, j | 0 <= p < |idx| && 0 <= j < |weights| && j !in idx
      ensures idx[p] < |weights| && weights[idx[p]] >= weights[j]
    {
      PrefixDominates(weights, rank, |idx|, idx[p], j);
    }
  }

  function Min(a: int, b: int): int
  {
    if a <= b then a else b
  }

  /** The stripped texts of the given sentences:
      `token.string.strip() for token in sumlist`. */
  function StrippedTexts(sents: seq<Sentence>): (texts: seq<string>)
    ensures |texts| == |sents|
  {
    seq(|sents|, p requires 0 <= p < |sents| => Strip(sents[p].text))
  }

  /** `sumlist`: the emitted sentences in ranking order. */
  function Emitted(sents: seq<Sentence>, rank: seq<nat>, f: Fraction): (chosen: seq<Sentence>)
    requires IsRanking(Weights(sents, FreqTable(sents)), rank)
    ensures var idx := EmittedIndices(|sents|, rank, f);
            |chosen| == |idx| && forall p :: 0 <= p < |idx| ==> idx[p] < |sents| && chosen[p] == sents[idx[p]]
  {
    var idx := EmittedIndices(|sents|, rank, f);
    assert idx == rank[..|idx|];
    Pick(sents, idx)
  }

  /** The summary `freq_based` returns. */
  function FreqSummary(sents: seq<Sentence>, rank: seq<nat>, f: Fraction): string
    requires IsRanking(Weights(sents, FreqTable(sents)), rank)
  {
    Concat(StrippedTexts(Emitted(sents, rank, f)))
  }

  /** A one-sentence document with 0 < fraction <= 1 summarises to that
      sentence, stripped. */
  lemma FreqSingleSentence(s: Sentence, rank: seq<nat>, f: Fraction)
    requires IsRanking(Weights([s], FreqTable([s])), rank) && 0 < f.num <= f.den
    ensures FreqSummary([s], rank, f) == Strip(s.text)
  {
    SelectionCountInRange(1, f);
    assert rank == [0] by {
      assert 0 in rank;
    }
    assert EmittedIndices(1, rank, f) == [0];
    assert Emitted([s], rank, f) == [s];
    assert StrippedTexts([s]) == [Strip(s.text)];
    assert Concat([Strip(s.text)]) == Concat([]) + Strip(s.text);
  }

  /** `freq_based(text, fraction)`, given the sentences and the order in
      which the descending sort listed their weights. */
  method FreqBased(sents: seq<Sentence>, rank: seq<nat>, f: Fraction) returns (summary: string)
    requires IsRanking(Weights(sents, FreqTable(sents)), rank)
    ensures summary == FreqSummary(sents, rank, f)
  {
    var table := FreqTable(sents);
    var sentWeight := SentenceWeights(sents, table);
    assert IsRanking(sentWeight, rank);
    var numSentence := SelectionCount(|sents|, f);
    var indexList := Take(rank, numSentence);
    var firstFive := Take(indexList, MaxEmitted);
    ghost var chosen := Emitted(sents, rank, f);
    assert firstFive == EmittedIndices(|sents|, rank, f);
    var sumList: seq<Sentence> := [];
    var i := 0;
    while i < |firstFive|
      invariant 0 <= i <= |firstFive|
      invariant sumList == chosen[..i]
    {
      assert chosen[..i + 1] == chosen[..i] + [chosen[i]];
      sumList := sumList + [sents[firstFive[i]]];
      i := i + 1;
    }
    assert chosen[..i] == chosen;
    summary := Concat(StrippedTexts(sumList));
  }

  /** A two-sentence document whose second sentence alone holds a word
      that is alphabetic and not a stop word. */
  function RankOrderExample(): seq<Sentence>
  {
    [Sentence("Hi.", [Token("Hi", true, true), Token(".", false, false)]),
     Sentence("Cats!", [Token("Cats", true, false), Token("!", false, false)])]
  }

  lemma RankOrderExampleTable()
    ensures FreqTable(RankOrderExample()) == map["cats" := 1.0]
  {
    var sents := RankOrderExample();
    var hi, cats := sents[0], sents[1];
    assert AllTokens(sents) == hi.tokens + cats.tokens by {
      assert sents[..1] == [hi];
      assert AllTokens([hi]) == AllTokens([]) + hi.tokens;
    }
    assert Lower("Cats") == "cats";
    var toks := AllTokens(sents);
    assert toks[1..] == [Token(".", false, false)] + cats.tokens;
    assert toks[2..] == cats.tokens;
    assert toks[3..] == [Token("!", false, false)];
    assert Words(toks[3..]) == [] by { assert toks[3..][1..] == []; }
    assert Words(toks[2..]) == ["cats"] by { assert toks[2..][1..] == toks[3..]; }
    assert Words(toks[1..]) == ["cats"] by { assert toks[1..][1..] == toks[2..]; }
    var ws := Words(toks);
    assert ws == ["cats"];
    assert MaxCount(ws) == 1;
  }

  lemma RankOrderExampleWeights(table: map<string, real>)
    requires table == map["cats" := 1.0]
    ensures Weights(RankOrderExample(), table) == [0.0, 1.0]
  {
    var hi := [Token("Hi", true, true), Token(".", false, false)];
    var cats := [Token("Cats", true, false), Token("!", false, false)];
    assert Lower("Cats") == "cats";
    assert Lower("Hi") == "hi";
    assert Lower(".") == "." && Lower("!") == "!";
    assert TokenWeight(hi, table) == 0.0 by {
      assert |Lower("Hi")| == 2 && |Lower(".")| == 1;
      assert Lookup(table, Lower("Hi")) == 0.0 && Lookup(table, Lower(".")) == 0.0;
      assert hi[..1][..0] == [];
      assert TokenWeight(hi[..1], table) == TokenWeight([], table) + Lookup(table, Lower("Hi"));
      assert TokenWeight(hi, table) == TokenWeight(hi[..1], table) + Lookup(table, Lower("."));
    }
    assert TokenWeight(cats, table) == 1.0 by {
      assert cats[..1] == [cats[0]];
      assert [cats[0]][..0] == [];
    }
  }

  lemma RankOrderExampleText()
    ensures Concat(StrippedTexts([RankOrderExample()[1], RankOrderExample()[0]])) == "Cats!Hi."
  {
    assert Strip("Cats!") == "Cats!" by {
      assert SkipSpace("Cats!", 0) == 0;
      assert TrimEnd("Cats!", 0, 5) == 5;
    }
    assert Strip("Hi.") == "Hi." by {
      assert SkipSpace("Hi.", 0) == 0;
      assert TrimEnd("Hi.", 0, 3) == 3;
    }
    assert StrippedTexts([RankOrderExample()[1], RankOrderExample()[0]]) == ["Cats!", "Hi."];
    assert Concat(["Cats!", "Hi."]) == Concat(["Cats!"]) + "Hi.";
    assert Concat(["Cats!"]) == Concat([]) + "Cats!";
  }

  lemma RankingOfTwo(w: seq<real>)
    requires w == [0.0, 1.0]
    ensures IsRanking(w, [1, 0])
    ensures forall r :: IsRanking(w, r) ==> r == [1, 0]
  {
    assert 0 in [1, 0] && 1 in [1, 0];
    forall r | IsRanking(w, r) ensures r == [1, 0] {
      assert r[0] < 2 && r[1] < 2 && r[0] != r[1];
      assert w[r[0]] >= w[r[1]];
    }
  }

  lemma RankOrderExampleEmitted()
    requires IsRanking(Weights(RankOrderExample(), FreqTable(RankOrderExample())), [1, 0])
    ensures Emitted(RankOrderExample(), [1, 0], Fraction(1, 1)) == [RankOrderExample()[1], RankOrderExample()[0]]
  {
    assert EmittedIndices(2, [1, 0], Fraction(1, 1)) == [1, 0] by {
      assert SelectionCount(2, Fraction(1, 1)) == 2;
    }
  }

  /** The emitted sentences are not put back in document order: in the
      example document the only ranking puts the second sentence first, and
      fraction 1 emits it before the first one. */
  lemma FreqKeepsRankOrder()
    ensures IsRanking(Weights(RankOrderExample(), FreqTable(RankOrderExample())), [1, 0])
    ensures forall rank :: IsRanking(Weights(RankOrderExample(), FreqTable(RankOrderExample())), rank)
                           ==> rank == [1, 0]
    ensures FreqSummary(RankOrderExample(), [1, 0], Fraction(1, 1)) == "Cats!Hi."
  {
    RankOrderExampleTable();
    RankOrderExampleWeights(FreqTable(RankOrderExample()));
    RankingOfTwo(Weights(RankOrderExample(), FreqTable(RankOrderExample())));
    RankOrderExampleEmitted();
    RankOrderExampleText();
  }
}
