/** `summarizer(text, option, fraction)`: picks a strategy by its name. */
module Dispatch {
  import opened PyText
  import opened Document
  import opened Ranking
  import TfIdf
  import Frequency

  /** The three names the option menu offers. */
  datatype Strategy = TfIdfBased | FrequencyBased | GensimBased

  /** The option string the `if` chain recognises, if any. */
  function ParseOption(option: string): (s: Option<Strategy>)
    ensures s == Some(TfIdfBased) <==> option == "TfIdf-Based"
    ensures s == Some(FrequencyBased) <==> option == "Frequency-Based"
    ensures s == Some(GensimBased) <==> option == "Gensim-Based"
  {
    if option == "TfIdf-Based" then Some(TfIdfBased)
    else if option == "Frequency-Based" then Some(FrequencyBased)
    else if option == "Gensim-Based" then Some(GensimBased)
    else None
  }

  /** What `summarizer` returns: `None` when the option matches no branch.
      The TF-IDF row sums (`tfidfScores`), the orders the descending sorts
      produced (`tfidfRank`, `freqRank`) and the external summariser (`gensim`,
      given the sentences joined by newlines and the fraction) come from
      libraries outside this model. */
  function Summarizer(sents: seq<Sentence>, option: string, f: Fraction,
                      tfidfScores: seq<real>, tfidfRank: seq<nat>, freqRank: seq<nat>,
                      gensim: (string, Fraction) -> string): (r: Option<string>)
    requires option == "TfIdf-Based" ==>
               |tfidfScores| == |sents| && IsRanking(tfidfScores, tfidfRank)
    requires option == "Frequency-Based" ==>
               IsRanking(Frequency.Weights(sents, Frequency.FreqTable(sents)), freqRank)
    ensures r == None <==> option != "TfIdf-Based" && option != "Frequency-Based" && option != "Gensim-Based"
    ensures option == "TfIdf-Based" ==>
              r == Some(TfIdf.TfIdfSummary(Texts(sents), tfidfScores, tfidfRank, f))
    ensures option == "Frequency-Based" ==>
              r == Some(Frequency.FreqSummary(sents, freqRank, f))
    ensures option == "Gensim-Based" ==>
              r == Some(gensim(Join("\n", Texts(sents)), f))
  {
    match ParseOption(option)
    case Some(TfIdfBased) => Some(TfIdf.TfIdfSummary(Texts(sents), tfidfScores, tfidfRank, f))
    case Some(FrequencyBased) => Some(Frequency.FreqSummary(sents, freqRank, f))
    case Some(GensimBased) => Some(gensim(Join("\n", Texts(sents)), f))
    case None => None
  }
}
