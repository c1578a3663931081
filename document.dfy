/** A document as the sentence splitter hands it over: an ordered sequence
    of sentences, each with its text and its tokens. Splitting and
    tokenising are done by the NLP pipeline and are not modelled; the
    `is_alpha` and `is_stop` flags it computes for each token are data. */
module Document {

  /** One token: its text and the pipeline's `is_alpha` and `is_stop` flags. */
  datatype Token = Token(text: string, isAlpha: bool, isStop: bool)

  /** One sentence span: the span's `text` and its tokens. */
  datatype Sentence = Sentence(text: string, tokens: seq<Token>)

  /** `[sent.text for sent in doc.sents]`. */
  function Texts(sents: seq<Sentence>): seq<string>
  {
    seq(|sents|, i requires 0 <= i < |sents| => sents[i].text)
  }

  /** Every token of the document, in order: the sentences partition the
      document's tokens, so iterating the document is iterating them all. */
  function AllTokens(sents: seq<Sentence>): seq<Token>
  {
    if |sents| == 0 then [] else AllTokens(sents[..|sents| - 1]) + sents[|sents| - 1].tokens
  }
}
