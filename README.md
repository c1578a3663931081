# Video summarizer: sentence selection, modelled in Dafny

The summarizer turns a video's caption text into an extractive summary. It
keeps a fraction of the caption's sentences, chosen by an importance score.
This project models the selection core of `summarizer_with_gui.py`:

- the selection count `k = ceil(n * fraction)`;
- the TF-IDF strategy (`tfidf_based`). Sentences are ranked by their TF-IDF
  row sums. The top `k` are kept and put back in document order. They are
  concatenated and every newline is deleted;
- the frequency strategy (`freq_based`). A word table is built over the
  lower-cased alphabetic non-stop-word tokens, and each count is normalised
  by the highest count. Each sentence weighs the sum of its tokens' table
  weights. The top `k` by weight, at most five, are emitted stripped and
  joined, in ranking order;
- the dispatcher `summarizer`, which chooses a strategy by its name;
- the sanitiser that builds the output file name from the video title.

Sentences arrive already split, each with its text and its tokens. Each token
carries its text and the tokenizer's `is_alpha` and `is_stop` flags (module
`Document`). The TF-IDF row sums are an input sequence of reals. The result
of each descending `sort_values` is an input `rank`. `IsRanking` constrains
it to list every index once, by non-increasing score. No tie rule is fixed,
because the sort is not stable. The fraction is an exact rational `num/den`.
All weights are exact reals.

Files: `pytext.dfy` (the Python string operations used), `document.dfy`,
`ranking.dfy` (count, slice, ranking, ascending sort), `tfidf.dfy`,
`frequency.dfy`, `dispatch.dfy`, `filename.dfy`.

Four behaviours of the code are easy to miss:

- `freq_based` does not restore document order. It emits in ranking order.
  `Frequency.FreqKeepsRankOrder` shows a document where the second sentence
  comes out first.
- The fraction is not validated. A fraction of 0 keeps nothing, and so does
  one between −1/n and 0 (`k` is 0). A fraction at or below −1/n gives a
  negative `k`, and the Python slice `xs[:k]` then drops `|k|` items from
  the end. `Ranking.SelectionCountNonPositive` states where `k` is 0 and
  `Ranking.SliceStop` models the slice.
- An unknown option is not an error. `summarizer` falls off its `if` chain
  and returns `None`.
- The frequency path caps its output at five sentences whatever `k` is.

## Model

| member | source | states |
|---|---|---|
| Ranking.SelectionCountIsCeiling | summarizer_with_gui.py:72 | the count is the ceiling of n·fraction: the least k with n·num ≤ k·den |
| Ranking.SelectionCountInRange | summarizer_with_gui.py:104 | for n ≥ 1 and 0 < fraction ≤ 1 the count lies in [1, n] |
| Ranking.SelectionCountWhole | summarizer_with_gui.py:72 | with fraction 1 the count is n |
| Ranking.SelectionCountNonPositive | summarizer_with_gui.py:72 | for a fraction at most 0 the count is at most 0, and it is exactly 0 when n·fraction > −1 (otherwise negative) |
| Ranking.PrefixDominates | summarizer_with_gui.py:80-84 | an index in a prefix of a descending ranking scores at least as high as any index outside it, whatever the tie order |
| Ranking.SortAsc | summarizer_with_gui.py:87 | `list.sort()` as a value: the result is ascending and a permutation of its input |
| Ranking.InsertElements | summarizer_with_gui.py:87 | one insertion step of the sort adds exactly the inserted index to the list's elements |
| Ranking.InsertAscending | summarizer_with_gui.py:87 | one insertion step of the sort keeps an ascending list ascending |
| Ranking.AscendingUnique | summarizer_with_gui.py:87 | two ascending sequences with the same elements are equal, so any correct sort gives the same list |
| TfIdf.SelectedMembers | summarizer_with_gui.py:84-87 | an index is kept exactly when it is among the first k of the ranking |
| TfIdf.SelectedIsTopOfRanking | summarizer_with_gui.py:84-87 | the kept indices are min(k, n) of them for k ≥ 0 (the Python slice length in general), strictly ascending, without repeats, each naming a sentence |
| TfIdf.TfIdfSummaryPieces | summarizer_with_gui.py:87-94 | the summary is the kept sentences in ascending index order, each with its newlines removed, concatenated |
| TfIdf.TfIdfKeepsHighestScores | summarizer_with_gui.py:80-84 | every kept sentence scores at least as high as every sentence left out |
| TfIdf.TfIdfKeepCount | summarizer_with_gui.py:72-84 | for n ≥ 1 and 0 < fraction ≤ 1 between 1 and n sentences are kept, and all n with fraction 1 |
| TfIdf.TfIdfWholeText | summarizer_with_gui.py:84-94 | when k ≥ n the summary is all sentences concatenated in order, with every newline removed |
| TfIdf.TfIdfSingleSentence | summarizer_with_gui.py:64-95 | a one-sentence document summarises to that sentence without its newlines |
| TfIdf.SortInPlace | summarizer_with_gui.py:87 | sorting the kept indices in place leaves them ascending and a permutation of the old contents |
| TfIdf.SortNeeded | summarizer_with_gui.py:84-87 | sorting the sliced list in place yields exactly `SortAsc` of it |
| TfIdf.Gather | summarizer_with_gui.py:90-92 | the append loop yields one sentence per kept index, the sentence at that index, in the order of the indices |
| TfIdf.TfIdfBased | summarizer_with_gui.py:64-95 | the imperative selection (slice, in-place sort, append loop, join, newline removal) returns `TfIdfSummary` |
| PyText.ConcatIsJoin | summarizer_with_gui.py:93 | `''.join` as `Concat` agrees with the general `sep.join` for the empty separator |
| PyText.RemoveChar | summarizer_with_gui.py:94 | `replace('\n', '')`: no newline is left, every other character keeps its number of occurrences, and text without newlines is unchanged |
| PyText.RemoveCharAppend | summarizer_with_gui.py:94 | removing a character from a joined text is removing it from each half and joining the results, so the kept characters stay in order |
| PyText.RemoveCharOne | summarizer_with_gui.py:94 | on a single character the removal deletes it if it is the removed one and keeps it otherwise |
| PyText.RemoveCharConcat | summarizer_with_gui.py:93-94 | removing a character after `''.join` equals joining the parts with the character removed from each, parts in their order |
| Frequency.WordsMembers | summarizer_with_gui.py:107-108 | a word is in the word list exactly when some alphabetic non-stop-word token lower-cases to it |
| Frequency.MostFrequent | summarizer_with_gui.py:112 | returns a word whose count is at least that of every word, so its count is the maximum |
| Frequency.WeightTableNormalised | summarizer_with_gui.py:110-116 | the table's keys are exactly the words; every weight lies in (0, 1]; a word weighs 1 exactly when no word is more frequent, and the most frequent word weighs 1 |
| Frequency.WeightTableKeepsOrder | summarizer_with_gui.py:110-116 | normalising keeps the count order: one word weighs at most another exactly when it occurs at most as often |
| Frequency.FreqTableKeys | summarizer_with_gui.py:107-116 | the table holds a word exactly when a qualifying token of the document lower-cases to it; every key is lower-case; every weight is in (0, 1] |
| Frequency.TokenWeightBounds | summarizer_with_gui.py:119-125 | with table weights in [0, 1] a sentence weighs between 0 and its number of tokens |
| Frequency.TokenWeightZero | summarizer_with_gui.py:119-125 | with positive table weights a sentence weighs 0 exactly when none of its tokens is in the table; tokens missing from the table add 0 |
| Frequency.FreqWeightsSpec | summarizer_with_gui.py:119-125 | under the document's own table every sentence weight is in [0, token count], and it is 0 exactly for sentences without a table word |
| Frequency.SentenceWeights | summarizer_with_gui.py:119-125 | the nested accumulation loops produce, per sentence, the sum of its tokens' table weights (`Weights`) |
| Frequency.FreqEmitsTopInRankOrder | summarizer_with_gui.py:126-133 | at most five and at most k indices are emitted (exactly min(k, n, 5) for k ≥ 0); they are the first of the ranking, in ranking order, so by non-increasing weight, without repeats |
| Frequency.FreqEmitsDominant | summarizer_with_gui.py:127-133 | every emitted sentence weighs at least as much as every sentence not emitted |
| Frequency.Emitted | summarizer_with_gui.py:131-133 | the emitted sentences are the original sentences at the emitted indices, in that order |
| Frequency.FreqBased | summarizer_with_gui.py:98-135 | the imperative path (weights loop, slices, append loop, strip and join) returns `FreqSummary` |
| Frequency.FreqSingleSentence | summarizer_with_gui.py:98-135 | a one-sentence document with 0 < fraction ≤ 1 summarises to that sentence, stripped |
| Frequency.FreqKeepsRankOrder | summarizer_with_gui.py:128-134 | for a document whose second sentence alone holds a table word, the only ranking puts it first, and the summary emits it before the first sentence |
| PyText.Strip | summarizer_with_gui.py:134 | `strip()` returns a contiguous piece of the text; only whitespace is removed, at both ends; the result neither starts nor ends with whitespace |
| Dispatch.ParseOption | summarizer_with_gui.py:55-59 | each of the three option names, and only it, selects its strategy |
| Dispatch.Summarizer | summarizer_with_gui.py:51-62 | "TfIdf-Based" gives the TF-IDF summary; "Frequency-Based" gives the frequency summary; "Gensim-Based" gives the external summariser's result on the newline-joined sentences; any other option gives no result |
| FileName.Replace | summarizer_with_gui.py:232 | the substitution keeps the length, turns each matched character into a space and leaves the others in place |
| FileName.SanitizeSpec | summarizer_with_gui.py:232 | the corrected sanitiser keeps the length, changes only `\ / : * ? < > \|`, each into a space, and leaves none of them; sanitising twice changes nothing |
| FileName.SummaryFileNameAsWritten | summarizer_with_gui.py:231-232 | the name the program saves to is as long as title, separator, option and extension together, holds none of `/ : * ? < > \|`, keeps every other character of the joined text in place, and equals the corrected name when title and option hold no backslash |
| FileName.CorrectedSummaryFileNameSafe | summarizer_with_gui.py:231-232 | the corrected name (backslash replaced too) holds no forbidden character and has the same length |
| FileName.AsWrittenKeepsBackslash | summarizer_with_gui.py:232 | for any text and any backslash in it, the substitution as written leaves that backslash in place; the corrected one turns it into a space and leaves no backslash |

## Findings

| source | as written | input that shows it | evidently intended | confidence | as-written member | corrected member |
|---|---|---|---|---|---|---|
| summarizer_with_gui.py:232 | the class `[\/:*?<>\|]` reads `\/` as an escaped slash, so a backslash in the video title is not replaced | title `AC\DC` gives `AC\DC TfIdf-Based.txt`, which the Windows file system reads as a file inside a directory `AC` | replace the backslash too, like the other characters a file name may not hold | medium, not executed | FileName.AsWrittenKeepsBackslash | FileName.SanitizeSpec |

## Left out

- `get_caption` (caption download, subtitle parsing, the global `video_title`) is not modelled. The title is a parameter of `FileName.SummaryFileName`.
- Sentence splitting and tokenising are not modelled. Sentences come as given texts with tokens, and `is_alpha`/`is_stop` are data on each token.
- Lower-casing is modelled for ASCII letters only. Python's full Unicode case mapping is not modelled.
- `Document.Sentence`: the frequency path strips `span.string`, which is the span's text plus the trailing space of its last token. Stripping removes that space, so the model strips the text.
- TF-IDF weighting (the vectorizer's idf smoothing and L2 normalisation) is not modelled. The row sums are an input. The vectorizer's error on an empty vocabulary is not modelled either.
- `np.round(..., 3)` on the table weights (line 112) and on the sentence weights (line 126) is not modelled; all weights are exact and the ranking input is a ranking of the exact sentence weights. Rounding the sentence sums alone could only make different weights equal. The table weights, however, are rounded before they are summed (lines 123-124), and the rounded terms can reverse two sentences whose exact weights differ by less than the accumulated rounding error. Each rounded table weight is off by at most 0.0005 and two different exact sentence weights differ by at least 1/top, so a reversal needs (top count) × (qualifying tokens in the two sentences) above about 2000. With a top count of 300, nine tokens of words seen once weigh 0.030 exactly and 0.027 rounded (0.003 each), while four tokens of words seen twice weigh 0.0267 exactly and 0.028 rounded (0.007 each): the program ranks the second sentence first, the exact weights the first.
- Frequency.FreqEmitsTopInRankOrder: its weight order is that of the exact weights; the program sorts the rounded weights, which can differ as described above.
- Frequency.FreqEmitsDominant: dominance holds for the exact weights; under the program's rounded table weights a sentence left out can outweigh an emitted one exactly.
- Frequency.FreqKeepsRankOrder: the example's weights are exact; its table weight 1.0 is unchanged by rounding, so the example itself is unaffected.
- The fraction is a Python float. The model takes an exact rational. Float rounding of `n * fraction` before `ceil`, and NaN or infinite fractions, are not modelled.
- The descending `sort_values` is not modelled. Its result is the `rank` input, constrained by `IsRanking`. Any tie order is allowed.
- The gensim strategy is an external summariser. It is the function parameter `gensim` of `Dispatch.Summarizer`, applied to the sentences joined by newlines and the fraction.
- Sanitize: the corrected character class adds only the backslash, the character the escaped slash evidently meant; other characters Windows refuses in file names, such as `"`, are replaced by neither the program nor the model.
- The Tk GUI, `on_submit`'s directory changes, file writes and file removal are not modelled. Of that code only the file-name expression on lines 231-232 is modelled.
