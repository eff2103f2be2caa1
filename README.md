# AI News Researcher: retrieval and sentiment core in Dafny

The AI News Researcher is a Streamlit page over a table of BBC news
articles. It labels each article Positive, Negative or Neutral with a keyword
heuristic. For a query, it scores the first `search_depth` articles by the
dot product of their sentence embeddings with the query's embedding and
shows the `num_results` best. This project models those two pieces and
proves their properties:

- `corpus.dfy` (module `Corpus`): an article is a title plus a description
  cell. The cell is either text or a missing value. Missing values are
  converted two different ways: `str` makes one "nan", `fillna("")` makes
  one "".
- `sentiment.dfy` (module `Sentiment`): `analyze_sentiment`. It
  lower-cases the text, then tests the eight keywords as substrings. The
  positive list is tested before the negative list.
- `ranking.dfy` (module `Ranking`): `np.argsort`, the `[::-1]` reversal
  and the `[:num_results]` slice. NumPy's default argsort is not stable. So
  `IsArgsort` admits every order of equal scores, and every lemma holds for
  every argsort that NumPy may return. `ArgSort` is one such result, built
  by insertion; nothing depends on its tie order.
- `retrieval.dfy` (module `Retrieval`): the window `df.iloc[:search_depth]`,
  encoding, scoring with `np.dot`, ranking, and the hits the page shows. The
  embedding model is the parameter `embed: string -> seq<real>`, so it is
  deterministic and order-preserving by construction.

The model follows the code where a tidier behaviour might be expected:
- Ties: a stable tie order would put equal scores in ascending index
  order. The code does not: it reverses an unstable argsort. The model
  therefore promises no tie order. It proves instead that the tie order
  cannot change the scores shown (`Ranking.TopScoresIgnoreTies`), and that
  without ties the ranking is unique (`Ranking.DistinctScoresFixRanking`).
- `k <= 0` and an empty candidate set cannot occur. The sliders keep
  `num_results` in 1..10 and `search_depth` in {100, 200, 300, 500}, and an
  empty table or query shows the prompt instead (`Retrieval.Search`).
- Lower-casing: `Sentiment.Lower` folds only the ASCII letters A-Z, and
  this gives the same label as Python's `str.lower` on every text. The
  keywords are ASCII, so a match can only involve ASCII characters of the
  lowered text. Python lowers a non-ASCII character to an ASCII letter in
  only two cases: U+0130 becomes "i" followed by the combining dot U+0307,
  and U+212A (Kelvin sign) becomes "k". No keyword contains "k", and every
  "i" in a keyword is followed by another ASCII letter, never by U+0307.

## Model

| member | source | states |
|---|---|---|
| `Sentiment.Contains` | web_demo.py:25-26 | Python's `w in text` holds exactly when `w` occurs as a substring of the text at some position |
| `Sentiment.AnyContained` | web_demo.py:25-26 | `any(w in text for w in words)` holds exactly when some word of the list occurs in the text |
| `Sentiment.AnalyzeSentiment` | web_demo.py:23-27 | lower-cases the text (`Sentiment.Lower`, `Sentiment.LowerChar`: `.lower()` at line 24); Positive exactly when a positive keyword occurs, even if a negative one also does; Negative exactly when no positive keyword but some negative keyword occurs; Neutral exactly when none of the eight occurs |
| `Sentiment.AnalyzeDescription` | web_demo.py:24-28 | a text cell gets the label of its text; a missing cell is read through `str` (`Corpus.Str`, line 24) as "nan" and is Neutral |
| `Sentiment.MissingIsNeutral` | web_demo.py:24-27 | the text "nan" contains none of the eight keywords, so it is Neutral |
| `Sentiment.CaseInsensitive` | web_demo.py:24 | two texts that differ only in ASCII letter case (`SameUpToCase`) get the same label |
| `Sentiment.PositiveInContext` | web_demo.py:25 | matching is by substring: a Positive text stays Positive however much text surrounds it |
| `Sentiment.NeutralOutOfContext` | web_demo.py:25-27 | a text that is Neutral inside a longer text is Neutral on its own |
| `Sentiment.WindowIsPositive` | web_demo.py:25 | "Window" is Positive because it contains "win" |
| `Sentiment.PositiveBeforeNegative` | web_demo.py:25-26 | a text with both "rise" and "crisis" is Positive |
| `Ranking.Take` | web_demo.py:80 | a slice `s[:k]` has length min(k, len(s)) and is a prefix of `s`; `Retrieval.Window` uses it for `iloc[:search_depth]` at line 77 |
| `Retrieval.Window` | web_demo.py:77 | the window is the first min(search_depth, #articles) articles, in their original order |
| `Retrieval.Encode` | web_demo.py:78 | one vector per text (also the one-text batch of the query at line 76) |
| `Retrieval.EncodeInOrder` | web_demo.py:78 | batch encoding never reorders: vector i is the embedding of text i |
| `Retrieval.Descriptions` | web_demo.py:78 | one text per window article |
| `Retrieval.DescriptionsInOrder` | web_demo.py:78 | text i of the encoded batch is the description of window article i, with a missing description as "" (`Corpus.FillNa`) |
| `Retrieval.WindowVectors` | web_demo.py:77-78 | one vector per window article |
| `Retrieval.WindowVectorsInOrder` | web_demo.py:77-78 | vector i of the window is the embedding of article i's description, a missing one read as "" |
| `Retrieval.Scores` | web_demo.py:79 | the result is an error exactly when some article vector's dimension differs from the query's; otherwise there is one score per article, and score i is the dot product (`Retrieval.Dot`) of vector i with the query vector |
| `Retrieval.DotSymmetric` | web_demo.py:79 | the score does not depend on which vector is the query |
| `Retrieval.DotScale` | web_demo.py:79 | the score is the raw dot product, not the cosine: scaling an article vector by c scales its score by c |
| `Ranking.ArgSort` | web_demo.py:80 | the result is a permutation of the indices that reads the scores in ascending order |
| `Ranking.TopIndices` | web_demo.py:80 | `order[::-1][:k]` (`Ranking.Reverse`, `Ranking.Take`): min(k, n) entries, entry i being the i-th from the end of `order` |
| `Ranking.ArgsortTopK` | web_demo.py:80 | for every admissible argsort, reversing it and keeping the first k gives min(k, n) distinct in-range indices with non-increasing scores, and no index left out scores above one kept |
| `Ranking.TopScoresIgnoreTies` | web_demo.py:80 | two argsorts that order equal scores differently give the same top-k score sequence |
| `Ranking.DistinctScoresFixRanking` | web_demo.py:80 | when no two scores are equal there is exactly one argsort, so the ranking is determined |
| `Retrieval.Rank` | web_demo.py:79-80 | an error exactly when the dimensions clash; otherwise a correct top-k of the scores, whose score sequence equals that of every admissible argsort |
| `Retrieval.Hits` | web_demo.py:93-103 | the hits carry exactly the ranked indices, in order (as `top_results` at line 81), each with its own window article `sub_df.iloc[idx]` and its own score `scores[idx]` |
| `Retrieval.RankWindow` | web_demo.py:79-81 | never the prompt; fails exactly when the dimensions clash; otherwise min(k, window) hits with distinct window indices, each carrying its own article and score, scores non-increasing, and no window article left out scoring above a hit |
| `Retrieval.Search` | web_demo.py:74-81 | an empty query or an empty table gives the prompt; a dimension clash gives the error; otherwise at least one and at most k hits, which are a correct top-k of the window |

## Left out

- Page layout, sidebar, buttons, `st.rerun`, the `session_state` syncing of the query, charts, metrics and progress bars (web_demo.py:9, 39-71, 83-106): presentation and event handling.
- CSV loading (web_demo.py:13-20, 29-30): file I/O and pandas behaviour. This covers the column lower-casing, the `pubdate` parsing and the daily `resample` for the trend chart. The table is an input sequence of articles, and the publication date is not carried.
- The embedding model `SentenceTransformer('all-MiniLM-L6-v2')` and its `encode` (web_demo.py:33-34, 76, 78): a pretrained foreign model. It is the function parameter `embed`. Truncation and floating-point rounding inside it are not modelled.
- Floating point: scores are `real`, so rounding in `np.dot` is not modelled. The percentage formatting and the progress clamp (web_demo.py:103-104) are presentation.
- `top_results['sentiment'].mode()[0]` (web_demo.py:85): its tie behaviour depends on pandas internals.
- The regex title highlighting (web_demo.py:98): the query goes unescaped into a regular expression, so its behaviour is regex semantics.
- The column-wide `df['description'].apply(analyze_sentiment)` (web_demo.py:28) is a per-row map of `Sentiment.AnalyzeDescription`. It is not modelled as a separate operation.
- Sentiment.AnalyzeDescription: a cell is text or missing. `str` on numeric cells is not modelled.
- Retrieval.Search: when the dimensions clash, `np.dot` raises and Streamlit shows the exception. The model returns `Failed(DimensionMismatch)` instead.
