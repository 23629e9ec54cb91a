# SafeDrop AI answer scoring, modelled in Dafny

This project models the scoring core of the SafeDrop AI evaluation script
(`evaluate_rag.py`). For each dataset row, the script asks the
retrieval-augmented answering engine a question. It then judges the answer
it gets back:

- whether anything was answered at all;
- which spans the answer quotes, using the pattern `"([^"]{8,400})"`;
- whether some quote occurs verbatim in a retrieved chunk ("strictly
  grounded");
- how close the longest quote comes to the chunks under an embedding
  similarity.

It writes one log row per query, with the sorted, de-duplicated source file
names and a one-line excerpt of the answer. At the end it reports five
percentages over the rows: answered, faithful (similarity at least 0.65),
grounded, quoting, and escalating (the excerpt contains `Escalate:` in any
case).

Modules, one per concern of the script:

- `Quotes` (`quotes.dfy`) — `QUOTE_RE.findall`. It is a left-to-right,
  non-overlapping scan. `RegexMatch` is an independent, scan-free
  definition of "the pattern matches here", and the scan is proved both
  sound and complete against it.
- `Grounding` (`grounding.dfy`) — covers three things:
  - `answered`, through Python's `str.strip` with its whitespace set;
  - the `grounded_strict` loop with its `break`;
  - the `best_sim` accumulator over the longest quote, where ties go to the
    first quote as in Python's `max`.
- `StringOrder` (`string_order.dfy`) — `sorted(set(...))` over strings in
  Python's code-point order.
- `Rounding` (`rounding.dfy`) — `round(x, 4)` and `round(x, 2)`.
- `Record` (`record.dfy`) — the row `eval_query` returns: the `sources` join,
  the excerpt, and the whole row, both as a specification function
  (`Evaluate`) and as the method that computes it (`EvalQuery`).
- `Summary` (`summary.dfy`) — the loop of `main` and the five percentages.
- `Optional` (`optional.dfy`) — an `Option` type, used for missing
  dictionary entries and missing metadata.

The embedding similarity (`cosine`) is a parameter `sim` of every member that
needs it. The engine's output and the measured latency are inputs.

## Model

| member | source | states |
|---|---|---|
| Quotes.RunLength | evaluate_rag.py:25 | the non-quote run starting at `j` stays in the string, contains no `"`, and ends at the end of the string or at a `"` |
| Quotes.MatchAt | evaluate_rag.py:25 | one anchored attempt succeeds exactly when some match opens at `i`, and the span it reports is such a match |
| Quotes.MatchEndIsRunEnd | evaluate_rag.py:25 | a match opened at `i` can only close where the maximal non-quote run ends, so backtracking never finds another match |
| Quotes.ScanSound | evaluate_rag.py:45 | every span the scan reports from `p` is a genuine match after `p`; the spans are in increasing order and never overlap |
| Quotes.FindAll | evaluate_rag.py:45 | `findall`'s matches are genuine matches of the pattern, in order, each closing before the next opens |
| Quotes.ScanCovers | evaluate_rag.py:45 | no match is skipped: every position where the pattern could match opens a reported match or lies inside one |
| Quotes.FindAllComplete | evaluate_rag.py:45 | every position where the pattern matches is covered by a match `findall` reports |
| Quotes.QuoteTexts | evaluate_rag.py:45 | one quote per match; each is the text strictly between two `"` in the answer, 8 to 400 characters long, without `"` |
| Quotes.NoQuoteCharNoQuotes | evaluate_rag.py:45 | an answer without a `"` yields no quotes |
| Quotes.ScanSkipsQuoteless | evaluate_rag.py:45 | the scan passes over a stretch without `"` without reporting anything |
| Quotes.SingleQuote | evaluate_rag.py:45 | an answer with one pair of `"` around 8..400 other characters yields exactly that text |
| Quotes.QuotesNeedRoom | evaluate_rag.py:25 | an answer shorter than 10 characters yields no quotes |
| Quotes.ShortQuoteRejected | evaluate_rag.py:25 | a quoted span shorter than 8 characters is not a quote |
| Grounding.LeadingSpaces | evaluate_rag.py:43 | counts exactly the whitespace prefix that `strip` removes at the front |
| Grounding.TrailingSpaces | evaluate_rag.py:43 | counts exactly the whitespace suffix that `strip` removes at the back |
| Grounding.Strip | evaluate_rag.py:43 | the stripped answer is the slice of the answer after its leading whitespace; everything after the slice is whitespace, and a non-empty result starts and ends with non-whitespace, so exactly the maximal whitespace at each end is removed |
| Grounding.AnsweredIff | evaluate_rag.py:43 | `answered` holds exactly when the answer has a non-whitespace character |
| Grounding.GroundedStrict | evaluate_rag.py:49-53 | the loop with `break` returns true exactly when some quote is a substring of some chunk |
| Grounding.LongestIndex | evaluate_rag.py:59 | `max(quotes, key=len)` picks a quote of maximal length, the first such one |
| Grounding.LongestIndexUnique | evaluate_rag.py:59 | the first longest quote is the only index with both properties |
| Grounding.MaxSim | evaluate_rag.py:60 | the `max` over chunks is attained by some chunk and bounds the similarity to every chunk |
| Grounding.SemanticSimSpec | evaluate_rag.py:56-60 | gives 0.0 without quotes or chunks; otherwise the best similarity of the first longest quote over the chunks; stays in [-1, 1] when `sim` does |
| Grounding.SemanticSim | evaluate_rag.py:56-60 | the `best_sim` accumulator computes that value |
| StringOrder.BelowIrreflexive | evaluate_rag.py:70 | no string sorts before itself |
| StringOrder.BelowTransitive | evaluate_rag.py:70 | the string order of `sorted` is transitive |
| StringOrder.BelowTotal | evaluate_rag.py:70 | any two distinct strings are ordered one way or the other |
| StringOrder.BelowAsymmetric | evaluate_rag.py:70 | two strings never sort before each other |
| StringOrder.InsertSorted | evaluate_rag.py:70 | inserting keeps a list strictly increasing and adds exactly the new element |
| StringOrder.SortedSetSpec | evaluate_rag.py:70 | `sorted(set(xs))` is strictly increasing and holds exactly the elements of `xs` |
| StringOrder.StrictlySortedUnique | evaluate_rag.py:70 | two strictly increasing lists with the same elements are equal, so the result does not depend on how it was computed |
| Rounding.NearestEvenSpec | evaluate_rag.py:68-69 | the nearest integer is at most half a unit away, and an integer rounds to itself |
| Rounding.NearestEvenTie | evaluate_rag.py:68-69 | a value exactly halfway goes to the even neighbour |
| Rounding.NearestEvenMonotone | evaluate_rag.py:68-69 | rounding to an integer keeps order |
| Rounding.RoundNearest | evaluate_rag.py:68-69 | `round(x, 4)` and `round(x, 2)` move a value by at most half a unit in the last kept place |
| Rounding.Round4Monotone | evaluate_rag.py:68 | `round(x, 4)` keeps order |
| Rounding.Round4Idempotent | evaluate_rag.py:68 | rounding a rounded similarity again changes nothing |
| Rounding.Round4KeepsUnitBounds | evaluate_rag.py:68 | rounding keeps 0.0, and keeps a similarity in [-1, 1] |
| Rounding.RoundedAtLeastCutoff | evaluate_rag.py:68 | the rounded similarity is at least 0.65 exactly when the unrounded one is at least 0.64995 |
| Record.OutputDefaults | evaluate_rag.py:36-37 | a missing or `None` result is judged as the empty answer and missing or `None` source documents as no chunks; present entries are used unchanged |
| Record.ChunkTexts | evaluate_rag.py:40 | one context text per retrieved chunk, in order |
| Record.BasenameSpec | evaluate_rag.py:41 | the basename is the longest suffix of the path without `/` |
| Record.BasenameOfPlainName | evaluate_rag.py:41 | a name without `/`, such as `unknown`, is its own basename |
| Record.SourceNames | evaluate_rag.py:41 | one file name per chunk, in order |
| Record.Join | evaluate_rag.py:70 | `", ".join` gives the empty string for no names; otherwise it starts with the first name, and its length is the names' total length plus the separator's length once for each of the n - 1 gaps |
| Record.JoinNameAt | evaluate_rag.py:70 | name `k` appears verbatim at its offset, which is the length of the earlier names each followed by a separator |
| Record.JoinSeparatorBefore | evaluate_rag.py:70 | exactly the separator stands just before every name but the first |
| Record.JoinEndsWithLast | evaluate_rag.py:70 | the joined string ends where the last name ends; with the two rows above, this fixes every character of the result |
| Record.SourcesDependOnlyOnNames | evaluate_rag.py:70 | `sources` depends only on which file names occur, not on their order or repetition |
| Record.SourcesExample | evaluate_rag.py:70 | chunks from `b.pdf`, `a.pdf`, `a.pdf` give `a.pdf, b.pdf` |
| Record.SortedSetOfTwoNames | evaluate_rag.py:70 | the names `b.pdf`, `a.pdf`, `a.pdf` sort and deduplicate to `a.pdf`, `b.pdf` |
| Record.JoinTwo | evaluate_rag.py:70 | two names are joined with `", "` |
| Record.MissingSourceIsUnknown | evaluate_rag.py:41 | a chunk without a source entry is listed as `unknown` |
| Record.ReplaceNewlinesSpec | evaluate_rag.py:71 | `replace("\n", " ")` keeps the length and turns exactly the newlines into spaces |
| Record.ExcerptSpec | evaluate_rag.py:71 | the excerpt has no newline, is at most 800 characters and is min(800, length) long, and is a prefix of the answer with newlines turned into spaces |
| Record.ExcerptIdempotent | evaluate_rag.py:71 | taking the excerpt of an excerpt changes nothing |
| Record.ExcerptKeepsShortLine | evaluate_rag.py:71 | a one-line answer of at most 800 characters is kept as it is |
| Record.EvaluateInvariants | evaluate_rag.py:36-72 | covers every row: grounded implies quoted; no quote gives not grounded and similarity 0.0; similarity in [-1, 1] when `sim` is; answered iff a non-whitespace character; excerpt short and on one line |
| Record.EvalQuery | evaluate_rag.py:30-72 | the loops of `eval_query` compute exactly the row `Evaluate` specifies, and `sem_thresh` has no effect |
| Record.NoQuoteNoEvidence | evaluate_rag.py:45-60 | an answer without `"` is not quoting, not grounded, and has similarity 0.0 |
| Record.QuoteInChunkGrounds | evaluate_rag.py:49-53 | a quote found verbatim in a chunk makes the row grounded, whatever its similarity |
| Record.SingleQuoteAnswered | evaluate_rag.py:43-46 | an answer quoting one admissible span is answered and has that span as its only quote |
| Record.QuotedAnswerScenario | evaluate_rag.py:43-60 | an answer quoting one span that a chunk contains is answered, quoting and grounded, and its similarity is the rounded best similarity of that span, at least its rounded similarity to that chunk |
| Record.SignatureParcelScenario | evaluate_rag.py:43-68 | an answer quoting the policy sentence held by its only chunk is answered, quoting and grounded, with similarity `round(sim(s, s), 4)` |
| Summary.Count | evaluate_rag.py:82-87 | the number of true values in a column is the number of row positions whose row satisfies the test, and at most the row count |
| Summary.CountExtremes | evaluate_rag.py:82-87 | the count is 0 iff no row satisfies the test, and equals the row count iff every row does |
| Summary.Percent | evaluate_rag.py:82-87 | `100 * mean` lies in [0, 100]; it is 0 iff nothing counts, 100 iff everything counts, and times the row count it equals 100 times the count |
| Summary.PercentMonotone | evaluate_rag.py:82-87 | a larger count gives a larger percentage |
| Summary.Share | evaluate_rag.py:82-87 | `100 * column.mean()` is 100 times the number of rows whose flag is set, divided by the number of rows, and lies in [0, 100] |
| Summary.Summarize | evaluate_rag.py:82-87 | an empty run fails; any other run gives five percentages in [0, 100], each 100 times the number of rows that are answered, faithful (similarity at least 0.65), strictly grounded, quoting, or escalating, divided by the number of rows |
| Summary.CountMonotone | evaluate_rag.py:83-84 | rows passing a stronger test are never more than rows passing a weaker one |
| Summary.GroundedShareAtMostQuotedShare | evaluate_rag.py:83-84 | when grounded rows quote, the grounded percentage never exceeds the quoting percentage |
| Summary.FaithfulThresholdInclusive | evaluate_rag.py:86 | a similarity of exactly 0.65 counts as faithful, and 0.6499 does not |
| Summary.SignatureParcelFaithful | evaluate_rag.py:86 | the answer quoting the policy sentence held by its only chunk counts as faithful whenever the sentence's similarity with itself is at least 0.64995, as a cosine of 1.0 is |
| Summary.FaithfulRow | evaluate_rag.py:86 | a row counts as faithful exactly when its unrounded similarity is at least 0.64995, whatever `sem_thresh` was |
| Summary.EvaluateAll | evaluate_rag.py:78-79 | a run has one row per dataset row |
| Summary.EvaluateAllAt | evaluate_rag.py:78-79 | row `i` of the run is the evaluation of dataset row `i`, so the order is kept |
| Summary.EvaluateAllSnoc | evaluate_rag.py:79 | evaluating one more dataset row appends its result at the end |
| Summary.RunBatch | evaluate_rag.py:76-79 | the loop of `main` builds exactly the rows of the run, in dataset order |
| Summary.BatchRowsConsistent | evaluate_rag.py:76-84 | in a run, every grounded row quotes, so no more rows are grounded than quote |
| Summary.FoldsToIff | evaluate_rag.py:87 | under case-insensitive matching, a text character matches an already folded pattern character exactly when it folds to it |
| Summary.ContainsIgnoreCaseIff | evaluate_rag.py:87 | case-insensitive search for a folded pattern is exactly substring search in the folded text |
| Summary.EscalationIsFoldedSearch | evaluate_rag.py:87 | a row counts as escalating exactly when `escalate:` occurs in its folded excerpt |
| Summary.EscalationRow | evaluate_rag.py:87 | an answer that opens with `escalate:` in any case, without `"` or newlines, is answered, not quoting, not grounded, has similarity 0.0, and counts as escalating |
| Summary.EscalationAnswerScenario | evaluate_rag.py:87 | the literal escalation answer counts as escalating, with no quote, no grounding and similarity 0.0, whatever chunks came with it |

## Left out

- `cosine` and the MiniLM embedder (evaluate_rag.py:7-23) are numerical code behind a foreign model. The similarity is a parameter `sim`; bounds on it are assumed only where a contract says so.
- `build_chain`, `chain.invoke` and `time.time()` (evaluate_rag.py:31-34) call code that is not part of this model. Their results (the engine's output and the elapsed time) are inputs: `EngineOutput` to `Evaluate`/`EvalQuery`, and one `Invocation` per dataset row to `RunBatch`.
- Floating point is modelled as exact reals. `round` is exact ties-to-even on the real value; a float's binary representation, which can move a value just off a tie, is not modelled.
- The median latency (evaluate_rag.py:88) is not computed.
- Reading and writing CSV files and the console output (evaluate_rag.py:27-28, 75, 80, 90-100) are I/O.
- An empty dataset makes the script fail: `pd.DataFrame([])` has no `answered` column, so line 82 raises. `Summarize` returns `None` for it; there is no 0.0 convention.
- A chunk whose metadata maps `source` to `None` makes `os.path.basename` raise. The model's `None` source covers only metadata that is missing or lacks the key.
- `Basename` follows POSIX paths (separator `/` only).
- The regular-expression engine is modelled for this one pattern only.
- Summary.ContainsIgnoreCase folds case only as far as the letters of `escalate:` need: ASCII capitals, plus the long s, which Python's case-insensitive matching also folds to `s`. Other non-ASCII folds (the Kelvin sign to `k`, for one) concern no letter of the marker and are not modelled.
- `na=False` in the escalation count has no effect: every row's answer is a string.
- Summary.EvaluateAll: its own contract gives only the length; the row-by-row content is stated by Summary.EvaluateAllAt.
- The other files of the repository (ingest.py, rag_chain.py, app_streamlit.py and the two test scripts) are not part of this model.
