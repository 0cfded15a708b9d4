# Retrieval scoring for the book's RAG backend

This project models the part of the backend that checks retrieval quality for the
book's question-answering service. It covers two modules.

- `backend/evaluation_metrics.py` holds the scoring engine:
  - the reciprocal rank of one query's ranked results, using a whole-word,
    case-insensitive match of the expected keywords that is not in a negated
    context;
  - precision@k and recall@k, using a plain lower-cased substring test;
  - `evaluate_retrieval`, which combines the three scores for one query;
  - the statistics and PASS/FAIL verdicts of `generate_report` over a batch of
    query records.
- `backend/retrieval_test.py` holds the test runner:
  - `search_qdrant` turns the vector database's hits into ranked result
    records;
  - `run_retrieval_tests` builds one record per test query and ends with the
    report.

The Dafny modules follow that structure.

- `Wrappers`: `Option`, `Result`, and `dict.get` with a default.
- `Text`: the Python string operations the code uses: `lower`, `in`, `find`,
  `rfind`, `strip` and `str(int)`.
- `Matching`: the strict relevance test behind the reciprocal rank and the
  coarse one behind precision and recall. It covers:
  - `re.finditer` with `\b...\b` and `re.IGNORECASE`;
  - the sentence window around a match;
  - the negation check.
- `Records`: hits, result records, metrics, query definitions, per-query
  records and the errors that escape a run.
- `EvaluationMetrics`: the scores, the per-query evaluation and the report.
- `RetrievalTest`: result formatting and the test run.
- `Scenarios`: concrete inputs that pin down how the strict test behaves,
  including the three reciprocal-rank cases of `tests/test_retrieval.py`.

Where the Python code loops, the model is a method with a loop, proved equal to
a specification function: `CalculateMrr`, `FindNonNegatedMatch`,
`CalculatePrecisionAtK`, `CalculateRecallAtK`, `SearchQdrant` and
`RunRetrievalTests`. The properties are lemmas about those functions. Python
numbers are modelled as unbounded integers and exact reals.

Behaviour the model makes explicit:

- **Two different relevance tests.** The reciprocal rank counts a result only
  when some keyword has a whole-word match with no negation word in the stripped
  sentence before it. Precision and recall count a result when some lower-cased
  keyword is a substring of the lower-cased content. A result that counts for
  the reciprocal rank also passes the substring test that precision and recall
  use (`StrictImpliesCoarse`); inside the window it makes all three scores
  positive (`StrictHitInWindow`).
  The converse fails, for example "cat" inside "category" (`CatNotInCategory`).
- **The negation check is a substring test.** "no" inside "know" negates a match
  (`NegationInsideKnow`).
- **The sentence window.**
  - The prefix length is measured from the unstripped sentence start but applied
    to the stripped sentence. Leading spaces therefore push the window past the
    keyword (`LeadingSpacesShiftThePrefix`).
  - The sentence end is one past the minimum of three `find` calls, so it is the
    content's end unless all of '.', '!' and '?' occur after the match. Through
    the shift above, that forward boundary can decide whether a match is negated
    (`ForwardBoundaryMissing` and `ForwardBoundaryPresent`).
- **Empty retrieval is fatal.** Precision divides by `min(k, len(results))`. A
  query with no hits, scored with the default window of 5, raises
  `ZeroDivisionError`. Nothing catches it, so the whole run fails (`RunFailsIff`).
  A dataset without queries also fails, because the report cannot be built over
  an empty table.
- **Recall is not bounded by 1.** Recall divides by the number of expected
  keywords, not by the number of relevant results. More relevant results in the
  window than expected keywords gives a recall above 1.0 (`RecallAboveOne`).
  `EvaluatedRecallBounds` states the bound that does hold.
- **Negative windows.** `k` and `total_relevant` are plain integers. A negative
  `k` gives an empty loop and a score of 0.

## Model

| member | source | states |
|---|---|---|
| Text.RFindIsLast | backend/evaluation_metrics.py:43-47 | `rfind` returns the last index before the end holding the character, or -1 when none does |
| Text.FindIsFirst | backend/evaluation_metrics.py:56-60 | `find` returns the first index from the start holding the character, or -1 when none does |
| Text.StripSpec | backend/evaluation_metrics.py:68 | `strip()` keeps a slice of the sentence that neither starts nor ends with whitespace, and everything it drops is whitespace |
| Text.ParseNatToString | backend/retrieval_test.py:215 | the decimal rendering of an index parses back to that index |
| Matching.EqualIgnoringCaseIffLower | backend/evaluation_metrics.py:34 | the case-insensitive comparison of the match is equality of the lower-cased strings |
| Matching.MatchesSound | backend/evaluation_metrics.py:34 | every match `finditer` reports is a whole-word, case-insensitive occurrence of the keyword; the matches are in text order and do not overlap |
| Matching.MatchesComplete | backend/evaluation_metrics.py:34 | every whole-word occurrence is reported or lies inside a reported match |
| Matching.NoMatchesIffNoOccurrence | backend/evaluation_metrics.py:34 | `finditer` reports nothing exactly when the keyword has no whole-word occurrence |
| Matching.NoMatchInsideWord | backend/evaluation_metrics.py:34 | a keyword ending in a word character does not match when a word character follows it |
| Matching.NoMatchAfterWordChar | backend/evaluation_metrics.py:34 | a keyword starting with a word character does not match right after a word character |
| Matching.SentenceStartSpec | backend/evaluation_metrics.py:43-53 | the sentence starts right after a '.', '!' or '?', or at 0, and no terminator lies between the start and the match |
| Matching.NextSentenceStartSpec | backend/evaluation_metrics.py:56-66 | the minimum of the three `find` calls is -1 exactly when one terminator is missing after the match; otherwise it is the first terminator after the match |
| Matching.StrippedPrefixWithoutLeadingSpace | backend/evaluation_metrics.py:68-72 | for a sentence without leading whitespace, and with a non-whitespace character at the offset, the prefix is the lower-cased sentence cut at the offset |
| Matching.PartBeforeWithoutLeadingSpace | backend/evaluation_metrics.py:43-72 | when the sentence does not start with whitespace, `part_before_keyword` is the lower-cased text from the sentence start to the match |
| Matching.StrippedPrefixIsSlice | backend/evaluation_metrics.py:68-72 | the stripped sentence cut at the offset is the unstripped sentence's slice from the end of its leading whitespace, as long as the offset or the stripped length |
| Matching.StrippedSliceShifted | backend/evaluation_metrics.py:68-72 | for any slice of the content, the stripped prefix is the content slice shifted right by the slice's leading whitespace, and every skipped character is whitespace |
| Matching.PartBeforeKeywordShifted | backend/evaluation_metrics.py:43-72 | `part_before_keyword` is the lower-cased content starting just after the sentence's leading whitespace, for as many characters as lie between the sentence start and the match (or to the end of the stripped sentence); only whitespace is skipped |
| Matching.QualifiesHasOccurrence | backend/evaluation_metrics.py:34-81 | a keyword that qualifies has a whole-word occurrence whose prefix holds no negation word |
| Matching.StrictImpliesCoarse | backend/evaluation_metrics.py:28-108 | a result relevant for the reciprocal rank also passes the substring test that precision and recall use; `CoarseHitInWindow` and `StrictHitInWindow` state what that means inside the window |
| EvaluationMetrics.FindNonNegatedMatch | backend/evaluation_metrics.py:34-81 | the scan over the matches sets the found flag exactly when some match is not negated |
| EvaluationMetrics.CalculateMrr | backend/evaluation_metrics.py:15-88 | the nested loops return the reciprocal rank: 1/(i+1) for the first result where some keyword qualifies, else 0.0 |
| EvaluationMetrics.ReciprocalRank | backend/evaluation_metrics.py:15-88 | the reciprocal rank lies in [0, 1] |
| EvaluationMetrics.ReciprocalRankSpec | backend/evaluation_metrics.py:83-85 | when result i is the first strictly relevant one, the reciprocal rank is 1/(i+1) |
| EvaluationMetrics.ReciprocalRankZero | backend/evaluation_metrics.py:87-88 | the reciprocal rank is 0.0 exactly when no result is strictly relevant |
| EvaluationMetrics.ReciprocalRankOfNothing | backend/evaluation_metrics.py:28-32 | no results or no keywords give a reciprocal rank of 0.0 |
| EvaluationMetrics.FirstTrueIsFirst | backend/evaluation_metrics.py:28-85 | the early return finds no flagged index before the one it returns |
| EvaluationMetrics.CountTrueIsCardinality | backend/evaluation_metrics.py:103-107 | the counting loop's count is the number of counted indices below the bound |
| EvaluationMetrics.CountTrueAll | backend/evaluation_metrics.py:103-107 | the count equals the bound exactly when every index is counted |
| EvaluationMetrics.CountTrueNone | backend/evaluation_metrics.py:103-107 | the count is 0 exactly when no index is counted |
| EvaluationMetrics.CountTrueMonotone | backend/evaluation_metrics.py:126-130 | a larger window never counts fewer results |
| EvaluationMetrics.WindowCountSpec | backend/evaluation_metrics.py:104-107 | the loop over `range(min(k, n))` counts the coarse hits among the results with index below both k and n |
| EvaluationMetrics.PrecisionAtKCases | backend/evaluation_metrics.py:102-108 | k == 0 gives 0.0; the division fails exactly when k > 0 and there are no results |
| EvaluationMetrics.PrecisionAtKValue | backend/evaluation_metrics.py:103-108 | precision is the number of coarse hits in the window over `min(k, n)`, and it lies in [0, 1] |
| EvaluationMetrics.PrecisionExtremes | backend/evaluation_metrics.py:103-108 | precision is 1.0 exactly when every result in the window is a hit, and 0.0 exactly when none is |
| EvaluationMetrics.CalculatePrecisionAtK | backend/evaluation_metrics.py:90-108 | the loop computes the precision specification, including the early 0.0 and the division failure |
| EvaluationMetrics.RecallAtKSpec | backend/evaluation_metrics.py:123-132 | recall is 1.0 when total_relevant is 0, else 0.0 when k is 0, else the window's hit count over total_relevant |
| EvaluationMetrics.RecallAtKBounds | backend/evaluation_metrics.py:126-132 | recall is non-negative, at most `min(k, n)`/total_relevant, and grows with k |
| EvaluationMetrics.CalculateRecallAtK | backend/evaluation_metrics.py:110-132 | the loop computes the recall specification |
| EvaluationMetrics.TotalRelevant | backend/evaluation_metrics.py:149 | the recall denominator is positive: the number of expected keywords, or 1 when there are none |
| EvaluationMetrics.EvaluatedRecallBounds | backend/evaluation_metrics.py:149 | the evaluated recall is 0.0 for top_k <= 0, never negative, and at most 1.0 when there are no more results than expected keywords |
| EvaluationMetrics.EvaluateSpec | backend/evaluation_metrics.py:147-155 | evaluation fails exactly when top_k > 0 and there are no results; otherwise the reciprocal rank and precision lie in [0, 1] and the recall bounds hold |
| EvaluationMetrics.CoarseHitInWindow | backend/evaluation_metrics.py:147-155 | a coarse hit inside the window makes precision and recall positive |
| EvaluationMetrics.StrictHitInWindow | backend/evaluation_metrics.py:147-155 | a strict hit inside the window makes all three scores positive |
| EvaluationMetrics.EvaluateRetrieval | backend/evaluation_metrics.py:134-155 | returns the three scores for the query, or the division failure, and ignores the query text |
| EvaluationMetrics.SumBounds | backend/evaluation_metrics.py:171-174 | a column sum lies between n times the lower bound and n times the upper bound |
| EvaluationMetrics.MeanBounds | backend/evaluation_metrics.py:171-174 | the mean of a non-empty column lies within the column's bounds |
| EvaluationMetrics.Fraction | backend/evaluation_metrics.py:177-185 | the share of rows meeting a condition lies in [0, 1] |
| EvaluationMetrics.FractionIsOne | backend/evaluation_metrics.py:200 | the share is 1.0 exactly when every row meets the condition |
| EvaluationMetrics.FractionIsShare | backend/evaluation_metrics.py:177-185 | the share is the number of rows meeting the condition over the number of rows |
| EvaluationMetrics.GenerateReport | backend/evaluation_metrics.py:168-203 | the report counts the records, repeats the total time, and has its three rates in [0, 1] |
| EvaluationMetrics.OverallAccuracyIsShare | backend/evaluation_metrics.py:177 | overall accuracy is the share of queries with a positive reciprocal rank |
| EvaluationMetrics.LatencyPassRateIsShare | backend/evaluation_metrics.py:180-181 | the latency pass rate is the share of queries faster than 500 ms |
| EvaluationMetrics.LatencyVerdictPassIff | backend/evaluation_metrics.py:180-200 | the latency verdict is PASS exactly when every query took less than 500 ms |
| EvaluationMetrics.Top3RateIsShare | backend/evaluation_metrics.py:184-185 | the top-3 pass rate is the share of queries with precision at least 0.90 |
| EvaluationMetrics.ShareAtLeast | backend/evaluation_metrics.py:199-201 | a share of n rows reaches a threshold exactly when the count reaches the threshold times n |
| EvaluationMetrics.AccuracyVerdictPassIff | backend/evaluation_metrics.py:177-199 | the retrieval-accuracy verdict is PASS exactly when at least 80% of the queries have a positive reciprocal rank |
| EvaluationMetrics.Top3VerdictPassIff | backend/evaluation_metrics.py:184-201 | the top-3 verdict is PASS exactly when at least 90% of the queries have precision at least 0.90 |
| EvaluationMetrics.GenerateReportAverages | backend/evaluation_metrics.py:171-174 | given scores in [0, 1], non-negative recalls and non-negative latencies, the average reciprocal rank and precision lie in [0, 1], and the average recall and the average latency are non-negative |
| EvaluationMetrics.ReportOfTwoQueries | backend/evaluation_metrics.py:168-203 | two queries with latencies 100 and 200 ms give averages 150 ms, 0.75, 0.8 and 0.9, with verdicts PASS, PASS and FAIL |
| RetrievalTest.FormattedResultsSpec | backend/retrieval_test.py:113-127 | one result per hit, in order; each keeps its hit's id and score, has rank i+1, and copies each payload field or uses '' |
| RetrievalTest.PositionsAreRanks | backend/retrieval_test.py:123 | the ranks are exactly 1..n |
| RetrievalTest.SearchQdrant | backend/retrieval_test.py:113-127 | the formatting loop produces the formatted result list |
| RetrievalTest.DefaultQueryIdsDistinct | backend/retrieval_test.py:215 | queries without an id get distinct `query_<i>` ids |
| RetrievalTest.RecordForSpec | backend/retrieval_test.py:161-225 | processing a query fails exactly when it has no text or retrieved nothing; otherwise every record field is the given value or its default, and the metrics are the evaluation over a window of 5 |
| RetrievalTest.CollectSpec | backend/retrieval_test.py:158-225 | the loop succeeds exactly when every query does; it then keeps one record per query in order, and otherwise stops at the first failure |
| RetrievalTest.ErrorStays | backend/retrieval_test.py:161-225 | once a query fails, later queries do not change the outcome |
| RetrievalTest.RunFailsIff | backend/retrieval_test.py:158-246 | a run fails exactly when there are no queries, or some query has no text, or some query retrieved nothing |
| RetrievalTest.RunOutputSpec | backend/retrieval_test.py:230-246 | a successful run returns one record per query in order, and the metadata repeats the query count, the total time and the report's average latency |
| RetrievalTest.FirstFailureWins | backend/retrieval_test.py:161-231 | the first query that fails decides the run's error |
| RetrievalTest.RunRetrievalTests | backend/retrieval_test.py:158-246 | the loop over the queries, followed by the report, computes the run specification |
| Scenarios.CatNotInCategory | backend/evaluation_metrics.py:34 | "cat" is a substring of "category", so the coarse test counts it, but it has no whole-word match there, so the strict test does not |
| Scenarios.NegationInsideKnow | backend/evaluation_metrics.py:75-76 | the "no" inside "know" negates the match of "cat" in "I know cat" |
| Scenarios.NoNegationInShortText | backend/evaluation_metrics.py:75-76 | a text of at most three characters without an 'n' contains no negation word |
| Scenarios.LeadingSpacesShiftThePrefix | backend/evaluation_metrics.py:68-76 | in "Ok.      cat no", the "no" after "cat" negates it, because the prefix offset is measured before stripping |
| Scenarios.ForwardBoundaryMissing | backend/evaluation_metrics.py:56-76 | in "x.      ab. no", the match of "ab" is negated because '!' and '?' do not occur after it |
| Scenarios.ForwardBoundaryPresent | backend/evaluation_metrics.py:56-76 | in "x.      ab. no!?", the same match is not negated, because the sentence now ends at the '.' after "ab" |
| Scenarios.OnlyMatch | backend/evaluation_metrics.py:34 | when the keyword's first letter appears only at an occurrence, `finditer` reports exactly that occurrence |
| Scenarios.NoMatch | backend/evaluation_metrics.py:34 | a content without the keyword's first letter has no match |
| Scenarios.SingleMatchInFirstSentence | backend/evaluation_metrics.py:34-81 | with a single match in a first sentence that starts and is matched at non-whitespace, the keyword qualifies exactly when the lower-cased text before the match holds no negation word |
| Scenarios.WordAfter | backend/evaluation_metrics.py:34-81 | for content `prefix + keyword + tail`, where the prefix ends in a space, does not start with whitespace and holds no terminator, the keyword starts and ends with a word character, the tail is empty or starts with a non-word character, and the keyword's lower-cased first letter occurs nowhere in the content but at the keyword's start: the keyword qualifies exactly when the lower-cased prefix holds no negation word |
| Scenarios.KeywordStated | backend/evaluation_metrics.py:34-81 | "keyword" qualifies in "This document contains the expected keyword." |
| Scenarios.KeywordNegated | backend/evaluation_metrics.py:34-81 | "keyword" does not qualify in "This document does not contain the keyword.", because "not" precedes it |
| Scenarios.KeywordAbsent | backend/evaluation_metrics.py:34 | "keyword" has no match in "Neither does this one." |
| Scenarios.CatNegated | backend/evaluation_metrics.py:43-81 | "cat" does not qualify in "There is no cat here." |
| Scenarios.CatBeforeNegation | backend/evaluation_metrics.py:43-81 | "cat" qualifies in "The cat sleeps. It is not a dog." because the "not" comes after the match: with '!' and '?' absent, the sentence runs to the end of the content, and only the text before the match is examined |
| Scenarios.RelevantSecond | backend/evaluation_metrics.py:15-88 | a keyword that qualifies in the second result and not in the first gives a reciprocal rank of 0.5 |
| Scenarios.MrrPerfectRanking | tests/test_retrieval.py:168-181 | the relevant document ranked first gives a reciprocal rank of 1.0 |
| Scenarios.MrrSecondPosition | tests/test_retrieval.py:183-197 | the relevant document ranked second, after a negated one, gives 0.5 |
| Scenarios.MrrNoRelevantFound | tests/test_retrieval.py:199-212 | a negated document and one without the keyword give 0.0 |
| Scenarios.RecallAboveOne | backend/evaluation_metrics.py:123-132 | two results holding the one expected keyword give a recall of 2.0: recall is not capped at 1.0 |

## Left out

- Reading the dataset file, loading the configuration and creating the
  Cohere and Qdrant clients are not modelled. The dataset's queries are a
  parameter of `RunRetrievalTests`.
- The query embedding (`embed_query`) and the database search
  (`query_points`) are I/O. The hits the database returns for each query are
  a parameter (`Observation.hits`).
- The clock is not modelled. Each query's latency and the total time are
  parameters.
- Test mode is not modelled. It builds mock results with `random`, and the
  model covers the normal path only.
- Writing `retrieval_report.json`, the log lines, and the `__main__` block that
  prints the summary are not modelled.
- The configured `top_k` only bounds how many hits the database returns, which
  is part of the hits parameter. Scoring always uses `evaluate_retrieval`'s
  default window of 5.
- Floating point is modelled as exact reals: no rounding, and no -0.0 from
  dividing 0 by a negative count.
- `\b`, `\w`, `re.IGNORECASE` and `lower()` are modelled for ASCII letters,
  digits and '_' only. Unicode word characters and case mappings outside ASCII
  are not modelled.
- Qdrant point ids and payload values are modelled as strings. JSON `null` and
  non-string payload values are not modelled.
- Result records always carry `content`. The `.get('content', '')` default
  never applies, because both producers set the key.
- An exception that escapes a run is modelled as an `Err` value, not as Python
  exception propagation.
- `EvaluationMetrics.GenerateReport`: it requires at least one record. Over an
  empty batch the Python code fails inside pandas, and `Run` models that
  failure as `Err(EmptyReport)`.
- `EvaluationMetrics.GenerateReportAverages`: it bounds the average recall
  from below only, because recall itself can exceed 1.0.
- `RetrievalTest.RunFailsIff`: it assumes that `embed_query`
  (backend/retrieval_test.py:167) and `query_points`
  (backend/retrieval_test.py:196-201) succeed. In the code, a failure of either
  call escapes the loop at backend/retrieval_test.py:161-225, which has no
  `try`/`except`, and aborts the whole run. The intended behaviour is to drop
  only the failing query. The model has no error path for these two calls,
  because they are I/O.
- `main.py`, the frontend and the setup scripts are not part of this model.
