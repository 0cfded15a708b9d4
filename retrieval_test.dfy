/** The test runner around the scoring engine: shaping the vector
    database's hits into ranked results, and the run over a dataset of test
    queries that scores each query, keeps a detailed record per query and
    ends with the summary report.

    The database call, the embedding call and the clock are not part of
    this model: the hits returned for each query and the measured latencies
    are inputs. */
module RetrievalTest {
  import opened Wrappers
  import opened Text
  import opened Records
  import opened EvaluationMetrics

  // ----- Formatting hits -----

  /** The result record `search_qdrant` builds for `hit` at 1-based rank
      `position`; payload fields that are missing become ''. */
  function FormatHit(hit: Hit, position: nat): RetrievedChunk {
    RetrievedChunk(
      hit.id,
      Get(hit.payload, "content", ""),
      hit.score,
      Get(hit.payload, "source_url", ""),
      Get(hit.payload, "title", ""),
      Get(hit.payload, "module", ""),
      position)
  }

  /** The formatted result list for a list of hits. */
  function FormattedResults(hits: seq<Hit>): (results: seq<RetrievedChunk>) {
    seq(|hits|, i requires 0 <= i < |hits| => FormatHit(hits[i], i + 1))
  }

  /** One result per hit, in the hits' order: the i-th result carries the
      i-th hit's id and score and rank i + 1, and each payload field is
      copied when present and '' when missing. */
  lemma FormattedResultsSpec(hits: seq<Hit>)
    ensures |FormattedResults(hits)| == |hits|
    ensures forall i :: 0 <= i < |hits| ==>
              var r, h := FormattedResults(hits)[i], hits[i];
              && r.chunkId == h.id
              && r.score == h.score
              && r.position == i + 1
              && (if "content" in h.payload then r.content == h.payload["content"] else r.content == "")
              && (if "source_url" in h.payload then r.sourceUrl == h.payload["source_url"] else r.sourceUrl == "")
              && (if "title" in h.payload then r.title == h.payload["title"] else r.title == "")
              && (if "module" in h.payload then r.moduleName == h.payload["module"] else r.moduleName == "")
  {
  }

  /** The ranks carried by a result list. */
  function Positions(results: seq<RetrievedChunk>): set<nat> {
    set r | r in results :: r.position
  }

  /** The ranks run 1..n without gaps or repeats. */
  lemma PositionsAreRanks(hits: seq<Hit>)
    ensures forall p :: p in Positions(FormattedResults(hits)) <==> 1 <= p <= |hits|
  {
    var results := FormattedResults(hits);
    forall p | 1 <= p <= |hits|
      ensures p in Positions(results)
    {
      assert results[p - 1].position == p;
    }
  }

  /** `search_qdrant`'s loop: append one record per hit, its position one
      more than the number of records already built. */
  method SearchQdrant(hits: seq<Hit>) returns (results: seq<RetrievedChunk>)
    ensures results == FormattedResults(hits)
  {
    results := [];
    var n := 0;
    while n < |hits|
      invariant n <= |hits|
      invariant |results| == n
      invariant results == FormattedResults(hits[..n])
    {
      var hit := hits[n];
      var result := RetrievedChunk(
        hit.id,
        Get(hit.payload, "content", ""),
        hit.score,
        Get(hit.payload, "source_url", ""),
        Get(hit.payload, "title", ""),
        Get(hit.payload, "module", ""),
        |results| + 1);
      results := results + [result];
      n := n + 1;
      assert hits[..n][..n - 1] == hits[..n - 1];
    }
    assert hits[..n] == hits;
  }

  // ----- Per-query records -----

  /** The window `evaluate_retrieval` uses when called without `top_k`. */
  const DefaultTopK: int := 5

  /** `f'query_{i}'`. */
  function DefaultQueryId(i: nat): string {
    "query_" + NatToString(i)
  }

  /** Queries without an id get distinct default ids. */
  lemma DefaultQueryIdsDistinct(i: nat, j: nat)
    requires i != j
    ensures DefaultQueryId(i) != DefaultQueryId(j)
  {
    if DefaultQueryId(i) == DefaultQueryId(j) {
      assert NatToString(i) == DefaultQueryId(i)[6..];
      assert NatToString(j) == DefaultQueryId(j)[6..];
      NatToStringInjective(i, j);
    }
  }

  /** What the test runner observes for one query: the hits the database
      returned and the measured latency in milliseconds. */
  datatype Observation = Observation(hits: seq<Hit>, latencyMs: real)

  /** The detailed record of query `i`, with the defaults for missing
      fields. */
  function AssembleRecord(i: nat, q: QueryDef, queryText: string, results: seq<RetrievedChunk>, metrics: Metrics, latencyMs: real): QueryRecord {
    QueryRecord(
      q.id.GetOr(DefaultQueryId(i)),
      queryText,
      q.category.GetOr("unknown"),
      q.difficulty.GetOr("medium"),
      results,
      metrics,
      latencyMs,
      q.expectedKeywords.GetOr([]))
  }

  /** The record for query `i`, or the exception processing it raises: a
      missing query text, or the division by zero of precision. */
  function RecordFor(i: nat, q: QueryDef, obs: Observation): Result<QueryRecord, Error> {
    if q.query.None? then Err(MissingQueryText(i))
    else
      var results := FormattedResults(obs.hits);
      match Evaluate(results, q.expectedKeywords.GetOr([]), DefaultTopK)
      case Err(e) => Err(e)
      case Ok(metrics) => Ok(AssembleRecord(i, q, q.query.value, results, metrics, obs.latencyMs))
  }

  /** Processing a query fails exactly when it has no query text or the
      database returned no hits for it; otherwise its record holds the
      given id or `query_<i>`, the text, the category or 'unknown', the
      difficulty or 'medium', the formatted hits, the scores over a window
      of 5, the latency and the expected keywords or []. */
  lemma RecordForSpec(i: nat, q: QueryDef, obs: Observation)
    ensures RecordFor(i, q, obs).Err? <==> q.query.None? || |obs.hits| == 0
    ensures q.query.None? ==> RecordFor(i, q, obs) == Err(MissingQueryText(i))
    ensures RecordFor(i, q, obs).Ok? ==>
              var r := RecordFor(i, q, obs).value;
              var expected := if q.expectedKeywords.Some? then q.expectedKeywords.value else [];
              && r.queryId == (if q.id.Some? then q.id.value else DefaultQueryId(i))
              && r.queryText == q.query.value
              && r.category == (if q.category.Some? then q.category.value else "unknown")
              && r.difficulty == (if q.difficulty.Some? then q.difficulty.value else "medium")
              && r.results == FormattedResults(obs.hits)
              && Evaluate(r.results, expected, 5) == Ok(r.metrics)
              && r.queryLatencyMs == obs.latencyMs
              && r.expectedKeywords == expected
  {
    EvaluateSpec(FormattedResults(obs.hits), q.expectedKeywords.GetOr([]), DefaultTopK);
  }

  /** Each query's own outcome, in dataset order. */
  function Outcomes(queries: seq<QueryDef>, observations: seq<Observation>): (os: seq<Result<QueryRecord, Error>>)
    requires |queries| == |observations|
    ensures |os| == |queries|
    ensures forall i :: 0 <= i < |queries| ==> os[i] == RecordFor(i, queries[i], observations[i])
  {
    seq(|queries|, i requires 0 <= i < |queries| => RecordFor(i, queries[i], observations[i]))
  }

  /** The values of the first `n` outcomes, or the first error among them:
      the loop that appends records stops at the first exception. */
  function Collect<T, E>(os: seq<Result<T, E>>, n: nat): Result<seq<T>, E>
    requires n <= |os|
  {
    if n == 0 then Ok([])
    else
      match Collect(os, n - 1)
      case Err(e) => Err(e)
      case Ok(values) =>
        match os[n - 1]
        case Err(e) => Err(e)
        case Ok(v) => Ok(values + [v])
  }

  /** Without an error, there is one value per outcome, in order; with
      one, it is the error of the first outcome that failed. */
  lemma {:induction false} CollectSpec<T, E>(os: seq<Result<T, E>>, n: nat)
    requires n <= |os|
    ensures Collect(os, n).Ok? <==> forall i :: 0 <= i < n ==> os[i].Ok?
    ensures Collect(os, n).Ok? ==>
              |Collect(os, n).value| == n && forall i :: 0 <= i < n ==> os[i] == Ok(Collect(os, n).value[i])
    ensures Collect(os, n).Err? ==>
              exists i :: 0 <= i < n && os[i] == Err(Collect(os, n).error) &&
                forall j :: 0 <= j < i ==> os[j].Ok?
  {
    if n > 0 {
      CollectSpec(os, n - 1);
    }
  }

  lemma CollectNext<T, E>(os: seq<Result<T, E>>, n: nat, values: seq<T>, v: T)
    requires n < |os| && Collect(os, n) == Ok(values) && os[n] == Ok(v)
    ensures Collect(os, n + 1) == Ok(values + [v])
  {
  }

  /** An error among the first `m` outcomes is the result for the first
      `n >= m` as well. */
  lemma {:induction false} ErrorStays<T, E>(os: seq<Result<T, E>>, m: nat, n: nat, e: E)
    requires m <= n <= |os|
    requires Collect(os, m) == Err(e)
    ensures Collect(os, n) == Err(e)
    decreases n - m
  {
    if m < n {
      ErrorStays(os, m, n - 1, e);
    }
  }

  /** The `test_metadata` part of the run's output. */
  datatype TestMetadata = TestMetadata(totalQueries: nat, totalExecutionTimeMs: real, avgQueryLatencyMs: real)

  /** What `run_retrieval_tests` returns. */
  datatype RunOutput = RunOutput(summary: Report, detailedResults: seq<QueryRecord>, testMetadata: TestMetadata)

  /** The outcome of a run: the report over all records, or the first
      exception; a dataset without queries makes the report fail. */
  function Run(queries: seq<QueryDef>, observations: seq<Observation>, totalExecutionTimeMs: real): Result<RunOutput, Error>
    requires |queries| == |observations|
  {
    match Collect(Outcomes(queries, observations), |queries|)
    case Err(e) => Err(e)
    case Ok(records) =>
      if |records| == 0 then Err(EmptyReport)
      else
        var report := GenerateReport(records, totalExecutionTimeMs);
        Ok(RunOutput(report, records, TestMetadata(|queries|, totalExecutionTimeMs, report.avgQueryLatency)))
  }

  /** A run fails exactly when there are no queries, some query has no
      text or some query retrieved nothing. */
  lemma RunFailsIff(queries: seq<QueryDef>, observations: seq<Observation>, totalExecutionTimeMs: real)
    requires |queries| == |observations|
    ensures Run(queries, observations, totalExecutionTimeMs).Err? <==>
              |queries| == 0 ||
              exists i :: 0 <= i < |queries| && (queries[i].query.None? || |observations[i].hits| == 0)
  {
    CollectSpec(Outcomes(queries, observations), |queries|);
    forall i | 0 <= i < |queries|
      ensures RecordFor(i, queries[i], observations[i]).Err? <==>
                queries[i].query.None? || |observations[i].hits| == 0
    {
      RecordForSpec(i, queries[i], observations[i]);
    }
  }

  /** When a run succeeds, the metadata counts every query, the report
      counts every record, there is one record per query in dataset order,
      and the metadata repeats the report's average latency and the total
      time. */
  lemma RunOutputSpec(queries: seq<QueryDef>, observations: seq<Observation>, totalExecutionTimeMs: real)
    requires |queries| == |observations|
    requires Run(queries, observations, totalExecutionTimeMs).Ok?
    ensures var out := Run(queries, observations, totalExecutionTimeMs).value;
            && out.testMetadata.totalQueries == |queries|
            && out.summary.totalQueriesRun == |out.detailedResults| == |queries|
            && out.testMetadata.avgQueryLatencyMs == out.summary.avgQueryLatency
            && out.testMetadata.totalExecutionTimeMs == out.summary.totalExecutionTimeMs == totalExecutionTimeMs
            && forall i :: 0 <= i < |queries| ==>
                 RecordFor(i, queries[i], observations[i]) == Ok(out.detailedResults[i])
  {
    CollectSpec(Outcomes(queries, observations), |queries|);
  }

  /** `run_retrieval_tests` over the dataset's queries: for each query, the
      text is read, the hits are formatted, the query is scored with the
      expected keywords or [] and the default window, and the record is
      appended; then the report is generated. */
  method RunRetrievalTests(queries: seq<QueryDef>, observations: seq<Observation>, totalExecutionTimeMs: real)
    returns (r: Result<RunOutput, Error>)
    requires |queries| == |observations|
    ensures r == Run(queries, observations, totalExecutionTimeMs)
  {
    var allResults := [];
    var i := 0;
    while i < |queries|
      invariant i <= |queries|
      invariant Collect(Outcomes(queries, observations), i) == Ok(allResults)
    {
      var queryObj := queries[i];
      if queryObj.query.None? {
        FirstFailureWins(queries, observations, totalExecutionTimeMs, i, MissingQueryText(i));
        return Err(MissingQueryText(i));
      }
      var queryText := queryObj.query.value;
      var searchResults := SearchQdrant(observations[i].hits);
      var expected := queryObj.expectedKeywords.GetOr([]);
      var evaluationResult := EvaluateRetrieval(queryText, searchResults, expected, DefaultTopK);
      if evaluationResult.Err? {
        FirstFailureWins(queries, observations, totalExecutionTimeMs, i, evaluationResult.error);
        return Err(evaluationResult.error);
      }
      var result := AssembleRecord(i, queryObj, queryText, searchResults, evaluationResult.value, observations[i].latencyMs);
      assert Outcomes(queries, observations)[i] == Ok(result);
      CollectNext(Outcomes(queries, observations), i, allResults, result);
      allResults := allResults + [result];
      i := i + 1;
    }
    if |allResults| == 0 {
      return Err(EmptyReport);
    }
    var report := GenerateReport(allResults, totalExecutionTimeMs);
    return Ok(RunOutput(report, allResults, TestMetadata(|queries|, totalExecutionTimeMs, report.avgQueryLatency)));
  }

  /** Once query `i` fails and the queries before it did not, the run ends
      with that failure. */
  lemma FirstFailureWins(queries: seq<QueryDef>, observations: seq<Observation>, totalExecutionTimeMs: real, i: nat, e: Error)
    requires i < |queries| == |observations|
    requires Collect(Outcomes(queries, observations), i).Ok?
    requires RecordFor(i, queries[i], observations[i]) == Err(e)
    ensures Run(queries, observations, totalExecutionTimeMs) == Err(e)
  {
    ErrorStays(Outcomes(queries, observations), i + 1, |queries|, e);
  }
}
