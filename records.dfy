/** The records the retrieval test runner passes around: provider hits,
    formatted results, per-query metrics and per-query result records. */
module Records {
  import opened Wrappers

  /** One point returned by the vector database: its id, its similarity
      score and its payload (string fields only). */
  datatype Hit = Hit(id: string, score: real, payload: map<string, string>)

  /** One formatted search result, with its 1-based rank `position`. */
  datatype RetrievedChunk = RetrievedChunk(
    chunkId: string,
    content: string,
    score: real,
    sourceUrl: string,
    title: string,
    moduleName: string,
    position: nat)

  /** The three scores of one query: the dictionary with keys `mrr`,
      `precision_at_k` and `recall_at_k`. */
  datatype Metrics = Metrics(mrr: real, precisionAtK: real, recallAtK: real)

  /** One query of the test dataset; every key but `query` may be absent. */
  datatype QueryDef = QueryDef(
    id: Option<string>,
    query: Option<string>,
    category: Option<string>,
    difficulty: Option<string>,
    expectedKeywords: Option<seq<string>>)

  /** The detailed record kept for each query. */
  datatype QueryRecord = QueryRecord(
    queryId: string,
    queryText: string,
    category: string,
    difficulty: string,
    results: seq<RetrievedChunk>,
    metrics: Metrics,
    queryLatencyMs: real,
    expectedKeywords: seq<string>)

  /** The exceptions that escape the scoring run. */
  datatype Error =
    | ZeroDivision                   // precision over an empty window
    | MissingQueryText(index: nat)   // `query_obj['query']` on a query without one
    | EmptyReport                    // the report over a DataFrame with no rows
}
