/** The scoring engine: the reciprocal rank, precision and recall of one
    query's ranked results, their composition for one query, and the
    summary report over a batch of queries. */
module EvaluationMetrics {
  import opened Wrappers
  import opened Text
  import opened Matching
  import opened Records

  // ----- Reciprocal rank -----

  /** The first index from `from` on whose flag is set, if any. */
  function FirstTrue(flags: seq<bool>, from: nat): (r: Option<nat>)
    requires from <= |flags|
    ensures r.Some? ==> from <= r.value < |flags| && flags[r.value]
    decreases |flags| - from
  {
    if from == |flags| then None
    else if flags[from] then Some(from)
    else FirstTrue(flags, from + 1)
  }

  /** No flag from `from` on is set before the index found, nor anywhere
      when none is found. */
  lemma {:induction false} FirstTrueIsFirst(flags: seq<bool>, from: nat)
    requires from <= |flags|
    ensures forall j :: from <= j < |flags| && flags[j] ==>
              FirstTrue(flags, from).Some? && FirstTrue(flags, from).value <= j
    decreases |flags| - from
  {
    if from < |flags| && !flags[from] {
      FirstTrueIsFirst(flags, from + 1);
    }
  }

  /** A set flag with no set flag before it is the one found. */
  lemma FirstTrueIs(flags: seq<bool>, i: nat)
    requires i < |flags| && flags[i]
    requires forall j :: 0 <= j < i ==> !flags[j]
    ensures FirstTrue(flags, 0) == Some(i)
  {
    FirstTrueIsFirst(flags, 0);
    var r := FirstTrue(flags, 0);
    assert r.Some? && r.value <= i;
  }

  /** For each result, whether it counts for the reciprocal rank. */
  function StrictFlags(results: seq<RetrievedChunk>, keywords: seq<string>): (flags: seq<bool>)
    ensures |flags| == |results|
    ensures forall i :: 0 <= i < |results| ==> flags[i] == StrictRelevant(results[i].content, keywords)
  {
    seq(|results|, i requires 0 <= i < |results| => StrictRelevant(results[i].content, keywords))
  }

  /** `1.0 / (i + 1)`: the score of a first hit at 0-based rank `i`. */
  function Reciprocal(i: nat): (r: real)
    ensures 0.0 < r <= 1.0
  {
    1.0 / (i + 1) as real
  }

  /** The reciprocal rank of the first result that counts, 0 if none does. */
  function ReciprocalRank(results: seq<RetrievedChunk>, keywords: seq<string>): (rr: real)
    ensures 0.0 <= rr <= 1.0
  {
    match FirstTrue(StrictFlags(results, keywords), 0)
    case None => 0.0
    case Some(i) => Reciprocal(i)
  }

  /** The reciprocal rank is `1/(i+1)` for the smallest index `i` whose
      result counts, and 0 exactly when no result counts. */
  lemma ReciprocalRankSpec(results: seq<RetrievedChunk>, keywords: seq<string>, i: nat)
    requires i < |results| && StrictRelevant(results[i].content, keywords)
    requires forall j :: 0 <= j < i ==> !StrictRelevant(results[j].content, keywords)
    ensures ReciprocalRank(results, keywords) == Reciprocal(i)
  {
    FirstTrueIs(StrictFlags(results, keywords), i);
  }

  /** The reciprocal rank is 0 exactly when no result counts. */
  lemma ReciprocalRankZero(results: seq<RetrievedChunk>, keywords: seq<string>)
    ensures ReciprocalRank(results, keywords) == 0.0 <==>
              forall i :: 0 <= i < |results| ==> !StrictRelevant(results[i].content, keywords)
  {
    var flags := StrictFlags(results, keywords);
    FirstTrueIsFirst(flags, 0);
    var r := FirstTrue(flags, 0);
    if r.Some? {
      assert StrictRelevant(results[r.value].content, keywords);
    }
  }

  /** No keywords or no results: the reciprocal rank is 0. */
  lemma ReciprocalRankOfNothing(results: seq<RetrievedChunk>, keywords: seq<string>)
    requires |keywords| == 0 || |results| == 0
    ensures ReciprocalRank(results, keywords) == 0.0
  {
    ReciprocalRankZero(results, keywords);
  }

  /** The inner loop of `calculate_mrr` for one keyword: walk the
      `finditer` matches in order and stop at the first one whose sentence
      prefix holds no negation word (`found_non_negated_match`). */
  method FindNonNegatedMatch(content: string, keyword: string) returns (found: bool)
    ensures found == KeywordQualifies(content, keyword)
  {
    var matches := Matches(content, keyword);
    MatchesFit(content, keyword);
    var m := 0;
    while m < |matches|
      invariant m <= |matches|
      invariant forall t :: 0 <= t < m ==> MatchNegated(content, keyword, matches[t])
    {
      var start := matches[m];
      if !MatchNegated(content, keyword, start) {
        QualifiesByMatch(content, keyword, m);
        return true;
      }
      m := m + 1;
    }
    QualifiesOnlyUnnegated(content, keyword);
    return false;
  }

  /** `calculate_mrr`: scan the results in rank order and each keyword in
      order; the first keyword with a non-negated match ends the scan with
      the reciprocal rank of that result. */
  method CalculateMrr(results: seq<RetrievedChunk>, keywords: seq<string>) returns (rr: real)
    ensures rr == ReciprocalRank(results, keywords)
  {
    var i := 0;
    while i < |results|
      invariant i <= |results|
      invariant forall j :: 0 <= j < i ==> !StrictRelevant(results[j].content, keywords)
    {
      var content := results[i].content;
      var k := 0;
      while k < |keywords|
        invariant k <= |keywords|
        invariant forall t :: 0 <= t < k ==> !KeywordQualifies(content, keywords[t])
      {
        var found := FindNonNegatedMatch(content, keywords[k]);
        if found {
          ReciprocalRankSpec(results, keywords, i);
          return 1.0 / (i + 1) as real;
        }
        k := k + 1;
      }
      i := i + 1;
    }
    ReciprocalRankZero(results, keywords);
    return 0.0;
  }

  // ----- Precision and recall -----

  /** For each result, whether the coarse substring test counts it. */
  function CoarseFlags(results: seq<RetrievedChunk>, keywords: seq<string>): (flags: seq<bool>)
    ensures |flags| == |results|
    ensures forall i :: 0 <= i < |results| ==> flags[i] == CoarseRelevant(results[i].content, keywords)
  {
    seq(|results|, i requires 0 <= i < |results| => CoarseRelevant(results[i].content, keywords))
  }

  /** How many of the first `n` flags are set. */
  function CountTrue(flags: seq<bool>, n: nat): (c: nat)
    requires n <= |flags|
    ensures c <= n
  {
    if n == 0 then 0 else CountTrue(flags, n - 1) + (if flags[n - 1] then 1 else 0)
  }

  /** The count is the number of indices below `n` whose flag is set. */
  lemma {:induction false} CountTrueIsCardinality(flags: seq<bool>, n: nat)
    requires n <= |flags|
    ensures CountTrue(flags, n) == |set i | 0 <= i < n && flags[i]|
  {
    if n > 0 {
      CountTrueIsCardinality(flags, n - 1);
      var below := set i | 0 <= i < n - 1 && flags[i];
      if flags[n - 1] {
        assert (set i | 0 <= i < n && flags[i]) == below + {n - 1};
      } else {
        assert (set i | 0 <= i < n && flags[i]) == below;
      }
    }
  }

  /** All of the first `n` flags are set exactly when the count is `n`. */
  lemma {:induction false} CountTrueAll(flags: seq<bool>, n: nat)
    requires n <= |flags|
    ensures CountTrue(flags, n) == n <==> forall i :: 0 <= i < n ==> flags[i]
  {
    if n > 0 {
      CountTrueAll(flags, n - 1);
    }
  }

  /** None of the first `n` flags is set exactly when the count is 0. */
  lemma {:induction false} CountTrueNone(flags: seq<bool>, n: nat)
    requires n <= |flags|
    ensures CountTrue(flags, n) == 0 <==> forall i :: 0 <= i < n ==> !flags[i]
  {
    if n > 0 {
      CountTrueNone(flags, n - 1);
    }
  }

  /** Looking at more flags never lowers the count. */
  lemma {:induction false} CountTrueMonotone(flags: seq<bool>, m: nat, n: nat)
    requires m <= n <= |flags|
    ensures CountTrue(flags, m) <= CountTrue(flags, n)
    decreases n - m
  {
    if m < n {
      CountTrueMonotone(flags, m, n - 1);
    }
  }

  /** `min(k, len(retrieved_results))`; negative when `k` is. */
  function Window(k: int, n: nat): int {
    if k < n then k else n
  }

  /** The count a precision or recall loop ends with: the coarse hits among
      the results `range(min(k, n))` visits, none when that range is empty. */
  function WindowCount(results: seq<RetrievedChunk>, keywords: seq<string>, k: int): nat {
    var w := Window(k, |results|);
    if w <= 0 then 0 else CountTrue(CoarseFlags(results, keywords), w)
  }

  /** The count of the window is the number of results inside it that the
      coarse test counts. */
  lemma WindowCountSpec(results: seq<RetrievedChunk>, keywords: seq<string>, k: int)
    ensures WindowCount(results, keywords, k) ==
              |set i | 0 <= i < |results| && i < k && CoarseRelevant(results[i].content, keywords)|
  {
    var flags := CoarseFlags(results, keywords);
    var w := Window(k, |results|);
    var inWindow := set i | 0 <= i < |results| && i < k && CoarseRelevant(results[i].content, keywords);
    if w <= 0 {
      assert inWindow == {} by {
        forall i | i in inWindow ensures false {
        }
      }
    } else {
      CountTrueIsCardinality(flags, w);
      assert inWindow == set i | 0 <= i < w && flags[i];
    }
  }

  /** `calculate_precision_at_k`: 0.0 for `k == 0`; otherwise the coarse
      hits in the window over the window size, which raises
      `ZeroDivisionError` when the window is empty. */
  function PrecisionAtK(results: seq<RetrievedChunk>, keywords: seq<string>, k: int): (r: Result<real, Error>)
  {
    if k == 0 then Ok(0.0)
    else
      var w := Window(k, |results|);
      if w == 0 then Err(ZeroDivision)
      else Ok(WindowCount(results, keywords, k) as real / w as real)
  }

  /** Precision is 0.0 whenever `k == 0`, and it fails exactly for
      `k > 0` on an empty result list. */
  lemma PrecisionAtKCases(results: seq<RetrievedChunk>, keywords: seq<string>, k: int)
    ensures k == 0 ==> PrecisionAtK(results, keywords, k) == Ok(0.0)
    ensures PrecisionAtK(results, keywords, k).Err? <==> k > 0 && |results| == 0
  {
  }

  /** A count of at most `w` over a positive `w` lies in [0, 1]. */
  lemma RatioInUnit(c: nat, w: nat)
    requires 0 < w && c <= w
    ensures 0.0 <= c as real / w as real <= 1.0
  {
    DivideMonotone(c as real, w as real, w as real);
    DivideMonotone(0.0, c as real, w as real);
  }

  /** Otherwise precision is the number of coarse hits among the first
      `min(k, n)` results over `min(k, n)`, which lies in [0, 1]. */
  lemma PrecisionAtKValue(results: seq<RetrievedChunk>, keywords: seq<string>, k: int)
    ensures k > 0 && |results| > 0 ==>
              var w := if k < |results| then k else |results|;
              PrecisionAtK(results, keywords, k) ==
                Ok(|set i | 0 <= i < w && CoarseRelevant(results[i].content, keywords)| as real / w as real)
    ensures PrecisionAtK(results, keywords, k).Ok? ==> 0.0 <= PrecisionAtK(results, keywords, k).value <= 1.0
  {
    var w := Window(k, |results|);
    if k > 0 && |results| > 0 {
      WindowCountSpec(results, keywords, k);
      assert (set i | 0 <= i < |results| && i < k && CoarseRelevant(results[i].content, keywords)) ==
             (set i | 0 <= i < w && CoarseRelevant(results[i].content, keywords));
      RatioInUnit(WindowCount(results, keywords, k), w);
    } else if k < 0 {
      assert PrecisionAtK(results, keywords, k) == Ok(0.0 / w as real);
    }
  }

  /** A count over a positive size is 1.0 exactly when the count is the
      size, and 0.0 exactly when the count is 0. */
  lemma RatioExtremes(c: nat, w: nat)
    requires w > 0
    ensures c as real / w as real == 1.0 <==> c == w
    ensures c as real / w as real == 0.0 <==> c == 0
  {
    if c as real / w as real == 1.0 {
      assert c as real == (c as real / w as real) * w as real;
    }
  }

  /** A positive count over a positive size is positive. */
  lemma PositiveRatio(c: nat, w: nat)
    requires c > 0 && w > 0
    ensures c as real / w as real > 0.0
  {
  }

  /** Dividing by the same positive number keeps the order. */
  lemma DivideMonotone(a: real, b: real, t: real)
    requires t > 0.0 && a <= b
    ensures a / t <= b / t
  {
    assert b / t - a / t == (b - a) / t;
  }

  /** With a non-empty window, precision is 1.0 exactly when every result in
      the window is a coarse hit, and 0.0 exactly when none is. */
  lemma PrecisionExtremes(results: seq<RetrievedChunk>, keywords: seq<string>, k: int)
    requires k > 0 && |results| > 0
    ensures PrecisionAtK(results, keywords, k) == Ok(1.0) <==>
              forall i :: 0 <= i < |results| && i < k ==> CoarseRelevant(results[i].content, keywords)
    ensures PrecisionAtK(results, keywords, k) == Ok(0.0) <==>
              forall i :: 0 <= i < |results| && i < k ==> !CoarseRelevant(results[i].content, keywords)
  {
    var flags := CoarseFlags(results, keywords);
    var w := Window(k, |results|);
    CountTrueAll(flags, w);
    CountTrueNone(flags, w);
    RatioExtremes(WindowCount(results, keywords, k), w);
  }

  /** `calculate_precision_at_k`, counting coarse hits over
      `range(min(k, len(retrieved_results)))`. */
  method CalculatePrecisionAtK(results: seq<RetrievedChunk>, keywords: seq<string>, k: int) returns (r: Result<real, Error>)
    ensures r == PrecisionAtK(results, keywords, k)
  {
    if k == 0 {
      return Ok(0.0);
    }
    var relevantCount := 0;
    var w := if k < |results| then k else |results|;
    var i := 0;
    while i < w
      invariant i == 0 || i <= w
      invariant relevantCount == CountTrue(CoarseFlags(results, keywords), i)
    {
      var content := Lower(results[i].content);
      if exists t | 0 <= t < |keywords| :: Contains(content, Lower(keywords[t])) {
        relevantCount := relevantCount + 1;
      }
      i := i + 1;
    }
    if w == 0 {
      return Err(ZeroDivision);
    }
    return Ok(relevantCount as real / w as real);
  }

  /** `calculate_recall_at_k`: 1.0 when `total_relevant == 0`, otherwise 0.0
      for `k == 0`, otherwise the coarse hits in the window over
      `total_relevant`. */
  function RecallAtK(results: seq<RetrievedChunk>, keywords: seq<string>, k: int, totalRelevant: int): real {
    if totalRelevant == 0 then 1.0
    else if k == 0 then 0.0
    else WindowCount(results, keywords, k) as real / totalRelevant as real
  }

  /** Recall is 1.0 whenever `total_relevant == 0`, even for `k == 0`; else
      0.0 for `k == 0`; else the number of coarse hits among the first
      `min(k, n)` results over `total_relevant`. */
  lemma RecallAtKSpec(results: seq<RetrievedChunk>, keywords: seq<string>, k: int, totalRelevant: int)
    ensures totalRelevant == 0 ==> RecallAtK(results, keywords, k, totalRelevant) == 1.0
    ensures totalRelevant != 0 && k == 0 ==> RecallAtK(results, keywords, k, totalRelevant) == 0.0
    ensures totalRelevant != 0 && k != 0 ==>
              RecallAtK(results, keywords, k, totalRelevant) ==
                |set i | 0 <= i < |results| && i < k && CoarseRelevant(results[i].content, keywords)| as real
                / totalRelevant as real
  {
    WindowCountSpec(results, keywords, k);
  }

  /** For a positive `total_relevant`, recall lies between 0 and the window
      size over `total_relevant`, so it reaches at most 1.0 only when the
      window is no larger than `total_relevant`, and it never decreases as
      `k` grows. */
  lemma RecallAtKBounds(results: seq<RetrievedChunk>, keywords: seq<string>, k: int, k2: int, totalRelevant: int)
    requires totalRelevant > 0 && 0 <= k <= k2
    ensures 0.0 <= RecallAtK(results, keywords, k, totalRelevant)
    ensures RecallAtK(results, keywords, k, totalRelevant) <= Window(k, |results|) as real / totalRelevant as real
    ensures RecallAtK(results, keywords, k, totalRelevant) <= RecallAtK(results, keywords, k2, totalRelevant)
  {
    var flags := CoarseFlags(results, keywords);
    var t := totalRelevant as real;
    if k > 0 {
      var c, c2 := WindowCount(results, keywords, k), WindowCount(results, keywords, k2);
      CountTrueMonotone(flags, Window(k, |results|), Window(k2, |results|));
      DivideMonotone(c as real, c2 as real, t);
      DivideMonotone(c as real, Window(k, |results|) as real, t);
      DivideMonotone(0.0, c as real, t);
    } else {
      DivideMonotone(0.0, WindowCount(results, keywords, k2) as real, t);
    }
  }

  /** `calculate_recall_at_k`, counting coarse hits over
      `range(min(k, len(retrieved_results)))`. */
  method CalculateRecallAtK(results: seq<RetrievedChunk>, keywords: seq<string>, k: int, totalRelevant: int) returns (r: real)
    ensures r == RecallAtK(results, keywords, k, totalRelevant)
  {
    if totalRelevant == 0 {
      return 1.0;
    }
    if k == 0 {
      return 0.0;
    }
    var foundRelevantCount := 0;
    var w := if k < |results| then k else |results|;
    var i := 0;
    while i < w
      invariant i == 0 || i <= w
      invariant foundRelevantCount == CountTrue(CoarseFlags(results, keywords), i)
    {
      var content := Lower(results[i].content);
      if exists t | 0 <= t < |keywords| :: Contains(content, Lower(keywords[t])) {
        foundRelevantCount := foundRelevantCount + 1;
      }
      i := i + 1;
    }
    return foundRelevantCount as real / totalRelevant as real;
  }

  // ----- One query -----

  /** `total_relevant` as `evaluate_retrieval` passes it: the number of
      expected keywords, or 1 when there are none. */
  function TotalRelevant(expected: seq<string>): (t: nat)
    ensures t > 0
  {
    if |expected| > 0 then |expected| else 1
  }

  /** The three scores of one query; precision's division by zero
      propagates. */
  function Evaluate(results: seq<RetrievedChunk>, expected: seq<string>, topK: int): Result<Metrics, Error> {
    match PrecisionAtK(results, expected, topK)
    case Err(e) => Err(e)
    case Ok(precision) =>
      Ok(Metrics(ReciprocalRank(results, expected), precision,
                 RecallAtK(results, expected, topK, TotalRelevant(expected))))
  }

  /** The recall `evaluate_retrieval` computes is 0.0 for a window of
      `top_k <= 0`, never negative, and at most 1.0 when there are no more
      results than expected keywords. */
  lemma EvaluatedRecallBounds(results: seq<RetrievedChunk>, expected: seq<string>, topK: int)
    ensures var recall := RecallAtK(results, expected, topK, TotalRelevant(expected));
            && (topK <= 0 ==> recall == 0.0)
            && 0.0 <= recall
            && (|results| <= TotalRelevant(expected) ==> recall <= 1.0)
  {
    var t := TotalRelevant(expected);
    if topK > 0 {
      RecallAtKBounds(results, expected, topK, topK, t);
      var w := Window(topK, |results|);
      if |results| <= t {
        DivideMonotone(w as real, t as real, t as real);
        RatioExtremes(t, t);
      }
    } else {
      assert WindowCount(results, expected, topK) == 0;
    }
  }

  /** Scoring one query fails exactly when precision does (`top_k > 0` and
      no results); otherwise the reciprocal rank and precision lie in
      [0, 1], recall is at least 0, recall is 0.0 when `top_k <= 0` and at
      most 1.0 when there are no more results than expected keywords. */
  lemma EvaluateSpec(results: seq<RetrievedChunk>, expected: seq<string>, topK: int)
    ensures Evaluate(results, expected, topK).Err? <==> topK > 0 && |results| == 0
    ensures Evaluate(results, expected, topK).Ok? ==>
              var m := Evaluate(results, expected, topK).value;
              && 0.0 <= m.mrr <= 1.0
              && 0.0 <= m.precisionAtK <= 1.0
              && (topK <= 0 ==> m.recallAtK == 0.0)
              && 0.0 <= m.recallAtK
              && (|results| <= TotalRelevant(expected) ==> m.recallAtK <= 1.0)
  {
    PrecisionAtKCases(results, expected, topK);
    PrecisionAtKValue(results, expected, topK);
    EvaluatedRecallBounds(results, expected, topK);
    var precision := PrecisionAtK(results, expected, topK);
    if precision.Ok? {
      var m := Evaluate(results, expected, topK).value;
      assert m.mrr == ReciprocalRank(results, expected);
      assert m.precisionAtK == precision.value;
      assert m.recallAtK == RecallAtK(results, expected, topK, TotalRelevant(expected));
    }
  }

  /** A coarse hit inside the window makes precision and recall positive. */
  lemma CoarseHitInWindow(results: seq<RetrievedChunk>, expected: seq<string>, topK: int, i: nat)
    requires i < |results| && i < topK
    requires CoarseRelevant(results[i].content, expected)
    ensures Evaluate(results, expected, topK).Ok?
    ensures Evaluate(results, expected, topK).value.precisionAtK > 0.0
    ensures Evaluate(results, expected, topK).value.recallAtK > 0.0
  {
    var flags := CoarseFlags(results, expected);
    var w := Window(topK, |results|);
    assert 0 < w && i < w;
    CountTrueNone(flags, w);
    assert flags[i];
    var c := WindowCount(results, expected, topK);
    assert c == CountTrue(flags, w) && c > 0;
    PositiveRatio(c, w);
    PositiveRatio(c, TotalRelevant(expected));
    assert PrecisionAtK(results, expected, topK) == Ok(c as real / w as real);
    assert RecallAtK(results, expected, topK, TotalRelevant(expected)) == c as real / TotalRelevant(expected) as real;
  }

  /** A result inside the window that counts for the reciprocal rank is
      also a coarse hit: the reciprocal rank, precision and recall are then
      all positive. */
  lemma StrictHitInWindow(results: seq<RetrievedChunk>, expected: seq<string>, topK: int, i: nat)
    requires i < |results| && i < topK
    requires StrictRelevant(results[i].content, expected)
    ensures ReciprocalRank(results, expected) > 0.0
    ensures Evaluate(results, expected, topK).Ok?
    ensures Evaluate(results, expected, topK).value.precisionAtK > 0.0
    ensures Evaluate(results, expected, topK).value.recallAtK > 0.0
  {
    ReciprocalRankZero(results, expected);
    StrictImpliesCoarse(results[i].content, expected);
    CoarseHitInWindow(results, expected, topK, i);
  }

  /** `evaluate_retrieval`: the three scores under the keys `mrr`,
      `precision_at_k` and `recall_at_k`, with `total_relevant` the number
      of expected keywords or 1. The query text takes no part. */
  method EvaluateRetrieval(query: string, results: seq<RetrievedChunk>, expected: seq<string>, topK: int)
    returns (r: Result<Metrics, Error>)
    ensures r == Evaluate(results, expected, topK)
  {
    var mrr := CalculateMrr(results, expected);
    var precision := CalculatePrecisionAtK(results, expected, topK);
    if precision.Err? {
      return Err(precision.error);
    }
    var recall := CalculateRecallAtK(results, expected, topK, TotalRelevant(expected));
    return Ok(Metrics(mrr, precision.value, recall));
  }

  // ----- Report over a batch of queries -----

  datatype Verdict = Pass | Fail

  /** The three verdicts under `pass_fail_summary`. */
  datatype PassFailSummary = PassFailSummary(retrievalAccuracy: Verdict, queryLatency: Verdict, top3Accuracy: Verdict)

  /** The summary statistics `generate_report` returns. */
  datatype Report = Report(
    totalQueriesRun: nat,
    totalExecutionTimeMs: real,
    avgQueryLatency: real,
    overallAccuracy: real,
    avgMrr: real,
    avgPrecisionAtK: real,
    avgRecallAtK: real,
    latencyPassRate: real,
    top3AccuracyPassRate: real,
    passFailSummary: PassFailSummary)

  /** A query passes the latency check when it took strictly less than this. */
  const LatencyLimitMs: real := 500.0
  /** A query passes the top-3 check when its precision is at least this. */
  const Top3PrecisionBar: real := 0.90
  /** The pass thresholds of the three verdicts. */
  const RetrievalAccuracyThreshold: real := 0.8
  const QueryLatencyThreshold: real := 1.0
  const Top3AccuracyThreshold: real := 0.9

  function Sum(xs: seq<real>): real {
    if |xs| == 0 then 0.0 else Sum(xs[..|xs| - 1]) + xs[|xs| - 1]
  }

  /** `Series.mean()` of a non-empty column. */
  function Mean(xs: seq<real>): real
    requires |xs| > 0
  {
    Sum(xs) / |xs| as real
  }

  lemma {:induction false} SumBounds(xs: seq<real>, lo: real, hi: real)
    requires forall i :: 0 <= i < |xs| ==> lo <= xs[i] <= hi
    ensures |xs| as real * lo <= Sum(xs) <= |xs| as real * hi
  {
    if |xs| > 0 {
      SumBounds(xs[..|xs| - 1], lo, hi);
    }
  }

  lemma {:induction false} SumNonNegative(xs: seq<real>)
    requires forall i :: 0 <= i < |xs| ==> 0.0 <= xs[i]
    ensures 0.0 <= Sum(xs)
  {
    if |xs| > 0 {
      SumNonNegative(xs[..|xs| - 1]);
    }
  }

  /** The mean of values between two bounds lies between them. */
  lemma MeanBounds(xs: seq<real>, lo: real, hi: real)
    requires |xs| > 0
    requires forall i :: 0 <= i < |xs| ==> lo <= xs[i] <= hi
    ensures lo <= Mean(xs) <= hi
  {
    SumBounds(xs, lo, hi);
    var n := |xs| as real;
    DivideMonotone(n * lo, Sum(xs), n);
    DivideMonotone(Sum(xs), n * hi, n);
    assert n * lo / n == lo;
    assert n * hi / n == hi;
  }

  /** `(column > x).mean()` and `count / len(df)`: the share of set flags. */
  function Fraction(flags: seq<bool>): (f: real)
    requires |flags| > 0
    ensures 0.0 <= f <= 1.0
  {
    CountTrue(flags, |flags|) as real / |flags| as real
  }

  /** The share is 1.0 exactly when every flag is set. */
  lemma FractionIsOne(flags: seq<bool>)
    requires |flags| > 0
    ensures Fraction(flags) == 1.0 <==> forall i :: 0 <= i < |flags| ==> flags[i]
  {
    CountTrueAll(flags, |flags|);
    RatioExtremes(CountTrue(flags, |flags|), |flags|);
  }

  /** The share is the number of set flags over their number. */
  lemma FractionIsShare(flags: seq<bool>)
    requires |flags| > 0
    ensures Fraction(flags) == |set i | 0 <= i < |flags| && flags[i]| as real / |flags| as real
  {
    CountTrueIsCardinality(flags, |flags|);
  }

  function Mrrs(records: seq<QueryRecord>): seq<real> {
    seq(|records|, i requires 0 <= i < |records| => records[i].metrics.mrr)
  }

  function Precisions(records: seq<QueryRecord>): seq<real> {
    seq(|records|, i requires 0 <= i < |records| => records[i].metrics.precisionAtK)
  }

  function Recalls(records: seq<QueryRecord>): seq<real> {
    seq(|records|, i requires 0 <= i < |records| => records[i].metrics.recallAtK)
  }

  function Latencies(records: seq<QueryRecord>): seq<real> {
    seq(|records|, i requires 0 <= i < |records| => records[i].queryLatencyMs)
  }

  /** Records whose reciprocal rank is positive. */
  function AccurateFlags(records: seq<QueryRecord>): seq<bool> {
    seq(|records|, i requires 0 <= i < |records| => records[i].metrics.mrr > 0.0)
  }

  /** Records that took less than the latency limit. */
  function FastFlags(records: seq<QueryRecord>): seq<bool> {
    seq(|records|, i requires 0 <= i < |records| => records[i].queryLatencyMs < LatencyLimitMs)
  }

  /** Records whose precision reaches the top-3 bar. */
  function Top3Flags(records: seq<QueryRecord>): seq<bool> {
    seq(|records|, i requires 0 <= i < |records| => records[i].metrics.precisionAtK >= Top3PrecisionBar)
  }

  function VerdictAtLeast(x: real, threshold: real): Verdict {
    if x >= threshold then Pass else Fail
  }

  /** The statistics and verdicts of `generate_report` over a non-empty
      batch of records. */
  function GenerateReport(records: seq<QueryRecord>, totalExecutionTimeMs: real): (r: Report)
    requires |records| > 0
    ensures r.totalQueriesRun == |records|
    ensures r.totalExecutionTimeMs == totalExecutionTimeMs
    ensures 0.0 <= r.overallAccuracy <= 1.0
    ensures 0.0 <= r.latencyPassRate <= 1.0
    ensures 0.0 <= r.top3AccuracyPassRate <= 1.0
  {
    var overallAccuracy := Fraction(AccurateFlags(records));
    var latencyPassRate := Fraction(FastFlags(records));
    var top3 := Fraction(Top3Flags(records));
    Report(
      |records|,
      totalExecutionTimeMs,
      Mean(Latencies(records)),
      overallAccuracy,
      Mean(Mrrs(records)),
      Mean(Precisions(records)),
      Mean(Recalls(records)),
      latencyPassRate,
      top3,
      PassFailSummary(
        VerdictAtLeast(overallAccuracy, RetrievalAccuracyThreshold),
        VerdictAtLeast(latencyPassRate, QueryLatencyThreshold),
        VerdictAtLeast(top3, Top3AccuracyThreshold)))
  }

  /** `overall_accuracy` is the share of records with a positive
      reciprocal rank. */
  lemma OverallAccuracyIsShare(records: seq<QueryRecord>, totalExecutionTimeMs: real)
    requires |records| > 0
    ensures GenerateReport(records, totalExecutionTimeMs).overallAccuracy ==
              |set i | 0 <= i < |records| && records[i].metrics.mrr > 0.0| as real / |records| as real
  {
    var flags := AccurateFlags(records);
    FractionIsShare(flags);
    assert (set i | 0 <= i < |flags| && flags[i]) == (set i | 0 <= i < |records| && records[i].metrics.mrr > 0.0);
  }

  /** `latency_pass_rate` is the share of records that took less than
      500 ms. */
  lemma LatencyPassRateIsShare(records: seq<QueryRecord>, totalExecutionTimeMs: real)
    requires |records| > 0
    ensures GenerateReport(records, totalExecutionTimeMs).latencyPassRate ==
              |set i | 0 <= i < |records| && records[i].queryLatencyMs < 500.0| as real / |records| as real
  {
    var flags := FastFlags(records);
    FractionIsShare(flags);
    assert (set i | 0 <= i < |flags| && flags[i]) == (set i | 0 <= i < |records| && records[i].queryLatencyMs < 500.0);
  }

  /** The latency verdict passes exactly when every query took less than
      500 ms. */
  lemma LatencyVerdictPassIff(records: seq<QueryRecord>, totalExecutionTimeMs: real)
    requires |records| > 0
    ensures GenerateReport(records, totalExecutionTimeMs).passFailSummary.queryLatency == Pass <==>
              forall i :: 0 <= i < |records| ==> records[i].queryLatencyMs < 500.0
  {
    var flags := FastFlags(records);
    FractionIsOne(flags);
    assert forall i :: 0 <= i < |records| ==> flags[i] == (records[i].queryLatencyMs < 500.0);
    assert (forall i :: 0 <= i < |flags| ==> flags[i]) <==>
           (forall i :: 0 <= i < |records| ==> records[i].queryLatencyMs < 500.0);
  }

  /** `top_3_accuracy_pass_rate` is the share of records whose precision is
      at least 0.90. */
  lemma Top3RateIsShare(records: seq<QueryRecord>, totalExecutionTimeMs: real)
    requires |records| > 0
    ensures GenerateReport(records, totalExecutionTimeMs).top3AccuracyPassRate ==
              |set i | 0 <= i < |records| && records[i].metrics.precisionAtK >= 0.90| as real / |records| as real
  {
    var flags := Top3Flags(records);
    FractionIsShare(flags);
    assert (set i | 0 <= i < |flags| && flags[i]) == (set i | 0 <= i < |records| && records[i].metrics.precisionAtK >= 0.90);
  }

  /** A share of `c` out of `n` reaches a threshold exactly when `c` reaches
      that fraction of `n`. */
  lemma ShareAtLeast(c: nat, n: nat, t: real)
    requires n > 0
    ensures c as real / n as real >= t <==> c as real >= t * n as real
  {
    var q := c as real / n as real;
    assert q * n as real == c as real;
    if q >= t {
      assert q * n as real >= t * n as real;
    } else {
      assert q * n as real < t * n as real;
    }
  }

  /** The retrieval-accuracy verdict passes exactly when at least 80% of the
      queries have a positive reciprocal rank. */
  lemma AccuracyVerdictPassIff(records: seq<QueryRecord>, totalExecutionTimeMs: real)
    requires |records| > 0
    ensures GenerateReport(records, totalExecutionTimeMs).passFailSummary.retrievalAccuracy == Pass <==>
              |set i | 0 <= i < |records| && records[i].metrics.mrr > 0.0| as real >= 0.8 * |records| as real
  {
    OverallAccuracyIsShare(records, totalExecutionTimeMs);
    ShareAtLeast(|set i | 0 <= i < |records| && records[i].metrics.mrr > 0.0|, |records|, 0.8);
  }

  /** The top-3 verdict passes exactly when at least 90% of the queries have
      a precision of at least 0.90. */
  lemma Top3VerdictPassIff(records: seq<QueryRecord>, totalExecutionTimeMs: real)
    requires |records| > 0
    ensures GenerateReport(records, totalExecutionTimeMs).passFailSummary.top3Accuracy == Pass <==>
              |set i | 0 <= i < |records| && records[i].metrics.precisionAtK >= 0.90| as real >= 0.9 * |records| as real
  {
    Top3RateIsShare(records, totalExecutionTimeMs);
    ShareAtLeast(|set i | 0 <= i < |records| && records[i].metrics.precisionAtK >= 0.90|, |records|, 0.9);
  }

  /** When every record holds scores `evaluate_retrieval` can produce (the
      reciprocal rank and precision in [0, 1], a non-negative recall) and a
      non-negative latency, the average reciprocal rank and precision lie
      in [0, 1] and the average recall and latency are non-negative. */
  lemma GenerateReportAverages(records: seq<QueryRecord>, totalExecutionTimeMs: real)
    requires |records| > 0
    requires forall i :: 0 <= i < |records| ==>
               0.0 <= records[i].metrics.mrr <= 1.0 && 0.0 <= records[i].metrics.precisionAtK <= 1.0
    requires forall i :: 0 <= i < |records| ==> 0.0 <= records[i].metrics.recallAtK
    requires forall i :: 0 <= i < |records| ==> 0.0 <= records[i].queryLatencyMs
    ensures 0.0 <= GenerateReport(records, totalExecutionTimeMs).avgMrr <= 1.0
    ensures 0.0 <= GenerateReport(records, totalExecutionTimeMs).avgPrecisionAtK <= 1.0
    ensures 0.0 <= GenerateReport(records, totalExecutionTimeMs).avgRecallAtK
    ensures 0.0 <= GenerateReport(records, totalExecutionTimeMs).avgQueryLatency
  {
    MeanBounds(Mrrs(records), 0.0, 1.0);
    MeanBounds(Precisions(records), 0.0, 1.0);
    SumNonNegative(Recalls(records));
    DivideMonotone(0.0, Sum(Recalls(records)), |records| as real);
    SumNonNegative(Latencies(records));
    DivideMonotone(0.0, Sum(Latencies(records)), |records| as real);
  }

  /** Two queries with latencies 100 and 200 ms, reciprocal ranks 1.0 and
      0.5, precisions 1.0 and 0.6 and recalls 1.0 and 0.8: the averages are
      150 ms, 0.75, 0.8 and 0.9; both queries were fast and accurate, but
      only one reaches the top-3 bar. */
  lemma ReportOfTwoQueries()
    ensures var r := GenerateReport(
              [QueryRecord("", "Test query 1", "", "", [], Metrics(1.0, 1.0, 1.0), 100.0, ["keyword1"]),
               QueryRecord("", "Test query 2", "", "", [], Metrics(0.5, 0.6, 0.8), 200.0, ["keyword2"])],
              300.0);
            && r.totalQueriesRun == 2
            && r.totalExecutionTimeMs == 300.0
            && r.avgQueryLatency == 150.0
            && r.avgMrr == 0.75
            && r.avgPrecisionAtK == 0.8
            && r.avgRecallAtK == 0.9
            && r.passFailSummary == PassFailSummary(Pass, Pass, Fail)
  {
    var records :=
      [QueryRecord("", "Test query 1", "", "", [], Metrics(1.0, 1.0, 1.0), 100.0, ["keyword1"]),
       QueryRecord("", "Test query 2", "", "", [], Metrics(0.5, 0.6, 0.8), 200.0, ["keyword2"])];
    assert Latencies(records) == [100.0, 200.0];
    assert Sum([100.0, 200.0]) == 300.0 by {
      assert [100.0, 200.0][..1] == [100.0];
      assert [100.0][..0] == [];
    }
    assert Sum([1.0, 0.5]) == 1.5 by {
      assert [1.0, 0.5][..1] == [1.0];
      assert [1.0][..0] == [];
    }
    assert Sum([1.0, 0.6]) == 1.6 by {
      assert [1.0, 0.6][..1] == [1.0];
      assert [1.0][..0] == [];
    }
    assert Sum([1.0, 0.8]) == 1.8 by {
      assert [1.0, 0.8][..1] == [1.0];
      assert [1.0][..0] == [];
    }
    assert Mrrs(records) == [1.0, 0.5];
    assert Precisions(records) == [1.0, 0.6];
    assert Recalls(records) == [1.0, 0.8];
    assert AccurateFlags(records) == [true, true];
    assert FastFlags(records) == [true, true];
    assert Top3Flags(records) == [true, false];
  }
}
