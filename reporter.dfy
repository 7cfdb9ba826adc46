/** The reporter: per-endpoint records, the statistics added to each record
    as it is stored (latency percentiles, response sizes), and the integer
    roll-ups of the final report. */
module Reporter {
  import opened Common
  import opened Sorting
  import opened Validator

  /** Go `error` values that end up in a record's error list. */
  datatype Failure =
    | Transport(msg: string)
    | Cancelled
    | ValidationFailed(violations: seq<Violation>)
    | Joined(first: Failure, next: Failure)

  /** An entry of `TestResult.Errors`: a violation reason copied from a
      validation result, or the text of an error. */
  datatype Message = Reason(violation: Violation) | Error(failure: Failure)

  datatype RequestDetail = RequestDetail(
    ID: int,
    Duration: int,
    StatusCode: int,
    Success: bool,
    ErrorMessage: string,
    ResponseSize: int,
    Headers: map<string, string>,
    ValidationErrors: seq<string>)

  datatype LatencyPercentiles = LatencyPercentiles(P50: int, P75: int, P90: int, P95: int, P99: int)

  datatype SizeStats = SizeStats(Min: int, Max: int, Avg: int)

  datatype TestResult = TestResult(
    EndpointName: string,
    Method: string,
    URL: string,
    TotalRequests: int,
    SuccessCount: int,
    FailureCount: int,
    AverageLatency: int,
    MinLatency: int,
    MaxLatency: int,
    Percentiles: LatencyPercentiles,
    StatusCodes: map<int, int>,
    Errors: seq<Message>,
    IsConcurrent: bool,
    ConcurrentUsers: int,
    RequestDetails: seq<RequestDetail>,
    BytesTransferred: int,
    ResponseSizes: SizeStats,
    TimeoutCount: int)

  datatype GlobalStats = GlobalStats(
    AverageLatency: int,
    MaxLatency: int,
    MinLatency: int,
    TotalErrors: int,
    TotalTimeouts: int,
    TotalBytes: int)

  datatype Report = Report(
    TestResults: seq<TestResult>,
    TotalEndpoints: int,
    TotalRequests: int,
    GlobalStats: GlobalStats)

  const NoPercentiles := LatencyPercentiles(0, 0, 0, 0, 0)

  /** `time.Hour * 24` in nanoseconds: the starting value of the global
      minimum latency. */
  const Day := 24 * 60 * 60 * 1_000_000_000

  // ---------------------------------------------------------------------
  // Percentiles

  /** The nearest-rank index `int(n * pct / 100)` for a list of `n` values. */
  function Rank(n: nat, pct: nat): (i: nat)
    requires n > 0 && pct < 100
    ensures i < n
  {
    assert n * pct < n * 100;
    n * pct / 100
  }

  lemma RankMonotone(n: nat, p: nat, q: nat)
    requires n > 0 && p <= q < 100
    ensures Rank(n, p) <= Rank(n, q)
  {
    assert n * p <= n * q;
  }

  /** The five percentiles read off an already sorted list. */
  function PercentilesOf(sorted: seq<int>): LatencyPercentiles
  {
    var n := |sorted|;
    if n == 0 then NoPercentiles
    else LatencyPercentiles(sorted[Rank(n, 50)], sorted[Rank(n, 75)], sorted[Rank(n, 90)],
                            sorted[Rank(n, 95)], sorted[Rank(n, 99)])
  }

  /** On a sorted list the percentiles are ordered, each is an element of
      the list, and none is above its last (largest) element. */
  lemma PercentilesOfSorted(s: seq<int>)
    requires |s| > 0 && Sorted(s)
    ensures var p := PercentilesOf(s);
            p.P50 <= p.P75 <= p.P90 <= p.P95 <= p.P99 <= s[|s| - 1] &&
            p.P50 in s && p.P75 in s && p.P90 in s && p.P95 in s && p.P99 in s
  {
    var n := |s|;
    RankMonotone(n, 50, 75);
    RankMonotone(n, 75, 90);
    RankMonotone(n, 90, 95);
    RankMonotone(n, 95, 99);
  }

  /** Percentiles of arbitrary durations, sorted first: ordered, and each
      one of the durations. */
  lemma PercentilesOrdered(durations: seq<int>)
    requires |durations| > 0
    ensures var p := PercentilesOf(Sort(durations));
            p.P50 <= p.P75 <= p.P90 <= p.P95 <= p.P99 &&
            p.P50 in durations && p.P75 in durations && p.P90 in durations &&
            p.P95 in durations && p.P99 in durations
  {
    var s := Sort(durations);
    SortSorts(durations);
    PercentilesOfSorted(s);
    forall x | x in s ensures x in durations {
      assert x in multiset(s);
    }
  }

  /** An empty list has all-zero percentiles. */
  lemma NoDurationsNoPercentiles()
    ensures PercentilesOf(Sort([])) == NoPercentiles
  {
  }

  /** `calculatePercentiles`: sorts its argument in place and indexes it. */
  method CalculatePercentiles(durations: array<int>) returns (p: LatencyPercentiles)
    modifies durations
    ensures durations[..] == Sort(old(durations[..]))
    ensures p == PercentilesOf(durations[..])
  {
    if durations.Length == 0 {
      return NoPercentiles;
    }
    SortInPlace(durations);
    var n := durations.Length;
    p := LatencyPercentiles(durations[Rank(n, 50)], durations[Rank(n, 75)], durations[Rank(n, 90)],
                            durations[Rank(n, 95)], durations[Rank(n, 99)]);
  }

  // ---------------------------------------------------------------------
  // Response sizes

  /** The durations of the request details, in order. */
  function Durations(details: seq<RequestDetail>): seq<int>
  {
    MapSeq(details, (d: RequestDetail) => d.Duration)
  }

  /** The response sizes of the request details, in order. */
  function Sizes(details: seq<RequestDetail>): seq<int>
  {
    MapSeq(details, (d: RequestDetail) => d.ResponseSize)
  }

  function Total(s: seq<int>): int
  {
    SumOf(s, (x: int) => x)
  }

  /** Minimum started at the first size, maximum started at zero, and the
      truncated mean. */
  function SizeStatsOf(sizes: seq<int>): SizeStats
    requires |sizes| > 0
  {
    SizeStats(MinFrom(sizes[0], sizes), MaxFrom(0, sizes), GoDiv(Total(sizes), |sizes|))
  }

  /** For non-negative sizes: `Min` is the smallest, `Max` the largest and
      `Min <= Avg <= Max`. */
  lemma SizeStatsBounds(sizes: seq<int>)
    requires |sizes| > 0
    requires forall i :: 0 <= i < |sizes| ==> sizes[i] >= 0
    ensures var st := SizeStatsOf(sizes);
            st.Min in sizes && (forall i :: 0 <= i < |sizes| ==> st.Min <= sizes[i]) &&
            st.Max in sizes && (forall i :: 0 <= i < |sizes| ==> sizes[i] <= st.Max) &&
            st.Min <= st.Avg <= st.Max
  {
    var st := SizeStatsOf(sizes);
    assert st.Max == 0 ==> sizes[0] == 0;
    SumOfBetween(sizes, (x: int) => x, st.Min, st.Max);
    GoDivBetween(Total(sizes), |sizes|, st.Min, st.Max);
  }

  /** The record as `AddResult` stores it. */
  function Finish(result: TestResult): TestResult
  {
    var details := result.RequestDetails;
    var withPercentiles := result.(Percentiles := PercentilesOf(Sort(Durations(details))));
    if |details| == 0 then withPercentiles
    else withPercentiles.(ResponseSizes := SizeStatsOf(Sizes(details)))
  }

  /** Storing a record changes nothing but its two statistics fields. */
  lemma FinishKeepsRecord(result: TestResult)
    ensures Finish(result).(Percentiles := result.Percentiles, ResponseSizes := result.ResponseSizes) == result
  {
  }

  /** Storing a record only fills in its percentiles and, when it has
      request details, its size statistics; the details themselves keep
      their order. */
  lemma FinishChangesOnlyStatistics(result: TestResult)
    ensures var f := Finish(result);
            f.(Percentiles := result.Percentiles, ResponseSizes := result.ResponseSizes) == result &&
            f.RequestDetails == result.RequestDetails &&
            (|result.RequestDetails| == 0 ==>
               f.Percentiles == NoPercentiles && f.ResponseSizes == result.ResponseSizes) &&
            (|result.RequestDetails| > 0 ==>
               f.Percentiles.P50 <= f.Percentiles.P75 <= f.Percentiles.P90 <=
               f.Percentiles.P95 <= f.Percentiles.P99)
  {
    if |result.RequestDetails| > 0 {
      PercentilesOrdered(Durations(result.RequestDetails));
    }
  }

  // ---------------------------------------------------------------------
  // Report roll-ups

  function RequestsSum(rs: seq<TestResult>): int { SumOf(rs, (t: TestResult) => t.TotalRequests) }
  function FailuresSum(rs: seq<TestResult>): int { SumOf(rs, (t: TestResult) => t.FailureCount) }
  function TimeoutsSum(rs: seq<TestResult>): int { SumOf(rs, (t: TestResult) => t.TimeoutCount) }
  function BytesSum(rs: seq<TestResult>): int { SumOf(rs, (t: TestResult) => t.BytesTransferred) }
  /** The latency sum weighted by each record's request count. */
  function LatencySum(rs: seq<TestResult>): int
  {
    SumOf(rs, (t: TestResult) => t.AverageLatency * t.TotalRequests)
  }

  function MaxLatencies(rs: seq<TestResult>): (s: seq<int>)
    ensures |s| == |rs| && forall i :: 0 <= i < |rs| ==> s[i] == rs[i].MaxLatency
  {
    seq(|rs|, i requires 0 <= i < |rs| => rs[i].MaxLatency)
  }

  function MinLatencies(rs: seq<TestResult>): (s: seq<int>)
    ensures |s| == |rs| && forall i :: 0 <= i < |rs| ==> s[i] == rs[i].MinLatency
  {
    seq(|rs|, i requires 0 <= i < |rs| => rs[i].MinLatency)
  }

  /** The global average as `prepareReport` computes it: `None` stands for
      the run-time panic of an integer division by zero. */
  function GlobalAverageAsWritten(rs: seq<TestResult>): (r: Option<int>)
    ensures r.None? <==> RequestsSum(rs) == 0
  {
    if RequestsSum(rs) == 0 then None else Some(GoDiv(LatencySum(rs), RequestsSum(rs)))
  }

  /** A run in which no request reached a server (every endpoint's
      attempts failed in transport) makes the report panic. */
  lemma GlobalAveragePanicsWithoutRequests(rs: seq<TestResult>)
    requires |rs| > 0 && forall i :: 0 <= i < |rs| ==> rs[i].TotalRequests == 0
    ensures GlobalAverageAsWritten(rs) == None
  {
    SumOfBetween(rs, (t: TestResult) => t.TotalRequests, 0, 0);
  }

  /** The global average with the zero-request case guarded: 0 then. */
  function GlobalAverage(rs: seq<TestResult>): (r: int)
    ensures RequestsSum(rs) != 0 ==> GlobalAverageAsWritten(rs) == Some(r)
    ensures RequestsSum(rs) == 0 ==> r == 0
  {
    if RequestsSum(rs) == 0 then 0 else GoDiv(LatencySum(rs), RequestsSum(rs))
  }

  lemma {:induction false} LatencySumBetween(rs: seq<TestResult>, lo: int, hi: int)
    requires forall i :: 0 <= i < |rs| ==> rs[i].TotalRequests >= 0 && lo <= rs[i].AverageLatency <= hi
    ensures lo * RequestsSum(rs) <= LatencySum(rs) <= hi * RequestsSum(rs)
  {
    if |rs| > 0 {
      var init := rs[..|rs| - 1];
      var n, a := rs[|rs| - 1].TotalRequests, rs[|rs| - 1].AverageLatency;
      LatencySumBetween(init, lo, hi);
      var total := RequestsSum(init);
      assert RequestsSum(rs) == total + n;
      assert LatencySum(rs) == LatencySum(init) + a * n;
      MulBetween(lo, a, hi, n);
      assert lo * (total + n) == lo * total + lo * n;
      assert hi * (total + n) == hi * total + hi * n;
    }
  }

  /** The request-weighted global average lies within the bounds of the
      per-endpoint averages. */
  lemma GlobalAverageBetween(rs: seq<TestResult>, lo: int, hi: int)
    requires forall i :: 0 <= i < |rs| ==> rs[i].TotalRequests >= 0 && lo <= rs[i].AverageLatency <= hi
    requires RequestsSum(rs) > 0
    ensures lo <= GlobalAverage(rs) <= hi
  {
    LatencySumBetween(rs, lo, hi);
    GoDivBetween(LatencySum(rs), RequestsSum(rs), lo, hi);
  }

  /** The integer part of `prepareReport`. */
  function ReportOf(rs: seq<TestResult>): Report
  {
    Report(rs, |rs|, RequestsSum(rs),
           GlobalStats(GlobalAverage(rs), MaxFrom(0, MaxLatencies(rs)), MinFrom(Day, MinLatencies(rs)),
                       FailuresSum(rs), TimeoutsSum(rs), BytesSum(rs)))
  }

  /** The maximum and minimum over the records only grow and shrink when
      records are added (in whatever order). */
  lemma ExtremaMonotone(rs: seq<TestResult>, rs': seq<TestResult>)
    requires multiset(rs) <= multiset(rs')
    ensures MaxFrom(0, MaxLatencies(rs)) <= MaxFrom(0, MaxLatencies(rs'))
    ensures MinFrom(Day, MinLatencies(rs')) <= MinFrom(Day, MinLatencies(rs))
  {
    var ma := MaxFrom(0, MaxLatencies(rs));
    if ma != 0 {
      var i :| 0 <= i < |rs| && MaxLatencies(rs)[i] == ma;
      assert rs[i] in multiset(rs');
      var j :| 0 <= j < |rs'| && rs'[j] == rs[i];
      assert MaxLatencies(rs')[j] == ma;
    }
    var mi := MinFrom(Day, MinLatencies(rs));
    if mi != Day {
      var i :| 0 <= i < |rs| && MinLatencies(rs)[i] == mi;
      assert rs[i] in multiset(rs');
      var j :| 0 <= j < |rs'| && rs'[j] == rs[i];
      assert MinLatencies(rs')[j] == mi;
    }
  }

  /** Totals are plain sums and extremes are plain folds, so they do not
      depend on the order of the records. */
  lemma ReportOrderIndependent(rs: seq<TestResult>, rs': seq<TestResult>)
    requires multiset(rs) == multiset(rs')
    ensures ReportOf(rs).GlobalStats == ReportOf(rs').GlobalStats
    ensures ReportOf(rs).TotalRequests == ReportOf(rs').TotalRequests
    ensures ReportOf(rs).TotalEndpoints == ReportOf(rs').TotalEndpoints
  {
    assert |rs| == |multiset(rs)| == |rs'|;
    SumOfPermutation(rs, rs', (t: TestResult) => t.TotalRequests);
    SumOfPermutation(rs, rs', (t: TestResult) => t.FailureCount);
    SumOfPermutation(rs, rs', (t: TestResult) => t.TimeoutCount);
    SumOfPermutation(rs, rs', (t: TestResult) => t.BytesTransferred);
    SumOfPermutation(rs, rs', (t: TestResult) => t.AverageLatency * t.TotalRequests);
    ExtremaMonotone(rs, rs');
    ExtremaMonotone(rs', rs);
  }

  /** With no records the extremes are the starting values. */
  lemma EmptyReport()
    ensures ReportOf([]).GlobalStats == GlobalStats(0, 0, Day, 0, 0, 0)
    ensures ReportOf([]).TotalEndpoints == 0 && ReportOf([]).TotalRequests == 0
  {
  }

  /** The fresh slice of durations `AddResult` builds from the details. */
  method CollectDurations(details: seq<RequestDetail>) returns (durations: array<int>)
    ensures fresh(durations) && durations[..] == Durations(details)
  {
    durations := new int[|details|];
    for i := 0 to |details|
      invariant forall k :: 0 <= k < i ==> durations[k] == details[k].Duration
    {
      durations[i] := details[i].Duration;
    }
  }

  /** The response-size loop of `AddResult`. */
  method ResponseSizeStats(details: seq<RequestDetail>) returns (st: SizeStats)
    requires |details| > 0
    ensures st == SizeStatsOf(Sizes(details))
  {
    var sizes := Sizes(details);
    var minSize, maxSize, totalSize := details[0].ResponseSize, 0, 0;
    for i := 0 to |details|
      invariant minSize == MinFrom(sizes[0], sizes[..i])
      invariant maxSize == MaxFrom(0, sizes[..i])
      invariant totalSize == Total(sizes[..i])
    {
      var size := details[i].ResponseSize;
      assert sizes[..i + 1][..i] == sizes[..i];
      if size < minSize {
        minSize := size;
      }
      if size > maxSize {
        maxSize := size;
      }
      totalSize := totalSize + size;
    }
    assert sizes[..|details|] == sizes;
    st := SizeStats(minSize, maxSize, GoDiv(totalSize, |details|));
  }

  class Reporter {
    var results: seq<TestResult>

    constructor ()
      ensures results == []
    {
      results := [];
    }

    /** `AddResult`: fills in the statistics of the record and appends it. */
    method AddResult(result: TestResult)
      modifies this
      ensures results == old(results) + [Finish(result)]
    {
      var details := result.RequestDetails;
      var durations := CollectDurations(details);
      var p := CalculatePercentiles(durations);
      var stored := result.(Percentiles := p);
      if |details| > 0 {
        var sizes := ResponseSizeStats(details);
        stored := stored.(ResponseSizes := sizes);
      }
      results := results + [stored];
    }

    /** `prepareReport`, without its floating-point fields and timestamps,
        and with the division by a zero request count guarded. */
    method PrepareReport() returns (report: Report)
      ensures report == ReportOf(results)
    {
      var totalRequests, totalLatency, maxLatency, minLatency := 0, 0, 0, Day;
      var totalBytes, totalErrors, totalTimeouts := 0, 0, 0;
      for i := 0 to |results|
        invariant totalRequests == RequestsSum(results[..i])
        invariant totalLatency == LatencySum(results[..i])
        invariant totalBytes == BytesSum(results[..i])
        invariant totalErrors == FailuresSum(results[..i])
        invariant totalTimeouts == TimeoutsSum(results[..i])
        invariant maxLatency == MaxFrom(0, MaxLatencies(results[..i]))
        invariant minLatency == MinFrom(Day, MinLatencies(results[..i]))
      {
        var result := results[i];
        assert results[..i + 1][..i] == results[..i];
        assert MaxLatencies(results[..i + 1])[..i] == MaxLatencies(results[..i]);
        assert MinLatencies(results[..i + 1])[..i] == MinLatencies(results[..i]);
        totalRequests := totalRequests + result.TotalRequests;
        totalLatency := totalLatency + result.AverageLatency * result.TotalRequests;
        totalBytes := totalBytes + result.BytesTransferred;
        totalErrors := totalErrors + result.FailureCount;
        totalTimeouts := totalTimeouts + result.TimeoutCount;
        if result.MaxLatency > maxLatency {
          maxLatency := result.MaxLatency;
        }
        if result.MinLatency < minLatency {
          minLatency := result.MinLatency;
        }
      }
      assert results[..|results|] == results;
      var average := if totalRequests == 0 then 0 else GoDiv(totalLatency, totalRequests);
      report := Report(results, |results|, totalRequests,
                       GlobalStats(average, maxLatency, minLatency, totalErrors, totalTimeouts, totalBytes));
    }
  }
}
