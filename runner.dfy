/** The runner: the retry loop of the single path, the virtual users and the
    result fold of the concurrent path, and the loop over the endpoints.
    Each HTTP exchange (`makeRequest`) is an oracle: a function from the
    attempt's coordinates to its outcome. */
module Runner {
  import opened Common
  import opened Config
  // The module and its datatype share the name `Config`; the alias names
  // the module's `Validate`, which `Validator.Validate` would otherwise hide.
  import ConfigModule = Config
  import opened Validator
  import opened Reporter

  /** What one call of `makeRequest` yields: a transport error, or the
      validated response. */
  datatype Outcome = TransportErr(msg: string) | Response(result: ValidationResult)

  /** What a virtual user meets at one request slot: the context already
      done, or the outcome of the request it made. */
  datatype Step = CtxDone | Made(outcome: Outcome)

  /** The observable schedule of the retry loop. */
  datatype Event = Slept(delay: int) | Requested

  /** The error an unsuccessful attempt leaves in `lastErr`. */
  function AttemptError(o: Outcome): Failure
  {
    match o
    case TransportErr(msg) => Transport(msg)
    case Response(v) => ValidationFailed(v.Errors)
  }

  // ---------------------------------------------------------------------
  // Single path: `runSingle`

  /** The loop `for i := 0; i <= Retry.Count; i++` allows this many attempts. */
  function AttemptBound(e: Endpoint): (n: nat)
    ensures e.Retry.Count >= 0 ==> n == e.Retry.Count + 1
    ensures e.Retry.Count < 0 ==> n == 0
  {
    if e.Retry.Count < 0 then 0 else e.Retry.Count + 1
  }

  predicate ValidAt(outcome: nat -> Outcome, i: nat)
  {
    outcome(i).Response? && outcome(i).result.IsValid
  }

  /** The first attempt below `k` whose response validates. */
  function FirstValidBelow(outcome: nat -> Outcome, k: nat): (r: Option<nat>)
    ensures r.Some? ==> r.value < k && ValidAt(outcome, r.value) &&
                        forall j :: 0 <= j < r.value ==> !ValidAt(outcome, j)
    ensures r.None? ==> forall j :: 0 <= j < k ==> !ValidAt(outcome, j)
  {
    if k == 0 then None
    else match FirstValidBelow(outcome, k - 1)
      case Some(i) => Some(i)
      case None => if ValidAt(outcome, k - 1) then Some(k - 1) else None
  }

  /** The first attempt, within the bound, whose response validates. */
  function FirstValid(e: Endpoint, outcome: nat -> Outcome): Option<nat>
  {
    FirstValidBelow(outcome, AttemptBound(e))
  }

  /** The number of attempts made: up to the first valid response, else
      all that the bound allows. */
  function Attempts(e: Endpoint, outcome: nat -> Outcome): (n: nat)
    ensures n <= AttemptBound(e)
    ensures e.Retry.Count >= 0 ==> n >= 1
  {
    match FirstValid(e, outcome)
    case Some(i) => i + 1
    case None => AttemptBound(e)
  }

  /** Attempts among the first `k` that reached the server. */
  function Reached(outcome: nat -> Outcome, k: nat): (r: nat)
    ensures r <= k
  {
    if k == 0 then 0 else Reached(outcome, k - 1) + (if outcome(k - 1).Response? then 1 else 0)
  }

  /** The status-code histogram after the first `k` attempts. */
  function SingleCodes(m: map<int, int>, outcome: nat -> Outcome, k: nat): map<int, int>
  {
    if k == 0 then m
    else
      var before := SingleCodes(m, outcome, k - 1);
      if outcome(k - 1).Response? then Inc(before, outcome(k - 1).result.StatusCode) else before
  }

  /** The validated responses among the first `k` attempts, in attempt
      order: the attempts that reached the server. */
  function ReachedResponses(outcome: nat -> Outcome, k: nat): seq<ValidationResult>
  {
    if k == 0 then []
    else ReachedResponses(outcome, k - 1) + (if outcome(k - 1).Response? then [outcome(k - 1).result] else [])
  }

  /** One response is kept per attempt that reached the server. */
  lemma {:induction false} ReachedResponsesCount(outcome: nat -> Outcome, k: nat)
    ensures |ReachedResponses(outcome, k)| == Reached(outcome, k)
  {
    if k > 0 {
      ReachedResponsesCount(outcome, k - 1);
    }
  }

  /** The retry loop's histogram is the fold of `StatusCodes[code]++` over
      the responses that arrived. */
  lemma {:induction false} SingleCodesTally(m: map<int, int>, outcome: nat -> Outcome, k: nat)
    ensures SingleCodes(m, outcome, k) == Tally(m, ReachedResponses(outcome, k))
  {
    if k > 0 {
      SingleCodesTally(m, outcome, k - 1);
      var before := ReachedResponses(outcome, k - 1);
      if outcome(k - 1).Response? {
        var rs := before + [outcome(k - 1).result];
        assert ReachedResponses(outcome, k) == rs && rs[..|rs| - 1] == before;
      } else {
        assert ReachedResponses(outcome, k) == before;
      }
    }
  }

  /** So the histogram gains a key for each code received, and counts every
      attempt that reached the server under its code. */
  lemma SingleCodesCounts(m: map<int, int>, outcome: nat -> Outcome, k: nat)
    ensures |ReachedResponses(outcome, k)| == Reached(outcome, k)
    ensures SingleCodes(m, outcome, k).Keys == m.Keys + CodesOf(ReachedResponses(outcome, k))
    ensures forall c :: Get(SingleCodes(m, outcome, k), c) == Get(m, c) + CodeCount(ReachedResponses(outcome, k), c)
  {
    ReachedResponsesCount(outcome, k);
    SingleCodesTally(m, outcome, k);
    TallyCounts(m, ReachedResponses(outcome, k));
  }

  /** The record and the error `runSingle` ends with. */
  function SingleResult(e: Endpoint, result: TestResult, outcome: nat -> Outcome, elapsed: nat -> int)
    : (TestResult, Option<Failure>)
  {
    var n := Attempts(e, outcome);
    var counted := result.(TotalRequests := result.TotalRequests + Reached(outcome, n),
                           StatusCodes := SingleCodes(result.StatusCodes, outcome, n));
    match FirstValid(e, outcome)
    case Some(i) =>
      (counted.(SuccessCount := result.SuccessCount + 1, AverageLatency := elapsed(i)), None)
    case None =>
      (counted.(FailureCount := result.FailureCount + 1),
       if n == 0 then None else Some(AttemptError(outcome(n - 1))))
  }

  /** One request is counted per attempt that reached the server; the
      endpoint ends with one success, at the first valid attempt, or with
      one failure and the last attempt's error; nothing else changes. */
  lemma SingleResultSpec(e: Endpoint, result: TestResult, outcome: nat -> Outcome, elapsed: nat -> int)
    ensures var (r, err) := SingleResult(e, result, outcome, elapsed);
            var n := Attempts(e, outcome);
            r.SuccessCount + r.FailureCount == result.SuccessCount + result.FailureCount + 1 &&
            r.TotalRequests == result.TotalRequests + Reached(outcome, n) &&
            r.TotalRequests <= result.TotalRequests + n
    ensures var (r, err) := SingleResult(e, result, outcome, elapsed);
            var n := Attempts(e, outcome);
            (exists i :: 0 <= i < AttemptBound(e) && ValidAt(outcome, i)) ==>
              r.SuccessCount == result.SuccessCount + 1 && r.FailureCount == result.FailureCount &&
              ValidAt(outcome, n - 1) && r.AverageLatency == elapsed(n - 1) && err == None &&
              forall j :: 0 <= j < n - 1 ==> !ValidAt(outcome, j)
    ensures var (r, err) := SingleResult(e, result, outcome, elapsed);
            var n := Attempts(e, outcome);
            !(exists i :: 0 <= i < AttemptBound(e) && ValidAt(outcome, i)) ==>
              r.SuccessCount == result.SuccessCount && r.FailureCount == result.FailureCount + 1 &&
              n == AttemptBound(e) && r.AverageLatency == result.AverageLatency &&
              err == (if n == 0 then None else Some(AttemptError(outcome(n - 1))))
    ensures var (r, err) := SingleResult(e, result, outcome, elapsed);
            r.(TotalRequests := result.TotalRequests, SuccessCount := result.SuccessCount,
               FailureCount := result.FailureCount, AverageLatency := result.AverageLatency,
               StatusCodes := result.StatusCodes) == result
  {
  }

  /** The schedule of `n` attempts: a sleep before every attempt but the
      first. */
  function Schedule(n: nat, delay: int): (r: seq<Event>)
    ensures n == 0 ==> r == []
    ensures n > 0 ==> |r| == 2 * n - 1
    ensures forall k :: 0 <= k < |r| ==> (r[k] == Requested <==> k % 2 == 0)
    ensures forall k :: 0 <= k < |r| && r[k] != Requested ==> r[k] == Slept(delay)
  {
    if n == 0 then []
    else Schedule(n - 1, delay) + (if n > 1 then [Slept(delay)] else []) + [Requested]
  }

  /** The record and error when attempt `i` is the first valid one. */
  lemma SingleResultFound(e: Endpoint, result: TestResult, outcome: nat -> Outcome, elapsed: nat -> int, i: nat)
    requires i < AttemptBound(e) && ValidAt(outcome, i) && FirstValidBelow(outcome, i).None?
    ensures Attempts(e, outcome) == i + 1
    ensures SingleResult(e, result, outcome, elapsed)
         == (result.(TotalRequests := result.TotalRequests + Reached(outcome, i + 1),
                     StatusCodes := SingleCodes(result.StatusCodes, outcome, i + 1),
                     SuccessCount := result.SuccessCount + 1, AverageLatency := elapsed(i)), None)
  {
    assert FirstValidBelow(outcome, i + 1) == Some(i);
    assert FirstValidBelow(outcome, AttemptBound(e)) == Some(i);
  }

  /** The record and error when no attempt validates. */
  lemma SingleResultExhausted(e: Endpoint, result: TestResult, outcome: nat -> Outcome, elapsed: nat -> int)
    requires FirstValidBelow(outcome, AttemptBound(e)).None?
    ensures Attempts(e, outcome) == AttemptBound(e)
    ensures var n := AttemptBound(e);
            SingleResult(e, result, outcome, elapsed)
              == (result.(TotalRequests := result.TotalRequests + Reached(outcome, n),
                          StatusCodes := SingleCodes(result.StatusCodes, outcome, n),
                          FailureCount := result.FailureCount + 1),
                  if n == 0 then None else Some(AttemptError(outcome(n - 1))))
  {
  }

  /** `runSingle`: the retry loop over the attempts. */
  method RunSingle(e: Endpoint, result: TestResult, outcome: nat -> Outcome, elapsed: nat -> int)
    returns (res: TestResult, err: Option<Failure>, trace: seq<Event>)
    ensures (res, err) == SingleResult(e, result, outcome, elapsed)
    ensures trace == Schedule(Attempts(e, outcome), e.Retry.Delay)
  {
    err, trace := None, [];
    var total, codes := result.TotalRequests, result.StatusCodes;
    var lastErr: Option<Failure> := None;
    var i := 0;
    while i <= e.Retry.Count
      invariant 0 <= i <= AttemptBound(e)
      invariant FirstValidBelow(outcome, i).None?
      invariant total == result.TotalRequests + Reached(outcome, i)
      invariant codes == SingleCodes(result.StatusCodes, outcome, i)
      invariant lastErr == if i == 0 then None else Some(AttemptError(outcome(i - 1)))
      invariant trace == Schedule(i, e.Retry.Delay)
      decreases e.Retry.Count - i
    {
      if i > 0 {
        trace := trace + [Slept(e.Retry.Delay)];
      }
      trace := trace + [Requested];
      var resp := outcome(i);
      var duration := elapsed(i);
      if resp.TransportErr? {
        lastErr := Some(Transport(resp.msg));
        i := i + 1;
        continue;
      }
      total := total + 1;
      codes := Inc(codes, resp.result.StatusCode);
      if resp.result.IsValid {
        res := result.(TotalRequests := total, StatusCodes := codes,
                       SuccessCount := result.SuccessCount + 1, AverageLatency := duration);
        SingleResultFound(e, result, outcome, elapsed, i);
        return;
      }
      lastErr := Some(ValidationFailed(resp.result.Errors));
      i := i + 1;
    }
    SingleResultExhausted(e, result, outcome, elapsed);
    res := result.(TotalRequests := total, StatusCodes := codes, FailureCount := result.FailureCount + 1);
    err := lastErr;
  }

  /** Every attempt reaches the server and fails validation: all
      `Retry.Count + 1` attempts are made and every one is counted. */
  lemma AlwaysInvalidScenario(e: Endpoint, result: TestResult, outcome: nat -> Outcome, elapsed: nat -> int)
    requires e.Retry.Count == 2
    requires forall i :: outcome(i).Response? && !outcome(i).result.IsValid
    ensures Attempts(e, outcome) == 3
    ensures var (r, err) := SingleResult(e, result, outcome, elapsed);
            r.FailureCount == result.FailureCount + 1 && r.SuccessCount == result.SuccessCount &&
            r.TotalRequests == result.TotalRequests + 3 &&
            err == Some(ValidationFailed(outcome(2).result.Errors))
  {
    assert !ValidAt(outcome, 0) && !ValidAt(outcome, 1) && !ValidAt(outcome, 2);
    assert Reached(outcome, 3) == 3;
  }

  /** The server answers the first attempt with a valid response: one
      attempt, one success, no error. */
  lemma ImmediateSuccessScenario(e: Endpoint, result: TestResult, outcome: nat -> Outcome, elapsed: nat -> int)
    requires e.Retry.Count >= 0 && ValidAt(outcome, 0)
    ensures Attempts(e, outcome) == 1
    ensures var (r, err) := SingleResult(e, result, outcome, elapsed);
            r.SuccessCount == result.SuccessCount + 1 && r.FailureCount == result.FailureCount &&
            r.TotalRequests == result.TotalRequests + 1 && r.AverageLatency == elapsed(0) && err == None
  {
    assert FirstValid(e, outcome) == Some(0);
  }

  /** Transport errors throughout: nothing is counted as a request, and
      the last transport error is returned. */
  lemma AlwaysUnreachableScenario(e: Endpoint, result: TestResult, outcome: nat -> Outcome, elapsed: nat -> int)
    requires e.Retry.Count >= 0
    requires forall i :: outcome(i).TransportErr?
    ensures var (r, err) := SingleResult(e, result, outcome, elapsed);
            r.TotalRequests == result.TotalRequests && r.StatusCodes == result.StatusCodes &&
            r.FailureCount == result.FailureCount + 1 &&
            err == Some(Transport(outcome(e.Retry.Count).msg))
  {
    ReachedNone(outcome, AttemptBound(e));
  }

  lemma {:induction false} ReachedNone(outcome: nat -> Outcome, k: nat)
    requires forall i :: outcome(i).TransportErr?
    ensures Reached(outcome, k) == 0
    ensures SingleCodes(map[], outcome, k) == map[]
    ensures forall m :: SingleCodes(m, outcome, k) == m
  {
    if k > 0 {
      ReachedNone(outcome, k - 1);
    }
  }

  // ---------------------------------------------------------------------
  // Concurrent path: the virtual users of `runConcurrent`

  /** A slot whose request came back with a response: the user goes on. */
  predicate Continues(s: Step)
  {
    s.Made? && s.outcome.Response?
  }

  /** What a user sends on the error channel when it stops early. */
  function StopFailure(s: Step): Failure
    requires !Continues(s)
  {
    match s
    case CtxDone => Cancelled
    case Made(o) => Transport(o.msg)
  }

  /** The results user `u` sends within its first `n` slots, and the error
      it sends if it stops early: it stops at the first slot where the
      context is done or the request fails in transport. */
  function UserRun(step: (nat, nat) -> Step, u: nat, n: nat): (r: (seq<ValidationResult>, Option<Failure>))
    ensures |r.0| <= n
    ensures forall j :: 0 <= j < |r.0| ==> Continues(step(u, j)) && r.0[j] == step(u, j).outcome.result
    ensures r.1.None? ==> |r.0| == n
    ensures r.1.Some? ==> |r.0| < n && !Continues(step(u, |r.0|)) && r.1.value == StopFailure(step(u, |r.0|))
  {
    if n == 0 then ([], None)
    else
      var (sent, failure) := UserRun(step, u, n - 1);
      if failure.Some? then (sent, failure)
      else if Continues(step(u, n - 1)) then (sent + [step(u, n - 1).outcome.result], None)
      else (sent, Some(StopFailure(step(u, n - 1))))
  }

  /** Once a user has stopped, more slots change nothing. */
  lemma {:induction false} UserRunStopped(step: (nat, nat) -> Step, u: nat, k: nat, n: nat)
    requires k <= n && UserRun(step, u, k).1.Some?
    ensures UserRun(step, u, n) == UserRun(step, u, k)
    decreases n
  {
    if k < n {
      UserRunStopped(step, u, k, n - 1);
    }
  }

  /** The body of one user's goroutine: `requestsPerUser` slots, each
      checking the context, then making the request. */
  method UserLoop(step: (nat, nat) -> Step, u: nat, perUser: nat)
    returns (sent: seq<ValidationResult>, failure: Option<Failure>)
    ensures (sent, failure) == UserRun(step, u, perUser)
  {
    sent, failure := [], None;
    for j := 0 to perUser
      invariant UserRun(step, u, j) == (sent, None)
      invariant failure.None?
    {
      match step(u, j)
      case CtxDone =>
        failure := Some(Cancelled);
        UserRunStopped(step, u, j + 1, perUser);
        return;
      case Made(o) =>
        if o.TransportErr? {
          failure := Some(Transport(o.msg));
          UserRunStopped(step, u, j + 1, perUser);
          return;
        }
        assert UserRun(step, u, j + 1) == (sent + [o.result], None);
        sent := sent + [o.result];
    }
  }

  /** Everything the first `users` users put on the result channel, user
      after user; the channel may deliver it in any interleaving. */
  function AllSent(step: (nat, nat) -> Step, users: nat, perUser: nat): (s: seq<ValidationResult>)
    ensures |s| <= users * perUser
  {
    if users == 0 then []
    else AllSent(step, users - 1, perUser) + UserRun(step, users - 1, perUser).0
  }

  /** Everything the first `users` users put on the error channel: at most
      one error each. */
  function AllFailures(step: (nat, nat) -> Step, users: nat, perUser: nat): (s: seq<Failure>)
    ensures |s| <= users
    ensures forall i :: 0 <= i < |s| ==> s[i] == Cancelled || s[i].Transport?
  {
    if users == 0 then []
    else
      var f := UserRun(step, users - 1, perUser).1;
      AllFailures(step, users - 1, perUser) + (if f.Some? then [f.value] else [])
  }

  /** The number of requests `runConcurrent` gives each user. */
  function PerUser(cc: ConcurrentConfig): nat
    requires cc.Users > 0 && cc.Total >= 0
  {
    GoDivNonNegative(cc.Total, cc.Users);
    RequestsPerUser(cc)
  }

  /** The channels carry what the users sent, in some order. */
  predicate Delivered(e: Endpoint, step: (nat, nat) -> Step, arrivals: seq<ValidationResult>, failures: seq<Failure>)
    requires e.Concurrent.Users > 0 && e.Concurrent.Total >= 0
  {
    multiset(arrivals) == multiset(AllSent(step, e.Concurrent.Users, PerUser(e.Concurrent))) &&
    multiset(failures) == multiset(AllFailures(step, e.Concurrent.Users, PerUser(e.Concurrent)))
  }

  // ---------------------------------------------------------------------
  // Concurrent path: the fold over the arriving results

  /** The violation reasons of one result, as entries of `Errors`. */
  function Reasons(errs: seq<Violation>): (m: seq<Message>)
    ensures |m| == |errs| && forall i :: 0 <= i < |errs| ==> m[i] == Reason(errs[i])
  {
    seq(|errs|, i requires 0 <= i < |errs| => Reason(errs[i]))
  }

  /** The reasons of the invalid results, result after result. */
  function InvalidReasons(vs: seq<ValidationResult>): seq<Message>
  {
    if |vs| == 0 then []
    else InvalidReasons(vs[..|vs| - 1]) + (if vs[|vs| - 1].IsValid then [] else Reasons(vs[|vs| - 1].Errors))
  }

  function ValidCount(vs: seq<ValidationResult>): int
  {
    SumOf(vs, (v: ValidationResult) => if v.IsValid then 1 else 0)
  }

  function CodeCount(vs: seq<ValidationResult>, code: int): int
  {
    SumOf(vs, (v: ValidationResult) => if v.StatusCode == code then 1 else 0)
  }

  function LatencyTotal(vs: seq<ValidationResult>): int
  {
    SumOf(vs, (v: ValidationResult) => v.Duration)
  }

  /** The durations of the received results, in order. */
  function DurationsOf(vs: seq<ValidationResult>): seq<int>
  {
    MapSeq(vs, (v: ValidationResult) => v.Duration)
  }

  function CodesOf(vs: seq<ValidationResult>): set<int>
  {
    set i | 0 <= i < |vs| :: vs[i].StatusCode
  }

  /** The histogram after the results `vs`, one `StatusCodes[code]++` each. */
  function Tally(m: map<int, int>, vs: seq<ValidationResult>): map<int, int>
  {
    if |vs| == 0 then m else Inc(Tally(m, vs[..|vs| - 1]), vs[|vs| - 1].StatusCode)
  }

  /** Go's running minimum `if d < min || min == 0 { min = d }`, in which 0
      stands for "not yet set". */
  function MinUnset(init: int, ds: seq<int>): int
  {
    if |ds| == 0 then init
    else
      var m := MinUnset(init, ds[..|ds| - 1]);
      if ds[|ds| - 1] < m || m == 0 then ds[|ds| - 1] else m
  }

  /** The record after the results `vs` have arrived, in that order: valid
      results are successes, the others failures whose reasons are
      appended. */
  function Collected(base: TestResult, vs: seq<ValidationResult>): TestResult
  {
    base.(SuccessCount := base.SuccessCount + ValidCount(vs),
          FailureCount := base.FailureCount + (|vs| - ValidCount(vs)),
          StatusCodes := Tally(base.StatusCodes, vs),
          Errors := base.Errors + InvalidReasons(vs),
          MinLatency := MinUnset(base.MinLatency, DurationsOf(vs)),
          MaxLatency := MaxFrom(base.MaxLatency, DurationsOf(vs)))
  }

  /** Every result is counted once, as a success or as a failure. */
  lemma CollectedCounts(base: TestResult, vs: seq<ValidationResult>)
    ensures 0 <= ValidCount(vs) <= |vs|
    ensures Collected(base, vs).SuccessCount + Collected(base, vs).FailureCount
         == base.SuccessCount + base.FailureCount + |vs|
    ensures Collected(base, vs).FailureCount >= base.FailureCount
  {
    SumOfBetween(vs, (v: ValidationResult) => if v.IsValid then 1 else 0, 0, 1);
  }

  /** The histogram has a key for each status code seen, counting exactly
      the results with that code. */
  lemma {:induction false} TallyCounts(m: map<int, int>, vs: seq<ValidationResult>)
    ensures Tally(m, vs).Keys == m.Keys + CodesOf(vs)
    ensures forall k :: Get(Tally(m, vs), k) == Get(m, k) + CodeCount(vs, k)
  {
    if |vs| > 0 {
      var init, v := vs[..|vs| - 1], vs[|vs| - 1];
      TallyCounts(m, init);
      assert CodesOf(vs) == CodesOf(init) + {v.StatusCode} by {
        forall c | c in CodesOf(vs) ensures c in CodesOf(init) + {v.StatusCode} {
          var i :| 0 <= i < |vs| && vs[i].StatusCode == c;
          if i < |vs| - 1 { assert init[i] == vs[i]; }
        }
        forall c | c in CodesOf(init) ensures c in CodesOf(vs) {
          var i :| 0 <= i < |init| && init[i].StatusCode == c;
          assert vs[i] == init[i];
        }
      }
    }
  }

  lemma CodesPermutation(vs: seq<ValidationResult>, ws: seq<ValidationResult>)
    requires multiset(vs) == multiset(ws)
    ensures CodesOf(vs) == CodesOf(ws)
  {
    forall c | c in CodesOf(vs) ensures c in CodesOf(ws) {
      var i :| 0 <= i < |vs| && vs[i].StatusCode == c;
      assert vs[i] in multiset(ws);
    }
    forall c | c in CodesOf(ws) ensures c in CodesOf(vs) {
      var i :| 0 <= i < |ws| && ws[i].StatusCode == c;
      assert ws[i] in multiset(vs);
    }
  }

  /** The histogram does not depend on the order of arrival. */
  lemma TallyOrderIndependent(m: map<int, int>, vs: seq<ValidationResult>, ws: seq<ValidationResult>)
    requires multiset(vs) == multiset(ws)
    ensures Tally(m, vs) == Tally(m, ws)
  {
    TallyCounts(m, vs);
    TallyCounts(m, ws);
    CodesPermutation(vs, ws);
    forall k ensures CodeCount(vs, k) == CodeCount(ws, k) {
      SumOfPermutation(vs, ws, (v: ValidationResult) => if v.StatusCode == k then 1 else 0);
    }
    var t, t' := Tally(m, vs), Tally(m, ws);
    assert t.Keys == t'.Keys;
    forall k | k in t ensures t[k] == t'[k] {
      assert t[k] == Get(t, k) && t'[k] == Get(t', k);
    }
  }

  /** The arrival order does not matter for the counters, the histogram,
      the maximum and the latency sum. */
  lemma CollectedOrderIndependent(base: TestResult, vs: seq<ValidationResult>, ws: seq<ValidationResult>)
    requires multiset(vs) == multiset(ws)
    ensures Collected(base, vs).SuccessCount == Collected(base, ws).SuccessCount
    ensures Collected(base, vs).FailureCount == Collected(base, ws).FailureCount
    ensures Collected(base, vs).StatusCodes == Collected(base, ws).StatusCodes
    ensures Collected(base, vs).MaxLatency == Collected(base, ws).MaxLatency
    ensures LatencyTotal(vs) == LatencyTotal(ws)
  {
    assert |vs| == |multiset(vs)| == |ws|;
    SumOfPermutation(vs, ws, (v: ValidationResult) => if v.IsValid then 1 else 0);
    SumOfPermutation(vs, ws, (v: ValidationResult) => v.Duration);
    TallyOrderIndependent(base.StatusCodes, vs, ws);
    MaxDurationMonotone(base.MaxLatency, vs, ws);
    MaxDurationMonotone(base.MaxLatency, ws, vs);
  }

  /** A running maximum of durations only grows when results are added. */
  lemma MaxDurationMonotone(init: int, vs: seq<ValidationResult>, ws: seq<ValidationResult>)
    requires multiset(vs) <= multiset(ws)
    ensures MaxFrom(init, DurationsOf(vs)) <= MaxFrom(init, DurationsOf(ws))
  {
    var m := MaxFrom(init, DurationsOf(vs));
    if m != init {
      var i :| 0 <= i < |vs| && DurationsOf(vs)[i] == m;
      assert vs[i] in multiset(ws);
      var j :| 0 <= j < |ws| && ws[j] == vs[i];
      assert DurationsOf(ws)[j] == m;
    }
  }

  /** Because 0 stands for "unset", the minimum is the true minimum as long
      as every duration is positive. */
  lemma {:induction false} MinUnsetOfPositive(init: int, ds: seq<int>)
    requires init >= 0
    requires forall i :: 0 <= i < |ds| ==> ds[i] > 0
    ensures var m := MinUnset(init, ds);
            (|ds| == 0 ==> m == init) &&
            (|ds| > 0 ==>
               m > 0 && (forall i :: 0 <= i < |ds| ==> m <= ds[i]) &&
               (init > 0 ==> m <= init) && (m == init || m in ds))
  {
    if |ds| > 0 {
      var init' := ds[..|ds| - 1];
      MinUnsetOfPositive(init, init');
      assert forall i :: 0 <= i < |init'| ==> init'[i] == ds[i];
      var m := MinUnset(init, init');
      if m != init && |init'| > 0 {
        assert m in init';
      }
    }
  }

  /** A zero duration is taken for "unset", so the minimum depends on the
      order of arrival. */
  lemma MinUnsetOrderMatters()
    ensures MinUnset(0, [0, 5]) == 5
    ensures MinUnset(0, [5, 0]) == 0
  {
    assert [0, 5][..1] == [0] && [5, 0][..1] == [5];
    assert [0][..0] == [] && [5][..0] == [];
  }

  /** Go's `fmt.Errorf("%v; %v", lastErr, err)` chain over the error
      channel: the first error, then each later one joined on the right. */
  function JoinAll(fs: seq<Failure>): Option<Failure>
  {
    if |fs| == 0 then None
    else match JoinAll(fs[..|fs| - 1])
      case None => Some(fs[|fs| - 1])
      case Some(l) => Some(Joined(l, fs[|fs| - 1]))
  }

  /** The errors a joined error is made of, left to right. */
  function Parts(f: Failure): seq<Failure>
  {
    match f
    case Joined(first, next) => Parts(first) + Parts(next)
    case _ => [f]
  }

  /** No error is lost or reordered by the joining, and there is an error
      exactly when some user sent one. */
  lemma {:induction false} JoinAllKeepsEvery(fs: seq<Failure>)
    requires forall i :: 0 <= i < |fs| ==> !fs[i].Joined?
    ensures JoinAll(fs).None? <==> |fs| == 0
    ensures JoinAll(fs).Some? ==> Parts(JoinAll(fs).value) == fs
  {
    if |fs| > 0 {
      var init, last := fs[..|fs| - 1], fs[|fs| - 1];
      assert forall i :: 0 <= i < |init| ==> init[i] == fs[i];
      JoinAllKeepsEvery(init);
      assert Parts(last) == [last];
      assert fs == init + [last];
      if |init| == 0 {
        assert JoinAll(fs) == Some(last);
      } else {
        var l := JoinAll(init).value;
        assert JoinAll(fs) == Some(Joined(l, last));
        assert Parts(Joined(l, last)) == init + [last];
      }
    }
  }

  /** The average as `runConcurrent` computes it: `None` stands for the run-time
      panic of an integer division by zero. */
  function ConcurrentAverageAsWritten(r: TestResult, total: int): (a: Option<int>)
    ensures a.None? <==> r.TotalRequests > 0 && r.SuccessCount + r.FailureCount == 0
  {
    if r.TotalRequests > 0 then
      (if r.SuccessCount + r.FailureCount == 0 then None else Some(GoDiv(total, r.SuccessCount + r.FailureCount)))
    else Some(r.AverageLatency)
  }

  /** The average with the division guarded by the number of results. */
  function ConcurrentAverage(r: TestResult, total: int): (a: int)
    ensures ConcurrentAverageAsWritten(r, total).Some? ==> ConcurrentAverageAsWritten(r, total) == Some(a)
    ensures r.TotalRequests > 0 && r.SuccessCount + r.FailureCount == 0 ==> a == r.AverageLatency
  {
    if r.TotalRequests > 0 && r.SuccessCount + r.FailureCount != 0 then GoDiv(total, r.SuccessCount + r.FailureCount)
    else r.AverageLatency
  }

  /** The record as `runConcurrent` sets it up before the users start. */
  function ConcurrentBase(e: Endpoint, result: TestResult): TestResult
  {
    result.(IsConcurrent := true, ConcurrentUsers := e.Concurrent.Users, TotalRequests := e.Concurrent.Total)
  }

  /** The record and the error `runConcurrent` ends with, for the given
      arrival orders of the two channels. */
  function ConcurrentResult(e: Endpoint, result: TestResult, arrivals: seq<ValidationResult>, failures: seq<Failure>)
    : (TestResult, Option<Failure>)
  {
    var c := Collected(ConcurrentBase(e, result), arrivals);
    (c.(AverageLatency := ConcurrentAverage(c, LatencyTotal(arrivals))), JoinAll(failures))
  }

  /** What the loop over `resultChan` updates, one running value per field;
      `totalLatency` is a local of `runConcurrent`. */
  datatype Tallies = Tallies(codes: map<int, int>, successes: int, failures: int, errors: seq<Message>,
                             minLatency: int, maxLatency: int, totalLatency: int)

  /** The running values after one more result has been received. */
  function Absorb(t: Tallies, v: ValidationResult): Tallies
  {
    Tallies(Inc(t.codes, v.StatusCode),
            t.successes + (if v.IsValid then 1 else 0),
            t.failures + (if v.IsValid then 0 else 1),
            t.errors + (if v.IsValid then [] else Reasons(v.Errors)),
            if v.Duration < t.minLatency || t.minLatency == 0 then v.Duration else t.minLatency,
            if v.Duration > t.maxLatency then v.Duration else t.maxLatency,
            t.totalLatency + v.Duration)
  }

  /** The running values after the results `vs`, received in that order. */
  function AbsorbAll(t: Tallies, vs: seq<ValidationResult>): Tallies
  {
    if |vs| == 0 then t else Absorb(AbsorbAll(t, vs[..|vs| - 1]), vs[|vs| - 1])
  }

  lemma {:induction false} AbsorbAllCounts(t: Tallies, vs: seq<ValidationResult>)
    ensures AbsorbAll(t, vs).codes == Tally(t.codes, vs)
    ensures AbsorbAll(t, vs).successes == t.successes + ValidCount(vs)
    ensures AbsorbAll(t, vs).failures == t.failures + (|vs| - ValidCount(vs))
    ensures AbsorbAll(t, vs).totalLatency == t.totalLatency + LatencyTotal(vs)
  {
    if |vs| > 0 {
      AbsorbAllCounts(t, vs[..|vs| - 1]);
    }
  }

  lemma {:induction false} AbsorbAllErrors(t: Tallies, vs: seq<ValidationResult>)
    ensures AbsorbAll(t, vs).errors == t.errors + InvalidReasons(vs)
  {
    if |vs| > 0 {
      AbsorbAllErrors(t, vs[..|vs| - 1]);
    }
  }

  lemma {:induction false} AbsorbAllLatencies(t: Tallies, vs: seq<ValidationResult>)
    ensures AbsorbAll(t, vs).minLatency == MinUnset(t.minLatency, DurationsOf(vs))
    ensures AbsorbAll(t, vs).maxLatency == MaxFrom(t.maxLatency, DurationsOf(vs))
  {
    if |vs| > 0 {
      var p := vs[..|vs| - 1];
      AbsorbAllLatencies(t, p);
      assert DurationsOf(vs)[..|vs| - 1] == DurationsOf(p);
    }
  }

  /** Result by result the loop computes the closed forms used by
      `Collected`. */
  lemma AbsorbAllClosed(t: Tallies, vs: seq<ValidationResult>)
    ensures AbsorbAll(t, vs) == Tallies(Tally(t.codes, vs), t.successes + ValidCount(vs),
                                        t.failures + (|vs| - ValidCount(vs)), t.errors + InvalidReasons(vs),
                                        MinUnset(t.minLatency, DurationsOf(vs)), MaxFrom(t.maxLatency, DurationsOf(vs)),
                                        t.totalLatency + LatencyTotal(vs))
  {
    AbsorbAllCounts(t, vs);
    AbsorbAllErrors(t, vs);
    AbsorbAllLatencies(t, vs);
  }

  /** The body of `runConcurrent`'s loop over `resultChan`. */
  method Receive(t: Tallies, resp: ValidationResult) returns (t': Tallies)
    ensures t' == Absorb(t, resp)
  {
    var successes, failuresSeen, errors := t.successes, t.failures, t.errors;
    if resp.IsValid {
      successes := successes + 1;
    } else {
      failuresSeen := failuresSeen + 1;
      errors := errors + Reasons(resp.Errors);
    }
    var minLatency, maxLatency := t.minLatency, t.maxLatency;
    if resp.Duration < minLatency || minLatency == 0 {
      minLatency := resp.Duration;
    }
    if resp.Duration > maxLatency {
      maxLatency := resp.Duration;
    }
    t' := Tallies(Inc(t.codes, resp.StatusCode), successes, failuresSeen, errors,
                  minLatency, maxLatency, t.totalLatency + resp.Duration);
  }

  /** `runConcurrent`'s loop `for resp := range resultChan`. */
  method ReceiveResults(t0: Tallies, arrivals: seq<ValidationResult>) returns (t: Tallies)
    ensures t == AbsorbAll(t0, arrivals)
  {
    t := t0;
    for i := 0 to |arrivals|
      invariant t == AbsorbAll(t0, arrivals[..i])
    {
      assert arrivals[..i + 1][..i] == arrivals[..i];
      t := Receive(t, arrivals[i]);
    }
    assert arrivals[..|arrivals|] == arrivals;
  }

  /** The fold over the results, applied to the endpoint's record. */
  method CollectResults(base: TestResult, arrivals: seq<ValidationResult>)
    returns (res: TestResult, totalLatency: int)
    ensures res == Collected(base, arrivals)
    ensures totalLatency == LatencyTotal(arrivals)
  {
    var t0 := Tallies(base.StatusCodes, base.SuccessCount, base.FailureCount, base.Errors,
                      base.MinLatency, base.MaxLatency, 0);
    var t := ReceiveResults(t0, arrivals);
    AbsorbAllClosed(t0, arrivals);
    res := base.(StatusCodes := t.codes, SuccessCount := t.successes, FailureCount := t.failures,
                 Errors := t.errors, MinLatency := t.minLatency, MaxLatency := t.maxLatency);
    totalLatency := t.totalLatency;
  }

  /** `runConcurrent`'s loop `for err := range errChan`. */
  method JoinErrors(failures: seq<Failure>) returns (err: Option<Failure>)
    ensures err == JoinAll(failures)
  {
    err := None;
    for i := 0 to |failures|
      invariant err == JoinAll(failures[..i])
    {
      assert failures[..i + 1][..i] == failures[..i];
      if err.None? {
        err := Some(failures[i]);
      } else {
        err := Some(Joined(err.value, failures[i]));
      }
    }
    assert failures[..|failures|] == failures;
  }

  /** `runConcurrent` from the share of requests per user on, with the users' output given as the
      order in which the two channels deliver it. */
  method RunConcurrent(e: Endpoint, result: TestResult, step: (nat, nat) -> Step,
                       arrivals: seq<ValidationResult>, failures: seq<Failure>)
    returns (res: TestResult, err: Option<Failure>)
    requires e.Concurrent.Users > 0 && e.Concurrent.Total >= 0
    requires Delivered(e, step, arrivals, failures)
    ensures res == ConcurrentResult(e, result, arrivals, failures).0
    ensures err == ConcurrentResult(e, result, arrivals, failures).1
  {
    res := result.(IsConcurrent := true, ConcurrentUsers := e.Concurrent.Users,
                   TotalRequests := e.Concurrent.Total);
    assert res == ConcurrentBase(e, result);
    var totalLatency;
    res, totalLatency := CollectResults(res, arrivals);
    ghost var collected := res;
    err := JoinErrors(failures);
    if res.TotalRequests > 0 && res.SuccessCount + res.FailureCount != 0 {
      res := res.(AverageLatency := GoDiv(totalLatency, res.SuccessCount + res.FailureCount));
    }
    assert res == collected.(AverageLatency := ConcurrentAverage(collected, totalLatency));
  }

  // ---------------------------------------------------------------------
  // Concurrent path: what the fold promises

  /** Reasons are appended in arrival order: those of earlier results come
      first. */
  lemma {:induction false} InvalidReasonsConcat(a: seq<ValidationResult>, b: seq<ValidationResult>)
    ensures InvalidReasons(a + b) == InvalidReasons(a) + InvalidReasons(b)
  {
    if |b| == 0 {
      assert a + b == a;
    } else {
      var init, last := b[..|b| - 1], b[|b| - 1];
      assert (a + b)[..|a + b| - 1] == a + init;
      assert (a + b)[|a + b| - 1] == last;
      InvalidReasonsConcat(a, init);
      var tail := if last.IsValid then [] else Reasons(last.Errors);
      calc {
        InvalidReasons(a + b);
        InvalidReasons(a + init) + tail;
        InvalidReasons(a) + InvalidReasons(init) + tail;
        InvalidReasons(a) + (InvalidReasons(init) + tail);
      }
    }
  }

  /** Valid results add no entry to `Errors`. */
  lemma {:induction false} InvalidReasonsAllValid(vs: seq<ValidationResult>)
    requires forall i :: 0 <= i < |vs| ==> vs[i].IsValid
    ensures InvalidReasons(vs) == []
  {
    if |vs| > 0 {
      InvalidReasonsAllValid(vs[..|vs| - 1]);
    }
  }

  /** Users that never stop early send all their slots. */
  lemma {:induction false} AllSentComplete(step: (nat, nat) -> Step, users: nat, perUser: nat)
    requires forall u, j :: Continues(step(u, j))
    ensures |AllSent(step, users, perUser)| == users * perUser
    ensures AllFailures(step, users, perUser) == []
  {
    if users > 0 {
      AllSentComplete(step, users - 1, perUser);
    }
  }

  /** Users whose first slot fails send no result at all. */
  lemma {:induction false} AllSentEmpty(step: (nat, nat) -> Step, users: nat, perUser: nat)
    requires perUser == 0 || forall u :: !Continues(step(u, 0))
    ensures AllSent(step, users, perUser) == []
  {
    if users > 0 {
      AllSentEmpty(step, users - 1, perUser);
      assert perUser == 0 || !Continues(step(users - 1, 0));
    }
  }

  /** No more results arrive than users times the per-user share, which
      is within the total, and every user sends at most one error. */
  lemma ArrivalBounds(e: Endpoint, step: (nat, nat) -> Step,
                      arrivals: seq<ValidationResult>, failures: seq<Failure>)
    requires e.Concurrent.Users > 0 && e.Concurrent.Total >= 0
    requires Delivered(e, step, arrivals, failures)
    ensures |arrivals| <= PerUser(e.Concurrent) * e.Concurrent.Users <= e.Concurrent.Total
    ensures |failures| <= e.Concurrent.Users
    ensures forall i :: 0 <= i < |failures| ==> failures[i] == Cancelled || failures[i].Transport?
  {
    var sent := AllSent(step, e.Concurrent.Users, PerUser(e.Concurrent));
    var lost := AllFailures(step, e.Concurrent.Users, PerUser(e.Concurrent));
    assert |arrivals| == |multiset(arrivals)| == |multiset(sent)| == |sent|;
    assert |failures| == |multiset(failures)| == |multiset(lost)| == |lost|;
    RequestsPerUserShare(e.Concurrent);
    forall i | 0 <= i < |failures| ensures failures[i] == Cancelled || failures[i].Transport? {
      assert failures[i] in multiset(lost);
    }
  }

  /** `runConcurrent` in summary: `TotalRequests` is the configured total,
      not the number of results; every result received counts once as a
      success or a failure; no more results arrive than users times the
      per-user share, which is within the total; every user sends at most
      one error, and the returned error joins all of them, none lost. */
  lemma ConcurrentSummary(e: Endpoint, result: TestResult, step: (nat, nat) -> Step,
                          arrivals: seq<ValidationResult>, failures: seq<Failure>)
    requires e.Concurrent.Users > 0 && e.Concurrent.Total >= 0
    requires Delivered(e, step, arrivals, failures)
    ensures var r := ConcurrentResult(e, result, arrivals, failures).0;
            r.IsConcurrent && r.ConcurrentUsers == e.Concurrent.Users &&
            r.TotalRequests == e.Concurrent.Total &&
            r.SuccessCount + r.FailureCount == result.SuccessCount + result.FailureCount + |arrivals|
    ensures |arrivals| <= PerUser(e.Concurrent) * e.Concurrent.Users <= e.Concurrent.Total
    ensures |failures| <= e.Concurrent.Users
    ensures var err := ConcurrentResult(e, result, arrivals, failures).1;
            (err.None? <==> |failures| == 0) &&
            (err.Some? ==> Parts(err.value) == failures)
  {
    CollectedCounts(ConcurrentBase(e, result), arrivals);
    ArrivalBounds(e, step, arrivals, failures);
    JoinAllKeepsEvery(failures);
  }

  /** The counters, the histogram, the maximum and the average of
      `runConcurrent` do not depend on the order in which results arrive. */
  lemma ConcurrentOrderIndependent(e: Endpoint, result: TestResult,
                                   arrivals: seq<ValidationResult>, arrivals': seq<ValidationResult>,
                                   failures: seq<Failure>)
    requires multiset(arrivals) == multiset(arrivals')
    ensures var r, r' := ConcurrentResult(e, result, arrivals, failures).0,
                         ConcurrentResult(e, result, arrivals', failures).0;
            r.SuccessCount == r'.SuccessCount && r.FailureCount == r'.FailureCount &&
            r.StatusCodes == r'.StatusCodes && r.MaxLatency == r'.MaxLatency &&
            r.AverageLatency == r'.AverageLatency
  {
    CollectedOrderIndependent(ConcurrentBase(e, result), arrivals, arrivals');
  }

  /** Starting from a fresh record, the guarded average lies within the
      bounds of the durations received. */
  lemma ConcurrentAverageBetween(e: Endpoint, result: TestResult,
                                 arrivals: seq<ValidationResult>, failures: seq<Failure>, lo: int, hi: int)
    requires result.SuccessCount == 0 && result.FailureCount == 0
    requires e.Concurrent.Total > 0 && |arrivals| > 0
    requires forall i :: 0 <= i < |arrivals| ==> lo <= arrivals[i].Duration <= hi
    ensures lo <= ConcurrentResult(e, result, arrivals, failures).0.AverageLatency <= hi
  {
    var c := Collected(ConcurrentBase(e, result), arrivals);
    CollectedCounts(ConcurrentBase(e, result), arrivals);
    SumOfBetween(arrivals, (v: ValidationResult) => v.Duration, lo, hi);
    GoDivBetween(LatencyTotal(arrivals), |arrivals|, lo, hi);
  }

  /** A fresh record's `MinLatency` ends as the smallest duration received
      when every duration is positive. */
  lemma ConcurrentMinLatency(e: Endpoint, result: TestResult,
                             arrivals: seq<ValidationResult>, failures: seq<Failure>)
    requires result.MinLatency == 0 && |arrivals| > 0
    requires forall i :: 0 <= i < |arrivals| ==> arrivals[i].Duration > 0
    ensures var m := ConcurrentResult(e, result, arrivals, failures).0.MinLatency;
            (exists i :: 0 <= i < |arrivals| && m == arrivals[i].Duration) &&
            forall i :: 0 <= i < |arrivals| ==> m <= arrivals[i].Duration
  {
    var ds := DurationsOf(arrivals);
    MinUnsetOfPositive(0, ds);
    var m := MinUnset(0, ds);
    var i :| 0 <= i < |ds| && ds[i] == m;
    assert m == arrivals[i].Duration;
  }

  /** Results built by the validator all carry status code 0, so the
      histogram of a fresh record ends with the single key 0. */
  lemma ZeroCodesHistogram(vs: seq<ValidationResult>)
    requires |vs| > 0 && forall i :: 0 <= i < |vs| ==> vs[i].StatusCode == 0
    ensures Tally(map[], vs) == map[0 := |vs|]
  {
    TallyCounts(map[], vs);
    assert CodesOf(vs) == {0} by {
      assert vs[0].StatusCode in CodesOf(vs);
    }
    SumOfBetween(vs, (v: ValidationResult) => if v.StatusCode == 0 then 1 else 0, 1, 1);
    assert Get(Tally(map[], vs), 0) == |vs|;
  }

  /** The validated responses among the first `k` attempts are all of
      the validator's making when every response is. */
  lemma {:induction false} ReachedResponsesValidated(outcome: nat -> Outcome, k: nat)
    requires forall i :: outcome(i).Response? ==> Validated(outcome(i).result)
    ensures forall j :: 0 <= j < |ReachedResponses(outcome, k)| ==> Validated(ReachedResponses(outcome, k)[j])
  {
    if k > 0 {
      ReachedResponsesValidated(outcome, k - 1);
    }
  }

  /** On the single path, with responses made by the validator, the
      record's histogram has the single key 0, counting every attempt that
      reached the server. */
  lemma SingleCodesZero(e: Endpoint, outcome: nat -> Outcome, elapsed: nat -> int)
    requires forall i :: outcome(i).Response? ==> Validated(outcome(i).result)
    ensures var n := Reached(outcome, Attempts(e, outcome));
            SingleResult(e, Fresh(e), outcome, elapsed).0.StatusCodes == if n == 0 then map[] else map[0 := n]
  {
    var k := Attempts(e, outcome);
    SingleCodesTally(map[], outcome, k);
    ReachedResponsesCount(outcome, k);
    ReachedResponsesValidated(outcome, k);
    if Reached(outcome, k) > 0 {
      ZeroCodesHistogram(ReachedResponses(outcome, k));
    }
  }

  /** On the concurrent path, with responses made by the validator, the
      record's histogram has the single key 0, counting every arrival. */
  lemma ConcurrentCodesZero(e: Endpoint, step: (nat, nat) -> Step,
                            arrivals: seq<ValidationResult>, failures: seq<Failure>)
    requires e.Concurrent.Users > 0 && e.Concurrent.Total >= 0
    requires Delivered(e, step, arrivals, failures)
    requires forall u, j :: Continues(step(u, j)) ==> Validated(step(u, j).outcome.result)
    ensures ConcurrentResult(e, Fresh(e), arrivals, failures).0.StatusCodes
            == if |arrivals| == 0 then map[] else map[0 := |arrivals|]
  {
    var sent := AllSent(step, e.Concurrent.Users, PerUser(e.Concurrent));
    forall i | 0 <= i < |arrivals| ensures arrivals[i].StatusCode == 0 {
      assert arrivals[i] in multiset(sent);
      var k :| 0 <= k < |sent| && sent[k] == arrivals[i];
      AllSentFromSteps(step, e.Concurrent.Users, PerUser(e.Concurrent), k);
    }
    if |arrivals| > 0 {
      ZeroCodesHistogram(arrivals);
    }
  }

  /** Every user completes its share and every response validates: all
      `PerUser * Users` results count as successes and no error is
      returned. */
  lemma AllValidConcurrent(e: Endpoint, result: TestResult, step: (nat, nat) -> Step,
                           arrivals: seq<ValidationResult>, failures: seq<Failure>)
    requires e.Concurrent.Users > 0 && e.Concurrent.Total >= 0
    requires result.SuccessCount == 0 && result.FailureCount == 0
    requires forall u, j :: Continues(step(u, j)) && step(u, j).outcome.result.IsValid
    requires Delivered(e, step, arrivals, failures)
    ensures var (r, err) := ConcurrentResult(e, result, arrivals, failures);
            r.TotalRequests == e.Concurrent.Total &&
            r.SuccessCount == PerUser(e.Concurrent) * e.Concurrent.Users && r.FailureCount == 0 &&
            r.Errors == result.Errors && err == None
  {
    var users, perUser := e.Concurrent.Users, PerUser(e.Concurrent);
    AllSentComplete(step, users, perUser);
    var sent := AllSent(step, users, perUser);
    assert |arrivals| == |multiset(arrivals)| == |multiset(sent)| == |sent|;
    assert |failures| == |multiset(failures)| == 0;
    ArrivalsValid(step, users, perUser, arrivals);
    SumOfBetween(arrivals, (v: ValidationResult) => if v.IsValid then 1 else 0, 1, 1);
    InvalidReasonsAllValid(arrivals);
  }

  /** Five users sharing fifty requests, every response valid: ten
      requests each, fifty successes. */
  lemma FiveUsersScenario(e: Endpoint, result: TestResult, step: (nat, nat) -> Step,
                          arrivals: seq<ValidationResult>, failures: seq<Failure>)
    requires e.Concurrent.Users == 5 && e.Concurrent.Total == 50
    requires result.SuccessCount == 0 && result.FailureCount == 0 && result.Errors == []
    requires forall u, j :: Continues(step(u, j)) && step(u, j).outcome.result.IsValid
    requires Delivered(e, step, arrivals, failures)
    ensures PerUser(e.Concurrent) == 10
    ensures var (r, err) := ConcurrentResult(e, result, arrivals, failures);
            r.TotalRequests == 50 && r.SuccessCount == 50 && r.FailureCount == 0 &&
            r.Errors == [] && err == None
  {
    AllValidConcurrent(e, result, step, arrivals, failures);
  }

  /** When every response validates, so does everything that arrives. */
  lemma ArrivalsValid(step: (nat, nat) -> Step, users: nat, perUser: nat, arrivals: seq<ValidationResult>)
    requires forall u, j :: Continues(step(u, j)) && step(u, j).outcome.result.IsValid
    requires multiset(arrivals) == multiset(AllSent(step, users, perUser))
    ensures forall i :: 0 <= i < |arrivals| ==> arrivals[i].IsValid
  {
    var sent := AllSent(step, users, perUser);
    forall i | 0 <= i < |arrivals| ensures arrivals[i].IsValid {
      assert arrivals[i] in multiset(sent);
      var k :| 0 <= k < |sent| && sent[k] == arrivals[i];
      AllSentFromSteps(step, users, perUser, k);
    }
  }

  /** Every result on the channel is one a user received at some slot. */
  lemma {:induction false} AllSentFromSteps(step: (nat, nat) -> Step, users: nat, perUser: nat, k: nat)
    requires k < |AllSent(step, users, perUser)|
    ensures exists u, j :: 0 <= u < users && 0 <= j < perUser && Continues(step(u, j)) &&
                           AllSent(step, users, perUser)[k] == step(u, j).outcome.result
  {
    var prev := AllSent(step, users - 1, perUser);
    var own := UserRun(step, users - 1, perUser).0;
    if k < |prev| {
      AllSentFromSteps(step, users - 1, perUser, k);
    } else {
      var j := k - |prev|;
      assert AllSent(step, users, perUser)[k] == own[j];
    }
  }

  /** The average of `runConcurrent` divides by the number of results received,
      which is 0 whenever no user gets a response before stopping, while
      the guard only looks at the configured total. */
  lemma AverageDividesByZero(e: Endpoint, result: TestResult, step: (nat, nat) -> Step,
                             arrivals: seq<ValidationResult>, failures: seq<Failure>)
    requires e.Concurrent.Users > 0 && e.Concurrent.Total > 0
    requires result.SuccessCount == 0 && result.FailureCount == 0
    requires Delivered(e, step, arrivals, failures)
    requires PerUser(e.Concurrent) == 0 || forall u :: !Continues(step(u, 0))
    ensures arrivals == []
    ensures ConcurrentAverageAsWritten(Collected(ConcurrentBase(e, result), arrivals), LatencyTotal(arrivals)) == None
  {
    AllSentEmpty(step, e.Concurrent.Users, PerUser(e.Concurrent));
    assert |arrivals| == |multiset(arrivals)| == 0;
  }

  /** A configuration that passes validation, three users sharing two
      requests, still reaches that division: each user gets no request. */
  lemma ValidatedConfigDividesByZero(e: Endpoint, result: TestResult, step: (nat, nat) -> Step,
                                     arrivals: seq<ValidationResult>, failures: seq<Failure>)
    requires e.URL != "" && e.Method != ""
    requires e.Concurrent.Users == 3 && e.Concurrent.Total == 2
    requires result.SuccessCount == 0 && result.FailureCount == 0
    requires Delivered(e, step, arrivals, failures)
    ensures ConfigModule.Validate(Config([e])).None?
    ensures ConcurrentAverageAsWritten(Collected(ConcurrentBase(e, result), arrivals), LatencyTotal(arrivals)) == None
  {
    FewerRequestsThanUsersAccepted(e);
    AverageDividesByZero(e, result, step, arrivals, failures);
  }

  // ---------------------------------------------------------------------
  // `Run`: the loop over the endpoints

  /** The record `Run` starts each endpoint with. */
  function Fresh(e: Endpoint): (r: TestResult)
    ensures r.EndpointName == e.Name && r.Method == e.Method && r.URL == e.URL
    ensures r.TotalRequests == 0 && r.SuccessCount == 0 && r.FailureCount == 0
    ensures r.StatusCodes == map[] && r.Errors == [] && r.RequestDetails == [] && !r.IsConcurrent
  {
    TestResult(e.Name, e.Method, e.URL, 0, 0, 0, 0, 0, 0, NoPercentiles, map[], [], false, 0, [], 0,
               SizeStats(0, 0, 0), 0)
  }

  /** A non-nil error is appended, once, to the record's errors. */
  function WithError(r: TestResult, err: Option<Failure>): TestResult
  {
    match err
    case None => r
    case Some(f) => r.(Errors := r.Errors + [Error(f)])
  }

  /** The record one endpoint produces before it is handed to the
      reporter: the concurrent path when `Users > 0`, else the single path. */
  function EndpointRecord(e: Endpoint, outcome: nat -> Outcome, elapsed: nat -> int,
                          arrivals: seq<ValidationResult>, failures: seq<Failure>): TestResult
  {
    if e.Concurrent.Users > 0 then
      var (r, err) := ConcurrentResult(e, Fresh(e), arrivals, failures); WithError(r, err)
    else
      var (r, err) := SingleResult(e, Fresh(e), outcome, elapsed); WithError(r, err)
  }

  /** `f` applied to the first `n` entries of `xs` and their positions. */
  function MapUpTo<A, B>(xs: seq<A>, f: (A, nat) -> B, n: nat): (ys: seq<B>)
    requires n <= |xs|
    ensures |ys| == n
  {
    if n == 0 then [] else MapUpTo(xs, f, n - 1) + [f(xs[n - 1], n - 1)]
  }

  lemma {:induction false} MapUpToAt<A, B>(xs: seq<A>, f: (A, nat) -> B, n: nat, k: nat)
    requires k < n <= |xs|
    ensures MapUpTo(xs, f, n)[k] == f(xs[k], k)
  {
    if k < n - 1 {
      MapUpToAt(xs, f, n - 1, k);
    }
  }

  /** The record endpoint `e`, at position `k`, leaves with the reporter. */
  function Store(outcome: nat -> nat -> Outcome, elapsed: nat -> nat -> int,
                 arrivals: nat -> seq<ValidationResult>, failures: nat -> seq<Failure>): (Endpoint, nat) -> TestResult
  {
    (e: Endpoint, k: nat) => Finish(EndpointRecord(e, outcome(k), elapsed(k), arrivals(k), failures(k)))
  }

  /** The records of the first `n` endpoints. */
  function RecordsUpTo(eps: seq<Endpoint>, outcome: nat -> nat -> Outcome, elapsed: nat -> nat -> int,
                       arrivals: nat -> seq<ValidationResult>, failures: nat -> seq<Failure>, n: nat)
    : (rs: seq<TestResult>)
    requires n <= |eps|
    ensures |rs| == n
  {
    MapUpTo(eps, Store(outcome, elapsed, arrivals, failures), n)
  }

  /** Entry `k` is endpoint `k`'s record. */
  lemma RecordsUpToAt(eps: seq<Endpoint>, outcome: nat -> nat -> Outcome, elapsed: nat -> nat -> int,
                      arrivals: nat -> seq<ValidationResult>, failures: nat -> seq<Failure>,
                      n: nat, k: nat)
    requires k < n <= |eps|
    ensures RecordsUpTo(eps, outcome, elapsed, arrivals, failures, n)[k]
         == Finish(EndpointRecord(eps[k], outcome(k), elapsed(k), arrivals(k), failures(k)))
  {
    MapUpToAt(eps, Store(outcome, elapsed, arrivals, failures), n, k);
  }

  /** One more endpoint adds its record at the end. */
  lemma RecordsUpToNext(eps: seq<Endpoint>, outcome: nat -> nat -> Outcome, elapsed: nat -> nat -> int,
                        arrivals: nat -> seq<ValidationResult>, failures: nat -> seq<Failure>, k: nat)
    requires k < |eps|
    ensures RecordsUpTo(eps, outcome, elapsed, arrivals, failures, k + 1)
         == RecordsUpTo(eps, outcome, elapsed, arrivals, failures, k)
            + [Finish(EndpointRecord(eps[k], outcome(k), elapsed(k), arrivals(k), failures(k)))]
  {
  }

  /** The records a run stores. */
  function Records(eps: seq<Endpoint>, outcome: nat -> nat -> Outcome, elapsed: nat -> nat -> int,
                   arrivals: nat -> seq<ValidationResult>, failures: nat -> seq<Failure>): seq<TestResult>
  {
    RecordsUpTo(eps, outcome, elapsed, arrivals, failures, |eps|)
  }

  /** One record per endpoint, in configuration order, each naming its
      endpoint; an error does not stop the loop. */
  lemma OneRecordPerEndpoint(eps: seq<Endpoint>, outcome: nat -> nat -> Outcome, elapsed: nat -> nat -> int,
                             arrivals: nat -> seq<ValidationResult>, failures: nat -> seq<Failure>)
    ensures var rs := Records(eps, outcome, elapsed, arrivals, failures);
            |rs| == |eps| &&
            forall k :: 0 <= k < |eps| ==>
              rs[k].EndpointName == eps[k].Name && rs[k].Method == eps[k].Method && rs[k].URL == eps[k].URL &&
              (rs[k].IsConcurrent <==> eps[k].Concurrent.Users > 0)
  {
    var rs := Records(eps, outcome, elapsed, arrivals, failures);
    forall k | 0 <= k < |eps|
      ensures rs[k].EndpointName == eps[k].Name && rs[k].Method == eps[k].Method && rs[k].URL == eps[k].URL &&
              (rs[k].IsConcurrent <==> eps[k].Concurrent.Users > 0)
    {
      RecordsUpToAt(eps, outcome, elapsed, arrivals, failures, |eps|, k);
      RecordNamesEndpoint(eps[k], outcome(k), elapsed(k), arrivals(k), failures(k));
    }
  }

  /** A stored record names its endpoint and says which path produced it. */
  lemma RecordNamesEndpoint(e: Endpoint, outcome: nat -> Outcome, elapsed: nat -> int,
                            arrivals: seq<ValidationResult>, failures: seq<Failure>)
    ensures var r := Finish(EndpointRecord(e, outcome, elapsed, arrivals, failures));
            r.EndpointName == e.Name && r.Method == e.Method && r.URL == e.URL &&
            (r.IsConcurrent <==> e.Concurrent.Users > 0)
  {
    FinishKeepsRecord(EndpointRecord(e, outcome, elapsed, arrivals, failures));
  }

  /** The errors a record ends with: on the single path only the error
      `runSingle` returned, if any; on the concurrent path the reasons of
      the invalid results in arrival order, then the joined error, if any. */
  lemma RecordErrors(e: Endpoint, outcome: nat -> Outcome, elapsed: nat -> int,
                     arrivals: seq<ValidationResult>, failures: seq<Failure>)
    ensures var r := Finish(EndpointRecord(e, outcome, elapsed, arrivals, failures));
            (e.Concurrent.Users <= 0 ==>
               r.Errors == match SingleResult(e, Fresh(e), outcome, elapsed).1
                           case None => []
                           case Some(f) => [Error(f)]) &&
            (e.Concurrent.Users > 0 ==>
               r.Errors == InvalidReasons(arrivals) + match JoinAll(failures)
                                                      case None => []
                                                      case Some(f) => [Error(f)])
  {
    FinishKeepsRecord(EndpointRecord(e, outcome, elapsed, arrivals, failures));
  }

  /** A run of one single-path endpoint with a negative user count, whose
      every attempt fails in transport, stores no request at all, and the
      report's average then divides by zero. A negative `Users` passes
      `Validate`, and the log line of `Run` divides by it without a panic,
      so the report is reached. */
  lemma UnreachableRunReportDividesByZero(e: Endpoint, outcome: nat -> nat -> Outcome, elapsed: nat -> nat -> int,
                                          arrivals: nat -> seq<ValidationResult>, failures: nat -> seq<Failure>)
    requires e.Concurrent.Users < 0 && e.Retry.Count >= 0
    requires forall i :: outcome(0)(i).TransportErr?
    ensures e.URL != "" && e.Method != "" ==> ConfigModule.Validate(Config([e])).None?
    ensures GlobalAverageAsWritten(Records([e], outcome, elapsed, arrivals, failures)) == None
  {
    var rs := Records([e], outcome, elapsed, arrivals, failures);
    assert [e][1..] == [];
    assert CheckEndpoints([e][1..]) == None;
    AlwaysUnreachableScenario(e, Fresh(e), outcome(0), elapsed(0));
    FinishKeepsRecord(EndpointRecord(e, outcome(0), elapsed(0), arrivals(0), failures(0)));
    assert rs[0].TotalRequests == 0;
    GlobalAveragePanicsWithoutRequests(rs);
  }

  /** A run of one concurrent endpoint with `Total` 0 stores a record of
      zero requests, and the report's average then divides by zero.
      `Validate` would reject such an endpoint, but `Run` does not call it. */
  lemma ZeroTotalRunReportDividesByZero(e: Endpoint, outcome: nat -> nat -> Outcome, elapsed: nat -> nat -> int,
                                        arrivals: nat -> seq<ValidationResult>, failures: nat -> seq<Failure>)
    requires e.Concurrent.Users > 0 && e.Concurrent.Total == 0
    ensures e.URL != "" && e.Method != "" ==> ConfigModule.Validate(Config([e])) == Some(UsersWithoutTotal(e.Name))
    ensures GlobalAverageAsWritten(Records([e], outcome, elapsed, arrivals, failures)) == None
  {
    var rs := Records([e], outcome, elapsed, arrivals, failures);
    assert [e][1..] == [];
    FinishKeepsRecord(EndpointRecord(e, outcome(0), elapsed(0), arrivals(0), failures(0)));
    assert rs[0].TotalRequests == 0;
    GlobalAveragePanicsWithoutRequests(rs);
  }

  /** A config with no endpoints: `Run`, which never calls `Validate`,
      stores no record, and `prepareReport` then divides by zero; the
      corrected report of no records keeps the 24 h starting minimum. */
  lemma EmptyRunReportDividesByZero(outcome: nat -> nat -> Outcome, elapsed: nat -> nat -> int,
                                    arrivals: nat -> seq<ValidationResult>, failures: nat -> seq<Failure>)
    ensures ConfigModule.Validate(Config([])) == Some(NoEndpoints)
    ensures Records([], outcome, elapsed, arrivals, failures) == []
    ensures GlobalAverageAsWritten(Records([], outcome, elapsed, arrivals, failures)) == None
    ensures ReportOf(Records([], outcome, elapsed, arrivals, failures)).GlobalStats.MinLatency == Day
  {
    assert Records([], outcome, elapsed, arrivals, failures) == [];
  }

  /** The share of requests per user that `Run`'s log line prints after
      each endpoint, as written: it divides the total by `Users` whatever
      the path, so `None`, a run-time panic, wherever `Users` is 0. */
  function LogShareAsWritten(e: Endpoint): (r: Option<int>)
    ensures r.None? <==> e.Concurrent.Users == 0
  {
    if e.Concurrent.Users == 0 then None else Some(GoDiv(e.Concurrent.Total, e.Concurrent.Users))
  }

  /** The log line as intended, which only logs: it prints the share
      `runConcurrent` gave each user for a concurrent endpoint, and no
      share for a single-path one. */
  function LogShare(e: Endpoint): (r: Option<int>)
    ensures r.Some? <==> e.Concurrent.Users > 0
    ensures r.Some? ==> r.value == RequestsPerUser(e.Concurrent) && r == LogShareAsWritten(e)
  {
    if e.Concurrent.Users > 0 then Some(RequestsPerUser(e.Concurrent)) else None
  }

  /** An endpoint without a `concurrent:` block has `Users` 0: it passes
      `Validate` once its URL and method are set, takes the single path,
      and the log line after its record is stored divides by zero, so Go
      stops before the next endpoint and before the report. */
  lemma PlainEndpointLogDividesByZero(e: Endpoint)
    requires e.Concurrent.Users == 0
    ensures e.URL != "" && e.Method != "" ==> ConfigModule.Validate(Config([e])).None?
    ensures LogShareAsWritten(e) == None && LogShare(e) == None
  {
    assert [e][1..] == [];
    assert CheckEndpoints([e][1..]) == None;
  }
  /** An endpoint with users but a negative total passes `Validate`, whose
      check only looks for a zero total, yet no run of it can be supplied:
      `make(chan …, Total)` panics on a negative size. The intended check
      rejects it. */
  lemma NegativeTotalPassesValidate(e: Endpoint, step: (nat, nat) -> Step,
                                    arrivals: seq<ValidationResult>, failures: seq<Failure>)
    requires e.URL != "" && e.Method != "" && e.Concurrent.Users > 0 && e.Concurrent.Total < 0
    ensures ConfigModule.Validate(Config([e])).None?
    ensures !Supplied(e, step, arrivals, failures)
    ensures CheckEndpointIntended(e) == Some(UsersWithoutTotal(e.Name))
  {
    assert [e][1..] == [];
    assert CheckEndpoints([e][1..]) == None;
  }


  /** What a concurrent endpoint needs from its oracles: a total the
      channels can be made with, and channel contents the users sent. */
  predicate Supplied(e: Endpoint, step: (nat, nat) -> Step, arrivals: seq<ValidationResult>, failures: seq<Failure>)
  {
    e.Concurrent.Users > 0 ==> e.Concurrent.Total >= 0 && Delivered(e, step, arrivals, failures)
  }

  /** The body of `Run`'s loop for one endpoint, up to `AddResult`. */
  method RunEndpoint(endpoint: Endpoint, outcome: nat -> Outcome, elapsed: nat -> int, step: (nat, nat) -> Step,
                     arrivals: seq<ValidationResult>, failures: seq<Failure>)
    returns (result: TestResult)
    requires Supplied(endpoint, step, arrivals, failures)
    ensures result == EndpointRecord(endpoint, outcome, elapsed, arrivals, failures)
  {
    result := Fresh(endpoint);
    var err: Option<Failure>;
    if endpoint.Concurrent.Users > 0 {
      result, err := RunConcurrent(endpoint, result, step, arrivals, failures);
    } else {
      var trace;
      result, err, trace := RunSingle(endpoint, result, outcome, elapsed);
    }
    if err.Some? {
      result := result.(Errors := result.Errors + [Error(err.value)]);
    }
  }

  class Runner {
    const config: Config
    const reporter: Reporter

    constructor (cfg: Config)
      ensures config == cfg && fresh(reporter) && reporter.results == []
    {
      config := cfg;
      reporter := new Reporter();
    }

    /** One iteration of `Run`'s loop: the endpoint's record, handed to
        the reporter. */
    method RunAndReport(endpoint: Endpoint, outcome: nat -> Outcome, elapsed: nat -> int, step: (nat, nat) -> Step,
                        arrivals: seq<ValidationResult>, failures: seq<Failure>)
      requires Supplied(endpoint, step, arrivals, failures)
      modifies reporter
      ensures reporter.results == old(reporter.results) + [Finish(EndpointRecord(endpoint, outcome, elapsed, arrivals, failures))]
    {
      var result := RunEndpoint(endpoint, outcome, elapsed, step, arrivals, failures);
      reporter.AddResult(result);
    }

    /** `Run` up to the report: every endpoint in order, its record handed
        to the reporter. The endpoint-`k` oracles stand for its requests. */
    method Run(outcome: nat -> nat -> Outcome, elapsed: nat -> nat -> int, step: nat -> (nat, nat) -> Step,
               arrivals: nat -> seq<ValidationResult>, failures: nat -> seq<Failure>)
      requires forall k :: 0 <= k < |config.Endpoints| ==>
                 Supplied(config.Endpoints[k], step(k), arrivals(k), failures(k))
      modifies reporter
      ensures reporter.results == old(reporter.results) + Records(config.Endpoints, outcome, elapsed, arrivals, failures)
    {
      for k := 0 to |config.Endpoints|
        invariant reporter.results
               == old(reporter.results) + RecordsUpTo(config.Endpoints, outcome, elapsed, arrivals, failures, k)
      {
        RunAndReport(config.Endpoints[k], outcome(k), elapsed(k), step(k), arrivals(k), failures(k));
        RecordsUpToNext(config.Endpoints, outcome, elapsed, arrivals, failures, k);
      }
    }
  }
}
