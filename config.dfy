/** The declarative test description (one record per endpoint) and the
    structural check that is run over it before any request is made. */
module Config {
  import opened Common

  /** A dynamically typed value: what a YAML expectation or a decoded JSON
      body holds. Only its canonical rendering is ever compared. */
  datatype Value =
    | Null
    | Bool(b: bool)
    | Number(literal: string)
    | Text(s: string)
    | List(items: seq<Value>)
    | Object(fields: map<string, Value>)

  /** One top-level key of the JSON body and the value expected under it. */
  datatype ValueCheck = ValueCheck(Path: string, Value: Value)

  /** Durations are nanoseconds, as Go's `time.Duration`. */
  datatype Expectation = Expectation(Status: int, MaxTime: int, Values: seq<ValueCheck>)

  /** `Count` is the number of additional attempts beyond the first. */
  datatype RetryConfig = RetryConfig(Count: int, Delay: int)

  datatype ConcurrentConfig = ConcurrentConfig(Users: int, Delay: int, Total: int)

  datatype Endpoint = Endpoint(
    Name: string,
    URL: string,
    Method: string,
    Headers: map<string, string>,
    Body: string,
    Expect: Expectation,
    Retry: RetryConfig,
    Concurrent: ConcurrentConfig)

  datatype Config = Config(Endpoints: seq<Endpoint>)

  /** The errors `Config.Validate` can return; each names the endpoint. */
  datatype ConfigError =
    | NoEndpoints
    | MissingURL(endpoint: string)
    | MissingMethod(endpoint: string)
    | UsersWithoutTotal(endpoint: string)

  /** What an acceptable endpoint looks like, independently of the order in
      which the checks are made. */
  predicate WellFormed(e: Endpoint)
  {
    e.URL != "" && e.Method != "" && !(e.Concurrent.Users > 0 && e.Concurrent.Total == 0)
  }

  /** The three checks on one endpoint, URL first, then method, then the
      concurrency profile. */
  function CheckEndpoint(e: Endpoint): (r: Option<ConfigError>)
    ensures r.None? <==> WellFormed(e)
    ensures r == Some(MissingURL(e.Name)) <==> e.URL == ""
    ensures r == Some(MissingMethod(e.Name)) <==> e.URL != "" && e.Method == ""
    ensures r == Some(UsersWithoutTotal(e.Name)) <==>
              e.URL != "" && e.Method != "" && e.Concurrent.Users > 0 && e.Concurrent.Total == 0
  {
    if e.URL == "" then Some(MissingURL(e.Name))
    else if e.Method == "" then Some(MissingMethod(e.Name))
    else if e.Concurrent.Users > 0 && e.Concurrent.Total == 0 then Some(UsersWithoutTotal(e.Name))
    else None
  }

  /** The loop over the endpoints: the first failing check wins. */
  function CheckEndpoints(eps: seq<Endpoint>): Option<ConfigError>
  {
    if |eps| == 0 then None
    else match CheckEndpoint(eps[0])
      case Some(err) => Some(err)
      case None => CheckEndpoints(eps[1..])
  }

  /** `Config.Validate`: `None` plays the part of Go's nil error. */
  function Validate(c: Config): Option<ConfigError>
  {
    if |c.Endpoints| == 0 then Some(NoEndpoints) else CheckEndpoints(c.Endpoints)
  }

  /** An empty endpoint list is always rejected. */
  lemma EmptyConfigRejected(c: Config)
    requires |c.Endpoints| == 0
    ensures Validate(c) == Some(NoEndpoints)
  {
  }

  lemma {:induction false} CheckEndpointsAccepts(eps: seq<Endpoint>)
    ensures CheckEndpoints(eps).None? <==> forall i :: 0 <= i < |eps| ==> WellFormed(eps[i])
  {
    if |eps| > 0 {
      CheckEndpointsAccepts(eps[1..]);
      assert forall i :: 1 <= i < |eps| ==> eps[i] == eps[1..][i - 1];
    }
  }

  /** Validation succeeds exactly when there is at least one endpoint and
      every endpoint is well formed. */
  lemma ValidateAccepts(c: Config)
    ensures Validate(c).None? <==>
              |c.Endpoints| > 0 && forall i :: 0 <= i < |c.Endpoints| ==> WellFormed(c.Endpoints[i])
  {
    CheckEndpointsAccepts(c.Endpoints);
  }

  lemma {:induction false} CheckEndpointsFirstOffender(eps: seq<Endpoint>, k: nat)
    requires k < |eps| && !WellFormed(eps[k])
    requires forall i :: 0 <= i < k ==> WellFormed(eps[i])
    ensures CheckEndpoints(eps) == CheckEndpoint(eps[k])
  {
    if k > 0 {
      assert WellFormed(eps[0]);
      assert forall i :: 0 <= i < k - 1 ==> eps[1..][i] == eps[i + 1];
      CheckEndpointsFirstOffender(eps[1..], k - 1);
    }
  }

  /** Only the first endpoint that fails a check is reported; whatever
      follows it (`rest` replaces it here) is not examined. */
  lemma ValidateReportsFirstOffender(c: Config, k: nat, rest: seq<Endpoint>)
    requires k < |c.Endpoints| && !WellFormed(c.Endpoints[k])
    requires forall i :: 0 <= i < k ==> WellFormed(c.Endpoints[i])
    ensures Validate(c) == CheckEndpoint(c.Endpoints[k])
    ensures Validate(Config(c.Endpoints[..k + 1] + rest)) == Validate(c)
  {
    CheckEndpointsFirstOffender(c.Endpoints, k);
    var eps := c.Endpoints[..k + 1] + rest;
    assert eps[k] == c.Endpoints[k];
    assert forall i :: 0 <= i < k ==> eps[i] == c.Endpoints[i];
    CheckEndpointsFirstOffender(eps, k);
  }

  /** The number of requests each virtual user issues (runner.go divides
      the total by the number of users, Go integer division). */
  function RequestsPerUser(cc: ConcurrentConfig): int
    requires cc.Users > 0
  {
    GoDiv(cc.Total, cc.Users)
  }

  /** The users together are given the total rounded down to a multiple
      of their number: fewer than `Users` requests are dropped. */
  lemma RequestsPerUserShare(cc: ConcurrentConfig)
    requires cc.Users > 0 && cc.Total >= 0
    ensures var n := RequestsPerUser(cc);
            0 <= n && n * cc.Users <= cc.Total < n * cc.Users + cc.Users
  {
    GoDivBounds(cc.Total, cc.Users);
    GoDivNonNegative(cc.Total, cc.Users);
  }

  /** A profile with fewer requests than users passes validation, although
      each user is then given no request at all. */
  lemma FewerRequestsThanUsersAccepted(e: Endpoint)
    requires e.URL != "" && e.Method != ""
    requires 0 < e.Concurrent.Total < e.Concurrent.Users
    ensures Validate(Config([e])).None?
    ensures RequestsPerUser(e.Concurrent) == 0
  {
    ValidateAccepts(Config([e]));
    RequestsPerUserShare(e.Concurrent);
  }

  /** The concurrency check as intended: users need a positive total, so
      that `runConcurrent` can size its channels by it. */
  function CheckEndpointIntended(e: Endpoint): (r: Option<ConfigError>)
    ensures r.None? ==> WellFormed(e) && (e.Concurrent.Users > 0 ==> e.Concurrent.Total > 0)
    ensures WellFormed(e) && (e.Concurrent.Users > 0 ==> e.Concurrent.Total > 0) ==> r.None?
    ensures CheckEndpoint(e).Some? ==> r == CheckEndpoint(e)
    ensures r == Some(UsersWithoutTotal(e.Name)) <==>
              e.URL != "" && e.Method != "" && e.Concurrent.Users > 0 && e.Concurrent.Total <= 0
  {
    if e.URL == "" then Some(MissingURL(e.Name))
    else if e.Method == "" then Some(MissingMethod(e.Name))
    else if e.Concurrent.Users > 0 && e.Concurrent.Total <= 0 then Some(UsersWithoutTotal(e.Name))
    else None
  }
}
