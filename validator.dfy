/** The response validator: one HTTP response, measured and read in full,
    checked against an endpoint's expectation. */
module Validator {
  import opened Common
  import opened Config

  newtype byte = b: int | 0 <= b < 256

  /** One violation reason; the source renders each as a formatted string. */
  datatype Violation =
    | StatusMismatch(expected: int, got: int)
    | TooSlow(limit: int, took: int)
    | UnreadableBody(reason: string)
    | PathNotFound(path: string)
    | ValueMismatch(path: string, wanted: string, found: string)

  datatype ValidationResult = ValidationResult(
    IsValid: bool,
    Errors: seq<Violation>,
    Duration: int,
    StatusCode: int,
    Body: seq<byte>)

  /** What decoding the body as a JSON object yields: the top-level keys,
      or the decoder's complaint. */
  datatype Decoded = Decoded(obj: map<string, Value>) | Malformed(reason: string)

  /** The validator keeps the expected status and the duration budget. */
  datatype Validator = Validator(maxDuration: int, statusCode: int)

  /** A value check passes when the key is present and both values render
      to the same canonical string. */
  predicate CheckPasses(c: ValueCheck, obj: map<string, Value>, canon: Value -> string)
  {
    c.Path in obj && canon(obj[c.Path]) == canon(c.Value)
  }

  /** The violation one value check contributes. */
  function CheckValue(c: ValueCheck, obj: map<string, Value>, canon: Value -> string): (r: seq<Violation>)
    ensures r == [] <==> CheckPasses(c, obj, canon)
    ensures r == [PathNotFound(c.Path)] <==> c.Path !in obj
    ensures c.Path in obj && !CheckPasses(c, obj, canon) ==>
              r == [ValueMismatch(c.Path, canon(c.Value), canon(obj[c.Path]))]
  {
    if c.Path !in obj then [PathNotFound(c.Path)]
    else if canon(obj[c.Path]) != canon(c.Value) then [ValueMismatch(c.Path, canon(c.Value), canon(obj[c.Path]))]
    else []
  }

  /** The value checks, run in list order. */
  function CheckValues(checks: seq<ValueCheck>, obj: map<string, Value>, canon: Value -> string): seq<Violation>
  {
    if |checks| == 0 then []
    else CheckValues(checks[..|checks| - 1], obj, canon) + CheckValue(checks[|checks| - 1], obj, canon)
  }

  /** The violations of one response, in the order they are recorded:
      status, then duration, then the body's value checks. */
  function Violations(v: Validator, status: int, body: seq<byte>, duration: int,
                      checks: seq<ValueCheck>, decode: seq<byte> -> Decoded, canon: Value -> string): seq<Violation>
  {
    (if status != v.statusCode then [StatusMismatch(v.statusCode, status)] else [])
    + (if duration > v.maxDuration then [TooSlow(v.maxDuration, duration)] else [])
    + (if |checks| == 0 then []
       else match decode(body)
         case Malformed(reason) => [UnreadableBody(reason)]
         case Decoded(obj) => CheckValues(checks, obj, canon))
  }

  /** The loop of `Validate` over the expected values. */
  method CheckAll(checks: seq<ValueCheck>, obj: map<string, Value>, canon: Value -> string)
    returns (errors: seq<Violation>)
    ensures errors == CheckValues(checks, obj, canon)
  {
    errors := [];
    for i := 0 to |checks|
      invariant errors == CheckValues(checks[..i], obj, canon)
    {
      var c := checks[i];
      if c.Path !in obj {
        errors := errors + [PathNotFound(c.Path)];
      } else if canon(obj[c.Path]) != canon(c.Value) {
        errors := errors + [ValueMismatch(c.Path, canon(c.Value), canon(obj[c.Path]))];
      }
      assert checks[..i + 1][..i] == checks[..i];
    }
    assert checks[..|checks|] == checks;
  }

  /** What every result of `Validate` looks like: valid exactly when it
      has no violation, with status code 0 and an empty body. */
  predicate Validated(r: ValidationResult)
  {
    (r.IsValid <==> r.Errors == []) && r.StatusCode == 0 && r.Body == []
  }

  /** `Validator.Validate`. The status code of the response is looked at
      but never copied into the result; nor is the body. */
  method Validate(v: Validator, status: int, body: seq<byte>, duration: int,
                  checks: seq<ValueCheck>, decode: seq<byte> -> Decoded, canon: Value -> string)
    returns (r: ValidationResult)
    ensures r.Errors == Violations(v, status, body, duration, checks, decode, canon)
    ensures r.IsValid <==> r.Errors == []
    ensures r.Duration == duration && r.StatusCode == 0 && r.Body == []
    ensures Validated(r)
  {
    var errors: seq<Violation> := [];
    if status != v.statusCode {
      errors := errors + [StatusMismatch(v.statusCode, status)];
    }
    if duration > v.maxDuration {
      errors := errors + [TooSlow(v.maxDuration, duration)];
    }
    assert errors == (if status != v.statusCode then [StatusMismatch(v.statusCode, status)] else [])
                     + (if duration > v.maxDuration then [TooSlow(v.maxDuration, duration)] else []);
    if |checks| > 0 {
      match decode(body)
      case Malformed(reason) =>
        errors := errors + [UnreadableBody(reason)];
      case Decoded(obj) =>
        var found := CheckAll(checks, obj, canon);
        errors := errors + found;
    }
    r := ValidationResult(|errors| == 0, errors, duration, 0, []);
  }

  lemma {:induction false} CheckValuesConcat(a: seq<ValueCheck>, b: seq<ValueCheck>,
                                             obj: map<string, Value>, canon: Value -> string)
    ensures CheckValues(a + b, obj, canon) == CheckValues(a, obj, canon) + CheckValues(b, obj, canon)
  {
    if |b| == 0 {
      assert a + b == a;
    } else {
      assert (a + b)[..|a + b| - 1] == a + b[..|b| - 1];
      CheckValuesConcat(a, b[..|b| - 1], obj, canon);
    }
  }

  /** The number of value checks that fail. */
  function FailingChecks(checks: seq<ValueCheck>, obj: map<string, Value>, canon: Value -> string): int
  {
    SumOf(checks, (c: ValueCheck) => if CheckPasses(c, obj, canon) then 0 else 1)
  }

  /** Each value check adds exactly one violation when it fails and none
      when it passes; no violation is about anything else. */
  lemma {:induction false} CheckValuesCount(checks: seq<ValueCheck>, obj: map<string, Value>, canon: Value -> string)
    ensures |CheckValues(checks, obj, canon)| == FailingChecks(checks, obj, canon) <= |checks|
    ensures forall j :: 0 <= j < |CheckValues(checks, obj, canon)| ==>
              CheckValues(checks, obj, canon)[j].PathNotFound? || CheckValues(checks, obj, canon)[j].ValueMismatch?
  {
    if |checks| > 0 {
      CheckValuesCount(checks[..|checks| - 1], obj, canon);
    }
  }

  /** The value checks all pass exactly when every key is present with the
      expected canonical value. */
  lemma {:induction false} CheckValuesEmpty(checks: seq<ValueCheck>, obj: map<string, Value>, canon: Value -> string)
    ensures CheckValues(checks, obj, canon) == [] <==>
              forall i :: 0 <= i < |checks| ==> CheckPasses(checks[i], obj, canon)
  {
    if |checks| > 0 {
      var init := checks[..|checks| - 1];
      CheckValuesEmpty(init, obj, canon);
      assert forall i :: 0 <= i < |init| ==> init[i] == checks[i];
    }
  }

  /** `IsValid` holds exactly when the status matches, the duration is
      within budget (equal passes) and, if there are value checks, the body
      decodes and every check passes. */
  lemma ValidIff(v: Validator, status: int, body: seq<byte>, duration: int,
                 checks: seq<ValueCheck>, decode: seq<byte> -> Decoded, canon: Value -> string)
    ensures Violations(v, status, body, duration, checks, decode, canon) == [] <==>
              status == v.statusCode && duration <= v.maxDuration &&
              (|checks| > 0 ==>
                 decode(body).Decoded? &&
                 forall i :: 0 <= i < |checks| ==> CheckPasses(checks[i], decode(body).obj, canon))
  {
    if |checks| > 0 && decode(body).Decoded? {
      CheckValuesEmpty(checks, decode(body).obj, canon);
    }
  }

  /** A status mismatch is reported once, as the first violation; a
      matching status is never reported. */
  lemma StatusViolationFirst(v: Validator, status: int, body: seq<byte>, duration: int,
                             checks: seq<ValueCheck>, decode: seq<byte> -> Decoded, canon: Value -> string)
    ensures var errs := Violations(v, status, body, duration, checks, decode, canon);
            (status != v.statusCode ==> |errs| > 0 && errs[0] == StatusMismatch(v.statusCode, status)) &&
            (forall j :: 0 < j < |errs| ==> !errs[j].StatusMismatch?) &&
            (status == v.statusCode ==> forall j :: 0 <= j < |errs| ==> !errs[j].StatusMismatch?)
  {
    if |checks| > 0 && decode(body).Decoded? {
      CheckValuesCount(checks, decode(body).obj, canon);
    }
  }

  /** The duration check is strict: a duration above the budget adds
      exactly one violation, right after the status check's; a duration
      equal to it adds none. */
  lemma DurationViolation(v: Validator, status: int, body: seq<byte>, duration: int,
                          checks: seq<ValueCheck>, decode: seq<byte> -> Decoded, canon: Value -> string)
    ensures var errs := Violations(v, status, body, duration, checks, decode, canon);
            var at := if status != v.statusCode then 1 else 0;
            (duration > v.maxDuration ==> |errs| > at && errs[at] == TooSlow(v.maxDuration, duration)) &&
            (duration > v.maxDuration ==> forall j :: 0 <= j < |errs| && j != at ==> !errs[j].TooSlow?) &&
            (duration <= v.maxDuration ==> forall j :: 0 <= j < |errs| ==> !errs[j].TooSlow?)
  {
    if |checks| > 0 && decode(body).Decoded? {
      CheckValuesCount(checks, decode(body).obj, canon);
    }
  }

  /** Without value checks the body is never looked at (any decoder gives
      the same result) and at most two violations arise. */
  lemma NoChecksNoParse(v: Validator, status: int, body: seq<byte>, duration: int,
                        decode: seq<byte> -> Decoded, decode': seq<byte> -> Decoded, canon: Value -> string)
    ensures Violations(v, status, body, duration, [], decode, canon)
         == Violations(v, status, body, duration, [], decode', canon)
    ensures |Violations(v, status, body, duration, [], decode, canon)| <= 2
  {
  }

  /** A body that does not decode gives exactly one decoding violation, as
      the last entry, and no value check runs. */
  lemma MalformedBodyOneViolation(v: Validator, status: int, body: seq<byte>, duration: int,
                                  checks: seq<ValueCheck>, decode: seq<byte> -> Decoded, canon: Value -> string)
    requires |checks| > 0 && decode(body).Malformed?
    ensures var errs := Violations(v, status, body, duration, checks, decode, canon);
            |errs| > 0 && errs[|errs| - 1] == UnreadableBody(decode(body).reason) &&
            forall j :: 0 <= j < |errs| - 1 ==> errs[j].StatusMismatch? || errs[j].TooSlow?
  {
  }

  /** The violation count is known exactly: one per failed fixed check plus
      one per failing value check, or one for an undecodable body; so never
      more than two plus the number of value checks. */
  lemma ViolationCount(v: Validator, status: int, body: seq<byte>, duration: int,
                       checks: seq<ValueCheck>, decode: seq<byte> -> Decoded, canon: Value -> string)
    ensures var errs := Violations(v, status, body, duration, checks, decode, canon);
            var fixed := (if status != v.statusCode then 1 else 0) + (if duration > v.maxDuration then 1 else 0);
            |errs| == fixed + (if |checks| == 0 then 0
                               else match decode(body)
                                 case Malformed(_) => 1
                                 case Decoded(obj) => FailingChecks(checks, obj, canon)) &&
            |errs| <= 2 + |checks|
  {
    if |checks| > 0 && decode(body).Decoded? {
      CheckValuesCount(checks, decode(body).obj, canon);
    }
  }

  /** A matching value under the checked key gives no violation; a
      different one gives exactly one, naming that key. */
  lemma TitleScenario(v: Validator, duration: int, body: seq<byte>, decode: seq<byte> -> Decoded, canon: Value -> string)
    requires duration <= v.maxDuration
    requires canon(Text("foo")) != canon(Text("bar"))
    ensures var checks := [ValueCheck("title", Text("foo"))];
            (decode(body) == Decoded(map["title" := Text("foo")]) ==>
               Violations(v, v.statusCode, body, duration, checks, decode, canon) == []) &&
            (decode(body) == Decoded(map["title" := Text("bar")]) ==>
               Violations(v, v.statusCode, body, duration, checks, decode, canon)
                 == [ValueMismatch("title", canon(Text("foo")), canon(Text("bar")))])
  {
    var checks := [ValueCheck("title", Text("foo"))];
    assert checks[..0] == [];
  }
}
