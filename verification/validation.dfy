/** The validation stage of the command pipeline, as plain function
    composition: run every validator, and either answer with the collected
    failures or hand the request to the next stage.

    In the running system this stage is the innermost of three; error
    handling wraps logging, which wraps validation. `Threw` carries the
    exception the handler itself raised. The outer error-handling stage
    wraps it, for host callers, in an unhandled-pipeline exception under a
    fresh correlation id; that wrapping is not modelled. */
module ValidationPipeline {
  import opened Optional
  import opened Seqs
  import opened Results

  /** A validator reports its errors in rule order; `None` is a null entry. */
  type Validator<!Req> = Req -> seq<Option<string>>

  /** The messages of the non-null entries, in order. */
  function ErrorMessages(errors: seq<Option<string>>): (r: seq<string>)
    ensures forall e :: e in r <==> Some(e) in errors
    ensures |r| <= |errors|
  {
    if |errors| == 0 then []
    else
      var rest := ErrorMessages(errors[1..]);
      assert errors == [errors[0]] + errors[1..];
      if errors[0].Some? then [errors[0].value] + rest else rest
  }

  /** Dropping null entries keeps the rest in order and with their
      repetitions: the messages of a concatenation are the messages of
      each part, and one entry contributes its own message or nothing. */
  lemma {:induction false} ErrorMessagesAppend(a: seq<Option<string>>, b: seq<Option<string>>)
    ensures ErrorMessages(a + b) == ErrorMessages(a) + ErrorMessages(b)
    ensures forall e :: ErrorMessages([Some(e)]) == [e]
    ensures ErrorMessages([None]) == []
    decreases |a|
  {
    if |a| == 0 {
      assert a + b == b;
    } else {
      assert (a + b)[0] == a[0];
      assert (a + b)[1..] == a[1..] + b;
      ErrorMessagesAppend(a[1..], b);
    }
  }

  /** Every validator's messages, in validator order. No validator is skipped. */
  function Errors<Req>(validators: seq<Validator<Req>>, request: Req): (r: seq<string>)
    ensures forall i, e :: 0 <= i < |validators| && Some(e) in validators[i](request) ==> e in r
    decreases |validators|
  {
    if |validators| == 0 then []
    else
      var rest := Errors(validators[1..], request);
      forall i, e | 0 <= i < |validators| && Some(e) in validators[i](request) ensures e in ErrorMessages(validators[0](request)) + rest {
        if i > 0 {
          assert validators[i] == validators[1..][i - 1];
        }
      }
      ErrorMessages(validators[0](request)) + rest
  }

  /** A single validator contributes exactly its own non-null messages, in
      order; with `ErrorsAppend` this fixes the messages of any list. */
  lemma ErrorsSingle<Req>(v: Validator<Req>, request: Req)
    ensures Errors([v], request) == ErrorMessages(v(request))
  {
    assert Errors([v], request) == ErrorMessages(v(request)) + Errors([v][1..], request);
    assert [v][1..] == [];
  }

  /** `FluentValidationPipelineBehavior.Handle`: on any error, a failed
      result carrying the messages and the unchanged state; otherwise
      exactly what `next` produces. */
  function Validated<Req, S, T, E>(validators: seq<Validator<Req>>, request: Req, state: S,
                                    next: (Req, S) -> Handled<S, T, E>): (r: Handled<S, T, E>)
    ensures |Errors(validators, request)| > 0 ==>
              r.Completed? && r.state == state && r.result.HasFailed()
              && r.result.failures == Errors(validators, request) && r.result.value == None
    ensures |Errors(validators, request)| == 0 ==> r == next(request, state)
  {
    var failures := Errors(validators, request);
    if |failures| > 0 then Completed(state, Fresh<T>().SetFailures(failures)) else next(request, state)
  }

  /** The messages of a list of validators are the messages of each part. */
  lemma {:induction false} ErrorsAppend<Req>(v1: seq<Validator<Req>>, v2: seq<Validator<Req>>, request: Req)
    ensures Errors(v1 + v2, request) == Errors(v1, request) + Errors(v2, request)
    decreases |v1|
  {
    if |v1| == 0 {
      assert v1 + v2 == v2;
    } else {
      assert (v1 + v2)[0] == v1[0];
      assert (v1 + v2)[1..] == v1[1..] + v2;
      ErrorsAppend(v1[1..], v2, request);
    }
  }

  /** When validation fails, the next stage is never consulted: its result
      cannot influence the outcome. */
  lemma ShortCircuit<Req, S, T, E>(validators: seq<Validator<Req>>, request: Req, state: S,
                                    next1: (Req, S) -> Handled<S, T, E>, next2: (Req, S) -> Handled<S, T, E>)
    requires |Errors(validators, request)| > 0
    ensures Validated(validators, request, state, next1) == Validated(validators, request, state, next2)
  {
  }

  /** Null entries alone never fail a request, and neither does an empty
      list of validators. */
  lemma {:induction false} NullErrorsPass<Req>(validators: seq<Validator<Req>>, request: Req)
    requires forall i :: 0 <= i < |validators| ==> forall j :: 0 <= j < |validators[i](request)| ==> validators[i](request)[j].None?
    ensures Errors(validators, request) == []
    decreases |validators|
  {
    if |validators| > 0 {
      NullMessages(validators[0](request));
      assert forall i :: 0 <= i < |validators[1..]| ==> validators[1..][i] == validators[i + 1];
      NullErrorsPass(validators[1..], request);
    }
  }

  lemma {:induction false} NullMessages(errors: seq<Option<string>>)
    requires forall j :: 0 <= j < |errors| ==> errors[j].None?
    ensures ErrorMessages(errors) == []
    decreases |errors|
  {
    if |errors| > 0 {
      NullMessages(errors[1..]);
    }
  }
}
