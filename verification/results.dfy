/** The success/failure envelope every command and query returns, and the
    outcome of running a handler against the store. */
module Results {
  import opened Optional

  /** `Result<T>`: a success flag, the failure messages, and a value.
      `value == None` stands for `default(T)`, which is null for every `T`
      the handlers use. The non-generic `Result` is `Result<()>` with no value. */
  datatype Result<+T> = Result(isSuccess: bool, failures: seq<string>, value: Option<T>) {

    predicate HasFailed() {
      !isSuccess
    }

    /** `SetFailures`: marks the result failed with exactly these messages. */
    function SetFailures(fs: seq<string>): (r: Result<T>)
      ensures r.HasFailed() && r.failures == fs && r.value == value
    {
      this.(isSuccess := false, failures := fs)
    }

    /** `ToString`, with the platform line separator as a parameter. */
    function ToString(newline: string): (s: string)
      ensures s == "Success" <==> isSuccess
    {
      if isSuccess then "Success"
      else
        var s := "Failure: " + newline + Join(", ", failures);
        assert s[..2] == "Fa";
        s
    }
  }

  /** `string.Join`. */
  function Join(sep: string, xs: seq<string>): (s: string)
    ensures |xs| == 1 ==> s == xs[0]
  {
    if |xs| == 0 then ""
    else if |xs| == 1 then xs[0]
    else xs[0] + sep + Join(sep, xs[1..])
  }

  /** `new SuccessResult<T>(v)`. */
  function SuccessResult<T>(v: T): (r: Result<T>)
    ensures !r.HasFailed() && r.failures == [] && r.value == Some(v)
  {
    Result(true, [], Some(v))
  }

  /** `new FailureResult<T>(failure)`. */
  function FailureResult<T>(failure: string): (r: Result<T>)
    ensures r.HasFailed() && r.failures == [failure] && r.value == None
  {
    Result(false, [failure], None)
  }

  /** `new FailureResult<T>(failures)`. */
  function FailureResults<T>(failures: seq<string>): (r: Result<T>)
    ensures r.HasFailed() && r.failures == failures && r.value == None
  {
    Result(false, failures, None)
  }

  /** `new TResponse()`: the parameterless constructor, not yet successful.
      Its null failure list is written as empty; every use replaces it. */
  function Fresh<T>(): (r: Result<T>)
    ensures r.HasFailed() && r.value == None
  {
    Result(false, [], None)
  }

  /** A handler either returns a result together with the state it leaves
      behind, or throws. */
  datatype Handled<S, T, E> = Completed(state: S, result: Result<T>) | Threw(error: E)

  /** The text of a result tells success from failure whatever the failures say. */
  lemma ToStringDistinguishes<T>(r: Result<T>, newline: string)
    ensures r.ToString(newline) == "Success" <==> !r.HasFailed()
    ensures r.HasFailed() ==> r.ToString(newline)[..9] == "Failure: "
  {
  }
}
