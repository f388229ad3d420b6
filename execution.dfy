/**
 * One execution pass of `run_code`: every `.py` path of the planned structure is run
 * in order, and the error text of the last one that failed is kept.
 */
module Execution {
  import opened Wrappers
  import opened Exceptions
  import opened PyText
  import opened Naming
  import opened StrOrder

  /** What running one file gives: its exit code and standard error, or the text of the
      exception raised while starting it. */
  datatype RunOutcome = Exited(code: int, stderr: string) | Raised(message: string)

  predicate Failed(o: RunOutcome) {
    o.Raised? || o.code != 0
  }

  /** The error text kept for a failed run: the stripped standard error, or `str(e)`. */
  function ErrorText(o: RunOutcome): string
    requires Failed(o)
  {
    match o
    case Exited(_, stderr) => Strip(stderr)
    case Raised(message) => message
  }

  /** The `i`-th planned path is a Python file whose run failed. */
  predicate FailsAt(paths: seq<string>, run: string -> RunOutcome, i: int)
    requires 0 <= i < |paths|
  {
    IsPy(paths[i]) && Failed(run(paths[i]))
  }

  /** The error log after a pass over `paths`: the text of the last failing Python file. */
  function LastError(paths: seq<string>, run: string -> RunOutcome): Option<string>
    decreases |paths|
  {
    if |paths| == 0 then None
    else
      var p := paths[|paths| - 1];
      if IsPy(p) && Failed(run(p)) then Some(ErrorText(run(p)))
      else LastError(paths[..|paths| - 1], run)
  }

  /** No error is logged exactly when no Python file failed. */
  lemma {:induction false} NoErrorIffAllPassed(paths: seq<string>, run: string -> RunOutcome)
    ensures LastError(paths, run) == None <==> forall i :: 0 <= i < |paths| ==> !FailsAt(paths, run, i)
    decreases |paths|
  {
    if |paths| > 0 {
      var init := paths[..|paths| - 1];
      NoErrorIffAllPassed(init, run);
      assert forall i :: 0 <= i < |init| ==> FailsAt(init, run, i) == FailsAt(paths, run, i);
      if FailsAt(paths, run, |paths| - 1) {
        assert LastError(paths, run).Some?;
      } else {
        assert LastError(paths, run) == LastError(init, run);
      }
    }
  }

  /** The logged error is the text of a failing Python file after which no Python file failed. */
  lemma {:induction false} ErrorIsLastFailure(paths: seq<string>, run: string -> RunOutcome)
    requires LastError(paths, run).Some?
    ensures exists i :: (0 <= i < |paths| && FailsAt(paths, run, i)
                         && LastError(paths, run).value == ErrorText(run(paths[i]))
                         && forall j :: i < j < |paths| ==> !FailsAt(paths, run, j))
    decreases |paths|
  {
    var n := |paths|;
    if !FailsAt(paths, run, n - 1) {
      var init := paths[..n - 1];
      ErrorIsLastFailure(init, run);
      var i :| 0 <= i < |init| && FailsAt(init, run, i)
        && LastError(init, run).value == ErrorText(run(init[i]))
        && forall j :: i < j < |init| ==> !FailsAt(init, run, j);
      assert forall j :: i < j < n ==> !FailsAt(paths, run, j) by {
        assert forall j :: i < j < n - 1 ==> FailsAt(init, run, j) == FailsAt(paths, run, j);
      }
      assert FailsAt(paths, run, i);
    }
  }

  /** Conversely, the text of a failing Python file after which no Python file failed is
      what the log holds. */
  lemma {:induction false} LastFailureIsError(paths: seq<string>, run: string -> RunOutcome, i: int)
    requires 0 <= i < |paths| && FailsAt(paths, run, i)
    requires forall j :: i < j < |paths| ==> !FailsAt(paths, run, j)
    ensures LastError(paths, run) == Some(ErrorText(run(paths[i])))
    decreases |paths|
  {
    var n := |paths|;
    if i < n - 1 {
      var init := paths[..n - 1];
      assert forall j :: 0 <= j < n - 1 ==> FailsAt(init, run, j) == FailsAt(paths, run, j);
      LastFailureIsError(init, run, i);
      assert init[i] == paths[i];
      assert !FailsAt(paths, run, n - 1);
      assert LastError(paths, run) == LastError(init, run);
    }
  }

  /** Files that are not `.py` never affect the log: two runners that agree on the Python
      files give the same log. */
  lemma {:induction false} OnlyPythonFilesMatter(paths: seq<string>, run: string -> RunOutcome, run': string -> RunOutcome)
    requires forall p :: p in paths && IsPy(p) ==> run(p) == run'(p)
    ensures LastError(paths, run) == LastError(paths, run')
    decreases |paths|
  {
    if |paths| > 0 {
      OnlyPythonFilesMatter(paths[..|paths| - 1], run, run');
    }
  }

  /** Python truthiness of the error log: `None` and `""` are false. */
  predicate Truthy(log: Option<string>) {
    log.Some? && log.value != ""
  }

  /** The Python values that meet in the guard's comparison. */
  datatype PyValue = PyInt(n: int) | PyStr(text: string) | PyNone

  /** `os.getenv(name)`: the variable's text, or `None` when it is unset. */
  function GetEnv(variable: Option<string>): (v: PyValue)
    ensures v.PyNone? <==> variable.None?
    ensures variable.Some? ==> v == PyStr(variable.value)
  {
    if variable.Some? then PyStr(variable.value) else PyNone
  }

  /** Python's `a < b` on these values: integers and strings compare among themselves, any
      other pairing raises TypeError. */
  function PyLess(a: PyValue, b: PyValue): (r: Result<bool, PyError>)
    ensures r.Err? <==> !((a.PyInt? && b.PyInt?) || (a.PyStr? && b.PyStr?))
    ensures r.Err? ==> r.error == TypeError
    ensures a.PyInt? && b.PyInt? ==> r == Ok(a.n < b.n)
  {
    match (a, b)
    case (PyInt(x), PyInt(y)) => Ok(x < y)
    case (PyStr(x), PyStr(y)) => Ok(Less(x, y))
    case _ => Err(TypeError)
  }

  /**
   * `error_log and state["retry_count"] < os.getenv("MAX_RETRIES")` as written: the
   * comparison is evaluated only when the log is truthy, and it sets the integer count
   * against whatever the environment variable gives.
   */
  function RetryGuardAsWritten(log: Option<string>, retryCount: int, maxRetriesEnv: Option<string>)
    : Result<bool, PyError>
  {
    if !Truthy(log) then Ok(false) else PyLess(PyInt(retryCount), GetEnv(maxRetriesEnv))
  }

  /** As written, the guard raises TypeError whenever a non-empty error was logged, whether
      the variable is set or not, and is false otherwise. */
  lemma AsWrittenGuardRaises(log: Option<string>, retryCount: int, maxRetriesEnv: Option<string>)
    ensures RetryGuardAsWritten(log, retryCount, maxRetriesEnv) ==
      (if Truthy(log) then Err(TypeError) else Ok(false))
    ensures RetryGuardAsWritten(Some("Traceback"), retryCount, maxRetriesEnv) == Err(TypeError)
  {
  }

  /** The guard with the bound read as an integer: a retry is asked for while an error is
      logged and the count is below the bound. Its value does not change the state. */
  function RetryGuard(log: Option<string>, retryCount: int, maxRetries: int): (retry: bool)
    ensures retry ==> Truthy(log)
    ensures retryCount >= maxRetries ==> !retry
    ensures Truthy(log) && retryCount < maxRetries ==> retry
  {
    Truthy(log) && retryCount < maxRetries
  }

  /** The two guards agree wherever the written one does not raise: on a falsy log both
      decline the retry, and on a truthy log only the written one raises. */
  lemma GuardsAgreeWithoutError(log: Option<string>, retryCount: int, maxRetries: int, maxRetriesEnv: Option<string>)
    ensures !Truthy(log) ==> RetryGuardAsWritten(log, retryCount, maxRetriesEnv) == Ok(RetryGuard(log, retryCount, maxRetries))
    ensures Truthy(log) <==> RetryGuardAsWritten(log, retryCount, maxRetriesEnv).Err?
  {
    AsWrittenGuardRaises(log, retryCount, maxRetriesEnv);
  }
}
