/** The Celery task `run_image_analysis`: a wrapper that turns every
    exception of the pipeline into a failure payload, and the automatic
    retry policy it is registered with. */
module Tasks {
  import opened Outcomes
  import opened Json
  import opened Processor

  /** `autoretry_for=(Exception,)` with `retry_kwargs`: how many retries
      may follow the first attempt, and the fixed delay before each. */
  datatype RetryPolicy = RetryPolicy(maxRetries: nat, countdown: nat)

  /** `{"max_retries": 3, "countdown": 5}`; no backoff is configured. */
  const AUTO_RETRY := RetryPolicy(3, 5)

  /** The task body. `importError` is the exception raised importing the
      processor module, if any; `processed` is how `process_image` ended. */
  function RunImageAnalysis(importError: Option<string>, processed: Completion<Analysis>): (r: Value)
    ensures r.Dict? && "status" in r.fields
    ensures importError.None? && processed.Returned? ==> r == AnalysisDict(processed.value)
    ensures importError.Some? ==> r == ErrorDict(importError.value)
    ensures importError.None? && processed.Raised? ==> r == ErrorDict(processed.error)
    ensures IsFailedPayload(r) <==> !(importError.None? && processed.Returned? && processed.value.Succeeded?)
  {
    match importError
    case Some(e) => ErrorDict(e)
    case None =>
      match processed
      case Returned(analysis) => AnalysisDict(analysis)
      case Raised(e) => ErrorDict(e)
  }

  /** The attempts Celery makes for one job under a policy: how the last
      attempt ended, how many attempts ran, and the delays between them. */
  datatype TaskRun = TaskRun(outcome: Completion<Value>, attempts: nat, delays: seq<nat>)

  /** Attempts from retry number `retries` on. `attempt(i)` is how the
      task body ends on retry `i` (0 for the first attempt). A body that
      raises is retried while fewer than `maxRetries` retries were made;
      after that its exception is re-raised. */
  function RunAttempts(p: RetryPolicy, attempt: nat -> Completion<Value>, retries: nat): (r: TaskRun)
    requires retries <= p.maxRetries
    decreases p.maxRetries - retries
    ensures retries < r.attempts <= p.maxRetries + 1
    ensures r.outcome == attempt(r.attempts - 1)
    ensures forall i :: retries <= i < r.attempts - 1 ==> attempt(i).Raised?
    ensures r.outcome.Raised? ==> r.attempts == p.maxRetries + 1
    ensures |r.delays| == r.attempts - 1 - retries
    ensures forall i :: 0 <= i < |r.delays| ==> r.delays[i] == p.countdown
  {
    match attempt(retries)
    case Returned(v) => TaskRun(Returned(v), retries + 1, [])
    case Raised(e) =>
      if retries == p.maxRetries then TaskRun(Raised(e), retries + 1, [])
      else
        var rest := RunAttempts(p, attempt, retries + 1);
        TaskRun(rest.outcome, rest.attempts, [p.countdown] + rest.delays)
  }

  /** Under the configured policy a body that keeps failing runs four
      times, with three delays of five seconds. */
  lemma AlwaysRaisingExhaustsRetries(attempt: nat -> Completion<Value>)
    requires forall i :: attempt(i).Raised?
    ensures var run := RunAttempts(AUTO_RETRY, attempt, 0);
      run.attempts == 4 && run.outcome == attempt(3) && run.delays == [5, 5, 5]
  {
    var run := RunAttempts(AUTO_RETRY, attempt, 0);
    assert run.outcome.Raised?;
  }

  /** A body that fails on the first k-1 attempts and returns on attempt k
      (k at most four) succeeds after exactly k attempts. */
  lemma SucceedsOnAttempt(attempt: nat -> Completion<Value>, k: nat)
    requires 1 <= k <= AUTO_RETRY.maxRetries + 1
    requires forall i :: 0 <= i < k - 1 ==> attempt(i).Raised?
    requires attempt(k - 1).Returned?
    ensures var run := RunAttempts(AUTO_RETRY, attempt, 0);
      run.attempts == k && run.outcome == attempt(k - 1)
  {
  }

  /** One job as Celery runs it: the wrapped body on every attempt. */
  function Run(importError: Option<string>, pipeline: nat -> Completion<Analysis>): TaskRun {
    RunAttempts(AUTO_RETRY, (i: nat) => Returned(RunImageAnalysis(importError, pipeline(i))), 0)
  }

  /** The wrapper never lets an exception escape, so the retry policy
      never fires: every job gets exactly one attempt, whose result is
      what the wrapper returned for the first pipeline run. */
  lemma SingleAttempt(importError: Option<string>, pipeline: nat -> Completion<Analysis>)
    ensures Run(importError, pipeline).attempts == 1
    ensures Run(importError, pipeline).delays == []
    ensures Run(importError, pipeline).outcome == Returned(RunImageAnalysis(importError, pipeline(0)))
  {
  }

  /** The state a result backend holds once a run has finished:
      SUCCESS with the returned value, or FAILURE with `str(exception)`. */
  datatype TaskState = TaskState(state: string, result: Value, info: string)

  function Settled(run: TaskRun): (s: TaskState)
    ensures s.state == "SUCCESS" <==> run.outcome.Returned?
    ensures run.outcome.Returned? ==> s.result == run.outcome.value
    ensures run.outcome.Raised? ==> s.state == "FAILURE" && s.info == run.outcome.error
  {
    match run.outcome
    case Returned(v) => TaskState("SUCCESS", v, "")
    case Raised(e) => TaskState("FAILURE", Null, e)
  }
}
