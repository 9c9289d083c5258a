/** `LoadRunner.RunAsync`: start `concurrency` workers with ids
    1..concurrency, wait for all of them, fold their tallies into the
    summary counts and show the first entries of the shared error queue.
    The stop watcher and the scheduler are replaced by inputs: whether the
    token was still live when each worker's task was due to start, the
    environment of each worker, and the order in which the workers' entries
    reached the concurrent queue. */
module LoadRunner {
  import opened Wrappers
  import opened Decimal
  import opened Worker

  /** How a worker's task ends: `Task.Run` with a token cancelled before
      it starts gives a cancelled task; otherwise the worker runs its
      loop, which catches every cancellation itself, and ends faulted when
      `Task.Delay` throws in it, its entries so far staying queued. */
  datatype WorkerTask = Canceled | Faulted(result: WorkerResult) | Completed(result: WorkerResult)

  /** Why `RunAsync` throws instead of printing a summary:
      `Enumerable.Range(1, concurrency)` rejects a negative count, and the
      `ArgumentOutOfRangeException` of a rejected delay is not the
      `OperationCanceledException` the `catch` around `Task.WhenAll`
      handles. */
  datatype RunFailure = NegativeConcurrency | DelayOutOfRange

  /** What `RunAsync` reports. */
  datatype Summary = Summary(success: nat, fail: nat, total: nat, successRate: real, errorLines: seq<string>)

  const MaxShownErrors := 10
  const ErrorsHeader := "-- First few errors --"

  /** The tasks of workers 1..concurrency; worker `id` starts when
      `started(id)` and then meets environment `env(id)`. */
  function Workers(p: RunParameters, concurrency: nat, started: int -> bool, env: int -> int -> Attempt): (r: seq<WorkerTask>)
    ensures |r| == concurrency
    ensures forall k :: 0 <= k < |r| ==> (r[k].Canceled? <==> !started(k + 1))
    ensures forall k :: 0 <= k < |r| && !r[k].Canceled? ==> r[k].result == WorkerRun(MakeWorker(p, k + 1), env(k + 1))
    ensures forall k :: 0 <= k < |r| ==> (r[k].Faulted? <==> started(k + 1) && r[k].result.faulted)
    ensures EntriesCounted(r)
  {
    seq(concurrency, k requires 0 <= k < concurrency =>
      if !started(k + 1) then Canceled
      else
        var result := WorkerRun(MakeWorker(p, k + 1), env(k + 1));
        if result.faulted then Faulted(result) else Completed(result))
  }

  /** The worker tasks of a run, or the error `Enumerable.Range` throws. */
  function Launch(p: RunParameters, concurrency: int, started: int -> bool, env: int -> int -> Attempt): (r: Result<seq<WorkerTask>, RunFailure>)
    ensures r.Failure? <==> concurrency < 0
    ensures r.Success? ==> |r.value| == concurrency
  {
    if concurrency < 0 then Failure(NegativeConcurrency) else Success(Workers(p, concurrency, started, env))
  }

  /** Every worker that ran enqueued one entry per `bad` count. */
  predicate EntriesCounted(tasks: seq<WorkerTask>) {
    forall k :: 0 <= k < |tasks| && !tasks[k].Canceled? ==> |tasks[k].result.errors| == tasks[k].result.bad
  }

  predicate AnyCanceled(tasks: seq<WorkerTask>) {
    exists k :: 0 <= k < |tasks| && tasks[k].Canceled?
  }

  predicate AnyFaulted(tasks: seq<WorkerTask>) {
    exists k :: 0 <= k < |tasks| && tasks[k].Faulted?
  }

  function OkOf(t: WorkerTask): nat {
    if t.Canceled? then 0 else t.result.ok
  }

  function BadOf(t: WorkerTask): nat {
    if t.Canceled? then 0 else t.result.bad
  }

  function EntriesOf(t: WorkerTask): seq<string> {
    if t.Canceled? then [] else t.result.errors
  }

  /** The `ok` tallies of the tasks, added up. */
  function SumOk(tasks: seq<WorkerTask>): nat {
    if tasks == [] then 0 else SumOk(tasks[..|tasks| - 1]) + OkOf(tasks[|tasks| - 1])
  }

  /** The `bad` tallies of the tasks, added up. */
  function SumBad(tasks: seq<WorkerTask>): nat {
    if tasks == [] then 0 else SumBad(tasks[..|tasks| - 1]) + BadOf(tasks[|tasks| - 1])
  }

  /** Every entry the tasks enqueued, worker by worker. */
  function AllEntries(tasks: seq<WorkerTask>): seq<string> {
    if tasks == [] then [] else AllEntries(tasks[..|tasks| - 1]) + EntriesOf(tasks[|tasks| - 1])
  }

  /** `await Task.WhenAll(workers)` and the `foreach` that adds up the
      results, as `(success, fail)`: a faulted task makes the `await`
      rethrow its exception, which escapes; otherwise a cancelled task makes
      it throw the cancellation, which is caught, and nothing is added at
      all. */
  method Fold(tasks: seq<WorkerTask>) returns (r: Result<(nat, nat), RunFailure>)
    ensures r.Failure? <==> AnyFaulted(tasks)
    ensures r.Failure? ==> r.error == DelayOutOfRange
    ensures r.Success? && AnyCanceled(tasks) ==> r.value == (0, 0)
    ensures r.Success? && !AnyCanceled(tasks) ==> r.value == (SumOk(tasks), SumBad(tasks))
  {
    var canceled := false;
    var k := 0;
    while k < |tasks|
      invariant 0 <= k <= |tasks|
      invariant forall j :: 0 <= j < k ==> !tasks[j].Faulted?
      invariant canceled <==> exists j :: 0 <= j < k && tasks[j].Canceled?
    {
      if tasks[k].Faulted? {
        return Failure(DelayOutOfRange);
      }
      canceled := canceled || tasks[k].Canceled?;
      k := k + 1;
    }
    if canceled {
      return Success((0, 0));
    }
    var success: nat, fail: nat := 0, 0;
    k := 0;
    while k < |tasks|
      invariant 0 <= k <= |tasks|
      invariant success == SumOk(tasks[..k]) && fail == SumBad(tasks[..k])
    {
      assert tasks[..k + 1][..k] == tasks[..k];
      success := success + tasks[k].result.ok;
      fail := fail + tasks[k].result.bad;
      k := k + 1;
    }
    assert tasks[..k] == tasks;
    return Success((success, fail));
  }

  /** The summary's success rate: `(double)success / total * 100`, or 0
      when nothing was counted. */
  function SuccessRate(success: nat, total: nat): (rate: real)
    requires success <= total
    ensures total == 0 ==> rate == 0.0
    ensures total > 0 ==> 0.0 <= rate <= 100.0 && rate * total as real == success as real * 100.0
  {
    if total > 0 then success as real / total as real * 100.0 else 0.0
  }

  /** The lines printed under "-- First few errors --". */
  function ErrorDisplay(queue: seq<string>): (r: seq<string>)
    ensures queue == [] <==> r == []
    ensures queue != [] ==>
      && r[0] == ErrorsHeader
      && |r| == 1 + (if |queue| < MaxShownErrors then |queue| else MaxShownErrors) + (if |queue| > MaxShownErrors then 1 else 0)
      && (forall k :: 0 <= k < |queue| && k < MaxShownErrors ==> r[1 + k] == queue[k])
      && (|queue| > MaxShownErrors ==> r[|r| - 1] == MoreLine(|queue| - MaxShownErrors))
  {
    if queue == [] then []
    else if |queue| <= MaxShownErrors then [ErrorsHeader] + queue
    else [ErrorsHeader] + queue[..MaxShownErrors] + [MoreLine(|queue| - MaxShownErrors)]
  }

  /** `$"...and {errors.Count - 10} more"`: the line reads back as the
      count it reports. */
  function MoreLine(n: int): (s: string)
    ensures ParseMoreLine(s) == Some(n)
  {
    var d := Show(n);
    var s := "...and " + d + " more";
    assert |d| >= 1;
    assert s[..7] == "...and ";
    assert s[|s| - 5..] == " more";
    assert s[7..|s| - 5] == d;
    FormatRoundTrip(n, 0);
    s
  }

  /** Reads the count back from a "...and N more" line. */
  function ParseMoreLine(s: string): Option<int> {
    if |s| >= 12 && s[..7] == "...and " && s[|s| - 5..] == " more" then ParseInt(s[7..|s| - 5]) else None
  }

  /** The summary of a run whose workers ended as `tasks`, none of them
      faulted, and whose queue holds `queue`: the queue holds exactly the
      entries of the workers that ran, in the order the scheduler let them
      in. */
  function Summarize(tasks: seq<WorkerTask>, queue: seq<string>): (s: Summary)
    requires !AnyFaulted(tasks)
    requires multiset(queue) == multiset(AllEntries(tasks))
    ensures s.total == s.success + s.fail
    ensures AnyCanceled(tasks) ==> s.success == 0 && s.fail == 0
    ensures !AnyCanceled(tasks) ==> s.success == SumOk(tasks) && s.fail == SumBad(tasks)
    ensures s.errorLines == ErrorDisplay(queue)
  {
    var success := if AnyCanceled(tasks) then 0 else SumOk(tasks);
    var fail := if AnyCanceled(tasks) then 0 else SumBad(tasks);
    Summary(success, fail, success + fail, SuccessRate(success, success + fail), ErrorDisplay(queue))
  }

  /** `RunAsync` from the worker tasks on: it throws on a negative
      concurrency and when a started worker's due delay is one `Task.Delay`
      rejects, which needs a delay over the timer's limit and at least two
      requests per worker; otherwise it reports the summary. */
  function RunAsync(p: RunParameters, concurrency: int, started: int -> bool, env: int -> int -> Attempt, queue: seq<string>): (r: Result<Summary, RunFailure>)
    requires concurrency >= 0 ==> multiset(queue) == multiset(AllEntries(Workers(p, concurrency, started, env)))
    ensures r == Failure(NegativeConcurrency) <==> concurrency < 0
    ensures r == Failure(DelayOutOfRange) <==> concurrency >= 0 && AnyFaulted(Workers(p, concurrency, started, env))
    ensures r == Failure(DelayOutOfRange) ==> RejectsDelay(p.delayTicks) && p.requestsPerThread >= 2
    ensures r.Success? ==> r.value.total <= concurrency * (if p.requestsPerThread < 0 then 0 else p.requestsPerThread)
    ensures r.Success? ==> r.value.errorLines == ErrorDisplay(queue)
  {
    match Launch(p, concurrency, started, env)
    case Failure(e) => Failure(e)
    case Success(tasks) =>
      if AnyFaulted(tasks) then
        FaultNeedsRejectedDelay(p, concurrency, started, env);
        Failure(DelayOutOfRange)
      else
        TotalBounded(p, concurrency, started, env, queue);
        Success(Summarize(tasks, queue))
  }

  // ------------------------------------------------------------ properties

  /** A task's entries are as many as its `bad` count. */
  lemma {:induction false} EntriesMatchBad(tasks: seq<WorkerTask>)
    requires EntriesCounted(tasks)
    ensures |AllEntries(tasks)| == SumBad(tasks)
  {
    if tasks != [] {
      EntriesMatchBad(tasks[..|tasks| - 1]);
    }
  }

  /** Without a cancelled or faulted task, the error queue holds exactly
      `fail` entries, and "...and N more" reports `fail - 10`. */
  lemma QueueMatchesFail(tasks: seq<WorkerTask>, queue: seq<string>)
    requires !AnyFaulted(tasks)
    requires multiset(queue) == multiset(AllEntries(tasks))
    requires !AnyCanceled(tasks) && EntriesCounted(tasks)
    ensures |queue| == Summarize(tasks, queue).fail
    ensures |queue| > MaxShownErrors ==>
      ParseMoreLine(Last(Summarize(tasks, queue).errorLines)) == Some(Summarize(tasks, queue).fail - MaxShownErrors)
  {
    var summary := Summarize(tasks, queue);
    EntriesMatchBad(tasks);
    assert |queue| == |multiset(queue)| == |multiset(AllEntries(tasks))| == |AllEntries(tasks)|;
    assert summary.fail == |queue|;
    if |queue| > MaxShownErrors {
      var lines := summary.errorLines;
      assert lines == ErrorDisplay(queue);
      assert Last(lines) == lines[|lines| - 1] == MoreLine(|queue| - MaxShownErrors);
    }
  }

  function Last(s: seq<string>): string {
    if s == [] then "" else s[|s| - 1]
  }

  /** When some worker never started, the counts stay at zero even though
      the workers that did run may have enqueued entries, which are still
      shown. */
  lemma CanceledStartKeepsErrors(tasks: seq<WorkerTask>, queue: seq<string>)
    requires !AnyFaulted(tasks)
    requires multiset(queue) == multiset(AllEntries(tasks))
    requires AnyCanceled(tasks)
    ensures Summarize(tasks, queue).total == 0
    ensures Summarize(tasks, queue).successRate == 0.0
    ensures Summarize(tasks, queue).errorLines != [] <==> AllEntries(tasks) != []
  {
    if AllEntries(tasks) != [] {
      var e := AllEntries(tasks)[0];
      assert e in multiset(AllEntries(tasks));
      assert e in multiset(queue);
      assert e in queue;
    } else {
      assert |queue| == |multiset(queue)| == 0;
    }
  }

  /** The tallies of tasks whose every completed worker counted at most
      `n` attempts add up to at most `n` per task. */
  lemma {:induction false} SumBounded(tasks: seq<WorkerTask>, n: nat)
    requires forall k :: 0 <= k < |tasks| && !tasks[k].Canceled? ==> tasks[k].result.ok + tasks[k].result.bad <= n
    ensures SumOk(tasks) + SumBad(tasks) <= |tasks| * n
  {
    if tasks != [] {
      var init := tasks[..|tasks| - 1];
      SumBounded(init, n);
      assert |tasks| * n == |init| * n + n by {
        assert |tasks| == |init| + 1;
      }
    }
  }

  /** The tallies of tasks whose every worker completed and counted exactly
      `n` attempts add up to exactly `n` per task. */
  lemma {:induction false} SumExact(tasks: seq<WorkerTask>, n: nat)
    requires forall k :: 0 <= k < |tasks| ==> tasks[k].Completed? && tasks[k].result.ok + tasks[k].result.bad == n
    ensures SumOk(tasks) + SumBad(tasks) == |tasks| * n
  {
    if tasks != [] {
      var init := tasks[..|tasks| - 1];
      SumExact(init, n);
      assert |tasks| * n == |init| * n + n by {
        assert |tasks| == |init| + 1;
      }
    }
  }

  /** No attempt of worker `w` meets a cancellation or a rejected delay. */
  predicate Uninterrupted(w: WorkerSetup, e: int -> Attempt) {
    forall i :: 1 <= i <= w.requestsPerThread ==> Proceeds(w, i, e(i))
  }

  /** A run never counts more than `concurrency * requestsPerThread`
      requests. */
  lemma TotalBounded(p: RunParameters, concurrency: nat, started: int -> bool, env: int -> int -> Attempt, queue: seq<string>)
    requires !AnyFaulted(Workers(p, concurrency, started, env))
    requires multiset(queue) == multiset(AllEntries(Workers(p, concurrency, started, env)))
    ensures Summarize(Workers(p, concurrency, started, env), queue).total
      <= concurrency * (if p.requestsPerThread < 0 then 0 else p.requestsPerThread)
  {
    var tasks := Workers(p, concurrency, started, env);
    var n: nat := if p.requestsPerThread < 0 then 0 else p.requestsPerThread;
    forall k | 0 <= k < |tasks| && !tasks[k].Canceled?
      ensures tasks[k].result.ok + tasks[k].result.bad <= n
    {
      assert tasks[k].result == WorkerRun(MakeWorker(p, k + 1), env(k + 1));
    }
    SumBounded(tasks, n);
  }

  /** Without any cancellation or rejected delay, every worker makes and
      counts all its attempts: no task is cancelled or faulted and the
      tallies add up to `concurrency * requestsPerThread`, which
      `Summarize` reports as the total. */
  lemma TotalWithoutCancellation(p: RunParameters, concurrency: nat, started: int -> bool, env: int -> int -> Attempt)
    requires forall id :: 1 <= id <= concurrency ==> started(id) && Uninterrupted(MakeWorker(p, id), env(id))
    ensures !AnyCanceled(Workers(p, concurrency, started, env))
    ensures !AnyFaulted(Workers(p, concurrency, started, env))
    ensures SumOk(Workers(p, concurrency, started, env)) + SumBad(Workers(p, concurrency, started, env))
      == concurrency * (if p.requestsPerThread < 0 then 0 else p.requestsPerThread)
  {
    var tasks := Workers(p, concurrency, started, env);
    var n: nat := if p.requestsPerThread < 0 then 0 else p.requestsPerThread;
    forall k | 0 <= k < |tasks|
      ensures tasks[k].Completed? && tasks[k].result.ok + tasks[k].result.bad == n
    {
      var w := MakeWorker(p, k + 1);
      assert tasks[k].result == WorkerRun(w, env(k + 1));
      assert Uninterrupted(w, env(k + 1));
      RunWithoutCancellation(w, env(k + 1), 1);
    }
    SumExact(tasks, n);
  }

  /** Only a delay `Task.Delay` rejects, with at least two requests per
      worker, can fault a worker. */
  lemma FaultNeedsRejectedDelay(p: RunParameters, concurrency: nat, started: int -> bool, env: int -> int -> Attempt)
    requires AnyFaulted(Workers(p, concurrency, started, env))
    ensures RejectsDelay(p.delayTicks) && p.requestsPerThread >= 2
  {
    var tasks := Workers(p, concurrency, started, env);
    var k :| 0 <= k < |tasks| && tasks[k].Faulted?;
    assert tasks[k].result == WorkerRun(MakeWorker(p, k + 1), env(k + 1));
  }

  /** A delay `Task.Delay` accepts never faults a worker. */
  lemma NoFaultWithinLimit(p: RunParameters, concurrency: nat, started: int -> bool, env: int -> int -> Attempt)
    requires !RejectsDelay(p.delayTicks)
    ensures !AnyFaulted(Workers(p, concurrency, started, env))
  {
    if AnyFaulted(Workers(p, concurrency, started, env)) {
      FaultNeedsRejectedDelay(p, concurrency, started, env);
    }
  }

  /** A run whose first worker starts and counts its first attempt, with a
      delay `Task.Delay` rejects and a second attempt due, throws instead
      of printing a summary. */
  lemma LongDelayFails(p: RunParameters, concurrency: int, started: int -> bool, env: int -> int -> Attempt, queue: seq<string>)
    requires concurrency >= 1 && started(1) && Counts(env(1)(1))
    requires RejectsDelay(p.delayTicks) && p.requestsPerThread >= 2
    requires multiset(queue) == multiset(AllEntries(Workers(p, concurrency, started, env)))
    ensures RunAsync(p, concurrency, started, env, queue) == Failure(DelayOutOfRange)
  {
    var tasks := Workers(p, concurrency, started, env);
    LongDelayFaults(MakeWorker(p, 1), env(1));
    assert tasks[0].Faulted?;
  }
}
