/** One worker of `LoadRunner.RunAsync` (`MakeWorker`): a sequential loop
    of up to `requestsPerThread` attempts that counts successes and
    failures, enqueues one error entry per failure and stops silently on
    cancellation. The transport, the clock and the cancellation token are
    replaced by an environment that decides, for every attempt index, what
    happens at each of the loop's suspension and check points. */
module Worker {
  import opened Wrappers
  import opened Text
  import opened Decimal
  import opened Requests

  /** What reading an error response's body comes to (`SafeRead`'s
      `ReadAsStringAsync`). */
  datatype BodyRead = BodyText(text: string) | BodyUnreadable

  /** How the `try` block around building and sending a request ends. */
  datatype SendOutcome =
    | Response(status: int, reason: Option<string>, body: BodyRead)
      // a response arrived
    | Fault(typeName: string, message: string)
      // an exception other than `OperationCanceledException`
    | SendCanceled
      // an `OperationCanceledException`

  /** One attempt as the environment decides it: whether the token is
      already cancelled at the loop test, the clock reading used for the
      payload, how the send ends, and whether the delay after it is
      cancelled (consulted only when the delay happens). */
  datatype Attempt = Attempt(canceledAtTop: bool, now: int, send: SendOutcome, delayCanceled: bool)

  /** The run parameters the worker closure captures. `delayTicks` is the
      `TimeSpan` between requests, in its 100-nanosecond ticks. */
  datatype RunParameters = RunParameters(
    url: string,
    bootKey: Option<string>,
    httpMethod: HttpMethod,
    requestsPerThread: int,
    delayTicks: int)

  // ------------------------------------------------------- C# int and TimeSpan

  const IntMin := -0x8000_0000
  const IntMax := 0x7fff_ffff

  const TicksPerMillisecond := 10_000
  const TicksPerSecond := 10_000_000

  /** The longest wait `Task.Delay` accepts, in milliseconds
      (`Timer.MaxSupportedTimeout`, 2^32 - 2); a longer `TimeSpan` makes it
      throw `ArgumentOutOfRangeException` before it looks at the token. */
  const MaxDelayMilliseconds := 0xffff_fffe

  /** `Task.Delay` rejects a positive delay of this many ticks: its whole
      milliseconds exceed the timer's limit. */
  predicate RejectsDelay(ticks: int) {
    ticks / TicksPerMillisecond > MaxDelayMilliseconds
  }

  /** The unchecked `i++` on a C# `int`: `int.MaxValue` wraps to
      `int.MinValue`. */
  function Increment32(i: int): (r: int)
    requires IntMin <= i <= IntMax
    ensures IntMin <= r <= IntMax
    ensures r < i <==> i == IntMax
  {
    if i == IntMax then IntMin else i + 1
  }

  // ----------------------------------------------------------- worker result

  /** The worker's tally `{ ok, bad }`, the entries it enqueued, in order,
      the requests it built, in order, and whether an exception the loop
      does not catch ended it (the task is then faulted and the tally is
      never returned). */
  datatype WorkerResult = WorkerResult(ok: nat, bad: nat, errors: seq<string>, built: seq<Request>, faulted: bool)

  const Nothing := WorkerResult(0, 0, [], [], false)

  /** The end of a loop that an uncaught exception leaves. */
  const Thrown := WorkerResult(0, 0, [], [], true)

  /** The results of two consecutive stretches of one worker's loop. */
  function Join(a: WorkerResult, b: WorkerResult): WorkerResult {
    WorkerResult(a.ok + b.ok, a.bad + b.bad, a.errors + b.errors, a.built + b.built, a.faulted || b.faulted)
  }

  /** `HttpResponseMessage.IsSuccessStatusCode`. */
  predicate IsSuccessStatusCode(status: int) {
    200 <= status <= 299
  }

  /** An outcome that is counted as `bad`. */
  predicate IsFailure(send: SendOutcome) {
    send.Fault? || (send.Response? && !IsSuccessStatusCode(send.status))
  }

  /** `SafeRead`: the trimmed body, or "" when it cannot be read. */
  function SafeRead(body: BodyRead): (r: string)
    ensures body.BodyUnreadable? ==> r == []
    ensures r == [] || (!IsWhiteSpace(r[0]) && !IsWhiteSpace(r[|r| - 1]))
    ensures body.BodyText? ==> IsBlank(body.text) <==> r == []
  {
    match body
    case BodyText(t) => TrimBlank(t); Trim(t)
    case BodyUnreadable => ""
  }

  // ------------------------------------------------------------ error entries

  /** The "[id:i] " prefix of every error entry. */
  function Tag(id: int, i: int): string {
    "[" + Show(id) + ":" + Show(i) + "] "
  }

  /** Reads the worker id and attempt index back from an entry's prefix. */
  function ParseTag(e: string): Option<(int, int)> {
    if |e| == 0 || e[0] != '[' then None
    else
      var s := e[1..];
      match IndexOf(s, ':')
      case None => None
      case Some(k) =>
        match IndexOf(s[k + 1..], ']')
        case None => None
        case Some(m) =>
          match (ParseInt(s[..k]), ParseInt(s[k + 1..][..m]))
          case (Some(id), Some(i)) => Some((id, i))
          case _ => None
  }

  lemma NumeralHasNoDelimiter(n: int)
    ensures ':' !in Show(n) && ']' !in Show(n)
  {
    var s := Show(n);
    if n < 0 {
      forall j | 1 <= j < |s| ensures s[j] != ':' && s[j] != ']' {
        assert s[j] == s[1..][j - 1];
      }
    }
  }

  lemma {:induction false} ParseTagParts(a: string, b: string, rest: string)
    requires ':' !in a && ']' !in b
    ensures ParseTag("[" + a + ":" + b + "] " + rest) ==
      match (ParseInt(a), ParseInt(b))
      case (Some(x), Some(y)) => Some((x, y))
      case _ => None
  {
    var e := "[" + a + ":" + b + "] " + rest;
    var s := e[1..];
    assert s == a + [':'] + (b + "] " + rest);
    IndexOfSplit(a, ':', b + "] " + rest);
    var t := s[|a| + 1..];
    assert t == b + [']'] + (" " + rest);
    IndexOfSplit(b, ']', " " + rest);
    assert s[..|a|] == a;
    assert t[..|b|] == b;
  }

  /** The tag of any entry reads back as the worker id and index it was
      made with. */
  lemma TagReadsBack(id: int, i: int, rest: string)
    ensures ParseTag(Tag(id, i) + rest) == Some((id, i))
  {
    NumeralHasNoDelimiter(id);
    NumeralHasNoDelimiter(i);
    assert Tag(id, i) + rest == "[" + Show(id) + ":" + Show(i) + "] " + rest;
    ParseTagParts(Show(id), Show(i), rest);
    FormatRoundTrip(id, 0);
    FormatRoundTrip(i, 0);
  }

  /** `$"[{id}:{i}] HTTP {(int)resp.StatusCode} {resp.ReasonPhrase} - {msg}"`,
      a null reason phrase printing as nothing. */
  function StatusEntry(id: int, i: int, status: int, reason: Option<string>, body: BodyRead): string {
    Tag(id, i) + "HTTP " + Show(status) + " " + reason.GetOr("") + " - " + SafeRead(body)
  }

  /** `$"[{id}:{i}] {ex.GetType().Name}: {ex.Message}"`. */
  function FaultEntry(id: int, i: int, typeName: string, message: string): string {
    Tag(id, i) + typeName + ": " + message
  }

  /** The entry attempt `i` enqueues: one exactly when it counts as `bad`. */
  function EntryFor(id: int, i: int, send: SendOutcome): (r: Option<string>)
    ensures r.Some? <==> IsFailure(send)
  {
    match send
    case Response(status, reason, body) =>
      if IsSuccessStatusCode(status) then None else Some(StatusEntry(id, i, status, reason, body))
    case Fault(typeName, message) => Some(FaultEntry(id, i, typeName, message))
    case SendCanceled => None
  }

  /** Every entry starts with a tag naming the worker and the attempt it
      came from. */
  lemma EntryTagged(id: int, i: int, send: SendOutcome)
    requires IsFailure(send)
    ensures ParseTag(EntryFor(id, i, send).value) == Some((id, i))
  {
    match send
    case Response(status, reason, body) =>
      var rest := "HTTP " + Show(status) + " " + reason.GetOr("") + " - " + SafeRead(body);
      assert StatusEntry(id, i, status, reason, body) == Tag(id, i) + rest;
      TagReadsBack(id, i, rest);
    case Fault(typeName, message) =>
      var rest := typeName + ": " + message;
      assert FaultEntry(id, i, typeName, message) == Tag(id, i) + rest;
      TagReadsBack(id, i, rest);
  }

  // ------------------------------------------------------------- the loop

  /** What the closure `MakeWorker(id)` captures: its id, the loop bound,
      the delay in ticks and how it builds the request for attempt `i` at
      clock reading `now`. */
  datatype WorkerSetup = WorkerSetup(id: int, requestsPerThread: int, delayTicks: int, build: (int, int) -> Request)

  /** `MakeWorker(id)` for the run parameters of `RunAsync`: worker `id`
      keeps the run's bound and delay and sends, for attempt `i`, the
      request `BuildRequest` makes for this worker and index. */
  function MakeWorker(p: RunParameters, id: int): WorkerSetup {
    WorkerSetup(id, p.requestsPerThread, p.delayTicks,
      (i: int, now: int) => BuildRequest(p.httpMethod, p.url, p.bootKey, id, i, now))
  }

  /** Attempt `i` is followed by the delay. */
  predicate Delays(w: WorkerSetup, i: int) {
    i < w.requestsPerThread && w.delayTicks > 0
  }

  /** The worker's delay, when it is due, throws instead of waiting. */
  predicate DelayRejected(w: WorkerSetup) {
    RejectsDelay(w.delayTicks)
  }

  /** Attempt `i` is counted: the loop test let it in and the send was not
      cancelled. */
  predicate Counts(a: Attempt) {
    !a.canceledAtTop && !a.send.SendCanceled?
  }

  /** Attempt `i` is counted and the loop goes on to attempt `i + 1`. */
  predicate Proceeds(w: WorkerSetup, i: int, a: Attempt) {
    Counts(a) && !(Delays(w, i) && (DelayRejected(w) || a.delayCanceled))
  }

  /** The contribution of a counted attempt: exactly one of `ok` and `bad`,
      the entry if it failed, and the request built for it. */
  function Counted(w: WorkerSetup, i: int, a: Attempt): (r: WorkerResult)
    requires !a.send.SendCanceled?
    ensures r.ok + r.bad == 1 && |r.built| == 1 && |r.errors| == r.bad && !r.faulted
    ensures r.bad == 1 <==> IsFailure(a.send)
  {
    var req := w.build(i, a.now);
    match EntryFor(w.id, i, a.send)
    case None => WorkerResult(1, 0, [], [req], false)
    case Some(e) => WorkerResult(0, 1, [e], [req], false)
  }

  function Remaining(w: WorkerSetup, i: int): nat {
    if w.requestsPerThread < i then 0 else w.requestsPerThread - i + 1
  }

  /** Attempts `i`, `i + 1`, ... of worker `id`, as the `for` loop runs
      them: the loop test stops on the bound or a cancelled token; a
      cancelled send stops with nothing counted; a due delay that
      `Task.Delay` rejects ends the worker faulted after counting; a
      cancelled delay stops after counting. Never more than one count per
      attempt, never an entry without a `bad`, at most one request built
      but not counted, and a fault only from a rejected delay. */
  function Run(w: WorkerSetup, env: int -> Attempt, i: int): (r: WorkerResult)
    ensures r.ok + r.bad <= Remaining(w, i)
    ensures |r.errors| == r.bad
    ensures |r.built| == r.ok + r.bad || |r.built| == r.ok + r.bad + 1
    ensures r.faulted ==> DelayRejected(w) && i < w.requestsPerThread
    decreases Remaining(w, i)
  {
    if i > w.requestsPerThread || env(i).canceledAtTop then Nothing
    else
      var a := env(i);
      if a.send.SendCanceled? then
        WorkerResult(0, 0, [], [w.build(i, a.now)], false)
      else if Delays(w, i) && DelayRejected(w) then
        Join(Counted(w, i, a), Thrown)
      else if Delays(w, i) && a.delayCanceled then
        Counted(w, i, a)
      else
        Join(Counted(w, i, a), Run(w, env, i + 1))
  }

  // The cases of `Run`, one lemma each, so that a proof unfolds only the
  // case it is in.

  lemma RunStops(w: WorkerSetup, env: int -> Attempt, i: int)
    requires i > w.requestsPerThread || env(i).canceledAtTop
    ensures Run(w, env, i) == Nothing
  {
  }

  lemma RunSendCanceled(w: WorkerSetup, env: int -> Attempt, i: int)
    requires i <= w.requestsPerThread && !env(i).canceledAtTop && env(i).send.SendCanceled?
    ensures Run(w, env, i) == WorkerResult(0, 0, [], [w.build(i, env(i).now)], false)
  {
  }

  lemma RunDelayRejected(w: WorkerSetup, env: int -> Attempt, i: int)
    requires i <= w.requestsPerThread && !env(i).canceledAtTop && !env(i).send.SendCanceled?
    requires Delays(w, i) && DelayRejected(w)
    ensures Run(w, env, i) == Join(Counted(w, i, env(i)), Thrown)
  {
  }

  lemma RunDelayCanceled(w: WorkerSetup, env: int -> Attempt, i: int)
    requires i <= w.requestsPerThread && !env(i).canceledAtTop && !env(i).send.SendCanceled?
    requires Delays(w, i) && !DelayRejected(w) && env(i).delayCanceled
    ensures Run(w, env, i) == Counted(w, i, env(i))
  {
  }

  lemma RunContinues(w: WorkerSetup, env: int -> Attempt, i: int)
    requires i <= w.requestsPerThread && Proceeds(w, i, env(i))
    ensures Run(w, env, i) == Join(Counted(w, i, env(i)), Run(w, env, i + 1))
  {
  }

  lemma CountedBuilt(w: WorkerSetup, i: int, a: Attempt)
    requires !a.send.SendCanceled?
    ensures Counted(w, i, a).built == [w.build(i, a.now)]
  {
  }

  lemma CountedErrors(w: WorkerSetup, i: int, a: Attempt)
    requires !a.send.SendCanceled?
    ensures Counted(w, i, a).errors == if IsFailure(a.send) then [EntryFor(w.id, i, a.send).value] else []
  {
  }

  lemma CountedThrown(w: WorkerSetup, i: int, a: Attempt)
    requires !a.send.SendCanceled?
    ensures Join(Counted(w, i, a), Thrown).errors == Counted(w, i, a).errors
    ensures Join(Counted(w, i, a), Thrown).built == Counted(w, i, a).built
  {
    assert Counted(w, i, a).errors + [] == Counted(w, i, a).errors;
    assert Counted(w, i, a).built + [] == Counted(w, i, a).built;
  }

  lemma JoinNothing(a: WorkerResult)
    ensures Join(a, Nothing) == a
  {
    assert a.errors + [] == a.errors;
    assert a.built + [] == a.built;
  }

  lemma JoinNothingLeft(a: WorkerResult)
    ensures Join(Nothing, a) == a
  {
    assert [] + a.errors == a.errors;
    assert [] + a.built == a.built;
  }

  /** The last stretch of the loop joined to the tally. */
  lemma JoinLast(acc: WorkerResult, c: WorkerResult, here: WorkerResult, total: WorkerResult)
    requires Join(acc, here) == total && here == c
    ensures Join(acc, c) == total
  {
  }

  /** One more stretch moved from the rest of the loop into the tally. */
  lemma JoinStep(acc: WorkerResult, c: WorkerResult, here: WorkerResult, rest: WorkerResult, total: WorkerResult)
    requires Join(acc, here) == total && here == Join(c, rest)
    ensures Join(Join(acc, c), rest) == total
  {
    JoinAssociates(acc, c, rest);
  }

  lemma JoinAssociates(a: WorkerResult, b: WorkerResult, c: WorkerResult)
    ensures Join(Join(a, b), c) == Join(a, Join(b, c))
  {
    assert (a.errors + b.errors) + c.errors == a.errors + (b.errors + c.errors);
    assert (a.built + b.built) + c.built == a.built + (b.built + c.built);
  }

  /** The whole worker. */
  function WorkerRun(w: WorkerSetup, env: int -> Attempt): WorkerResult {
    Run(w, env, 1)
  }

  /** One pass of the loop body from building the request on: the attempt's
      contribution and whether the loop ends after it, by `break` or by the
      exception of a rejected delay. */
  method TakeAttempt(w: WorkerSetup, i: int, a: Attempt) returns (c: WorkerResult, stop: bool)
    ensures a.send.SendCanceled? ==>
      stop && c == WorkerResult(0, 0, [], [w.build(i, a.now)], false)
    ensures !a.send.SendCanceled? ==>
      && c.ok == Counted(w, i, a).ok && c.bad == Counted(w, i, a).bad
      && c.errors == Counted(w, i, a).errors && c.built == Counted(w, i, a).built
      && (c.faulted <==> Delays(w, i) && DelayRejected(w))
      && (stop <==> Delays(w, i) && (DelayRejected(w) || a.delayCanceled))
  {
    var req := w.build(i, a.now);
    match a.send {
      case SendCanceled =>
        return WorkerResult(0, 0, [], [req], false), true;
      case Response(status, reason, body) =>
        if IsSuccessStatusCode(status) {
          c := WorkerResult(1, 0, [], [req], false);
        } else {
          c := WorkerResult(0, 1, [StatusEntry(w.id, i, status, reason, body)], [req], false);
        }
      case Fault(typeName, message) =>
        c := WorkerResult(0, 1, [FaultEntry(w.id, i, typeName, message)], [req], false);
    }
    stop := false;
    if i < w.requestsPerThread && w.delayTicks > 0 {
      if w.delayTicks / TicksPerMillisecond > MaxDelayMilliseconds {
        c := c.(faulted := true);
        stop := true;
      } else {
        stop := a.delayCanceled;
      }
    }
  }

  /** `MakeWorker`'s loop written as the source writes it, with `break` on a
      cancelled send or delay and an early end on a rejected delay; it
      computes exactly the attempt sequence `WorkerRun` describes. */
  method RunWorker(w: WorkerSetup, env: int -> Attempt) returns (r: WorkerResult)
    ensures r == WorkerRun(w, env)
    ensures r.ok + r.bad <= Remaining(w, 1)
    ensures |r.errors| == r.bad
  {
    r := Nothing;
    var i := 1;
    JoinNothingLeft(Run(w, env, 1));
    while i <= w.requestsPerThread && !env(i).canceledAtTop
      invariant 1 <= i
      invariant Join(r, Run(w, env, i)) == WorkerRun(w, env)
      decreases Remaining(w, i)
    {
      var c, stop := TakeAttempt(w, i, env(i));
      if stop {
        if env(i).send.SendCanceled? {
          RunSendCanceled(w, env, i);
        } else if DelayRejected(w) {
          RunDelayRejected(w, env, i);
        } else {
          RunDelayCanceled(w, env, i);
        }
        JoinLast(r, c, Run(w, env, i), WorkerRun(w, env));
        return Join(r, c);
      }
      RunContinues(w, env, i);
      JoinStep(r, c, Run(w, env, i), Run(w, env, i + 1), WorkerRun(w, env));
      r := Join(r, c);
      i := i + 1;
    }
    RunStops(w, env, i);
    JoinNothing(r);
  }

  // ------------------------------------------------------------ properties

  /** The number of successful responses among attempts `lo` to `hi`. */
  function CountOk(env: int -> Attempt, lo: int, hi: int): nat
    decreases if hi < lo then 0 else hi - lo + 1
  {
    if hi < lo then 0
    else
      var s := env(lo).send;
      (if s.Response? && IsSuccessStatusCode(s.status) then 1 else 0) + CountOk(env, lo + 1, hi)
  }

  /** Without a cancellation or a rejected delay, every attempt from `i` to
      `requestsPerThread` is made and counted once: `ok + bad` is the number
      of attempts, `ok` the number of successful responses, one request is
      built per attempt, and the worker does not fault. */
  lemma {:induction false} RunWithoutCancellation(w: WorkerSetup, env: int -> Attempt, i: int)
    requires forall j :: i <= j <= w.requestsPerThread ==> Proceeds(w, j, env(j))
    ensures Run(w, env, i).ok + Run(w, env, i).bad == Remaining(w, i)
    ensures Run(w, env, i).ok == CountOk(env, i, w.requestsPerThread)
    ensures |Run(w, env, i).built| == Remaining(w, i)
    ensures !Run(w, env, i).faulted
    decreases Remaining(w, i)
  {
    if i <= w.requestsPerThread {
      assert Proceeds(w, i, env(i));
      RunWithoutCancellation(w, env, i + 1);
    }
  }

  /** The loop stops at the first attempt `k` that does not proceed: the
      attempts before it are all counted, `k` itself is counted exactly
      when neither the loop test nor the send saw the cancellation, and the
      worker faults exactly when `k` was counted and its due delay was
      rejected. */
  lemma {:induction false} RunStopsAtFirstCancellation(w: WorkerSetup, env: int -> Attempt, i: int, k: int)
    requires i <= k <= w.requestsPerThread
    requires forall j :: i <= j < k ==> Proceeds(w, j, env(j))
    requires !Proceeds(w, k, env(k))
    ensures Run(w, env, i).ok + Run(w, env, i).bad == (k - i) + (if Counts(env(k)) then 1 else 0)
    ensures Run(w, env, i).faulted <==> Counts(env(k)) && Delays(w, k) && DelayRejected(w)
    decreases k - i
  {
    if i < k {
      assert Proceeds(w, i, env(i));
      RunStopsAtFirstCancellation(w, env, i + 1, k);
    }
  }

  /** The attempts from `i` on that the loop counts as `bad`, in order. */
  function FailedAttempts(w: WorkerSetup, env: int -> Attempt, i: int): (r: seq<int>)
    ensures forall k :: 0 <= k < |r| ==> i <= r[k] <= w.requestsPerThread && IsFailure(env(r[k]).send)
    ensures forall k, l :: 0 <= k < l < |r| ==> r[k] < r[l]
    decreases Remaining(w, i)
  {
    if i > w.requestsPerThread || env(i).canceledAtTop || env(i).send.SendCanceled? then []
    else
      var here := if IsFailure(env(i).send) then [i] else [];
      if Delays(w, i) && (DelayRejected(w) || env(i).delayCanceled) then here
      else here + FailedAttempts(w, env, i + 1)
  }

  /** `es` are the entries of attempts `fs` of worker `id`, one each. */
  predicate EntriesOfAttempts(id: int, env: int -> Attempt, es: seq<string>, fs: seq<int>) {
    |es| == |fs| && forall k :: 0 <= k < |es| ==> Some(es[k]) == EntryFor(id, fs[k], env(fs[k]).send)
  }

  lemma EntriesOfAttemptsAppend(id: int, env: int -> Attempt, es: seq<string>, fs: seq<int>, es': seq<string>, fs': seq<int>)
    requires EntriesOfAttempts(id, env, es, fs) && EntriesOfAttempts(id, env, es', fs')
    ensures EntriesOfAttempts(id, env, es + es', fs + fs')
  {
    forall k | |es| <= k < |es + es'|
      ensures Some((es + es')[k]) == EntryFor(id, (fs + fs')[k], env((fs + fs')[k]).send)
    {
      assert (es + es')[k] == es'[k - |es|];
      assert (fs + fs')[k] == fs'[k - |fs|];
    }
  }

  /** The worker's entries are those of its failed attempts, one each, in
      attempt order. */
  lemma {:induction false} RunErrors(w: WorkerSetup, env: int -> Attempt, i: int)
    ensures EntriesOfAttempts(w.id, env, Run(w, env, i).errors, FailedAttempts(w, env, i))
    decreases Remaining(w, i)
  {
    if i > w.requestsPerThread || env(i).canceledAtTop {
      RunStops(w, env, i);
    } else if env(i).send.SendCanceled? {
      RunSendCanceled(w, env, i);
    } else {
      var a := env(i);
      CountedErrors(w, i, a);
      var here := Counted(w, i, a).errors;
      var fh: seq<int> := if IsFailure(a.send) then [i] else [];
      assert EntriesOfAttempts(w.id, env, here, fh);
      if Delays(w, i) && DelayRejected(w) {
        RunDelayRejected(w, env, i);
        CountedThrown(w, i, a);
      } else if Delays(w, i) && a.delayCanceled {
        RunDelayCanceled(w, env, i);
      } else {
        RunContinues(w, env, i);
        RunErrors(w, env, i + 1);
        EntriesOfAttemptsAppend(w.id, env, here, fh, Run(w, env, i + 1).errors, FailedAttempts(w, env, i + 1));
      }
    }
  }

  /** Every entry a worker enqueues is tagged with its own id and the index
      of a failed attempt it made, is exactly the entry that attempt
      produces, and the entries come in increasing attempt order. */
  lemma RunEntries(w: WorkerSetup, env: int -> Attempt, i: int)
    ensures var es := Run(w, env, i).errors;
      forall k :: 0 <= k < |es| ==>
        && ParseTag(es[k]).Some?
        && ParseTag(es[k]).value.0 == w.id
        && i <= ParseTag(es[k]).value.1 <= w.requestsPerThread
        && EntryFor(w.id, ParseTag(es[k]).value.1, env(ParseTag(es[k]).value.1).send) == Some(es[k])
    ensures var es := Run(w, env, i).errors;
      forall k, l :: 0 <= k < l < |es| ==> ParseTag(es[k]).value.1 < ParseTag(es[l]).value.1
  {
    RunErrors(w, env, i);
    var es := Run(w, env, i).errors;
    var fs := FailedAttempts(w, env, i);
    forall k | 0 <= k < |es| ensures ParseTag(es[k]) == Some((w.id, fs[k])) && Some(es[k]) == EntryFor(w.id, fs[k], env(fs[k]).send) {
      EntryTagged(w.id, fs[k], env(fs[k]).send);
    }
  }

  /** `bs` are the requests of attempts `i`, `i + 1`, ..., each stamped
      with its own attempt's clock reading. */
  predicate BuiltFrom(w: WorkerSetup, env: int -> Attempt, i: int, bs: seq<Request>) {
    forall k :: 0 <= k < |bs| ==> bs[k] == w.build(i + k, env(i + k).now)
  }

  lemma BuiltFromCons(w: WorkerSetup, env: int -> Attempt, i: int, bs: seq<Request>)
    requires BuiltFrom(w, env, i + 1, bs)
    ensures BuiltFrom(w, env, i, [w.build(i, env(i).now)] + bs)
  {
    var cs := [w.build(i, env(i).now)] + bs;
    forall k | 1 <= k < |cs| ensures cs[k] == w.build(i + k, env(i + k).now) {
      assert cs[k] == bs[k - 1];
      assert i + 1 + (k - 1) == i + k;
    }
  }

  /** The requests a worker builds are those of attempts `i`, `i + 1`, ...
      in order, each stamped with its own attempt's clock reading. */
  lemma {:induction false} RunBuildsInOrder(w: WorkerSetup, env: int -> Attempt, i: int)
    ensures BuiltFrom(w, env, i, Run(w, env, i).built)
    decreases Remaining(w, i)
  {
    if i > w.requestsPerThread || env(i).canceledAtTop {
      RunStops(w, env, i);
    } else if env(i).send.SendCanceled? {
      RunSendCanceled(w, env, i);
    } else {
      CountedBuilt(w, i, env(i));
      if Delays(w, i) && DelayRejected(w) {
        RunDelayRejected(w, env, i);
        CountedThrown(w, i, env(i));
      } else if Delays(w, i) && env(i).delayCanceled {
        RunDelayCanceled(w, env, i);
      } else {
        RunContinues(w, env, i);
        RunBuildsInOrder(w, env, i + 1);
        BuiltFromCons(w, env, i, Run(w, env, i + 1).built);
      }
    }
  }

  /** Worker `id` of a run sends, for its `k`-th attempt, the request
      `BuildRequest` makes for this worker, index `k` and that attempt's
      clock reading. */
  lemma MakeWorkerBuilds(p: RunParameters, id: int, env: int -> Attempt)
    ensures var bs := WorkerRun(MakeWorker(p, id), env).built;
      forall k :: 0 <= k < |bs| ==> bs[k] == BuildRequest(p.httpMethod, p.url, p.bootKey, id, 1 + k, env(1 + k).now)
  {
    RunBuildsInOrder(MakeWorker(p, id), env, 1);
  }

  /** A worker whose delay `Task.Delay` rejects, with a second attempt to
      make, faults right after counting its first attempt. */
  lemma LongDelayFaults(w: WorkerSetup, env: int -> Attempt)
    requires DelayRejected(w) && w.requestsPerThread >= 2 && Counts(env(1))
    ensures WorkerRun(w, env).faulted
    ensures WorkerRun(w, env).ok + WorkerRun(w, env).bad == 1
  {
    RunDelayRejected(w, env, 1);
  }

  // ------------------------------------------------------ the loop index

  /** The source's `int i` after `k` executions of `i++`, starting
      from 1. */
  function LoopIndex(k: nat): (i: int)
    ensures IntMin <= i <= IntMax
  {
    if k == 0 then 1 else Increment32(LoopIndex(k - 1))
  }

  /** Below `int.MaxValue` the source's index is the model's: after `k`
      increments it is `1 + k`, so `Run`'s `i + 1` is the source's `i++`
      whenever `requestsPerThread < int.MaxValue`. */
  lemma {:induction false} LoopIndexAgrees(k: nat)
    requires k < IntMax
    ensures LoopIndex(k) == 1 + k
  {
    if k > 0 {
      LoopIndexAgrees(k - 1);
    }
  }

  /** With `requestsPerThread == int.MaxValue` the source's loop test
      `i <= requestsPerThread` never fails: the index reaches `int.MaxValue`
      for attempt `int.MaxValue`, then wraps to `int.MinValue` and the loop
      goes on, so a worker that is not cancelled never stops and counts
      more than `requestsPerThread` attempts. */
  lemma LoopIndexOverruns(k: nat)
    ensures LoopIndex(k) <= IntMax
    ensures LoopIndex(IntMax - 1) == IntMax
    ensures LoopIndex(IntMax) == IntMin
  {
    LoopIndexAgrees(IntMax - 1);
  }
}
