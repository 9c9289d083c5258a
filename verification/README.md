# HTTP load console — a Dafny model

The ApiTestingApp console sends HTTP requests to one endpoint from several
concurrent workers, then reports how many succeeded and failed and shows a
sample of the errors. This project models its core in Dafny: the runner
(`LoadRunner` in `ApiTestingApp/Runner.cs`) and the menu that feeds it
(`ConsoleMenu` in `ApiTestingApp/Menu.cs`).

- **Requests** (`requests.dfy`, with `decimal.dfy`, `percent_encoding.dfy`
  and `text.dfy`). `BuildRequest` splits HTTP methods into body-carrying
  ones (POST, PUT, PATCH, DELETE) and bodyless ones.
  - A body-carrying method gets a `RequestPayload`. Its measurement id is
    `"{workerId:D3}-{idx:D5}"`.
  - A bodyless method gets a `bootKey` query parameter appended by
    `AppendQuery`, escaped like `Uri.EscapeDataString`. That is UTF-8
    followed by the percent-encoding of section 2.1 of RFC 3986, which
    leaves only the unreserved set of section 2.3 unescaped.

  Every encoder has a decoder partner (`ParseInt`, `PercentDecode`,
  `Utf8Decode`, `ParseMeasurementId`, `SplitLastParameter`), and round-trip
  lemmas connect each pair.
- **Worker** (`worker.dfy`). The worker loop of `MakeWorker` is a recursive
  function over an environment. The environment says, for every attempt:
  - whether the token was already cancelled at the loop test;
  - the clock reading;
  - the send outcome (a response, an exception, or a cancellation);
  - whether the delay was cancelled.

  The delay is a `TimeSpan` in ticks. A due delay longer than `Task.Delay`
  accepts (4294967294 ms) throws, and the worker's task ends faulted.
  A `while` method with an invariant reproduces the loop. Lemmas state:
  - the counting rules;
  - the one-entry-per-`bad` rule, with each entry's `[id:i]` tag read back;
  - the order in which requests are built;
  - what the source's `int` loop index does next to the model's
    unbounded one.
- **Load runner** (`load_runner.dfy`) covers:
  - `Enumerable.Range(1, concurrency)`;
  - `Task.WhenAll` and the fold of the tallies. A faulted task makes
    `RunAsync` throw. Otherwise a task cancelled before it started makes
    the `await` throw a cancellation, which is caught, so no tally is
    added;
  - `total` and the success rate;
  - the display of at most ten errors followed by `...and N more`.

  The order in which the workers' entries reach the concurrent queue is an
  input. It is constrained only to be a permutation of the entries the
  workers produced.
- **Menu** (`menu.dfy`). Console input is two sequences: the lines
  `ReadLine` returns (null past their end) and the keys `ReadKey` returns.
  `int.TryParse` is a parameter, any partial parser. The configured URL is
  a function of the pass number, because `IOptionsMonitor` may reload it
  between passes. Whether a pass's runner call throws is another such
  function. The upper bound of the delay prompt is a parameter too:
  `int.MaxValue` as written, or the corrected bound under "Findings". The
  model covers:
  - `ReadInt`;
  - the URL override;
  - the blank-URL gate;
  - the "0"/"1" selection rules;
  - the Enter confirmation.

  The menu loop is a recursive function that returns the runs started and
  how the session ended. Lemmas connect every run the menu starts to the
  outcome of `LoadRunner.RunAsync`.

Only status codes 200 to 299 count as success: the code tests
`IsSuccessStatusCode` (ApiTestingApp/Runner.cs:99).

## Model

| member | source | states |
|---|---|---|
| Text.IsWhiteSpace | ApiTestingApp/Runner.cs:165 | the white space of `char.IsWhiteSpace`: U+0009 to U+000D, U+0020, U+0085, U+00A0 and the Unicode separators (Zs, Zl, Zp); a definition, used by `Trim` and `IsNullOrWhiteSpace` |
| Text.Trim | ApiTestingApp/Runner.cs:174 | `string.Trim`: the result is the slice of the input between its leading and trailing white space, and it neither starts nor ends with white space |
| Text.TrimBlank | ApiTestingApp/Menu.cs:30-31 | a string is blank exactly when trimming leaves nothing; trimming twice equals trimming once |
| Decimal.FormatD | ApiTestingApp/Runner.cs:139 | for a non-negative value, `ToString("D<w>")` gives only digits, zero-padded to at least `w` and never truncated; every number the core formats is non-negative |
| Decimal.DigitsFit | ApiTestingApp/Runner.cs:139 | a number below 10^w has at most `w` digits, so `D<w>` renders it in exactly `w` characters |
| Decimal.FormatRoundTrip | ApiTestingApp/Runner.cs:139 | reading a `D<w>`-formatted number back gives the number, for every width and every integer |
| PercentEncoding.Utf8 | ApiTestingApp/Runner.cs:167 | each character encodes to 1 to 4 bytes; exactly ASCII takes one byte, which equals the code; longer sequences hold only bytes >= 0x80 |
| PercentEncoding.Utf8RoundTrip | ApiTestingApp/Runner.cs:167 | UTF-8 decoding the encoding of any string gives the string back |
| PercentEncoding.EscapeDataString | ApiTestingApp/Runner.cs:167 | `Uri.EscapeDataString` output consists only of unreserved characters, '%' and upper-case hex digits, and is never shorter than the input |
| PercentEncoding.EscapeIdentity | ApiTestingApp/Runner.cs:167 | escaping leaves a string unchanged if and only if every character is unreserved in the sense of section 2.3 of RFC 3986 |
| PercentEncoding.EscapeIsEncodedUtf8 | ApiTestingApp/Runner.cs:167 | escaping a string is percent-encoding its UTF-8 bytes |
| PercentEncoding.PercentRoundTrip | ApiTestingApp/Runner.cs:167 | percent-decoding the percent-encoding of any byte sequence gives it back |
| PercentEncoding.EscapeRoundTrip | ApiTestingApp/Runner.cs:167 | decoding an escaped string gives its UTF-8 bytes, and decoding those gives the string |
| Requests.CarriesBody | ApiTestingApp/Runner.cs:146-150 | POST, PUT, PATCH and DELETE, compared ignoring case as `HttpMethod` equality does; a definition, used by `BuildRequest` |
| Requests.MeasurementId | ApiTestingApp/Runner.cs:139 | for worker ids below 1000 and indices below 100000 the id is exactly `DDD-DDDDD`: nine characters, three digits, a dash, five digits |
| Requests.MeasurementIdRoundTrip | ApiTestingApp/Runner.cs:139 | for a non-negative worker id, the measurement id splits at its first '-' into the worker id (at least 3 digits) and the index |
| Requests.AppendQuery | ApiTestingApp/Runner.cs:163-168 | a null, empty or white-space value leaves the URL unchanged; the URL is always a prefix of the result; otherwise the next character is '&' if the URL holds a '?' anywhere, else '?' |
| Requests.AppendQueryReadsBack | ApiTestingApp/Runner.cs:166-167 | for a non-blank value, splitting at the last separator gives back the original URL, the separator, and the UTF-8 bytes of the name and the value |
| Requests.AppendUnreservedVerbatim | ApiTestingApp/Runner.cs:167 | with an all-unreserved name and value, the result is `url + sep + name + "=" + value` literally |
| Requests.BuildRequest | ApiTestingApp/Runner.cs:134-161 | a JSON body exactly for POST/PUT/PATCH/DELETE (case-insensitively); that body carries `(thread, index)`, the boot key verbatim (null included), the clock reading and the measurement id, with the URL untouched; other methods get the URL with the boot key appended as a query parameter |
| Requests.BuildRequestReadsBack | ApiTestingApp/Runner.cs:138-160 | the payload's measurement id parses back to `(workerId, idx)`; for a bodyless method the URL changes if and only if the key is not blank, and its last query parameter reads back as `bootKey` = the key |
| Worker.IsSuccessStatusCode | ApiTestingApp/Runner.cs:99 | `HttpResponseMessage.IsSuccessStatusCode`: status 200 to 299 inclusive; a definition, used by `EntryFor` and `Counted` |
| Worker.SafeRead | ApiTestingApp/Runner.cs:170-180 | an unreadable body gives ""; the result never starts or ends with white space, and for a readable body it is empty exactly when the body is blank |
| Worker.TagReadsBack | ApiTestingApp/Runner.cs:104 | the `[id:i] ` prefix of an entry reads back as `(id, i)` whatever follows it |
| Worker.StatusEntry | ApiTestingApp/Runner.cs:104 | the entry of a non-2xx response: tag, "HTTP", the status number, the reason phrase (null as nothing), " - " and the trimmed body; a definition, whose tag `EntryTagged` reads back |
| Worker.FaultEntry | ApiTestingApp/Runner.cs:114 | the entry of an exception: tag, the exception's type name, ": " and its message; a definition, whose tag `EntryTagged` reads back |
| Worker.EntryFor | ApiTestingApp/Runner.cs:99-115 | an attempt enqueues an entry exactly when it counts as `bad`: a non-2xx status or an exception other than cancellation |
| Worker.EntryTagged | ApiTestingApp/Runner.cs:104-114 | both the status entry and the exception entry of attempt `i` of worker `id` are tagged `(id, i)` |
| Worker.MakeWorker | ApiTestingApp/Runner.cs:85-93 | the closure `MakeWorker(id)`: the worker keeps the run's bound and delay and builds its requests with `BuildRequest` for its own id; a definition, whose promise `Worker.MakeWorkerBuilds` and `Worker.RunBuildsInOrder` state |
| Worker.Counted | ApiTestingApp/Runner.cs:98-115 | an attempt that is not cancelled increments exactly one of `ok` and `bad`, adds one error exactly when it is `bad`, builds one request, and does not fault |
| Worker.Run | ApiTestingApp/Runner.cs:89-128 | the loop never counts more than the attempts left; the number of errors equals `bad`; at most one built request goes uncounted; the worker faults only on a delay `Task.Delay` rejects, due after an attempt before the last |
| Worker.TakeAttempt | ApiTestingApp/Runner.cs:93-127 | one pass of the loop body: a cancelled send breaks with nothing counted; otherwise the attempt is counted; when a delay is due (`i < requestsPerThread`, delay > 0) a rejected one throws and a cancelled one breaks |
| Worker.RunWorker | ApiTestingApp/Runner.cs:85-131 | the `for` loop computes the recursive definition; `ok + bad <= requestsPerThread` and one error per `bad` |
| Worker.RunWithoutCancellation | ApiTestingApp/Runner.cs:87-130 | with no cancellation and no rejected delay, `ok + bad` equals the number of attempts, `ok` counts the 2xx responses, one request is built per attempt, and the worker does not fault |
| Worker.RunStopsAtFirstCancellation | ApiTestingApp/Runner.cs:89-128 | when attempt `k` is the first that does not go on, exactly the attempts before it are counted, plus `k` itself unless the loop test or the send saw the cancellation; the worker faults exactly when `k` was counted and its due delay was rejected |
| Worker.FailedAttempts | ApiTestingApp/Runner.cs:99-115 | a list of attempts that count as `bad`, each within the loop's range, in strictly increasing order |
| Worker.RunErrors | ApiTestingApp/Runner.cs:99-115 | the worker's error list is exactly the entries of its failed attempts, in attempt order |
| Worker.RunEntries | ApiTestingApp/Runner.cs:104-114 | every entry of worker `id` is tagged with `id` and an attempt index in range, is that attempt's entry, and the indices strictly increase |
| Worker.RunBuildsInOrder | ApiTestingApp/Runner.cs:89-98 | the k-th request built is the one for attempt `i + k` at that attempt's clock reading |
| Worker.MakeWorkerBuilds | ApiTestingApp/Runner.cs:85-93 | the k-th request worker `id` builds is `BuildRequest(method, url, bootKey, id, k + 1, now)` |
| Worker.LongDelayFaults | ApiTestingApp/Runner.cs:117-127 | with a delay over the `Task.Delay` limit and two or more requests per worker, a worker that counts its first attempt then faults, having counted exactly one |
| Worker.Increment32 | ApiTestingApp/Runner.cs:89 | the unchecked `i++` on an `int` stays within `int` and goes down exactly when `i` was `int.MaxValue` |
| Worker.LoopIndex | ApiTestingApp/Runner.cs:89 | the source's loop index after `k` increments from 1 is always a valid `int` |
| Worker.LoopIndexAgrees | ApiTestingApp/Runner.cs:89 | below `int.MaxValue` increments, the source's index is `1 + k`, the model's unbounded index |
| Worker.LoopIndexOverruns | ApiTestingApp/Runner.cs:89 | the index never exceeds `int.MaxValue`, so `i <= int.MaxValue` always holds; it is `int.MaxValue` for attempt `int.MaxValue` and `int.MinValue` right after |
| LoadRunner.Workers | ApiTestingApp/Runner.cs:46 | one task per worker id `1..concurrency`; a task is cancelled exactly when its token was cancelled before it started; otherwise it holds that worker's loop result and is faulted exactly when that loop faulted |
| LoadRunner.Launch | ApiTestingApp/Runner.cs:46 | `Enumerable.Range(1, concurrency)` fails exactly for a negative count and otherwise gives `concurrency` tasks |
| LoadRunner.Fold | ApiTestingApp/Runner.cs:48-60 | a faulted task makes the fold throw, and only then; otherwise, when some task is cancelled, `WhenAll` throws a caught cancellation and both counts stay 0; otherwise they are the sums of the tallies |
| LoadRunner.SuccessRate | ApiTestingApp/Runner.cs:65 | 0 when `total` is 0; otherwise between 0 and 100 and exactly `success / total * 100` |
| LoadRunner.ErrorDisplay | ApiTestingApp/Runner.cs:76-81 | nothing for an empty queue; otherwise the header, the first `min(count, 10)` entries in queue order, and `...and count-10 more` only when count > 10 |
| LoadRunner.MoreLine | ApiTestingApp/Runner.cs:80 | the overflow line reads back as the number it reports |
| LoadRunner.Summarize | ApiTestingApp/Runner.cs:48-81 | for tasks none of which faulted: `total = success + fail`; zero counts after a cancelled task, the sums otherwise; the error lines are those of the queue |
| LoadRunner.RunAsync | ApiTestingApp/Runner.cs:15-83 | fails with the range error exactly for a negative concurrency, and with the delay error exactly when a started worker faulted, which needs a delay over the `Task.Delay` limit and at least two requests per worker; otherwise `total <= concurrency * requestsPerThread` and the errors shown are those of the queue |
| LoadRunner.EntriesMatchBad | ApiTestingApp/Runner.cs:99-115 | the workers together enqueue exactly as many entries as their `bad` counts add up to |
| LoadRunner.QueueMatchesFail | ApiTestingApp/Runner.cs:48-81 | with no cancelled or faulted task, the queue holds exactly `fail` entries, and the overflow line reports `fail - 10` |
| LoadRunner.CanceledStartKeepsErrors | ApiTestingApp/Runner.cs:48-81 | after a cancelled task (none faulted), `total` and the rate are 0, yet errors are shown exactly when the workers that ran enqueued any |
| LoadRunner.SumBounded | ApiTestingApp/Runner.cs:50-55 | summing tallies of at most `n` each gives at most `tasks * n` |
| LoadRunner.SumExact | ApiTestingApp/Runner.cs:50-55 | summing tallies of exactly `n` each gives `tasks * n` |
| LoadRunner.TotalBounded | ApiTestingApp/Runner.cs:46-63 | a run that prints a summary never counts more than `concurrency * requestsPerThread` requests |
| LoadRunner.TotalWithoutCancellation | ApiTestingApp/Runner.cs:46-63 | with every worker started and never cancelled or rejected at a delay, no task is cancelled or faulted and the tallies add up to exactly `concurrency * requestsPerThread`, which is the total `Summarize` reports |
| LoadRunner.FaultNeedsRejectedDelay | ApiTestingApp/Runner.cs:117-127 | a faulted task means the delay exceeds the `Task.Delay` limit and there are at least two requests per worker |
| LoadRunner.NoFaultWithinLimit | ApiTestingApp/Runner.cs:117-127 | a delay `Task.Delay` accepts never faults a worker |
| LoadRunner.LongDelayFails | ApiTestingApp/Runner.cs:48-60 | a run whose first worker starts and counts its first attempt, with a delay over the limit and a second attempt due, throws instead of printing a summary |
| Menu.ReadInt | ApiTestingApp/Menu.cs:60-70 | skips every line that is neither blank nor an acceptable integer; the first blank line gives the default, the first line parsed within `[min, max]` gives its value, and running out of lines (null) gives the default |
| Menu.ReadIntInRange | ApiTestingApp/Menu.cs:66-67 | the result is the default or within bounds; so a default within bounds keeps every result within them |
| Menu.ResolveUrl | ApiTestingApp/Menu.cs:27-31 | the trimmed override when it is not blank (then the URL is not blank), else the configured URL, with null as "" |
| Menu.OverrideBlank | ApiTestingApp/Menu.cs:30-31 | trimming preserves blankness, so testing the trimmed override is testing the raw line |
| Menu.DelayLimitExact | ApiTestingApp/Menu.cs:45-54 | `TimeSpan.FromSeconds(delaySec)` is more than `Task.Delay` accepts exactly when `delaySec > 4294967` |
| Menu.ReadSettings | ApiTestingApp/Menu.cs:40-45 | the boot key is the next line (null at the end); concurrency and requests per thread end up in `[1, int.MaxValue]`, the delay in `[0, bound]` |
| Menu.MenuRound | ApiTestingApp/Menu.cs:22-56 | "0" and only "0" returns; a selection other than "0" or "1" uses one line and redisplays the menu; a run starts if and only if the selection is "1", the URL resolved against this pass's configuration is not blank and the first key is Enter, and that run is sane; a crash only follows a started run whose call throws; counts of Enter keys and "1" lines drop by one per run |
| Menu.StartRound | ApiTestingApp/Menu.cs:26-56 | after "1", a run starts if and only if the resolved URL is not blank and the first key is Enter; a blank URL or another key starts nothing; a runner call that throws ends the menu, and only such a call does; running out of keys leaves the menu waiting for one |
| Menu.MenuLoop | ApiTestingApp/Menu.cs:15-57 | every run started has a non-blank URL, positive counts and a delay within the bound; there are never more runs than Enter keys or "1" selections; a crash comes after at least one run; with no lines left the loop spins with no run; "0" first exits with no run |
| Menu.SessionRunsLaunch | ApiTestingApp/Menu.cs:43-54 | every run the menu starts launches without the `Enumerable.Range` failure, with one task per requested worker |
| Menu.RunOutcome | ApiTestingApp/Menu.cs:54 | a run the menu can start gives `RunAsync` either a summary with `total <= concurrency * requestsPerThread` or the delay error with a delay above 4294967 s, and the summary whenever the delay is at most that |
| Menu.RunCompletes | ApiTestingApp/Menu.cs:45-54 | with the delay prompt bounded by the timer's limit, every run the menu starts ends with a summary |
| Menu.DefaultRun | ApiTestingApp/Menu.cs:15-57 | "1", blank answers to every prompt, Enter, any key, then "0" give one run of the configured URL with concurrency 1, one request, a 30 s delay and an empty key, then an exit |

## Left out

- The stop watcher (`Console.KeyAvailable`, `Thread.Sleep`, `cts.Cancel`) is console I/O on a background thread. Its effect enters the model only as cancellation in each worker's environment and as whether a worker's task started.
- Parallel execution, `Interlocked` and the `ConcurrentQueue` are not modelled as such. Workers are independent and folded once. The queue order across workers is an input, constrained to be a permutation of the entries.
- `HttpClient` and its handler configuration are foreign calls. So is `SendAsync`: each attempt's outcome (status, reason, body read, exception, cancellation) is an input. A client timeout surfaces as a cancellation, as it does in .NET.
- `JsonContent.Create`: the body is the payload value itself; serialisation is not modelled.
- `DateTime.UtcNow`: the clock reading is an input per attempt. Elapsed time and requests per second are not modelled.
- The success rate is an exact rational number, not a `double`; `F2` formatting is not modelled.
- Console output other than the error lines is not modelled: the title, prompts, the summary printout and the validation message of `ReadInt`.
- `int.TryParse` is an abstract partial parser. Its culture rules, and the validation of the method token by `HttpMethod`, are not modelled.
- `long` overflow of the tallies is not modelled; counts are unbounded naturals. Worker ids are at most `concurrency`, so they fit in `int`.
- Worker.Run: the attempt index is unbounded, so for `requestsPerThread == int.MaxValue` the model stops after `int.MaxValue` attempts where the source's `int` index wraps and the loop never ends (see "Findings"); below that bound the two agree (`LoopIndexAgrees`).
- Decimal.FormatD: a negative value gets '-', the invariant culture's negative sign; `{n:Dw}` and `ToString()` use the current culture's sign, which may differ. The core formats only non-negative numbers.
- Lone surrogate characters cannot occur: Dafny `char` is a Unicode scalar value. .NET 5 and later escape such a character as U+FFFD (`%EF%BF%BD`) rather than throwing.
- The `TimeSpan` to `Task.Delay` conversion uses whole milliseconds of the ticks (`(long)TotalMilliseconds`); the floating-point rounding of `TotalMilliseconds` is not modelled.
- Reading a null selection forever: at the end of the input the menu keeps going round (`sel` is null, so not "1"). The model ends the session there with `Spinning` instead of unrolling an endless loop.
- Menu.MenuLoop: whether a pass's runner call throws is an input per pass, not computed from that run's workers; `RunOutcome` states when `RunAsync` can throw for a run the menu starts.
- The call at ApiTestingApp/Menu.cs:54 passes no `HttpMethod` argument, though `ILoadRunner.RunAsync` takes one. The model takes the method as a parameter of the menu session.
- ApiTestingApp/Program.cs (host and dependency-injection wiring) and WebApplication1 (a demo endpoint) are not part of this model.
- LoadRunner.RunAsync: states the two failures, the total bound and the error lines; the exact counts are stated by Summarize and the lemmas about it.

## Findings

| source | as written | input that shows it | evidently intended | confidence | as-written member | corrected member |
|---|---|---|---|---|---|---|
| ApiTestingApp/Runner.cs:89 | the loop index is an `int` advanced by an unchecked `i++` and tested with `i <= requestsPerThread` | "2147483647" requests per thread at the prompt (ApiTestingApp/Menu.cs:44 allows it) and no 'S': after attempt 2147483647 `i` wraps to `int.MinValue`, the test passes again, and the worker never stops | each worker makes at most `requestsPerThread` attempts | high; not executed | Worker.LoopIndexOverruns | Worker.Run |
| ApiTestingApp/Menu.cs:45 | the delay prompt accepts up to `int.MaxValue` seconds, while `Task.Delay` (ApiTestingApp/Runner.cs:121) throws `ArgumentOutOfRangeException` above 4294967294 ms and only `OperationCanceledException` is caught (ApiTestingApp/Runner.cs:123, ApiTestingApp/Runner.cs:57) | delay "4294968", requests per thread "2", Enter, no 'S': every started worker counts attempt 1, then throws at its delay; `RunAsync` rethrows and the exception leaves the menu at ApiTestingApp/Menu.cs:54 | the prompt bounded by what `Task.Delay` accepts (4294967 s), so every confirmed run ends with a summary | high: .NET 6 and later reject above 4294967294 ms, earlier versions above `int.MaxValue` ms, so the input fails on all of them (the exact bound is that of .NET 6 and later); not executed | LoadRunner.LongDelayFails | Menu.RunCompletes |
