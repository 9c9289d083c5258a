/** `ConsoleMenu`: the menu loop that reads a selection, resolves the
    target URL, reads the boot key and three integers, asks for an Enter
    confirmation and hands the run to the load runner. The console is
    replaced by its input: the lines `ReadLine` returns (past the end it
    returns null) and the keys `ReadKey` returns. `int.TryParse` is a
    parameter: any partial parser of a line. So are the configured URL,
    which `IOptionsMonitor` may reload between passes, and whether the
    runner call of a pass throws. */
module Menu {
  import opened Wrappers
  import opened Text
  import opened Requests
  import opened Worker
  import LoadRunner

  /** `Console.ReadLine` on the remaining input: the next line, or null at
      the end of the input, which then stays at its end. */
  function ReadLine(lines: seq<string>): (r: (Option<string>, seq<string>))
    ensures lines == [] ==> r == (None, [])
    ensures lines != [] ==> r == (Some(lines[0]), lines[1..])
  {
    if lines == [] then (None, []) else (Some(lines[0]), lines[1..])
  }

  // --------------------------------------------------------------- ReadInt

  /** A line `ReadInt` accepts: not blank, parsed, and within the bounds. */
  predicate Accepts(parse: string -> Option<int>, min: int, max: int, line: string) {
    !IsBlank(line) && parse(line).Some? && min <= parse(line).value <= max
  }

  /** A line that ends `ReadInt`'s loop: a blank one or an accepted one. */
  predicate Decides(parse: string -> Option<int>, min: int, max: int, line: string) {
    IsBlank(line) || Accepts(parse, min, max, line)
  }

  /** The value `ReadInt` returns and the number of lines it consumed. */
  datatype ReadOutcome = ReadOutcome(value: int, consumed: nat)

  /** `ReadInt(prompt, default, min, max)`: re-prompts past every line that
      is neither blank nor an acceptable integer; a blank line or the end
      of the input (a null line) gives the default, unchecked against the
      bounds; the first acceptable line gives its value. */
  function ReadInt(lines: seq<string>, default: int, min: int, max: int, parse: string -> Option<int>): (r: ReadOutcome)
    ensures r.consumed <= |lines|
    ensures forall j :: 0 <= j < r.consumed - 1 ==> !Decides(parse, min, max, lines[j])
    ensures r.consumed > 0 && Decides(parse, min, max, lines[r.consumed - 1]) ==>
      r.value == if IsBlank(lines[r.consumed - 1]) then default else parse(lines[r.consumed - 1]).value
    ensures r.consumed == 0 || !Decides(parse, min, max, lines[r.consumed - 1]) ==>
      r.consumed == |lines| && r.value == default
    decreases |lines|
  {
    if lines == [] then ReadOutcome(default, 0)
    else if IsBlank(lines[0]) then ReadOutcome(default, 1)
    else if Accepts(parse, min, max, lines[0]) then ReadOutcome(parse(lines[0]).value, 1)
    else
      var rest := ReadInt(lines[1..], default, min, max, parse);
      assert forall j :: 1 <= j < rest.consumed + 1 ==> lines[j] == lines[1..][j - 1];
      ReadOutcome(rest.value, rest.consumed + 1)
  }

  /** `ReadInt` only ever returns the default or a value within the
      bounds; so a default within the bounds keeps every result there. */
  lemma {:induction false} ReadIntInRange(lines: seq<string>, default: int, min: int, max: int, parse: string -> Option<int>)
    ensures var v := ReadInt(lines, default, min, max, parse).value;
      v == default || min <= v <= max
    ensures min <= default <= max ==> min <= ReadInt(lines, default, min, max, parse).value <= max
    decreases |lines|
  {
    if lines != [] && !IsBlank(lines[0]) && !Accepts(parse, min, max, lines[0]) {
      ReadIntInRange(lines[1..], default, min, max, parse);
    }
  }

  // ------------------------------------------------------------ target URL

  /** The URL a run targets: the trimmed override when it is not blank,
      otherwise the configured URL, a null one read as "". */
  function ResolveUrl(overrideLine: Option<string>, configUrl: Option<string>): (url: string)
    ensures overrideLine.Some? && !IsBlank(overrideLine.value) ==> url == Trim(overrideLine.value) && !IsBlank(url)
    ensures overrideLine.None? || IsBlank(overrideLine.value) ==> url == configUrl.GetOr("")
  {
    var trimmed := if overrideLine.Some? then Some(Trim(overrideLine.value)) else None;
    assert overrideLine.Some? ==> (IsBlank(trimmed.value) <==> IsBlank(overrideLine.value)) by {
      if overrideLine.Some? {
        OverrideBlank(overrideLine.value);
      }
    }
    if IsNullOrBlank(trimmed) then configUrl.GetOr("") else trimmed.value
  }

  /** Trimming never turns a non-blank line blank nor a blank one non-blank. */
  lemma OverrideBlank(s: string)
    ensures IsBlank(Trim(s)) <==> IsBlank(s)
  {
    TrimBlank(s);
    var t := Trim(s);
    if t != [] {
      assert !IsWhiteSpace(t[0]);
    }
  }

  // ------------------------------------------------------------ the menu

  datatype ConsoleKey = Enter | OtherKey

  /** What the menu hands to `RunAsync`. */
  datatype RunRequest = RunRequest(
    url: string,
    bootKey: Option<string>,
    httpMethod: HttpMethod,
    concurrency: int,
    requestsPerThread: int,
    delaySeconds: int)

  /** How the menu stops: the user chose "0"; the input ended where a
      selection was due (the loop then spins on null forever); a key was
      due and none was left; or the runner call threw and the exception
      left the menu. */
  datatype MenuEnd = Exited | Spinning | AwaitingKey | Crashed

  datatype Session = Session(runs: seq<RunRequest>, end: MenuEnd)

  /** The largest delay prompt answer whose `TimeSpan.FromSeconds`
      `Task.Delay` accepts: 4294967 seconds are 4294967000 ms, one more
      second exceeds `MaxDelayMilliseconds`. */
  const MaxDelaySeconds := 4_294_967

  /** The upper bound the delay prompt passes to `ReadInt`: `int.MaxValue`
      as the source writes it, or the timer's limit. */
  datatype DelayBound = IntBound | TimerBound

  function MaxDelay(b: DelayBound): (m: int)
    ensures 30 <= m <= IntMax
  {
    if b == IntBound then IntMax else MaxDelaySeconds
  }

  /** `TimeSpan.FromSeconds(delaySec)` is rejected by `Task.Delay` exactly
      above `MaxDelaySeconds`. */
  lemma DelayLimitExact(seconds: int)
    requires seconds >= 0
    ensures RejectsDelay(seconds * TicksPerSecond) <==> seconds > MaxDelaySeconds
  {
    assert seconds * TicksPerSecond == (seconds * 1000) * TicksPerMillisecond;
    assert seconds * TicksPerSecond / TicksPerMillisecond == seconds * 1000;
  }

  /** The run parameters for `LoadRunner.RunAsync`, the delay converted from
      seconds to ticks. */
  function Parameters(run: RunRequest): RunParameters {
    RunParameters(run.url, run.bootKey, run.httpMethod, run.requestsPerThread, run.delaySeconds * TicksPerSecond)
  }

  /** A run the menu can start: a non-blank URL, at least one worker and one
      request per worker, a non-negative delay, all within `int`. */
  predicate Sane(run: RunRequest, httpMethod: HttpMethod) {
    && !IsBlank(run.url)
    && 1 <= run.concurrency <= IntMax
    && 1 <= run.requestsPerThread <= IntMax
    && 0 <= run.delaySeconds <= IntMax
    && run.httpMethod == httpMethod
  }

  /** A run the menu can start under a delay bound. */
  predicate Allowed(run: RunRequest, httpMethod: HttpMethod, bound: DelayBound) {
    Sane(run, httpMethod) && run.delaySeconds <= MaxDelay(bound)
  }

  function CountEnter(keys: seq<ConsoleKey>): nat {
    if keys == [] then 0 else (if keys[0] == Enter then 1 else 0) + CountEnter(keys[1..])
  }

  /** The number of "1" lines, the selection that starts a run. */
  function CountStart(lines: seq<string>): nat {
    if lines == [] then 0 else (if lines[0] == "1" then 1 else 0) + CountStart(lines[1..])
  }

  /** Dropping lines from the front never adds a "1". */
  lemma {:induction false} CountStartDrop(lines: seq<string>, k: nat)
    requires k <= |lines|
    ensures CountStart(lines[k..]) <= CountStart(lines)
    decreases k
  {
    if k > 0 {
      assert lines[1..][k - 1..] == lines[k..];
      CountStartDrop(lines[1..], k - 1);
    }
  }

  lemma EnterCounts(keys: seq<ConsoleKey>)
    ensures keys != [] ==> CountEnter(keys[1..]) <= CountEnter(keys)
    ensures |keys| >= 2 && keys[0] == Enter ==> CountEnter(keys[2..]) + 1 <= CountEnter(keys)
  {
    if |keys| >= 2 {
      assert keys[1..][1..] == keys[2..];
    }
  }

  /** The answers to the prompts after the URL: the boot key line, the
      three integers, and how many lines they took. */
  datatype Settings = Settings(key: Option<string>, concurrency: int, requestsPerThread: int, delaySeconds: int, consumed: nat)

  /** Reads the boot key, then `ReadInt` for the concurrency (default 1,
      at least 1), the requests per thread (default 1, at least 1) and the
      delay in seconds (default 30, at least 0, at most the bound). */
  function ReadSettings(lines: seq<string>, parse: string -> Option<int>, bound: DelayBound): (r: Settings)
    ensures 1 <= r.concurrency <= IntMax && 1 <= r.requestsPerThread <= IntMax && 0 <= r.delaySeconds <= MaxDelay(bound)
    ensures r.consumed <= |lines|
    ensures r.key == ReadLine(lines).0
  {
    var k0 := if lines == [] then 0 else 1;
    var concurrency := ReadInt(lines[k0..], 1, 1, IntMax, parse);
    var k1 := k0 + concurrency.consumed;
    var perThread := ReadInt(lines[k1..], 1, 1, IntMax, parse);
    var k2 := k1 + perThread.consumed;
    var delay := ReadInt(lines[k2..], 30, 0, MaxDelay(bound), parse);
    ReadIntInRange(lines[k0..], 1, 1, IntMax, parse);
    ReadIntInRange(lines[k1..], 1, 1, IntMax, parse);
    ReadIntInRange(lines[k2..], 30, 0, MaxDelay(bound), parse);
    Settings(ReadLine(lines).0, concurrency.value, perThread.value, delay.value, k2 + delay.consumed)
  }

  /** The lines the URL prompt leaves after a "1" selection. */
  function AfterUrl(lines: seq<string>): (k: nat)
    requires lines != []
    ensures 1 <= k <= |lines|
  {
    if |lines| == 1 then 1 else 2
  }

  /** How one pass of the menu loop ends: the method returns, throws or
      waits for ever, or the loop goes round again having used some lines
      and keys; either way a run may have been started on the way. */
  datatype Round =
    | Stop(end: MenuEnd, started: Option<RunRequest>)
    | Again(started: Option<RunRequest>, linesUsed: nat, keysUsed: nat)

  /** One pass of `ConsoleMenu.RunAsync`'s loop, from the selection prompt
      on, with the configured URL as this pass reads it, whether this
      pass's runner call throws, and the HTTP method the runner call needs:
      "0" returns and any selection other than "1" goes round again. */
  function MenuRound(lines: seq<string>, keys: seq<ConsoleKey>, configUrl: Option<string>, throws: bool,
                     httpMethod: HttpMethod, parse: string -> Option<int>, bound: DelayBound): (r: Round)
    requires lines != []
    ensures lines[0] == "0" <==> r == Stop(Exited, None)
    ensures r.Stop? ==> r.end != Spinning
    ensures r.Stop? && r.end == Crashed ==> r.started.Some? && throws
    ensures lines[0] != "0" && lines[0] != "1" ==> r == Again(None, 1, 0)
    ensures r.started.Some? ==>
      && lines[0] == "1" && keys != [] && keys[0] == Enter
      && Allowed(r.started.value, httpMethod, bound)
      && r.started.value.url == ResolveUrl(ReadLine(lines[1..]).0, configUrl)
    ensures lines[0] == "1" && !IsBlank(ResolveUrl(ReadLine(lines[1..]).0, configUrl)) && keys != [] && keys[0] == Enter
      ==> r.started.Some?
    ensures r.Again? ==> 1 <= r.linesUsed <= |lines| && r.keysUsed <= |keys| && !(r.started.Some? && throws)
    ensures r.Again? ==>
      CountEnter(keys[r.keysUsed..]) + (if r.started.Some? then 1 else 0) <= CountEnter(keys)
    ensures r.Again? ==>
      CountStart(lines[r.linesUsed..]) + (if r.started.Some? then 1 else 0) <= CountStart(lines)
  {
    if lines[0] == "0" then Stop(Exited, None)
    else if lines[0] != "1" then
      CountStartAfter(lines, 1);
      Again(None, 1, 0)
    else
      var r := StartRound(lines, keys, configUrl, throws, httpMethod, parse, bound);
      EnterCounts(keys);
      if r.Again? then CountStartAfter(lines, r.linesUsed); r else r
  }

  /** The rest of a pass after selection "1": a blank URL waits for a key
      and goes round again; otherwise the settings are read and the run
      starts only on Enter; a runner call that throws ends the menu, one
      that returns is followed by a wait for another key. */
  function StartRound(lines: seq<string>, keys: seq<ConsoleKey>, configUrl: Option<string>, throws: bool,
                      httpMethod: HttpMethod, parse: string -> Option<int>, bound: DelayBound): (r: Round)
    requires lines != [] && lines[0] == "1"
    ensures r.Stop? ==> r.end == AwaitingKey || r.end == Crashed
    ensures r.Stop? && r.started.None? ==> keys == [] && r.end == AwaitingKey
    ensures r.started.Some? && throws ==> r.Stop? && r.end == Crashed
    ensures r.Stop? && r.end == Crashed ==> r.started.Some? && throws
    ensures r.started.Some? ==>
      && keys != [] && keys[0] == Enter
      && Allowed(r.started.value, httpMethod, bound)
      && r.started.value.url == ResolveUrl(ReadLine(lines[1..]).0, configUrl)
    ensures !IsBlank(ResolveUrl(ReadLine(lines[1..]).0, configUrl)) && keys != [] && keys[0] == Enter ==> r.started.Some?
    ensures r.Again? ==> 1 <= r.linesUsed <= |lines| && 1 <= r.keysUsed <= |keys|
    ensures r.Again? && r.started.Some? ==> r.keysUsed == 2
    ensures r.Again? && r.started.None? ==> r.keysUsed == 1
  {
    var url := ResolveUrl(ReadLine(lines[1..]).0, configUrl);
    var u := AfterUrl(lines);
    if IsBlank(url) then
      if keys == [] then Stop(AwaitingKey, None) else Again(None, u, 1)
    else
      var settings := ReadSettings(lines[u..], parse, bound);
      var next := u + settings.consumed;
      if keys == [] then Stop(AwaitingKey, None)
      else if keys[0] != Enter then Again(None, next, 1)
      else
        var run := RunRequest(url, settings.key, httpMethod, settings.concurrency, settings.requestsPerThread, settings.delaySeconds);
        if throws then Stop(Crashed, Some(run))
        else if |keys| < 2 then Stop(AwaitingKey, Some(run))
        else Again(Some(run), next, 2)
  }

  /** Going round again after a pass that used `k` lines leaves one "1"
      selection fewer when the pass began with one. */
  lemma CountStartAfter(lines: seq<string>, k: nat)
    requires 1 <= k <= |lines|
    ensures CountStart(lines[k..]) + (if lines[0] == "1" then 1 else 0) <= CountStart(lines)
  {
    CountStartDrop(lines[1..], k - 1);
    assert lines[1..][k - 1..] == lines[k..];
  }

  function Started(r: Round): seq<RunRequest> {
    if r.started.Some? then [r.started.value] else []
  }

  /** `ConsoleMenu.RunAsync` from pass number `pass` on: the passes of the
      loop one after the other, pass `n` reading the configured URL
      `config(n)` and its runner call throwing when `throws(n)`. Every run
      it starts is sane, within the delay bound, and followed an Enter key
      and a "1" selection, so there are never more runs than either; the
      end of the input where a selection is due leaves the loop spinning
      on null lines; a crash ends the session right after a run. */
  function MenuLoop(lines: seq<string>, keys: seq<ConsoleKey>, config: nat -> Option<string>, throws: nat -> bool, pass: nat,
                    httpMethod: HttpMethod, parse: string -> Option<int>, bound: DelayBound): (s: Session)
    ensures forall k :: 0 <= k < |s.runs| ==> Allowed(s.runs[k], httpMethod, bound)
    ensures |s.runs| <= CountEnter(keys)
    ensures |s.runs| <= CountStart(lines)
    ensures s.end == Crashed ==> s.runs != []
    ensures lines == [] ==> s.runs == [] && s.end == Spinning
    ensures lines != [] && lines[0] == "0" ==> s.runs == [] && s.end == Exited
    decreases |lines|
  {
    if lines == [] then Session([], Spinning)
    else
      var r := MenuRound(lines, keys, config(pass), throws(pass), httpMethod, parse, bound);
      if r.Stop? then Session(Started(r), r.end)
      else
        var rest := MenuLoop(lines[r.linesUsed..], keys[r.keysUsed..], config, throws, pass + 1, httpMethod, parse, bound);
        Session(Started(r) + rest.runs, rest.end)
  }

  // ------------------------------------------------------------ the runs

  /** Every run the menu starts launches: its concurrency is positive, so
      `Enumerable.Range(1, concurrency)` cannot throw and one task per
      worker is started. */
  lemma SessionRunsLaunch(lines: seq<string>, keys: seq<ConsoleKey>, config: nat -> Option<string>, throws: nat -> bool, pass: nat,
                          httpMethod: HttpMethod, parse: string -> Option<int>, bound: DelayBound,
                          k: int, started: int -> bool, env: int -> int -> Attempt)
    requires 0 <= k < |MenuLoop(lines, keys, config, throws, pass, httpMethod, parse, bound).runs|
    ensures var run := MenuLoop(lines, keys, config, throws, pass, httpMethod, parse, bound).runs[k];
      var launched := LoadRunner.Launch(Parameters(run), run.concurrency, started, env);
      launched.Success? && |launched.value| == run.concurrency
  {
    var run := MenuLoop(lines, keys, config, throws, pass, httpMethod, parse, bound).runs[k];
    assert Allowed(run, httpMethod, bound);
  }

  /** What a run the menu starts comes to in `LoadRunner.RunAsync`: either a
      summary counting at most `concurrency * requestsPerThread` requests,
      or the exception of a delay above `MaxDelaySeconds`; and the summary
      whenever the delay is within it. */
  lemma RunOutcome(run: RunRequest, httpMethod: HttpMethod, started: int -> bool, env: int -> int -> Attempt, queue: seq<string>)
    requires Sane(run, httpMethod)
    requires multiset(queue) == multiset(LoadRunner.AllEntries(LoadRunner.Workers(Parameters(run), run.concurrency, started, env)))
    ensures var r := LoadRunner.RunAsync(Parameters(run), run.concurrency, started, env, queue);
      && (r.Success? ==> r.value.total <= run.concurrency * run.requestsPerThread)
      && (r.Failure? ==> r.error == LoadRunner.DelayOutOfRange && run.delaySeconds > MaxDelaySeconds)
      && (run.delaySeconds <= MaxDelaySeconds ==> r.Success?)
  {
    var p := Parameters(run);
    DelayLimitExact(run.delaySeconds);
    if run.delaySeconds <= MaxDelaySeconds {
      LoadRunner.NoFaultWithinLimit(p, run.concurrency, started, env);
    }
  }

  /** With the delay prompt bounded by the timer's limit, every run the menu
      starts completes with a summary: `RunAsync` never throws. */
  lemma RunCompletes(run: RunRequest, httpMethod: HttpMethod, started: int -> bool, env: int -> int -> Attempt, queue: seq<string>)
    requires Sane(run, httpMethod) && run.delaySeconds <= MaxDelay(TimerBound)
    requires multiset(queue) == multiset(LoadRunner.AllEntries(LoadRunner.Workers(Parameters(run), run.concurrency, started, env)))
    ensures LoadRunner.RunAsync(Parameters(run), run.concurrency, started, env, queue).Success?
  {
    RunOutcome(run, httpMethod, started, env, queue);
  }

  // ------------------------------------------------------------ a session

  /** Choosing "1", keeping the configured URL, an empty boot key and every
      default, confirming with Enter, then any key and "0": one run with
      one worker, one request and a 30 second delay, then the menu returns. */
  lemma DefaultRun(config: nat -> Option<string>, throws: nat -> bool, parse: string -> Option<int>, bound: DelayBound)
    requires config(0) == Some("http://host/api") && !throws(0)
    ensures MenuLoop(["1", "", "", "", "", "", "0"], [Enter, OtherKey], config, throws, 0, Post, parse, bound)
      == Session([RunRequest("http://host/api", Some(""), Post, 1, 1, 30)], Exited)
  {
    var lines := ["1", "", "", "", "", "", "0"];
    var keys := [Enter, OtherKey];
    var run := RunRequest("http://host/api", Some(""), Post, 1, 1, 30);
    DefaultRound(throws(0), parse, bound);
    LoopAgain(lines, keys, config, throws, 0, Post, parse, bound);
    assert lines[6..] == ["0"] && keys[2..] == [];
    var rest := MenuLoop(["0"], [], config, throws, 1, Post, parse, bound);
    assert rest.runs == [] && rest.end == Exited;
    assert Started(Again(Some(run), 6, 2)) + rest.runs == [run];
  }

  /** A pass that goes round again puts its run, if any, before the runs
      of the passes after it. */
  lemma LoopAgain(lines: seq<string>, keys: seq<ConsoleKey>, config: nat -> Option<string>, throws: nat -> bool, pass: nat,
                  httpMethod: HttpMethod, parse: string -> Option<int>, bound: DelayBound)
    requires lines != [] && MenuRound(lines, keys, config(pass), throws(pass), httpMethod, parse, bound).Again?
    ensures var r := MenuRound(lines, keys, config(pass), throws(pass), httpMethod, parse, bound);
      var rest := MenuLoop(lines[r.linesUsed..], keys[r.keysUsed..], config, throws, pass + 1, httpMethod, parse, bound);
      MenuLoop(lines, keys, config, throws, pass, httpMethod, parse, bound) == Session(Started(r) + rest.runs, rest.end)
  {
  }

  /** The pass of `DefaultRun`: it starts the run and leaves the "0". */
  lemma DefaultRound(throws: bool, parse: string -> Option<int>, bound: DelayBound)
    requires !throws
    ensures MenuRound(["1", "", "", "", "", "", "0"], [Enter, OtherKey], Some("http://host/api"), throws, Post, parse, bound)
      == Again(Some(RunRequest("http://host/api", Some(""), Post, 1, 1, 30)), 6, 2)
  {
    DefaultStart(throws, parse, bound);
  }

  lemma DefaultStart(throws: bool, parse: string -> Option<int>, bound: DelayBound)
    requires !throws
    ensures StartRound(["1", "", "", "", "", "", "0"], [Enter, OtherKey], Some("http://host/api"), throws, Post, parse, bound)
      == Again(Some(RunRequest("http://host/api", Some(""), Post, 1, 1, 30)), 6, 2)
  {
    var lines := ["1", "", "", "", "", "", "0"];
    assert lines[1..][0] == "" && lines[2..] == ["", "", "", "", "0"];
    DefaultUrl();
    DefaultSettings(parse, bound);
  }

  lemma DefaultUrl()
    ensures ResolveUrl(Some(""), Some("http://host/api")) == "http://host/api"
    ensures !IsBlank("http://host/api")
  {
    assert IsBlank("");
    var u := "http://host/api";
    assert u[0] == 'h' && !IsWhiteSpace(u[0]);
  }

  /** Blank answers to the boot key and the three integer prompts. */
  lemma DefaultSettings(parse: string -> Option<int>, bound: DelayBound)
    ensures ReadSettings(["", "", "", "", "0"], parse, bound) == Settings(Some(""), 1, 1, 30, 4)
  {
    var lines := ["", "", "", "", "0"];
    assert IsBlank("");
    assert lines[1..] == ["", "", "", "0"] && lines[2..] == ["", "", "0"] && lines[3..] == ["", "0"];
    assert ReadInt(lines[1..], 1, 1, IntMax, parse) == ReadOutcome(1, 1);
    assert ReadInt(lines[2..], 1, 1, IntMax, parse) == ReadOutcome(1, 1);
    assert ReadInt(lines[3..], 30, 0, MaxDelay(bound), parse) == ReadOutcome(30, 1);
  }
}
