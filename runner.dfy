/**
 * The test runner of app/test_runner.py: escape expansion, the wait for a
 * reply, the PASS / FAIL / TIMEOUT / ERROR classification, the executor of
 * one test (triggers, silent setup, the visible or manual command, silent
 * teardown) and the run loop with its stop flag.
 *
 * The ports, the clock and the GUI thread are the environment of a run. For
 * each test a `Conditions` value says whether the main port is open, whether
 * its writes raise, which lines arrive before the timeout, what the operator
 * answers and whether Stop is pressed; what the runner does in return is a
 * trace of `Event`s: echoes on the terminal queue, writes to either port,
 * results handed to `on_result`, and the final `on_done`.
 */
module Runner {
  import opened Results
  import opened PyStr
  import opened NumericChecks
  import opened TestCases

  datatype Status = Pass | Fail | Timeout | Error

  /** A finished test: the received text, and the failures the numeric checks reported (the duration is not modelled). */
  datatype TestResult = TestResult(test: TestCase, status: Status, actual: string, numeric: seq<Failure>)

  // ---------------------------------------------------------------------
  // Escape tokens in navigation commands
  // ---------------------------------------------------------------------

  const Esc: char := '\U{1B}'

  /** The token table: `<ESC>` becomes the escape control character. */
  const EscapeSequences: seq<(string, string)> := [("<ESC>", [Esc])]

  predicate TokensNonEmpty(table: seq<(string, string)>) {
    forall k :: 0 <= k < |table| ==> table[k].0 != []
  }

  /** The command after replacing the first `n` tokens of the table, in order. */
  function ExpandWith(table: seq<(string, string)>, n: nat, cmd: string): string
    requires n <= |table| && TokensNonEmpty(table)
  {
    if n == 0 then cmd else Replace(ExpandWith(table, n - 1, cmd), table[n - 1].0, table[n - 1].1)
  }

  /** The command with every token of the table expanded; no `<ESC>` token survives. */
  function Expanded(cmd: string): (r: string)
    ensures !Contains(r, EscapeSequences[0].0)
  {
    assert ExpandWith(EscapeSequences, 0, cmd) == cmd;
    ReplaceRemovesTarget(cmd, EscapeSequences[0].0, EscapeSequences[0].1);
    ExpandWith(EscapeSequences, |EscapeSequences|, cmd)
  }

  /** `_expand_escapes`: every token of the table replaced, one token after the other. */
  method ExpandEscapes(cmd: string) returns (r: string)
    ensures r == Expanded(cmd)
  {
    r := cmd;
    for k := 0 to |EscapeSequences|
      invariant r == ExpandWith(EscapeSequences, k, cmd)
    {
      r := Replace(r, EscapeSequences[k].0, EscapeSequences[k].1);
    }
  }

  /** A command without the token is sent as it is. */
  lemma ExpandedKeepsPlainText(cmd: string, token: string)
    requires token == "<ESC>" && !Contains(cmd, token)
    ensures Expanded(cmd) == cmd
  {
    assert EscapeSequences[0] == (token, [Esc]);
    assert ExpandWith(EscapeSequences, 0, cmd) == cmd;
    assert Expanded(cmd) == Replace(cmd, token, [Esc]);
  }

  // ---------------------------------------------------------------------
  // Waiting for the reply
  // ---------------------------------------------------------------------

  /** A received line ends the wait when the terminator is non-empty and occurs in it. */
  predicate Hit(line: string, terminator: string) {
    terminator != [] && Contains(line, terminator)
  }

  /** The index of the first line at or after `i` that ends the wait, or `|lines|`. */
  function FirstHit(lines: seq<string>, terminator: string, i: nat): (r: nat)
    requires i <= |lines|
    ensures i <= r <= |lines|
    ensures r < |lines| ==> Hit(lines[r], terminator)
    ensures forall j :: i <= j < r ==> !Hit(lines[j], terminator)
    decreases |lines| - i
  {
    if i == |lines| || Hit(lines[i], terminator) then i else FirstHit(lines, terminator, i + 1)
  }

  /** The lines kept by the wait, and whether the terminator was seen. */
  function Collected(incoming: seq<string>, terminator: string): (r: (seq<string>, bool))
    ensures r.0 <= incoming
    ensures r.1 ==> r.0 != [] && Hit(r.0[|r.0| - 1], terminator)
    ensures !r.1 ==> r.0 == incoming
  {
    var k := FirstHit(incoming, terminator, 0);
    if k < |incoming| then (incoming[..k + 1], true) else (incoming, false)
  }

  /**
   * The wait keeps the lines up to and including the first one holding the
   * terminator, and reports it seen; when no line holds it, it keeps
   * everything received before the timeout.
   */
  lemma CollectedKeepsUpToTerminator(incoming: seq<string>, terminator: string)
    ensures Collected(incoming, terminator).0 <= incoming
    ensures Collected(incoming, terminator).1 <==> exists k :: 0 <= k < |incoming| && Hit(incoming[k], terminator)
    ensures Collected(incoming, terminator).1 ==>
              var kept := Collected(incoming, terminator).0;
              kept != [] && Hit(kept[|kept| - 1], terminator)
    ensures forall k :: 0 <= k < |Collected(incoming, terminator).0| - 1 ==> !Hit(Collected(incoming, terminator).0[k], terminator)
    ensures !Collected(incoming, terminator).1 ==> Collected(incoming, terminator).0 == incoming
  {
    var k := FirstHit(incoming, terminator, 0);
    if k < |incoming| {
      assert Collected(incoming, terminator).0 == incoming[..k + 1];
    }
  }

  /** The collecting loop of `_execute_test`, over the lines captured before the timeout. */
  method CollectReply(incoming: seq<string>, terminator: string) returns (collected: seq<string>, found: bool)
    ensures (collected, found) == Collected(incoming, terminator)
  {
    collected := [];
    found := false;
    var i := 0;
    while i < |incoming|
      invariant 0 <= i <= |incoming|
      invariant collected == incoming[..i]
      invariant FirstHit(incoming, terminator, 0) == FirstHit(incoming, terminator, i)
    {
      collected := collected + [incoming[i]];
      if terminator != [] && Contains(incoming[i], terminator) {
        found := true;
        assert collected == incoming[..i + 1];
        assert FirstHit(incoming, terminator, i) == i;
        return;
      }
      i := i + 1;
    }
    assert collected == incoming;
  }

  // ---------------------------------------------------------------------
  // Classification
  // ---------------------------------------------------------------------

  /** The substrings the reply must contain: each non-blank line of the expected text, stripped. */
  function Patterns(expected: string): (ps: seq<string>)
    ensures forall k :: 0 <= k < |ps| ==> ps[k] != [] && Strip(ps[k]) == ps[k]
  {
    var lines := Split(expected, "\n");
    NonBlankStrippedEntries(lines, |lines|);
    NonBlankStripped(lines, |lines|)
  }

  predicate AllFound(patterns: seq<string>, text: string) {
    forall k :: 0 <= k < |patterns| ==> Contains(text, patterns[k])
  }

  /** The verdict of an automated test whose command was sent, from the kept lines and whether the terminator was seen. */
  function Classify(test: TestCase, found: bool, lines: seq<string>): (r: TestResult)
    ensures r.test == test && r.actual == Join("\n", lines)
    ensures r.status == Timeout <==> test.terminator != [] && !found
    ensures r.status != Error
  {
    var actual := Join("\n", lines);
    if !found && test.terminator != [] then TestResult(test, Timeout, actual, [])
    else
      var subOk := test.expected == [] || AllFound(Patterns(test.expected), actual);
      var failures := if test.numericChecks != [] then NumericFailures(test.numericChecks, actual) else [];
      TestResult(test, if subOk && failures == [] then Pass else Fail, actual, failures)
  }

  /** A test passes exactly when every expected line occurs in the reply and every numeric check holds. */
  lemma ClassifyPassIff(test: TestCase, found: bool, lines: seq<string>)
    requires !(test.terminator != [] && !found)
    ensures Classify(test, found, lines).status == Pass <==>
              AllFound(Patterns(test.expected), Join("\n", lines)) &&
              (test.numericChecks == [] || NumericFailures(test.numericChecks, Join("\n", lines)) == [])
  {
    if test.expected == [] {
      assert Split(test.expected, "\n") == [[]];
      assert Patterns(test.expected) == [];
    }
  }

  /** Numeric failures are reported only for a test that was not timed out and has checks, and they make it fail. */
  lemma ClassifyNumeric(test: TestCase, found: bool, lines: seq<string>)
    ensures Classify(test, found, lines).numeric != [] ==>
              test.numericChecks != [] && Classify(test, found, lines).status == Fail &&
              Classify(test, found, lines).numeric == NumericFailures(test.numericChecks, Join("\n", lines))
  {
  }

  /** A blank expected text never makes a test fail. */
  lemma BlankExpectedHasNoPatterns(expected: string)
    requires AllSpace(expected)
    ensures Patterns(expected) == []
  {
    SplitOfBlank(expected, "\n");
    NonBlankStrippedOfBlank(Split(expected, "\n"), |Split(expected, "\n")|);
  }

  /** The function rendering a numeric failure as a line of text; its wording is not modelled. */
  function Rendered(failures: seq<Failure>, render: Failure -> string): (lines: seq<string>)
    ensures |lines| == |failures|
    ensures forall k :: 0 <= k < |lines| ==> lines[k] == render(failures[k])
  {
    if failures == [] then [] else [render(failures[0])] + Rendered(failures[1..], render)
  }

  /** The `actual` text as reported: the reply, followed by the failed numeric checks when there are any. */
  function ReportedText(r: TestResult, render: Failure -> string): (t: string)
    ensures r.actual <= t
    ensures t == r.actual <==> r.numeric == []
    ensures r.numeric != [] ==> t == r.actual + "\n[numeric checks]\n" + Join("\n", Rendered(r.numeric, render))
  {
    if r.numeric == [] then r.actual
    else r.actual + "\n[numeric checks]\n" + Join("\n", Rendered(r.numeric, render))
  }

  // ---------------------------------------------------------------------
  // Executing one test
  // ---------------------------------------------------------------------

  datatype Port = Main | Trigger

  datatype Event =
    | Echo(text: string)               // a TX message put on the terminal queue
    | Sent(port: Port, text: string)   // a write to a port (the line ending is added by the handler)
    | Reported(result: TestResult)     // `on_result`
    | Done                             // `on_done`

  /**
   * What happens around one test: whether the main port is open when it
   * starts, whether a trigger port is given and open, whether the write of
   * the test command raises (and with what message), whether the writes of
   * the navigation commands raise, the lines captured before the
   * timeout, the operator's verdict on a manual test (`None` when Stop is
   * pressed first), and whether Stop is pressed while the test runs.
   */
  datatype Conditions = Conditions(
    connected: bool,
    triggerReady: bool,
    sendFault: Option<string>,
    silentFault: bool,
    reply: seq<string>,
    verdict: Option<(Status, string)>,
    stopPressed: bool)

  const BeforeSetup := "before_setup"
  const AfterSetup := "after_setup"
  const NotConnected := "Not connected"
  const StoppedWaiting := "Run stopped while waiting for manual verdict"
  const SendFailed := "Send failed: "

  predicate PortEvents(ev: seq<Event>) {
    forall k :: 0 <= k < |ev| ==> ev[k].Echo? || ev[k].Sent?
  }

  lemma PortEventsConcat(a: seq<Event>, b: seq<Event>, c: seq<Event>)
    requires PortEvents(a) && PortEvents(b) && PortEvents(c)
    ensures PortEvents(a + b + c)
  {
    forall k | 0 <= k < |a + b + c| ensures (a + b + c)[k].Echo? || (a + b + c)[k].Sent? {
      if k < |a| {
        assert (a + b + c)[k] == a[k];
      } else if k < |a| + |b| {
        assert (a + b + c)[k] == b[k - |a|];
      } else {
        assert (a + b + c)[k] == c[k - |a| - |b|];
      }
    }
  }

  /** The silent commands among the first `n`: each non-blank one, stripped and expanded, written to the main port unless writes raise. */
  function SilentSends(cmds: seq<string>, n: nat, fault: bool): (ev: seq<Event>)
    requires n <= |cmds|
    ensures forall k :: 0 <= k < |ev| ==> ev[k].Sent? && ev[k].port == Main
    ensures fault ==> ev == []
    ensures !fault ==>
              forall k :: 0 <= k < n && Strip(cmds[k]) != [] ==> Sent(Main, Expanded(Strip(cmds[k]))) in ev
  {
    if n == 0 then []
    else
      SilentSends(cmds, n - 1, fault) +
      (if Strip(cmds[n - 1]) != [] && !fault then [Sent(Main, Expanded(Strip(cmds[n - 1])))] else [])
  }

  /** The trigger commands among the first `n`: each non-blank one, stripped and expanded, written to the trigger port. */
  function TriggerSends(cmds: seq<string>, n: nat): (ev: seq<Event>)
    requires n <= |cmds|
    ensures |ev| <= n
    ensures forall k :: 0 <= k < |ev| ==> ev[k].Sent? && ev[k].port == Trigger
    ensures |ev| == |NonBlankStripped(cmds, n)|
    ensures forall k :: 0 <= k < |ev| ==> ev[k] == Sent(Trigger, Expanded(NonBlankStripped(cmds, n)[k]))
  {
    if n == 0 then []
    else
      var prev, kept := TriggerSends(cmds, n - 1), NonBlankStripped(cmds, n - 1);
      var last := if Strip(cmds[n - 1]) != [] then [Sent(Trigger, Expanded(Strip(cmds[n - 1])))] else [];
      assert NonBlankStripped(cmds, n) == kept + (if Strip(cmds[n - 1]) != [] then [Strip(cmds[n - 1])] else []);
      prev + last
  }

  /** Every non-blank trigger command among the first `n` is written, and every write is one of them. */
  lemma TriggerSendsEach(cmds: seq<string>, n: nat)
    requires n <= |cmds|
    ensures forall k :: 0 <= k < n && Strip(cmds[k]) != [] ==> Sent(Trigger, Expanded(Strip(cmds[k]))) in TriggerSends(cmds, n)
    ensures forall e :: e in TriggerSends(cmds, n) ==>
              exists j :: 0 <= j < n && Strip(cmds[j]) != [] && e == Sent(Trigger, Expanded(Strip(cmds[j])))
  {
    var ev, kept := TriggerSends(cmds, n), NonBlankStripped(cmds, n);
    NonBlankStrippedKeeps(cmds, n);
    NonBlankStrippedEntries(cmds, n);
    forall k | 0 <= k < n && Strip(cmds[k]) != [] ensures Sent(Trigger, Expanded(Strip(cmds[k]))) in ev {
      var i :| 0 <= i < |kept| && kept[i] == Strip(cmds[k]);
      assert ev[i] == Sent(Trigger, Expanded(Strip(cmds[k])));
    }
    forall e | e in ev
      ensures exists j :: 0 <= j < n && Strip(cmds[j]) != [] && e == Sent(Trigger, Expanded(Strip(cmds[j])))
    {
      var i :| 0 <= i < |ev| && ev[i] == e;
      var j :| 0 <= j < n && kept[i] == Strip(cmds[j]);
      assert Strip(cmds[j]) != [] && e == Sent(Trigger, Expanded(Strip(cmds[j])));
    }
  }

  /** Triggers fire only when a trigger port is given and open; write errors on it are ignored. */
  function Triggers(test: TestCase, c: Conditions): (ev: seq<Event>)
    ensures !c.triggerReady ==> ev == []
    ensures c.triggerReady ==>
              |ev| == |NonBlankStripped(test.triggerCommands, |test.triggerCommands|)| &&
              forall k :: 0 <= k < |ev| ==>
                ev[k] == Sent(Trigger, Expanded(NonBlankStripped(test.triggerCommands, |test.triggerCommands|)[k]))
  {
    if c.triggerReady then TriggerSends(test.triggerCommands, |test.triggerCommands|) else []
  }

  function Setup(test: TestCase, c: Conditions): seq<Event> {
    SilentSends(test.setupCommands, |test.setupCommands|, c.silentFault)
  }

  function Teardown(test: TestCase, c: Conditions): seq<Event> {
    SilentSends(test.teardownCommands, |test.teardownCommands|, c.silentFault)
  }

  /** Triggers before or after the silent setup, as the test's timing says; any other timing fires none. */
  function Preparation(test: TestCase, c: Conditions): seq<Event> {
    (if test.triggerTiming == BeforeSetup then Triggers(test, c) else []) +
    Setup(test, c) +
    (if test.triggerTiming == AfterSetup then Triggers(test, c) else [])
  }

  /** The test command is written and the write raises (a blank manual command is not written at all). */
  predicate SendFails(test: TestCase, c: Conditions) {
    c.sendFault.Some? && (!test.manual || Strip(test.command) != [])
  }

  /** The visible part of a test: its command echoed on the terminal queue, then written, unless it is a blank manual command. */
  function CommandEvents(test: TestCase, c: Conditions): (ev: seq<Event>)
    ensures |ev| <= 2
  {
    if test.manual && Strip(test.command) == [] then []
    else if SendFails(test, c) then [Echo(test.command)]
    else [Echo(test.command), Sent(Main, test.command)]
  }

  /** What `_execute_test` does, in order: preparation, the command, teardown; nothing when the port is closed. */
  function EventsOf(test: TestCase, c: Conditions): (ev: seq<Event>)
    ensures PortEvents(ev)
    ensures !c.connected ==> ev == []
  {
    PortEventsConcat(Preparation(test, c), CommandEvents(test, c), Teardown(test, c));
    if !c.connected then [] else Preparation(test, c) + CommandEvents(test, c) + Teardown(test, c)
  }

  /** The result of a test started on an open port: a failed write, the operator's verdict, or the classified reply. */
  function Executed(test: TestCase, c: Conditions): (r: TestResult)
    ensures r.test == test
    ensures SendFails(test, c) ==> r.status == Error
  {
    if SendFails(test, c) then TestResult(test, Error, SendFailed + c.sendFault.value, [])
    else if test.manual then
      match c.verdict
      case None => TestResult(test, Error, StoppedWaiting, [])
      case Some(v) => TestResult(test, v.0, v.1, [])
    else
      var kept := Collected(c.reply, test.terminator);
      Classify(test, kept.1, kept.0)
  }

  /** The result `_execute_test` returns. */
  function ResultOf(test: TestCase, c: Conditions): (r: TestResult)
    ensures r.test == test
    ensures !c.connected ==> r.status == Error && r.actual == NotConnected
  {
    if !c.connected then TestResult(test, Error, NotConnected, []) else Executed(test, c)
  }

  /** The runner's stop flag is set after this test: Stop was pressed, or the manual wait could only end by Stop. */
  predicate StopsAfter(test: TestCase, c: Conditions) {
    c.stopPressed || (c.connected && test.manual && !SendFails(test, c) && c.verdict.None?)
  }

  // ---------------------------------------------------------------------
  // The run
  // ---------------------------------------------------------------------

  /** What the executor does to one test: its traffic, its result, and whether the stop flag is set after it. */
  type Traffic = (TestCase, Conditions) -> seq<Event>
  type Outcome = (TestCase, Conditions) -> TestResult
  type Stopping = (TestCase, Conditions) -> bool

  /**
   * `_run_loop` from the `i`-th test on, for an executor described by
   * `events`, `result` and `stops`, with the stop flag `stop` as it is when
   * that test would start: the flag is looked at before each test and after
   * each result.
   */
  function RunWith(tests: seq<TestCase>, env: nat -> Conditions, i: nat, stop: bool,
                   events: Traffic, result: Outcome, stops: Stopping): (ev: seq<Event>)
    requires i <= |tests|
    ensures ev != [] && ev[|ev| - 1] == Done
    decreases |tests| - i
  {
    if i == |tests| || stop then [Done]
    else
      events(tests[i], env(i)) + [Reported(result(tests[i], env(i)))] +
      RunWith(tests, env, i + 1, stops(tests[i], env(i)), events, result, stops)
  }

  /** `_run_loop` with `_execute_test` as the executor. */
  function RunFrom(tests: seq<TestCase>, env: nat -> Conditions, i: nat, stop: bool): (ev: seq<Event>)
    requires i <= |tests|
    ensures ev != [] && ev[|ev| - 1] == Done
  {
    RunWith(tests, env, i, stop, EventsOf, ResultOf, StopsAfter)
  }

  /** How many tests are run from the `i`-th on: all of them, or up to and including the one after which the flag is set. */
  function RanWith(tests: seq<TestCase>, env: nat -> Conditions, i: nat, stop: bool, stops: Stopping): (n: nat)
    requires i <= |tests|
    ensures i + n <= |tests|
    decreases |tests| - i
  {
    if i == |tests| || stop then 0 else 1 + RanWith(tests, env, i + 1, stops(tests[i], env(i)), stops)
  }

  /**
   * A run ends early only right after a test during which the flag was set:
   * no test before that one set it, and a flag already set runs nothing.
   */
  lemma {:induction false} RanEndsAtStop(tests: seq<TestCase>, env: nat -> Conditions, i: nat, stop: bool, stops: Stopping)
    requires i <= |tests|
    ensures stop ==> RanWith(tests, env, i, stop, stops) == 0
    ensures forall k :: i <= k < i + RanWith(tests, env, i, stop, stops) - 1 ==> !stops(tests[k], env(k))
    ensures !stop && i + RanWith(tests, env, i, stop, stops) < |tests| ==>
              var n := RanWith(tests, env, i, stop, stops);
              n > 0 && stops(tests[i + n - 1], env(i + n - 1))
    decreases |tests| - i
  {
    if i < |tests| && !stop {
      RanEndsAtStop(tests, env, i + 1, stops(tests[i], env(i)), stops);
    }
  }

  function Last(trace: seq<Event>): Event
    requires trace != []
  {
    trace[|trace| - 1]
  }

  /** The results handed to `on_result`, in order. */
  function Reports(trace: seq<Event>): (rs: seq<TestResult>)
    ensures |rs| <= |trace|
  {
    if trace == [] then []
    else (if trace[0].Reported? then [trace[0].result] else []) + Reports(trace[1..])
  }

  /** The texts echoed on the terminal queue, in order. */
  function Echoes(trace: seq<Event>): (es: seq<string>)
    ensures |es| <= |trace|
  {
    if trace == [] then []
    else (if trace[0].Echo? then [trace[0].text] else []) + Echoes(trace[1..])
  }

  lemma {:induction false} ReportsAppend(a: seq<Event>, b: seq<Event>)
    ensures Reports(a + b) == Reports(a) + Reports(b)
  {
    if a != [] {
      assert (a + b)[0] == a[0] && (a + b)[1..] == a[1..] + b;
      ReportsAppend(a[1..], b);
    } else {
      assert a + b == b;
    }
  }

  lemma {:induction false} EchoesAppend(a: seq<Event>, b: seq<Event>)
    ensures Echoes(a + b) == Echoes(a) + Echoes(b)
  {
    if a != [] {
      assert (a + b)[0] == a[0] && (a + b)[1..] == a[1..] + b;
      EchoesAppend(a[1..], b);
    } else {
      assert a + b == b;
    }
  }

  lemma {:induction false} PortEventsReportNothing(ev: seq<Event>)
    requires PortEvents(ev)
    ensures Reports(ev) == []
  {
    if ev != [] {
      PortEventsReportNothing(ev[1..]);
    }
  }

  /** Silent commands are never echoed. */
  lemma {:induction false} SilentSendsEchoNothing(ev: seq<Event>)
    requires forall k :: 0 <= k < |ev| ==> ev[k].Sent?
    ensures Echoes(ev) == []
  {
    if ev != [] {
      SilentSendsEchoNothing(ev[1..]);
    }
  }


  /**
   * Only the test command is ever echoed on the terminal queue, once for a
   * test that reaches its send and not at all otherwise; setup, teardown and
   * trigger traffic stays off the terminal.
   */
  lemma OnlyCommandIsEchoed(test: TestCase, c: Conditions)
    ensures Echoes(EventsOf(test, c)) ==
              (if !c.connected || (test.manual && Strip(test.command) == []) then [] else [test.command])
  {
    if c.connected {
      var trig := Triggers(test, c);
      var a := if test.triggerTiming == BeforeSetup then trig else [];
      var b := if test.triggerTiming == AfterSetup then trig else [];
      var setup, cmd, td := Setup(test, c), CommandEvents(test, c), Teardown(test, c);
      SilentSendsEchoNothing(trig);
      SilentSendsEchoNothing(setup);
      SilentSendsEchoNothing(td);
      var pre := a + setup + b;
      assert Echoes(a) == [] && Echoes(b) == [];
      EchoesAppend(a, setup);
      EchoesAppend(a + setup, b);
      assert Echoes(pre) == [];
      EchoesAppend(pre, cmd);
      assert Echoes(pre + cmd) == Echoes(cmd);
      EchoesAppend(pre + cmd, td);
      assert EventsOf(test, c) == pre + cmd + td;
      CommandEchoes(test, c);
    }
  }

  /** The command part echoes the command, unless it is a blank manual command. */
  lemma CommandEchoes(test: TestCase, c: Conditions)
    ensures Echoes(CommandEvents(test, c)) == (if test.manual && Strip(test.command) == [] then [] else [test.command])
  {
    var cmd := CommandEvents(test, c);
    if cmd != [] {
      assert cmd[1..] == [] || cmd[1..] == [Sent(Main, test.command)];
    }
  }

  /** Once the port is found open, the teardown commands are attempted last, whatever happens to the test. */
  lemma TeardownComesLast(test: TestCase, c: Conditions)
    requires c.connected
    ensures |Teardown(test, c)| <= |EventsOf(test, c)|
    ensures EventsOf(test, c)[|EventsOf(test, c)| - |Teardown(test, c)|..] == Teardown(test, c)
  {
    var front := Preparation(test, c) + CommandEvents(test, c);
    assert EventsOf(test, c) == front + Teardown(test, c);
  }

  /**
   * A test whose command cannot be written still runs its teardown: the
   * command is echoed, nothing else of it happens, and the teardown follows;
   * when navigation writes succeed, every non-blank teardown command is written.
   */
  lemma TeardownAfterFailedSend(test: TestCase, c: Conditions)
    requires c.connected && SendFails(test, c)
    ensures EventsOf(test, c) == Preparation(test, c) + [Echo(test.command)] + Teardown(test, c)
    ensures ResultOf(test, c) == TestResult(test, Error, SendFailed + c.sendFault.value, [])
    ensures !c.silentFault ==>
              forall k :: 0 <= k < |test.teardownCommands| && Strip(test.teardownCommands[k]) != [] ==>
                Sent(Main, Expanded(Strip(test.teardownCommands[k]))) in EventsOf(test, c)
  {
    if !c.silentFault {
      var cmds := test.teardownCommands;
      assert forall k :: 0 <= k < |cmds| && Strip(cmds[k]) != [] ==> Sent(Main, Expanded(Strip(cmds[k]))) in Teardown(test, c);
    }
  }

  /** Nothing reaches the trigger port unless one is given and open and the timing names a place for the triggers. */
  lemma NoTriggerWithoutPort(test: TestCase, c: Conditions)
    requires !c.triggerReady || (test.triggerTiming != BeforeSetup && test.triggerTiming != AfterSetup)
    ensures forall k :: 0 <= k < |EventsOf(test, c)| ==> !(EventsOf(test, c)[k].Sent? && EventsOf(test, c)[k].port == Trigger)
  {
    if c.connected {
      assert Preparation(test, c) == Setup(test, c);
    }
  }

  /** A test whose port is closed sends nothing and is an error. */
  lemma ClosedPortSendsNothing(test: TestCase, c: Conditions)
    requires !c.connected
    ensures EventsOf(test, c) == [] && ResultOf(test, c) == TestResult(test, Error, NotConnected, [])
  {
  }

  /** An automated test times out exactly when it has a terminator that no line received before the timeout contains. */
  lemma AutomatedTimeoutIff(test: TestCase, c: Conditions)
    requires c.connected && !test.manual && c.sendFault.None?
    ensures ResultOf(test, c).status == Timeout <==>
              test.terminator != [] && forall k :: 0 <= k < |c.reply| ==> !Contains(c.reply[k], test.terminator)
  {
    var kept := Collected(c.reply, test.terminator);
    assert ResultOf(test, c) == Classify(test, kept.1, kept.0);
    CollectedKeepsUpToTerminator(c.reply, test.terminator);
  }

  /** An automated test is an error exactly when its port is closed or the write raises. */
  lemma AutomatedErrorIff(test: TestCase, c: Conditions)
    requires !test.manual
    ensures ResultOf(test, c).status == Error <==> !c.connected || c.sendFault.Some?
  {
    if c.connected && c.sendFault.None? {
      var kept := Collected(c.reply, test.terminator);
      assert ResultOf(test, c) == Classify(test, kept.1, kept.0);
    }
  }

  /** A manual test reports the operator's verdict as given; without one it ends as stopped, and the run stops after it. */
  lemma ManualVerdict(test: TestCase, c: Conditions)
    requires c.connected && test.manual && c.sendFault.None?
    ensures c.verdict.Some? ==>
              ResultOf(test, c) == TestResult(test, c.verdict.value.0, c.verdict.value.1, [])
    ensures c.verdict.None? ==>
              ResultOf(test, c) == TestResult(test, Error, StoppedWaiting, []) && StopsAfter(test, c)
  {
  }


  /**
   * `on_result` is called once per test that is run, in the order of the
   * list, with that test's result, for any executor whose traffic holds no
   * results of its own (`EventsOf` shows `_execute_test`'s does not).
   */
  lemma {:induction false} RunWithReportsInOrder(tests: seq<TestCase>, env: nat -> Conditions, i: nat, stop: bool,
                                                 events: Traffic, result: Outcome, stops: Stopping)
    requires i <= |tests|
    requires forall t, c :: PortEvents(events(t, c))
    ensures |Reports(RunWith(tests, env, i, stop, events, result, stops))| == RanWith(tests, env, i, stop, stops)
    ensures forall k :: 0 <= k < RanWith(tests, env, i, stop, stops) ==>
              Reports(RunWith(tests, env, i, stop, events, result, stops))[k] == result(tests[i + k], env(i + k))
    decreases |tests| - i
  {
    if i == |tests| || stop {
      assert Reports([Done]) == Reports([]) by { assert [Done][1..] == []; }
    } else {
      var ev, r := events(tests[i], env(i)), result(tests[i], env(i));
      var next := stops(tests[i], env(i));
      var rest := RunWith(tests, env, i + 1, next, events, result, stops);
      RunWithReportsInOrder(tests, env, i + 1, next, events, result, stops);
      PortEventsReportNothing(ev);
      ReportsAppend(ev, [Reported(r)]);
      ReportsAppend(ev + [Reported(r)], rest);
      assert Reports([Reported(r)]) == [r] by { assert [Reported(r)][1..] == []; }
      assert RunWith(tests, env, i, stop, events, result, stops) == ev + [Reported(r)] + rest;
      assert RanWith(tests, env, i, stop, stops) == 1 + RanWith(tests, env, i + 1, next, stops);
      ReportsShift(tests, env, i, result, Reports(rest), RanWith(tests, env, i + 1, next, stops));
    }
  }

  /** The reports of one more test: the results of tests `i`, `i + 1`, ... in order. */
  lemma ReportsShift(tests: seq<TestCase>, env: nat -> Conditions, i: nat, result: Outcome,
                     later: seq<TestResult>, n: nat)
    requires i + 1 + n <= |tests| && |later| == n
    requires forall j :: 0 <= j < n ==> later[j] == result(tests[i + 1 + j], env(i + 1 + j))
    ensures forall k :: 0 <= k < 1 + n ==> ([result(tests[i], env(i))] + later)[k] == result(tests[i + k], env(i + k))
  {
    var all := [result(tests[i], env(i))] + later;
    forall k | 0 < k < 1 + n ensures all[k] == result(tests[i + k], env(i + k)) {
      assert all[k] == later[k - 1];
      assert i + 1 + (k - 1) == i + k;
    }
  }

  /** `on_done` is called exactly once, after everything else. */
  lemma {:induction false} RunWithDoneOnceAtEnd(tests: seq<TestCase>, env: nat -> Conditions, i: nat, stop: bool,
                                                events: Traffic, result: Outcome, stops: Stopping)
    requires i <= |tests|
    requires forall t, c :: PortEvents(events(t, c))
    ensures RunWith(tests, env, i, stop, events, result, stops) != []
    ensures Last(RunWith(tests, env, i, stop, events, result, stops)) == Done
    ensures forall k :: 0 <= k < |RunWith(tests, env, i, stop, events, result, stops)| - 1 ==>
              !RunWith(tests, env, i, stop, events, result, stops)[k].Done?
    decreases |tests| - i
  {
    if i < |tests| && !stop {
      var ev := events(tests[i], env(i));
      var next := stops(tests[i], env(i));
      var rest := RunWith(tests, env, i + 1, next, events, result, stops);
      RunWithDoneOnceAtEnd(tests, env, i + 1, next, events, result, stops);
      var front: seq<Event> := ev + [Reported(result(tests[i], env(i)))];
      var whole: seq<Event> := front + rest;
      assert RunWith(tests, env, i, stop, events, result, stops) == whole;
      forall k | 0 <= k < |whole| - 1 ensures !whole[k].Done? {
        if k < |front| - 1 {
          assert whole[k] == ev[k];
        } else if k >= |front| {
          assert whole[k] == rest[k - |front|];
        }
      }
    }
  }

  /** `_run_loop` calls `on_result` with the result of each test it runs, in list order, and runs no more tests than listed. */
  lemma RunFromReports(tests: seq<TestCase>, env: nat -> Conditions)
    ensures var rs := Reports(RunFrom(tests, env, 0, false));
      |rs| <= |tests| && forall k :: 0 <= k < |rs| ==> rs[k] == ResultOf(tests[k], env(k))
  {
    assert forall t, c :: PortEvents(EventsOf(t, c));
    RunWithReportsFromStart(tests, env, EventsOf, ResultOf, StopsAfter);
  }

  /** A whole run reports the result of the `k`-th test `k`-th. */
  lemma RunWithReportsFromStart(tests: seq<TestCase>, env: nat -> Conditions,
                                events: Traffic, result: Outcome, stops: Stopping)
    requires forall t, c :: PortEvents(events(t, c))
    ensures var rs := Reports(RunWith(tests, env, 0, false, events, result, stops));
      |rs| <= |tests| && forall k :: 0 <= k < |rs| ==> rs[k] == result(tests[k], env(k))
  {
    RunWithReportsInOrder(tests, env, 0, false, events, result, stops);
    var rs := Reports(RunWith(tests, env, 0, false, events, result, stops));
    forall k | 0 <= k < |rs| ensures rs[k] == result(tests[k], env(k)) {
      assert rs[k] == result(tests[0 + k], env(0 + k));
    }
  }

  /** One round of the loop: what precedes the `i`-th test, then its traffic and result, then the rest of the run. */
  lemma RunWithStep(tests: seq<TestCase>, env: nat -> Conditions, i: nat,
                    events: Traffic, result: Outcome, stops: Stopping, before: seq<Event>)
    requires i < |tests|
    ensures before + RunWith(tests, env, i, false, events, result, stops) ==
            (before + events(tests[i], env(i)) + [Reported(result(tests[i], env(i)))]) +
            RunWith(tests, env, i + 1, stops(tests[i], env(i)), events, result, stops)
  {
  }


  class TestRunner {
    var stopRequested: bool

    constructor()
      ensures !stopRequested
    {
      stopRequested := false;
    }

    /** `stop`: ask the run to end at the next test boundary. */
    method Stop()
      modifies this
      ensures stopRequested
    {
      stopRequested := true;
    }

    /** The part of `run` done by the caller's thread: clear the stop event before the run starts. */
    method Start()
      modifies this
      ensures !stopRequested
    {
      stopRequested := false;
    }

    /** `_execute_silent`: write a navigation command without echoing it (the wait that follows has no effect on the model). */
    method ExecuteSilent(cmd: string, c: Conditions) returns (ev: seq<Event>)
      ensures !c.silentFault ==> ev == [Sent(Main, Expanded(cmd))]
      ensures c.silentFault ==> ev == []
    {
      if c.silentFault {
        return [];
      }
      var expanded := ExpandEscapes(cmd);
      ev := [Sent(Main, expanded)];
    }

    /** The loops over setup or teardown commands: each non-blank one, stripped. */
    method RunSilentCommands(cmds: seq<string>, c: Conditions) returns (ev: seq<Event>)
      ensures ev == SilentSends(cmds, |cmds|, c.silentFault)
    {
      ev := [];
      for k := 0 to |cmds|
        invariant ev == SilentSends(cmds, k, c.silentFault)
      {
        if Strip(cmds[k]) != [] {
          var sent := ExecuteSilent(Strip(cmds[k]), c);
          ev := ev + sent;
        }
      }
    }

    /** `_run_trigger_commands` with `_execute_trigger`. */
    method RunTriggerCommands(test: TestCase, c: Conditions) returns (ev: seq<Event>)
      ensures ev == Triggers(test, c)
    {
      ev := [];
      if c.triggerReady {
        var cmds := test.triggerCommands;
        for k := 0 to |cmds|
          invariant ev == TriggerSends(cmds, k)
        {
          var cmd := Strip(cmds[k]);
          if cmd != [] {
            var expanded := ExpandEscapes(cmd);
            ev := ev + [Sent(Trigger, expanded)];
          }
        }
      }
    }

    /** `_execute_manual`: send the command if there is one, wait for the verdict, tear down. */
    method ExecuteManual(test: TestCase, c: Conditions) returns (r: TestResult, ev: seq<Event>)
      requires test.manual
      ensures r == Executed(test, c)
      ensures ev == CommandEvents(test, c) + Teardown(test, c)
    {
      ev := [];
      if Strip(test.command) != [] {
        ev := [Echo(test.command)];
        if c.sendFault.Some? {
          var teardown := RunSilentCommands(test.teardownCommands, c);
          return TestResult(test, Error, SendFailed + c.sendFault.value, []), ev + teardown;
        }
        ev := ev + [Sent(Main, test.command)];
      }
      var teardown := RunSilentCommands(test.teardownCommands, c);
      match c.verdict {
        case None =>
          r := TestResult(test, Error, StoppedWaiting, []);
        case Some(v) =>
          r := TestResult(test, v.0, v.1, []);
      }
      ev := ev + teardown;
    }

    /** The automated part of `_execute_test`: echo and send the command, collect the reply, classify it, tear down. */
    method ExecuteAutomated(test: TestCase, c: Conditions) returns (r: TestResult, ev: seq<Event>)
      requires !test.manual
      ensures r == Executed(test, c)
      ensures ev == CommandEvents(test, c) + Teardown(test, c)
    {
      if c.sendFault.Some? {
        var teardown := RunSilentCommands(test.teardownCommands, c);
        assert CommandEvents(test, c) == [Echo(test.command)];
        return TestResult(test, Error, SendFailed + c.sendFault.value, []), [Echo(test.command)] + teardown;
      }
      var sent := [Echo(test.command), Sent(Main, test.command)];
      assert CommandEvents(test, c) == sent;
      var lines, found := CollectReply(c.reply, test.terminator);
      var actual := Join("\n", lines);
      var status;
      var failures := [];
      if !found && test.terminator != [] {
        status := Timeout;
      } else {
        var subOk := test.expected == [] || AllFound(Patterns(test.expected), actual);
        var numOk := true;
        if test.numericChecks != [] {
          numOk, failures := EvaluateNumericChecks(test.numericChecks, actual);
        }
        status := if subOk && numOk then Pass else Fail;
      }
      r := TestResult(test, status, actual, failures);
      assert r == Classify(test, found, lines);
      var teardown := RunSilentCommands(test.teardownCommands, c);
      ev := sent + teardown;
    }

    /** `_execute_test`. */
    method ExecuteTest(test: TestCase, c: Conditions) returns (r: TestResult, ev: seq<Event>)
      ensures r == ResultOf(test, c)
      ensures ev == EventsOf(test, c)
    {
      if !c.connected {
        return TestResult(test, Error, NotConnected, []), [];
      }
      var prepared := RunPreparation(test, c);
      var rest;
      if test.manual {
        r, rest := ExecuteManual(test, c);
      } else {
        r, rest := ExecuteAutomated(test, c);
      }
      ev := prepared + rest;
      assert ev == Preparation(test, c) + CommandEvents(test, c) + Teardown(test, c);
    }

    /** The start of `_execute_test`: triggers before setup, the silent setup, triggers after setup. */
    method RunPreparation(test: TestCase, c: Conditions) returns (ev: seq<Event>)
      ensures ev == Preparation(test, c)
    {
      ev := [];
      if test.triggerTiming == BeforeSetup {
        ev := RunTriggerCommands(test, c);
      }
      var setup := RunSilentCommands(test.setupCommands, c);
      ev := ev + setup;
      if test.triggerTiming == AfterSetup {
        var fired := RunTriggerCommands(test, c);
        ev := ev + fired;
      }
    }

    /** `_run_loop`: each test in turn until the stop flag is seen, then `on_done`; Stop pressed during a test is modelled by calling `Stop` after it. */
    method RunLoop(tests: seq<TestCase>, env: nat -> Conditions) returns (trace: seq<Event>)
      modifies this
      ensures trace == RunFrom(tests, env, 0, old(stopRequested))
    {
      trace := [];
      var i := 0;
      while i < |tests|
        invariant i <= |tests|
        invariant trace + RunFrom(tests, env, i, stopRequested) == RunFrom(tests, env, 0, old(stopRequested))
        decreases |tests| - i
      {
        if stopRequested {
          break;
        }
        var r, ev := ExecuteTest(tests[i], env(i));
        RunWithStep(tests, env, i, EventsOf, ResultOf, StopsAfter, trace);
        trace := trace + ev + [Reported(r)];
        if StopsAfter(tests[i], env(i)) {
          Stop();
        }
        i := i + 1;
        if stopRequested {
          break;
        }
      }
      trace := trace + [Done];
    }

    /** `run`: clear the stop flag, then run the loop. */
    method Run(tests: seq<TestCase>, env: nat -> Conditions) returns (trace: seq<Event>)
      modifies this
      ensures trace == RunFrom(tests, env, 0, false)
    {
      Start();
      trace := RunLoop(tests, env);
    }
  }
}
