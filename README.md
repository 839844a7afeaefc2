# Serial terminal test suite — a Dafny model

This project models the core of a desktop serial terminal that also runs test suites against a device on a serial port:

- **Test runner** (app/test_runner.py). It covers:
  - the `TestCase` record and its dictionary form;
  - escape expansion of navigation commands;
  - the numeric-check mini-language (`<prefix> <op> <value>` and `<prefix> in <lo>..<hi>`), with both of its regular expressions;
  - the automated, manual and silent executions of a test;
  - the loop that runs a list of tests until it is stopped.
- **Serial handler** (app/serial_handler.py). It covers:
  - the connected and capture state;
  - `send`;
  - the reader loop, which cuts received bytes into lines and hands them to the terminal queue and to the capture queue.
- **Command panel** (app/gui/command_panel.py): the command history. This is a bounded deque without consecutive repeats, with a cursor that Up and Down move through it.
- **Connection panel** (app/gui/connection_panel.py):
  - the port list and its display-text-to-device map;
  - the choice of the selected port;
  - translating the fields into connection settings;
  - the Connect/Disconnect button.
- **Test suite panel** (app/gui/test_suite_panel.py):
  - moving, deleting and enabling tests;
  - choosing the tests of a run;
  - the result counters fed by the runner's callbacks;
  - the row appended to the cumulative run log;
  - reading command lists back from the edit dialog.
- **Configuration tables** (app/config.py): baud rates, parities, stop bits, line endings and the defaults.

Each Python module is one Dafny module. The files are `results.dfy` (Option/Result), `pystr.dfy` (the Python `str` operations the core relies on), `config.dfy`, `testcase.dfy`, `numeric.dfy`, `runner.dfy`, `serial.dfy`, `command_panel.dfy`, `connection_panel.dfy` and `test_suite_panel.dfy`.

The Python objects that update their fields in place are Dafny classes:

- `SerialHandler`;
- `TestRunner`;
- `CommandPanel`;
- `ConnectionPanel`;
- `TestSuitePanel`.

Their methods are proved against pure functions of the old state. The properties are lemmas about those functions.

The runner's world is an input, not something the model simulates. For each test it receives:

- whether the port is open;
- whether a trigger port is given and open;
- whether the write of the test command raises, and with what error;
- whether the writes of the navigation commands raise;
- the lines captured before the timeout;
- the operator's verdict;
- whether Stop was pressed.

A run's observable behaviour is a trace of events:

- writes to a port;
- echoes on the terminal queue;
- results reported;
- the final `on_done`.

Both regular expressions of the numeric checks are explicit scanners. The scanners make the choices of Python's backtracking engine:

- the lazy `(.*?)` tries short prefixes first;
- the greedy `\s*` and `\s+` try long runs first;
- the alternation tries operators left to right.

`MatchCheckIsFirstMatch` proves that what the scanner returns is the first match in that order. One consequence, proved in `VinQuirk` and `VinNeverPasses`, is that the check line `Vin >= 3` is read as the range check `V in >= 3`. The lazy prefix stops at `V`, and `in` followed by a space already matches. The line therefore never passes, whatever the response: it fails because the prefix `V` is not found, because no number follows it, or because `>= 3` is not a range.

Numbers are exact reals, and `float()` is modelled for the text the number regex can produce.

## Model

| member | source | states |
|---|---|---|
| Config.Lookup | app/gui/connection_panel.py:145-151 | `dict.get(key, default)` gives the default when no entry has the key, and otherwise the value of an entry with that key |
| Config.Inverse | app/config.py:10-14 | the inverse table has one entry per entry of the table, with key and value exchanged |
| Config.LookupEntry | app/config.py:10-16 | in a table with distinct keys, looking up an entry's key yields that entry's value |
| Config.InverseUndoesLookup | app/config.py:10-14 | when keys and values are both distinct, looking a value up in the inverse table gives back its key |
| Config.TablesAreOneToOne | app/config.py:10-16 | the parity and stop-bit tables have distinct keys and distinct values; the line endings have distinct keys |
| Config.DefaultsAreInTables | app/config.py:7-34 | the default baud rate is one of the offered rates; the default parity `N` is named `None`, the default stop bits `1`, and the default line ending `CRLF` is the bytes CR LF |
| PyStr.Strip | app/test_runner.py:50 | `strip()` never lengthens the text, is empty exactly when the text is all whitespace, and leaves no whitespace at either end |
| PyStr.StripRemovesOuterSpace | app/test_runner.py:50 | the stripped text is a slice of the text whose outer parts are whitespace |
| PyStr.StripIsIdempotent | app/test_runner.py:50-61 | stripping twice is stripping once |
| PyStr.Find | app/test_runner.py:66 | `find` returns -1 or an index where the text occurs |
| PyStr.FindIsFirst | app/test_runner.py:66-67 | `find` misses no occurrence: it finds one at or before every index where the text occurs |
| PyStr.FindIffContains | app/test_runner.py:66-67 | `find` returns -1 exactly when the text does not contain the substring |
| PyStr.Join | app/test_runner.py:461 | `join` starts with the first part, followed by the separator when there is more than one part |
| PyStr.Split | app/test_runner.py:49 | `split` always yields at least one piece |
| PyStr.JoinSplit | app/test_runner.py:49 | joining the pieces of `split` with the separator gives back the text |
| PyStr.SplitPartsLackSeparator | app/test_runner.py:81 | no piece of `split` contains the separator |
| PyStr.SplitOfBlank | app/test_runner.py:45-52 | splitting blank text yields only blank pieces |
| PyStr.ReplaceRemovesTarget | app/test_runner.py:18-21 | after `replace`, no occurrence of the target is left when the replacement shares no character with it |
| PyStr.Replace | app/test_runner.py:18-21 | text without the target is left unchanged by `replace` |
| PyStr.NonBlankStripped | app/test_runner.py:452 | the comprehension keeps at most one entry per part |
| PyStr.NonBlankStrippedEntries | app/test_runner.py:452 | every kept entry is non-blank, already stripped, and the stripped form of one of the parts |
| PyStr.NonBlankStrippedKeeps | app/test_runner.py:452 | every non-blank part is kept in its stripped form |
| PyStr.NonBlankStrippedOfBlank | app/test_runner.py:452 | blank parts contribute no entry |
| PyStr.LineEnd | app/gui/test_suite_panel.py:362 | the first line boundary: no boundary before it, a boundary at it unless it is the end |
| PyStr.SplitLines | app/gui/test_suite_panel.py:362 | no line that `splitlines()` returns contains a line boundary |
| PyStr.ParseInt | app/test_runner.py:165 | `int()` accepts no blank text |
| PyStr.ParseIntOfText | app/test_runner.py:165 | `int(str(n)) == n` for every natural number |
| PyStr.NatToText | app/test_runner.py:165 | `str(n)` is non-empty decimal digits with value `n` and no leading zero |
| TestCases.ToDict | app/test_runner.py:139-155 | `to_dict` writes exactly the fourteen keys of the record |
| TestCases.IntOf | app/test_runner.py:165 | `int()` returns an integer unchanged and raises on a list |
| TestCases.BoolOf | app/test_runner.py:166 | `bool()` returns a boolean unchanged |
| TestCases.TextAt | app/test_runner.py:160-164 | a missing key gives the default and a text value is returned as it is |
| TestCases.ListAt | app/test_runner.py:168 | a missing key gives the empty list and a list value is returned as it is |
| TestCases.IntAt | app/test_runner.py:165 | a missing key gives the default |
| TestCases.BoolAt | app/test_runner.py:166-167 | a missing key gives the default |
| TestCases.FromDict | app/test_runner.py:157-174 | a dictionary without an id gets the fresh id and one with an id keeps it; a list stored as either timeout makes `from_dict` fail |
| TestCases.FromDictToDict | app/test_runner.py:139-174 | `from_dict(to_dict(tc))` gives back `tc` field for field, its id included |
| TestCases.FromEmptyDict | app/test_runner.py:157-174 | an empty dictionary gives the dataclass defaults with a fresh id |
| TestCases.MissingKeysTakeDefaults | app/test_runner.py:157-174 | every field whose key is missing takes the default `from_dict` names for it |
| TestCases.TimeoutAsText | app/test_runner.py:165 | a timeout stored as the decimal text of a number is read as that number |
| TestCases.ListTimeoutFails | app/test_runner.py:165 | a list stored as the timeout makes `from_dict` fail |
| NumericChecks.SpaceRun | app/test_runner.py:26 | the greedy `\s*` takes the whole run of whitespace: all of it is whitespace and the next character is not |
| NumericChecks.SpaceRunIsMaximal | app/test_runner.py:26 | every whitespace run is at most as long as the greedy one |
| NumericChecks.TailEnd | app/test_runner.py:26 | `$` matches at the end or before a final newline |
| NumericChecks.FirstSomeIsAttempt | app/test_runner.py:26 | the backtracking engine returns an alternative it reached, having gone past every earlier one |
| NumericChecks.FirstSomeReaches | app/test_runner.py:26 | an alternative that succeeds, with nothing stopping the engine before it, is found or beaten by an earlier one |
| NumericChecks.FirstSpaces | app/test_runner.py:26 | the greedy `\s+` before `(.+)$` settles on the longest run that lets the rest match, and on none when no run does |
| NumericChecks.OpAttempt | app/test_runner.py:26 | an operator attempt succeeds only with that operator followed by `\s+(.+)$` |
| NumericChecks.FirstOpFits | app/test_runner.py:26 | the alternation settles on an operator, not before the first one tried, that is followed by `\s+(.+)$` |
| NumericChecks.FirstOpIsFirst | app/test_runner.py:26 | whenever some operator fits, the alternation succeeds with an earlier operator, or with the same one and a space run at least as long |
| NumericChecks.OpAtChars | app/test_runner.py:26 | every operator starts with one of `> < ! = i`, and only `in` starts with `i` |
| NumericChecks.OpStartsWithNonSpace | app/test_runner.py:26 | no operator starts with whitespace |
| NumericChecks.GapIsForced | app/test_runner.py:26 | in any match, the `\s*` gap takes the whole whitespace run after the prefix |
| NumericChecks.AttemptAt | app/test_runner.py:26 | an attempt after a prefix of length `i` reports that prefix length |
| NumericChecks.AttemptAtFits | app/test_runner.py:26 | what succeeds after a prefix is the rest of the regex matching there |
| NumericChecks.FirstFitFits | app/test_runner.py:26 | what the lazy `(.*?)` search settles on is a match |
| NumericChecks.FirstFitIsFirst | app/test_runner.py:26 | whenever a match exists, the search finds one and no later one in backtracking order |
| NumericChecks.MatchCheck | app/test_runner.py:54-61 | when `_CHECK_RE` matches, the prefix group is a proper prefix of the line |
| NumericChecks.MatchCheckIsFirstMatch | app/test_runner.py:54-61 | `_CHECK_RE.match` fails exactly when no match exists, and otherwise gives the groups of the first match in backtracking order |
| NumericChecks.DigitRun | app/test_runner.py:28 | the digit run ends at the bound or before a non-digit |
| NumericChecks.DigitRunIsDigits | app/test_runner.py:28 | the digit run is made of digits |
| NumericChecks.DigitRunUnclipped | app/test_runner.py:28 | a digit run that ends before a bound does not depend on the bound |
| NumericChecks.FractionAt | app/test_runner.py:28 | the optional fraction group stays within the text |
| NumericChecks.ExponentAt | app/test_runner.py:28 | the optional exponent group stays within the text |
| NumericChecks.NumberAt | app/test_runner.py:28 | a number match stays within the text |
| NumericChecks.SearchNumber | app/test_runner.py:72 | `_NUMBER_RE.search` returns the leftmost position where a number matches, or nothing when none does |
| NumericChecks.ParseFloat | app/test_runner.py:86 | `float()` rejects blank text |
| NumericChecks.FloatAgreesWithInt | app/test_runner.py:95 | `float()` agrees with `int()` on every text `int()` accepts |
| NumericChecks.NumberPartsAreFloat | app/test_runner.py:72-78 | a sign, digits, the fraction group and the exponent group form text `float()` accepts |
| NumericChecks.NumberTextIsFloat | app/test_runner.py:72-78 | every match of the number regex is text that `float()` accepts |
| NumericChecks.FirstNumberFound | app/test_runner.py:72-78 | a number is found exactly when the number regex matches somewhere in the searched text |
| NumericChecks.SearchRegion | app/test_runner.py:63-70 | an empty prefix searches the whole response; otherwise the text after the first occurrence of the prefix, and nothing when it is absent |
| NumericChecks.SearchRegionIsAfterFirstOccurrence | app/test_runner.py:63-70 | the region is missing exactly when the response lacks the prefix, and otherwise starts right after its first occurrence |
| NumericChecks.CheckLine | app/test_runner.py:54-57 | a line is reported as bad syntax exactly when the check regex does not match it |
| NumericChecks.CheckMatched | app/test_runner.py:59-109 | a matched line never reports bad syntax |
| NumericChecks.CheckValue | app/test_runner.py:80-109 | the comparison stage reports only range, bound, threshold and comparison failures |
| NumericChecks.BadSyntaxIffNoMatch | app/test_runner.py:54-57 | a line is malformed exactly when the check regex cannot match it in any way |
| NumericChecks.PrefixNotFoundIffAbsent | app/test_runner.py:65-69 | a non-empty prefix is reported missing exactly when the response does not contain it |
| NumericChecks.NoNumberIffNoneAfterPrefix | app/test_runner.py:72-76 | once the prefix is found, "no number" is reported exactly when no number follows it |
| NumericChecks.ComparisonVerdict | app/test_runner.py:93-109 | a comparison passes exactly when the threshold parses and the comparison holds; the threshold is reported non-numeric exactly when it does not parse |
| NumericChecks.RangeVerdict | app/test_runner.py:80-92 | a range passes exactly when `lo..hi` splits into two numbers with `lo <= value <= hi`; it is a bad range exactly when it does not split in two |
| NumericChecks.VinChoice | app/test_runner.py:26 | on `Vin >= 3` the first match takes the prefix `V`, no gap, the operator `in` and one space |
| NumericChecks.VinQuirk | app/test_runner.py:54-61 | `Vin >= 3` is read as prefix `V`, operator `in`, right-hand side `>= 3` |
| NumericChecks.NoRangeSeparator | app/test_runner.py:81-83 | `>= 3` holds no `..`, so it splits into one piece |
| NumericChecks.VinNeverPasses | app/test_runner.py:54-92 | whatever the response, the line `Vin >= 3` fails: prefix not found, no number, or bad range |
| NumericChecks.LineVerdict | app/test_runner.py:50-109 | a raw line contributes at most one failure, and none exactly when it is blank or passes |
| NumericChecks.CollectLineFailures | app/test_runner.py:48-109 | the loop appends each line's verdict in line order |
| NumericChecks.EvaluateNumericChecks | app/test_runner.py:31-111 | the function returns the failures of all lines and reports success exactly when there are none |
| NumericChecks.LineFailuresEmpty | app/test_runner.py:48-111 | the lines pass together exactly when each of them passes |
| NumericChecks.LineFailuresBound | app/test_runner.py:48-111 | lines that each report at most one failure report at most one failure per line in all |
| NumericChecks.AtMostOneFailurePerLine | app/test_runner.py:49-111 | there are never more failures than lines |
| NumericChecks.EarlyExitIsShortcut | app/test_runner.py:45-46 | the early return on blank checks gives the same result as evaluating every line |
| NumericChecks.AllPassedIffEveryLinePasses | app/test_runner.py:31-111 | the checks pass exactly when every non-blank line passes |
| Runner.ExpandEscapes | app/test_runner.py:18-21 | the loop replaces every token of the escape table, one after the other |
| Runner.Expanded | app/test_runner.py:13-21 | no `<ESC>` token survives the expansion |
| Runner.ExpandedKeepsPlainText | app/test_runner.py:13-21 | a command without the token is sent as it is |
| Runner.FirstHit | app/test_runner.py:427-438 | the wait stops at the first line holding the terminator, and no earlier line holds it |
| Runner.Collected | app/test_runner.py:427-441 | the wait keeps a prefix of the received lines; when the terminator was seen the last kept line holds it; otherwise everything received is kept |
| Runner.CollectedKeepsUpToTerminator | app/test_runner.py:427-441 | the wait keeps a prefix of the received lines; the terminator is seen exactly when some line holds it; then the last kept line holds it and no earlier one does; otherwise everything received is kept |
| Runner.CollectReply | app/test_runner.py:427-441 | the collecting loop yields the kept lines and whether the terminator was seen |
| Runner.Classify | app/test_runner.py:445-465 | the verdict is for the test and carries the lines joined with newlines; it is TIMEOUT exactly when a terminator was set and not seen; it is never ERROR |
| Runner.Patterns | app/test_runner.py:451-453 | every pattern looked for is non-blank and already stripped |
| Runner.ClassifyPassIff | app/test_runner.py:450-465 | a test that did not time out passes exactly when every expected line occurs in the reply and the numeric checks (if any) all pass |
| Runner.ClassifyNumeric | app/test_runner.py:457-465 | numeric failures are reported only for a test with checks, they are that test's failures, and they make it fail |
| Runner.BlankExpectedHasNoPatterns | app/test_runner.py:451-453 | blank expected text yields no pattern to look for |
| Runner.Rendered | app/test_runner.py:461 | one rendered line per failure, in order |
| Runner.ReportedText | app/test_runner.py:460-461 | the reported text is the reply alone exactly when no numeric check failed; otherwise the reply, then `"\n[numeric checks]\n"`, then the rendered failures joined with newlines |
| Runner.SilentSends | app/test_runner.py:383-388 | silent commands are only writes to the main port, none when navigation writes raise, and otherwise every non-blank command is written, stripped and expanded |
| Runner.TriggerSends | app/test_runner.py:270-273 | the k-th write is to the trigger port and carries the k-th non-blank trigger command, stripped and expanded; one write per non-blank command, in list order |
| Runner.TriggerSendsEach | app/test_runner.py:271-273 | every non-blank trigger command is written stripped and expanded, and every write is such a command |
| Runner.Triggers | app/test_runner.py:264-273 | nothing is sent to the trigger port unless it is given and open; when it is, the non-blank trigger commands are written, stripped and expanded, in order |
| Runner.CommandEvents | app/test_runner.py:404-407 | the visible part of a test is at most the echo and the write of its command |
| Runner.CommandEchoes | app/test_runner.py:321-323 | the command is echoed exactly once, except for a manual test with a blank command, which echoes nothing |
| Runner.RanWith | app/test_runner.py:237-245 | a run never runs more tests than the list holds |
| Runner.RanEndsAtStop | app/test_runner.py:237-245 | a flag already set runs nothing; no test before the last one run set the flag; a run that ends early ends right after a test that set it |
| Runner.EventsOf | app/test_runner.py:362-475 | a test only writes to the ports and echoes, so it neither reports nor ends the run; on a closed port it does nothing |
| Runner.Executed | app/test_runner.py:311-475 | the result of a test on an open port is for that test, and an ERROR when its command cannot be written |
| Runner.ResultOf | app/test_runner.py:362-475 | every result is for the test it was run for, and a closed port gives ERROR with "Not connected" |
| Runner.OnlyCommandIsEchoed | app/test_runner.py:275-475 | only the test command is ever echoed, once when the test reaches its send and not at all otherwise; setup, teardown and trigger traffic stays off the terminal |
| Runner.TeardownComesLast | app/test_runner.py:467-473 | once the port is found open, the teardown commands are the last traffic of the test, whatever the outcome of the command |
| Runner.TeardownAfterFailedSend | app/test_runner.py:321-332 | when the command cannot be written, the test echoes it, runs its teardown and ends as an ERROR with the write's error; with working navigation writes every non-blank teardown command is written |
| Runner.NoTriggerWithoutPort | app/test_runner.py:378-392 | nothing reaches the trigger port unless one is given and open and the timing names a place for the triggers |
| Runner.ClosedPortSendsNothing | app/test_runner.py:370-376 | a test on a closed port sends nothing and is an ERROR with "Not connected" |
| Runner.AutomatedTimeoutIff | app/test_runner.py:424-448 | an automated test times out exactly when it has a terminator that no line received before the timeout contains |
| Runner.AutomatedErrorIff | app/test_runner.py:370-422 | an automated test is an ERROR exactly when its port is closed or the write raises |
| Runner.ManualVerdict | app/test_runner.py:311-360 | a manual test reports the operator's verdict as given; without one it ends as stopped, and the run stops after it |
| Runner.RunWithReportsInOrder | app/test_runner.py:237-245 | `on_result` is called once per test run, in list order, with that test's result |
| Runner.RunWithReportsFromStart | app/test_runner.py:237-245 | a whole run, for any executor, reports the `k`-th test's result `k`-th and never more results than tests |
| Runner.RunFromReports | app/test_runner.py:226-250 | `_run_loop` reports the result of each test it runs, in list order, and runs no more tests than listed |
| Runner.RunWithDoneOnceAtEnd | app/test_runner.py:237-250 | `on_done` is called exactly once, after everything else |
| Runner.RunWith | app/test_runner.py:237-250 | the trace of a run, for any executor, ends with `on_done` |
| Runner.RunFrom | app/test_runner.py:226-250 | the trace of `_run_loop` ends with `on_done` |
| Runner.TestRunner.constructor | app/test_runner.py:186-191 | a new runner has its stop flag clear |
| Runner.TestRunner.Stop | app/test_runner.py:223-224 | `stop` sets the stop flag |
| Runner.TestRunner.ExecuteSilent | app/test_runner.py:275-309 | a silent command is written expanded and never echoed; a write that raises sends nothing |
| Runner.TestRunner.RunSilentCommands | app/test_runner.py:383-388 | each non-blank command is sent stripped, in order |
| Runner.TestRunner.RunTriggerCommands | app/test_runner.py:264-273 | the loop writes exactly `Triggers`: the non-blank commands, stripped and expanded, in order, and only to a ready trigger port |
| Runner.TestRunner.ExecuteManual | app/test_runner.py:311-360 | a manual test yields its result as specified, after its command's echo and write, or only the echo when the write raises, and then its teardown in either case |
| Runner.TestRunner.ExecuteAutomated | app/test_runner.py:398-475 | an automated test yields the classified result after its command's echo and write, or ERROR after only the echo when the write raises, and then its teardown in either case |
| Runner.TestRunner.ExecuteTest | app/test_runner.py:362-475 | `_execute_test` yields `ResultOf` and the traffic `EventsOf` |
| Runner.TestRunner.RunPreparation | app/test_runner.py:378-392 | the events equal `Preparation`: the triggers before the silent setup for `before_setup`, after it for `after_setup`, and none for any other timing |
| Runner.TestRunner.RunLoop | app/test_runner.py:226-250 | the loop's trace is the run from the first test with the flag as found |
| Runner.TestRunner.Start | app/test_runner.py:213 | `run` clears the stop event in the caller's thread |
| Runner.TestRunner.Run | app/test_runner.py:202-221 | `run` clears the flag, then runs the loop |
| Serial.SplitLf | app/serial_handler.py:105 | `split(b"\n")` yields at least one piece and no piece holds `\n` |
| Serial.JoinSplitLf | app/serial_handler.py:105 | joining the pieces with `\n` gives back the bytes |
| Serial.Assemble | app/serial_handler.py:104-106 | neither the lines nor the kept tail hold `\n` |
| Serial.AssembleReconstructs | app/serial_handler.py:104-106 | the lines, each followed by `\n`, and then the kept tail are exactly the buffer and the chunk |
| Serial.Feed | app/serial_handler.py:99-113 | over a series of reads, no line handed out holds `\n`, and the kept tail holds none unless no read happened |
| Serial.Concat | app/serial_handler.py:103-104 | all bytes received, starting with those of the first read |
| Serial.FeedReconstructs | app/serial_handler.py:99-113 | after any series of non-empty reads, the lines handed out and the kept tail reconstruct exactly the bytes received, and the tail holds no `\n` once a read happened |
| Serial.RStripCr | app/serial_handler.py:108 | `rstrip(b"\r")` removes only trailing CR bytes, and all of them |
| Serial.Received | app/serial_handler.py:107-110 | one message per line |
| Serial.ReceivedAt | app/serial_handler.py:107-110 | each message is RX with the decoded line without its trailing CR bytes |
| Serial.LinesOf | app/serial_handler.py:107-113 | the messages of a read are all RX |
| Serial.Deliver | app/serial_handler.py:104-113 | a read keeps the tail as the new buffer, only appends to the terminal log and leaves the stop flag as it was |
| Serial.Step | app/serial_handler.py:100-123 | one pass only appends to the terminal log, changes nothing once stopped, and stops exactly on a failed read |
| Serial.Run | app/serial_handler.py:100 | the received log only grows, and once the stop flag is set the loop changes nothing |
| Serial.Chunks | app/serial_handler.py:101-103 | the non-empty reads before the first failure, never more than the outcomes |
| Serial.Failure | app/serial_handler.py:114-123 | at most one ERROR message, present exactly when some read failed |
| Serial.ReceivedAppend | app/serial_handler.py:107-110 | the messages of two runs of lines are those of each, one after the other |
| Serial.RunIsFeed | app/serial_handler.py:97-123 | the reader loop's state is the one `Feed` gives: the lines of the reads before the first failure go to the terminal and capture queues, then the error, and the buffer is the kept tail |
| Serial.RunDelivers | app/serial_handler.py:97-123 | the terminal queue gets exactly the messages of the lines `Feed` cuts from the reads before the first failure, then at most one ERROR message; the capture queue gets the same lines without the error; the loop ends stopped exactly when a read failed; the lines and the final buffer reconstruct the bytes read |
| Serial.Utf8Char | app/serial_handler.py:86 | a code point takes one to four bytes, and one exactly when it is ASCII |
| Serial.Utf8 | app/serial_handler.py:86 | the encoding takes between one and four bytes per character |
| Serial.Utf8OfAscii | app/serial_handler.py:86 | ASCII text is written byte for byte |
| Serial.SerialHandler.constructor | app/serial_handler.py:33-38 | a new handler has no port, no reader, no capture queue and empty queues |
| Serial.SerialHandler.Connect | app/serial_handler.py:48-67 | a port that opens is kept and a fresh reader is started; a port that fails to open raises and leaves the handler as it was |
| Serial.SerialHandler.Disconnect | app/serial_handler.py:69-80 | the reader is stopped, the port dropped and the capture queue removed, whatever the state |
| Serial.SerialHandler.Send | app/serial_handler.py:82-86 | a closed handler raises "Not connected"; an open one writes the UTF-8 text and the line ending unless the write raises |
| Serial.SerialHandler.StartCapture | app/serial_handler.py:88-89 | a fresh, empty capture queue replaces any previous one |
| Serial.SerialHandler.StopCapture | app/serial_handler.py:91-92 | the capture queue is removed |
| Serial.SerialHandler.CaptureQueue | app/serial_handler.py:94-95 | the current capture queue, if any |
| Serial.SerialHandler.PutRx | app/serial_handler.py:40-42 | a message put on the terminal queue goes at its end |
| Serial.SerialHandler.ReceiveChunk | app/serial_handler.py:102-113 | a non-empty read delivers the lines it completes and keeps the tail |
| Serial.SerialHandler.ReadLoop | app/serial_handler.py:97-123 | the reader state after the loop is `Run` of the reads |
| CommandPanel.Bounded | app/gui/command_panel.py:11-13 | a bounded deque keeps the newest entries, up to its bound |
| CommandPanel.Remember | app/gui/command_panel.py:48-49 | a deque within its bound stays within it, and the newest entry is the text (unless the bound is zero) |
| CommandPanel.Send | app/gui/command_panel.py:44-55 | text is sent exactly when the entry is non-empty, and then the entry is cleared and browsing ends; a valid history stays valid |
| CommandPanel.Prev | app/gui/command_panel.py:57-66 | Up keeps the history and a valid cursor, and a cursor on an entry shows that entry |
| CommandPanel.Next | app/gui/command_panel.py:68-77 | Down keeps the history and a valid cursor, and leaving the history restores the saved input |
| CommandPanel.SendEmptyIsNoOp | app/gui/command_panel.py:44-47 | sending empty text changes nothing and sends nothing |
| CommandPanel.SendRemembers | app/gui/command_panel.py:44-55 | a send hands the text on, ends browsing and clears the entry; the history grows by the text exactly when it differs from the newest entry, dropping the oldest at the bound |
| CommandPanel.NewestIsLastSent | app/gui/command_panel.py:48-49 | the newest entry of the history is the text just sent |
| CommandPanel.SendKeepsNoRepeats | app/gui/command_panel.py:48-49 | sending never puts two equal entries next to each other |
| CommandPanel.PrevSteps | app/gui/command_panel.py:57-66 | Up does nothing on an empty history; from the entry field it saves the input and shows the newest entry; otherwise it steps back, never below the oldest |
| CommandPanel.NextSteps | app/gui/command_panel.py:68-77 | Down does nothing when not browsing; past the newest entry it restores the saved input; otherwise it shows the next newer entry |
| CommandPanel.PrevThenNextRestoresInput | app/gui/command_panel.py:57-77 | Up then Down from the entry field gives back what was being typed |
| CommandPanel.CommandPanel.constructor | app/gui/command_panel.py:11-15 | a new panel has an empty history bounded by the setting and is not browsing |
| CommandPanel.CommandPanel.Type | app/gui/command_panel.py:27-28 | typing changes only the entry field |
| CommandPanel.CommandPanel.SendCommand | app/gui/command_panel.py:44-55 | the panel's new state and the text sent are as `Send` says |
| CommandPanel.CommandPanel.HistoryPrev | app/gui/command_panel.py:57-66 | the panel's new state is as `Prev` says |
| CommandPanel.CommandPanel.HistoryNext | app/gui/command_panel.py:68-77 | the panel's new state is as `Next` says |
| ConnectionPanel.DisplayOf | app/gui/connection_panel.py:114 | a display text is empty only for an empty device name |
| ConnectionPanel.Displays | app/gui/connection_panel.py:112-116 | one display text per port, in order |
| ConnectionPanel.PortMapHasPort | app/gui/connection_panel.py:110-116 | every port's display text is a key, and the last port shown under a text owns it |
| ConnectionPanel.PortMap | app/gui/connection_panel.py:110-116 | every key of `_port_map` is some listed port's display text, mapped to that port's device |
| ConnectionPanel.DistinctDisplaysMapBack | app/gui/connection_panel.py:110-116 | with distinct display texts, every port's text maps back to its own device |
| ConnectionPanel.FirstMapped | app/gui/connection_panel.py:120 | the search yields a listed text mapped to the saved device, and nothing exactly when no listed text is |
| ConnectionPanel.SelectionPrefersSavedPort | app/gui/connection_panel.py:119-128 | with no ports the placeholder is shown; otherwise a listed text, one mapped to the saved device when there is one, else the first |
| ConnectionPanel.Selected | app/gui/connection_panel.py:119-128 | with no ports the placeholder is shown, and otherwise one of the listed display texts |
| ConnectionPanel.SavedDeviceIsSelected | app/gui/connection_panel.py:119-124 | with distinct display texts, a listed saved device is the one selected |
| ConnectionPanel.DeviceFromTextIsBeforeSeparator | app/gui/connection_panel.py:141 | the fallback device is the stripped text before the first ` — `, or the whole stripped text |
| ConnectionPanel.DeviceFromText | app/gui/connection_panel.py:141 | the fallback device name carries no surrounding whitespace |
| ConnectionPanel.DeviceFromDisplayText | app/gui/connection_panel.py:141 | a device name without an em dash or surrounding whitespace is read back from its display text |
| ConnectionPanel.ConnectionPanel.constructor | app/gui/connection_panel.py:17-25 | a new panel holds the saved baud, data bits and line ending, an empty map and is not connected |
| ConnectionPanel.ConnectionPanel.RestoreFromConfig | app/gui/connection_panel.py:99-106 | the saved parity and stop bits are shown by name, with `None` and `1` as fallbacks |
| ConnectionPanel.ConnectionPanel.RefreshPorts | app/gui/connection_panel.py:108-129 | the map, the offered texts, the shown port and the Connect button follow the listed ports |
| ConnectionPanel.ConnectionPanel.Params | app/gui/connection_panel.py:139-148 | the settings use the mapped device (or the text before the separator), the integer values of the baud and data-bits texts, and the tables with their fallbacks; they fail exactly when baud or data bits are not integers |
| ConnectionPanel.ConnectionPanel.LineEnding | app/gui/connection_panel.py:150-151 | a known line-ending name gives its bytes from the table, and an unknown one gives CR LF |
| ConnectionPanel.ConnectionPanel.ConnectClick | app/gui/connection_panel.py:131-137 | when connected the click disconnects; otherwise it connects when the settings parse and raises when they do not |
| ConnectionPanel.ConnectionPanel.SetConnected | app/gui/connection_panel.py:156-157 | the connected flag takes the given value |
| ConnectionPanel.RefreshedPortConnects | app/gui/connection_panel.py:139-141 | after a refresh with distinct display texts, every listed text maps to its own device |
| ConnectionPanel.RestoreThenParams | app/gui/connection_panel.py:99-106 | restoring a saved parity or stop-bit code and reading it back gives the same code |
| TestSuitePanel.Filter | app/gui/test_suite_panel.py:254 | a comprehension with a condition never lengthens the list |
| TestSuitePanel.FilterMembers | app/gui/test_suite_panel.py:254 | a filtered list holds exactly the elements that meet the condition |
| TestSuitePanel.FilterAppend | app/gui/test_suite_panel.py:423-426 | filtering two lists one after the other is filtering each and joining the results, so relative order is kept |
| TestSuitePanel.FilterKeepsAll | app/gui/test_suite_panel.py:426 | when every element meets the condition, filtering keeps the list as it is |
| TestSuitePanel.FilterDropsAll | app/gui/test_suite_panel.py:426 | when no element meets the condition, filtering yields the empty list |
| TestSuitePanel.FilterDropsOne | app/gui/test_suite_panel.py:254 | when only one element fails the condition, filtering removes exactly that position |
| TestSuitePanel.IndexOf | app/gui/test_suite_panel.py:220 | the search yields -1 or an index of the list |
| TestSuitePanel.IndexOfIsFirst | app/gui/test_suite_panel.py:220 | the search finds the first test with the id, or reports that there is none |
| TestSuitePanel.IndexOfUnique | app/gui/test_suite_panel.py:220 | with unique ids, searching for a test's id finds that test |
| TestSuitePanel.IndexOfSameIds | app/gui/test_suite_panel.py:220 | the search depends only on the ids of the tests, so toggling `enabled` keeps every index |
| TestSuitePanel.SelectedIndex | app/gui/test_suite_panel.py:215-220 | the selected index is -1 or an index of the list |
| TestSuitePanel.SelectedTest | app/gui/test_suite_panel.py:208-213 | a test is selected exactly when the selected index is one |
| TestSuitePanel.SwappedExchanges | app/gui/test_suite_panel.py:262 | a swap exchanges two neighbours, keeps the same elements and moves nothing else |
| TestSuitePanel.SwappedKeepsUniqueIds | app/gui/test_suite_panel.py:262 | swapping keeps the ids unique |
| TestSuitePanel.MovedUp | app/gui/test_suite_panel.py:258-265 | Move Up keeps the same tests and reselects the test that was selected |
| TestSuitePanel.MovedDown | app/gui/test_suite_panel.py:267-274 | Move Down keeps the same tests and reselects the test that was selected |
| TestSuitePanel.Deleted | app/gui/test_suite_panel.py:249-256 | deleting only removes tests |
| TestSuitePanel.Toggled | app/gui/test_suite_panel.py:222-233 | a click keeps every test in its place, with its id |
| TestSuitePanel.RunAllTests | app/gui/test_suite_panel.py:426-431 | Run All runs a non-empty list of enabled tests of the suite |
| TestSuitePanel.RunSelectedTests | app/gui/test_suite_panel.py:418-424 | Run Selected runs only tests of the suite that are selected |
| TestSuitePanel.WithoutId | app/gui/test_suite_panel.py:254 | deleting by id never lengthens the list |
| TestSuitePanel.MoveUpSwaps | app/gui/test_suite_panel.py:258-265 | Move Up does nothing without a selection or on the first test; otherwise it exchanges the test with the one before and keeps it selected |
| TestSuitePanel.MoveDownSwaps | app/gui/test_suite_panel.py:267-274 | Move Down does nothing without a selection or on the last test; otherwise it exchanges the test with the one after and keeps it selected |
| TestSuitePanel.MoveUpThenDownRestores | app/gui/test_suite_panel.py:258-274 | with unique ids, Move Down after Move Up restores the list |
| TestSuitePanel.MoveDownThenUpRestores | app/gui/test_suite_panel.py:258-274 | with unique ids, Move Up after Move Down restores the list |
| TestSuitePanel.DeleteRemovesSelected | app/gui/test_suite_panel.py:249-256 | without a selection or confirmation nothing is deleted; otherwise exactly the tests with the selected id go |
| TestSuitePanel.DeleteUniqueKeepsOrder | app/gui/test_suite_panel.py:249-256 | with unique ids, deleting removes one position and keeps the rest in order |
| TestSuitePanel.ToggleFlipsOne | app/gui/test_suite_panel.py:222-233 | a click on a row's enabled cell flips that test's `enabled` and changes nothing else; a click on no known row changes nothing |
| TestSuitePanel.ToggleTwiceRestores | app/gui/test_suite_panel.py:222-233 | two clicks on the same cell restore the list |
| TestSuitePanel.RunAllChoosesEnabled | app/gui/test_suite_panel.py:426-431 | Run All runs exactly the enabled tests in list order, and starts no run when none is enabled |
| TestSuitePanel.RunSelectedKeepsListOrder | app/gui/test_suite_panel.py:418-424 | Run Selected runs exactly the selected tests in list order, and starts no run without a selection |
| TestSuitePanel.Passes | app/gui/test_suite_panel.py:509-512 | there are never more passes than results |
| TestSuitePanel.IdsOf | app/gui/test_suite_panel.py:448-449 | a set of ids is never larger than the list it comes from |
| TestSuitePanel.IdsOfMembers | app/gui/test_suite_panel.py:448-449 | the ids reset are exactly the ids of the tests about to run |
| TestSuitePanel.PanelResultsFollowRun | app/gui/test_suite_panel.py:467-480 | the panel receives one result per test run, in list order, for that test, never more than the total counted |
| TestSuitePanel.StatusTextIsDistinct | app/test_runner.py:180 | the four statuses have distinct, non-empty texts |
| TestSuitePanel.Lookup | app/gui/test_suite_panel.py:555 | every test with a result is in the lookup, and the last result's test maps to the last result's status |
| TestSuitePanel.LookupIsLastResult | app/gui/test_suite_panel.py:555 | the lookup holds a test exactly when it has a result, and then the status of its last result |
| TestSuitePanel.Header | app/gui/test_suite_panel.py:554 | the header is "Timestamp" and then every test's name in list order |
| TestSuitePanel.RunRow | app/gui/test_suite_panel.py:554-559 | the row has one cell per header column and starts with the timestamp |
| TestSuitePanel.RunRowCells | app/gui/test_suite_panel.py:554-559 | the row lines up with the header; a cell is empty exactly when its test has no result, and otherwise holds its last result's status |
| TestSuitePanel.LogLines | app/gui/test_suite_panel.py:561-566 | every line written has one cell per test plus the timestamp |
| TestSuitePanel.LogLinesShape | app/gui/test_suite_panel.py:561-566 | the header is written only when the file is new, then the row |
| TestSuitePanel.ReadCmdLines | app/gui/test_suite_panel.py:360-362 | every command read back is non-blank |
| TestSuitePanel.ReadCmdLinesKeeps | app/gui/test_suite_panel.py:360-362 | every kept line is a non-blank line of the text and every non-blank line is kept |
| TestSuitePanel.LineEndAfter | app/gui/test_suite_panel.py:362 | a line followed by a line break or by nothing ends where the break begins |
| TestSuitePanel.SplitLinesOfJoin | app/gui/test_suite_panel.py:355-362 | splitting the lines of commands joined with newlines gives back the commands |
| TestSuitePanel.ReadCmdLinesOfJoin | app/gui/test_suite_panel.py:354-362 | a command list shown joined with newlines and read back comes back unchanged |
| TestSuitePanel.TestSuitePanel.constructor | app/gui/test_suite_panel.py:60-84 | a new panel holds the loaded tests, no results and zero counters |
| TestSuitePanel.TestSuitePanel.MoveUp | app/gui/test_suite_panel.py:258-265 | the list and selection change as `MovedUp` says |
| TestSuitePanel.TestSuitePanel.MoveDown | app/gui/test_suite_panel.py:267-274 | the list and selection change as `MovedDown` says |
| TestSuitePanel.TestSuitePanel.DeleteTest | app/gui/test_suite_panel.py:249-256 | the list changes as `Deleted` says |
| TestSuitePanel.TestSuitePanel.OnTreeClick | app/gui/test_suite_panel.py:222-233 | only a click on an enabled cell changes the list, as `Toggled` says |
| TestSuitePanel.TestSuitePanel.StartRun | app/gui/test_suite_panel.py:433-480 | on a connected port the run's tests are kept, the panel's flag, counters and results cleared, the result column of exactly those tests blanked, and the runner's stop flag cleared by `run`; otherwise neither the panel nor the runner changes |
| TestSuitePanel.TestSuitePanel.BlankResults | app/gui/test_suite_panel.py:448-449 | the status of exactly the run's tests is removed from the result column |
| TestSuitePanel.TestSuitePanel.RunAll | app/gui/test_suite_panel.py:426-431 | a run of the enabled tests starts exactly when one is enabled and the port is connected, with the runner's stop flag cleared |
| TestSuitePanel.TestSuitePanel.RunSelected | app/gui/test_suite_panel.py:418-424 | a run of the selected tests starts exactly when something is selected and the port is connected, with the runner's stop flag cleared |
| TestSuitePanel.TestSuitePanel.StopRun | app/gui/test_suite_panel.py:482-484 | Stop is remembered and passed to the runner |
| TestSuitePanel.TestSuitePanel.OnResult | app/gui/test_suite_panel.py:486-518 | the result column and the result list get the result; it counts as a pass or a failure; the counters stay in step with the results |
| TestSuitePanel.TestSuitePanel.DeliverResults | app/gui/test_suite_panel.py:467-468 | the results reported by a run are appended in order, and the counters stay in step |
| TestSuitePanel.TestSuitePanel.AppendRunRow | app/gui/test_suite_panel.py:548-566 | the lines written to the log are `LogLines` of the tests and results |
| TestSuitePanel.TestSuitePanel.OnDone | app/gui/test_suite_panel.py:520-546 | a run with results is logged; the same tests start again exactly when loop mode is on, Stop was not pressed and the port is connected, and a restart clears the runner's stop flag |

## Left out

- Threads and timing are not modelled. The runner thread, the reader thread and the GUI event loop are replaced by ordered sequences of outcomes. Callbacks posted with `after(0, ...)` run in order through `DeliverResults`. Durations, `time.sleep`, the delay between tests, timestamps and the `TerminalMessage` timestamp are left out.
- The serial port (pyserial), port listing, the file system, the CSV writer, JSON loading and saving, and `uuid4()` are inputs. They become parameters: whether a port opens, what each read returns, whether a write raises, the ports listed, whether the log file is new, and a fresh id.
- UTF-8 decoding with replacement characters is the parameter `decode`. Encoding is modelled exactly.
- Runner.TestRunner.ExecuteSilent: the silent wait loop after a navigation command is left out. It only drains the capture queue until the terminator arrives or the time is up, and nothing in the model depends on it.
- The reader thread puts every received line on the terminal queue, replies to silent commands included. The docstring of `_execute_silent` says they never reach the terminal. The model follows the code: silent commands are not echoed, but their replies are delivered like any other line.
- Manual tests: the GUI never installs `on_manual_input`, and `set_manual_result` is never called by the modelled code. The operator's verdict is therefore an input of the run. It is one of the four statuses, and `None` means Stop was pressed first. Other status strings are not modelled.
- The GUI never passes a trigger handler to `run`. The trigger port is still modelled as an input. Write errors on it are ignored, as the code ignores them.
- Write faults: the write of the test command has its own fault. The navigation writes of one test (setup and teardown) share one fault: all of them raise or none does. A navigation write that fails while others of the same test succeed is not modelled.
- Line-ending bytes are not recorded in the runner's events. `Serial.SerialHandler.Send` models them.
- Serial.SerialHandler.Connect: the old port is not closed when connecting again, as in the code. The model overwrites it, and what happens to the old port is not modelled.
- TestCases.TextAt and TestCases.ListAt reject a value of the wrong JSON type. `from_dict` would store it unchecked.
- TestCases.FromDict: the Python dictionary is a map, so key order and extra keys are not modelled. Python's `int()` on float values and `bool()` on other JSON types are not modelled.
- Unique test ids are assumed only where a lemma needs them (the reorder round trips and ordered deletion). The code relies on `uuid4()` to make them unique.
- `\d` and `\s` are the ASCII digits and the ASCII whitespace set plus the Unicode spaces the model lists. Other Unicode digits and the full Unicode whitespace class are not modelled.
- PyStr.ParseInt accepts an optional sign and ASCII decimal digits with surrounding whitespace. Python's `int()` also accepts underscores between digits and non-ASCII decimal digits; these are not modelled.
- CommandPanel.CommandPanel.constructor takes the bound as a natural number (the configuration's `history_size`, 100 when absent). A configuration that stores `history_size` as null gives an unbounded deque, which is not modelled.
- NumericChecks.ParseFloat accepts the texts that the number regex and `int()` produce: an optional sign, digits, a fraction and an exponent, all exact. `inf`, `nan`, underscores, hexadecimal forms and binary rounding are not modelled.
- The wording of failure messages is not modelled. Failures are kept as a datatype, and `Runner.ReportedText` takes the rendering function as a parameter.
- Widget presentation is not modelled: the Treeview display, tags and icons, button states, the summary text, the results log panel, and message boxes other than the delete confirmation.
- Parts of the test dialog are not modelled. The `_ok` validation is left out apart from `_read_cmd_lines`. `_write_csv`, `_export_csv`, `_clear_results` and the delay field's `int()` fallback are left out too.
- `_load_tests_from_config` is modelled only through `TestCases.FromDict` and the panel constructor's list of loaded tests.
- CommandPanel: `on_send` is assumed installed, as the main window does. The Escape and Ctrl-A bindings only edit the entry field (`Type`).
- Logger, terminal panel, main window and main.py are not part of this model.
