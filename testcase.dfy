/**
 * The `TestCase` record of app/test_runner.py and its mapping to and from
 * the JSON dictionary stored in the configuration file.
 */
module TestCases {
  import opened Results
  import opened PyStr

  /** A test case; `id` is a uuid string, generated by the caller when a new test is made. */
  datatype TestCase = TestCase(
    id: string,
    name: string,
    command: string,
    expected: string,
    terminator: string,
    timeoutMs: int,
    enabled: bool,
    manual: bool,
    setupCommands: seq<string>,
    teardownCommands: seq<string>,
    navTimeoutMs: int,
    numericChecks: string,
    triggerCommands: seq<string>,
    triggerTiming: string)

  /** The dataclass defaults: a test made from a name, a command and an expected text only. */
  function NewTestCase(id: string, name: string, command: string, expected: string): TestCase {
    TestCase(id, name, command, expected, "OK", 2000, true, false, [], [], 1000, "", [], "before_setup")
  }

  /** A JSON value as stored in the test list: text, integer, boolean or a list of texts. */
  datatype Value = Str(s: string) | Int(i: int) | Bool(b: bool) | StrList(items: seq<string>)

  type Dict = map<string, Value>

  /** `TestCase.to_dict`: every field under its own key. */
  function ToDict(tc: TestCase): (d: Dict)
    ensures d.Keys == {"id", "name", "command", "expected", "terminator", "timeout_ms", "enabled",
                       "manual", "setup_commands", "teardown_commands", "nav_timeout_ms",
                       "numeric_checks", "trigger_commands", "trigger_timing"}
  {
    map[
      "id" := Str(tc.id),
      "name" := Str(tc.name),
      "command" := Str(tc.command),
      "expected" := Str(tc.expected),
      "terminator" := Str(tc.terminator),
      "timeout_ms" := Int(tc.timeoutMs),
      "enabled" := Bool(tc.enabled),
      "manual" := Bool(tc.manual),
      "setup_commands" := StrList(tc.setupCommands),
      "teardown_commands" := StrList(tc.teardownCommands),
      "nav_timeout_ms" := Int(tc.navTimeoutMs),
      "numeric_checks" := Str(tc.numericChecks),
      "trigger_commands" := StrList(tc.triggerCommands),
      "trigger_timing" := Str(tc.triggerTiming)]
  }

  /** Python's `int(v)` on a JSON value. */
  function IntOf(v: Value): (r: Result<int>)
    ensures v.Int? ==> r == Ok(v.i)
    ensures v.StrList? ==> r.Err?
  {
    match v
    case Int(i) => Ok(i)
    case Bool(b) => Ok(if b then 1 else 0)
    case Str(s) =>
      (match ParseInt(s)
       case Some(n) => Ok(n)
       case None => Err("invalid literal for int()"))
    case StrList(_) => Err("int() argument must be a string or a number")
  }

  /** Python's `bool(v)`: the truth value of a JSON value. */
  function BoolOf(v: Value): (b: bool)
    ensures v.Bool? ==> b == v.b
  {
    match v
    case Bool(b) => b
    case Int(i) => i != 0
    case Str(s) => s != []
    case StrList(items) => items != []
  }

  /** `d.get(key, default)` for a text field. */
  function TextAt(d: Dict, key: string, default: string): (r: Result<string>)
    ensures key !in d ==> r == Ok(default)
    ensures key in d && d[key].Str? ==> r == Ok(d[key].s)
  {
    if key !in d then Ok(default)
    else match d[key]
      case Str(s) => Ok(s)
      case _ => Err("not a text value: " + key)
  }

  /** `d.get(key, default)` for a list-of-texts field. */
  function ListAt(d: Dict, key: string): (r: Result<seq<string>>)
    ensures key !in d ==> r == Ok([])
    ensures key in d && d[key].StrList? ==> r == Ok(d[key].items)
  {
    if key !in d then Ok([])
    else match d[key]
      case StrList(items) => Ok(items)
      case _ => Err("not a list value: " + key)
  }

  /** `int(d.get(key, default))`. */
  function IntAt(d: Dict, key: string, default: int): (r: Result<int>)
    ensures key !in d ==> r == Ok(default)
  {
    if key !in d then Ok(default) else IntOf(d[key])
  }

  /** `bool(d.get(key, default))`. */
  function BoolAt(d: Dict, key: string, default: bool): (b: bool)
    ensures key !in d ==> b == default
  {
    if key !in d then default else BoolOf(d[key])
  }

  /**
   * `TestCase.from_dict`: each missing key takes its default; `freshId`
   * stands for the `uuid4()` drawn when the dictionary has no id.
   */
  function FromDict(d: Dict, freshId: string): (r: Result<TestCase>)
    ensures r.Ok? && "id" !in d ==> r.value.id == freshId
    ensures r.Ok? && "id" in d ==> d["id"] == Str(r.value.id)
    ensures "timeout_ms" in d && d["timeout_ms"].StrList? ==> r.Err?
    ensures "nav_timeout_ms" in d && d["nav_timeout_ms"].StrList? ==> r.Err?
  {
    var id :- TextAt(d, "id", freshId);
    var name :- TextAt(d, "name", "");
    var command :- TextAt(d, "command", "");
    var expected :- TextAt(d, "expected", "");
    var terminator :- TextAt(d, "terminator", "OK");
    var timeoutMs :- IntAt(d, "timeout_ms", 2000);
    var setup :- ListAt(d, "setup_commands");
    var teardown :- ListAt(d, "teardown_commands");
    var navTimeoutMs :- IntAt(d, "nav_timeout_ms", 1000);
    var checks :- TextAt(d, "numeric_checks", "");
    var triggers :- ListAt(d, "trigger_commands");
    var timing :- TextAt(d, "trigger_timing", "before_setup");
    Ok(TestCase(id, name, command, expected, terminator, timeoutMs,
                BoolAt(d, "enabled", true), BoolAt(d, "manual", false),
                setup, teardown, navTimeoutMs, checks, triggers, timing))
  }

  /** `from_dict(to_dict(tc))` gives back `tc` field for field, its id included. */
  lemma FromDictToDict(tc: TestCase, freshId: string)
    ensures FromDict(ToDict(tc), freshId) == Ok(tc)
  {
    var d := ToDict(tc);
    assert TextAt(d, "id", freshId) == Ok(tc.id) && TextAt(d, "name", "") == Ok(tc.name);
    assert TextAt(d, "command", "") == Ok(tc.command) && TextAt(d, "expected", "") == Ok(tc.expected);
    assert TextAt(d, "terminator", "OK") == Ok(tc.terminator);
    assert IntAt(d, "timeout_ms", 2000) == Ok(tc.timeoutMs) && IntAt(d, "nav_timeout_ms", 1000) == Ok(tc.navTimeoutMs);
    assert ListAt(d, "setup_commands") == Ok(tc.setupCommands);
    assert ListAt(d, "teardown_commands") == Ok(tc.teardownCommands);
    assert ListAt(d, "trigger_commands") == Ok(tc.triggerCommands);
    assert TextAt(d, "numeric_checks", "") == Ok(tc.numericChecks);
    assert TextAt(d, "trigger_timing", "before_setup") == Ok(tc.triggerTiming);
    assert BoolAt(d, "enabled", true) == tc.enabled && BoolAt(d, "manual", false) == tc.manual;
  }

  /** An empty dictionary gives the defaults, with the fresh id. */
  lemma FromEmptyDict(freshId: string)
    ensures FromDict(map[], freshId) == Ok(NewTestCase(freshId, "", "", ""))
  {
  }

  /** Each field whose key is missing takes the default `from_dict` names for it. */
  lemma MissingKeysTakeDefaults(d: Dict, freshId: string)
    requires FromDict(d, freshId).Ok?
    ensures var tc := FromDict(d, freshId).value;
      ("id" !in d ==> tc.id == freshId) && ("name" !in d ==> tc.name == []) &&
      ("command" !in d ==> tc.command == []) && ("expected" !in d ==> tc.expected == []) &&
      ("terminator" !in d ==> tc.terminator == "OK") && ("timeout_ms" !in d ==> tc.timeoutMs == 2000) &&
      ("enabled" !in d ==> tc.enabled) && ("manual" !in d ==> !tc.manual) &&
      ("setup_commands" !in d ==> tc.setupCommands == []) &&
      ("teardown_commands" !in d ==> tc.teardownCommands == []) &&
      ("nav_timeout_ms" !in d ==> tc.navTimeoutMs == 1000) &&
      ("numeric_checks" !in d ==> tc.numericChecks == []) &&
      ("trigger_commands" !in d ==> tc.triggerCommands == []) &&
      ("trigger_timing" !in d ==> tc.triggerTiming == "before_setup")
  {
  }

  /** `int()` reads back the decimal text of a natural number, so a timeout stored as text is accepted. */
  lemma TimeoutAsText(d: Dict, freshId: string, n: nat)
    requires d == map["timeout_ms" := Str(NatToText(n))]
    ensures FromDict(d, freshId).Ok? && FromDict(d, freshId).value.timeoutMs == n
  {
    ParseIntOfText(n);
  }

  /** A list where a number is expected makes `from_dict` fail, as `int()` raises there. */
  lemma ListTimeoutFails(d: Dict, freshId: string, items: seq<string>)
    requires d == map["timeout_ms" := StrList(items)]
    ensures FromDict(d, freshId).Err?
  {
  }
}
