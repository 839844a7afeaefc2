/**
 * The test list and the run bookkeeping of `TestSuitePanel`
 * (app/gui/test_suite_panel.py): reordering, deleting and enabling tests,
 * choosing the tests of a run, counting the results the runner reports,
 * and the row appended to the cumulative run log. The Treeview, the
 * dialogs and the files are outside the model: what the user clicked and
 * answered comes in as parameters, and the log lines come out as values.
 */
module TestSuitePanel {
  import opened Results
  import opened PyStr
  import opened TestCases
  import opened Runner

  // ------------------------------------------------------------------
  //  Sequences filtered by a condition
  // ------------------------------------------------------------------

  /** A list comprehension `[x for x in s if p(x)]`. */
  function Filter<T>(s: seq<T>, p: T -> bool): (r: seq<T>)
    ensures |r| <= |s|
  {
    if s == [] then [] else (if p(s[0]) then [s[0]] else []) + Filter(s[1..], p)
  }

  /** A filtered list holds exactly the elements that meet the condition. */
  lemma {:induction false} FilterMembers<T>(s: seq<T>, p: T -> bool)
    ensures forall x :: x in Filter(s, p) <==> x in s && p(x)
  {
    if s != [] {
      FilterMembers(s[1..], p);
      assert s == [s[0]] + s[1..];
    }
  }

  /** Filtering keeps relative order: it distributes over concatenation. */
  lemma {:induction false} FilterAppend<T>(a: seq<T>, b: seq<T>, p: T -> bool)
    ensures Filter(a + b, p) == Filter(a, p) + Filter(b, p)
  {
    if a == [] {
      assert a + b == b;
    } else {
      var head := if p(a[0]) then [a[0]] else [];
      assert (a + b)[0] == a[0] && (a + b)[1..] == a[1..] + b;
      assert Filter(a + b, p) == head + Filter(a[1..] + b, p);
      FilterAppend(a[1..], b, p);
      assert Filter(a, p) == head + Filter(a[1..], p);
    }
  }

  /** When every element meets the condition, nothing is dropped. */
  lemma {:induction false} FilterKeepsAll<T>(s: seq<T>, p: T -> bool)
    requires forall k :: 0 <= k < |s| ==> p(s[k])
    ensures Filter(s, p) == s
  {
    if s != [] {
      FilterKeepsAll(s[1..], p);
    }
  }

  /** When no element meets the condition, nothing is kept. */
  lemma {:induction false} FilterDropsAll<T>(s: seq<T>, p: T -> bool)
    requires forall k :: 0 <= k < |s| ==> !p(s[k])
    ensures Filter(s, p) == []
  {
    if s != [] {
      FilterDropsAll(s[1..], p);
    }
  }

  /** When only the element at `i` fails the condition, filtering removes that one position. */
  lemma {:induction false} FilterDropsOne<T>(s: seq<T>, i: nat, p: T -> bool)
    requires i < |s| && !p(s[i])
    requires forall k :: 0 <= k < |s| && k != i ==> p(s[k])
    ensures Filter(s, p) == s[..i] + s[i + 1..]
  {
    if i == 0 {
      FilterKeepsAll(s[1..], p);
    } else {
      FilterDropsOne(s[1..], i - 1, p);
      assert s[..i] == [s[0]] + s[1..][..i - 1] && s[i + 1..] == s[1..][i..];
    }
  }

  // ------------------------------------------------------------------
  //  Finding the selected test
  // ------------------------------------------------------------------

  /** Test ids are pairwise different (uuid4 makes this so for tests made in the dialog). */
  predicate UniqueIds(tests: seq<TestCase>) {
    forall i, j :: 0 <= i < j < |tests| ==> tests[i].id != tests[j].id
  }

  /** `next((i for i, t in enumerate(tests) if t.id == id), -1)`, searching from `from` on. */
  function IndexOf(tests: seq<TestCase>, id: string, from: nat): (r: int)
    requires from <= |tests|
    ensures r == -1 || from <= r < |tests|
    decreases |tests| - from
  {
    if from == |tests| then -1 else if tests[from].id == id then from else IndexOf(tests, id, from + 1)
  }

  /** The search finds the first test with the id, or reports that there is none. */
  lemma {:induction false} IndexOfIsFirst(tests: seq<TestCase>, id: string, from: nat)
    requires from <= |tests|
    ensures IndexOf(tests, id, from) >= 0 ==>
              tests[IndexOf(tests, id, from)].id == id &&
              forall k :: from <= k < IndexOf(tests, id, from) ==> tests[k].id != id
    ensures IndexOf(tests, id, from) == -1 ==> forall k :: from <= k < |tests| ==> tests[k].id != id
    decreases |tests| - from
  {
    if from < |tests| && tests[from].id != id {
      IndexOfIsFirst(tests, id, from + 1);
    }
  }

  /** With unique ids, the search for a test's own id finds that test. */
  lemma IndexOfUnique(tests: seq<TestCase>, i: nat)
    requires UniqueIds(tests) && i < |tests|
    ensures IndexOf(tests, tests[i].id, 0) == i
  {
    IndexOfIsFirst(tests, tests[i].id, 0);
  }

  /** The search looks at ids only. */
  lemma {:induction false} IndexOfSameIds(a: seq<TestCase>, b: seq<TestCase>, id: string, from: nat)
    requires |a| == |b| && from <= |a|
    requires forall k :: 0 <= k < |a| ==> a[k].id == b[k].id
    ensures IndexOf(a, id, from) == IndexOf(b, id, from)
    decreases |a| - from
  {
    if from < |a| {
      IndexOfSameIds(a, b, id, from + 1);
    }
  }

  /** `_selected_index`: where the first selected row's test is, or -1. */
  function SelectedIndex(tests: seq<TestCase>, sel: seq<string>): (r: int)
    ensures -1 <= r < |tests|
  {
    if sel == [] then -1 else IndexOf(tests, sel[0], 0)
  }

  /** `_selected_test`: the first test whose id is the first selected row's. */
  function SelectedTest(tests: seq<TestCase>, sel: seq<string>): (r: Option<TestCase>)
    ensures r.Some? <==> SelectedIndex(tests, sel) >= 0
  {
    var i := SelectedIndex(tests, sel);
    if i < 0 then None else Some(tests[i])
  }

  // ------------------------------------------------------------------
  //  Reordering
  // ------------------------------------------------------------------

  /** Positions `i` and `i + 1` exchanged. */
  function Swapped<T>(s: seq<T>, i: nat): (r: seq<T>)
    requires i + 1 < |s|
  {
    s[i := s[i + 1]][i + 1 := s[i]]
  }

  /** A swap exchanges two neighbours and leaves everything else where it was. */
  lemma SwappedExchanges<T>(s: seq<T>, i: nat)
    requires i + 1 < |s|
    ensures |Swapped(s, i)| == |s| && multiset(Swapped(s, i)) == multiset(s)
    ensures Swapped(s, i)[i] == s[i + 1] && Swapped(s, i)[i + 1] == s[i]
    ensures forall k :: 0 <= k < |s| && k != i && k != i + 1 ==> Swapped(s, i)[k] == s[k]
  {
  }

  /** Swapping keeps the ids unique. */
  lemma SwappedKeepsUniqueIds(tests: seq<TestCase>, i: nat)
    requires i + 1 < |tests| && UniqueIds(tests)
    ensures UniqueIds(Swapped(tests, i))
  {
    var r := Swapped(tests, i);
    forall a, b | 0 <= a < b < |r| ensures r[a].id != r[b].id {
      var a' := if a == i then i + 1 else if a == i + 1 then i else a;
      var b' := if b == i then i + 1 else if b == i + 1 then i else b;
      assert r[a] == tests[a'] && r[b] == tests[b'] && a' != b';
    }
  }

  /** `_move_up`: the list afterwards and the row then selected (`None`: no change). */
  function MovedUp(tests: seq<TestCase>, sel: seq<string>): (r: (seq<TestCase>, Option<string>))
    ensures multiset(r.0) == multiset(tests)
    ensures r.1.Some? ==> SelectedTest(tests, sel).Some? && r.1.value == SelectedTest(tests, sel).value.id
  {
    var idx := SelectedIndex(tests, sel);
    if idx <= 0 then (tests, None)
    else
      var r := Swapped(tests, idx - 1);
      SwappedExchanges(tests, idx - 1);
      (r, Some(r[idx - 1].id))
  }

  /** `_move_down`: the list afterwards and the row then selected (`None`: no change). */
  function MovedDown(tests: seq<TestCase>, sel: seq<string>): (r: (seq<TestCase>, Option<string>))
    ensures multiset(r.0) == multiset(tests)
    ensures r.1.Some? ==> SelectedTest(tests, sel).Some? && r.1.value == SelectedTest(tests, sel).value.id
  {
    var idx := SelectedIndex(tests, sel);
    if idx < 0 || idx >= |tests| - 1 then (tests, None)
    else
      var r := Swapped(tests, idx);
      SwappedExchanges(tests, idx);
      (r, Some(r[idx + 1].id))
  }

  /**
   * Move Up does nothing without a selection or on the first test;
   * otherwise it exchanges the selected test with the one before it,
   * changes no other position, and keeps the same test selected.
   */
  lemma MoveUpSwaps(tests: seq<TestCase>, sel: seq<string>)
    ensures var idx := SelectedIndex(tests, sel);
      (idx <= 0 ==> MovedUp(tests, sel) == (tests, None)) &&
      (idx > 0 ==>
         var r := MovedUp(tests, sel).0;
         |r| == |tests| && multiset(r) == multiset(tests) &&
         r[idx - 1] == tests[idx] && r[idx] == tests[idx - 1] &&
         (forall k :: 0 <= k < |r| && k != idx - 1 && k != idx ==> r[k] == tests[k]) &&
         MovedUp(tests, sel).1 == Some(sel[0]))
  {
    var idx := SelectedIndex(tests, sel);
    if idx > 0 {
      IndexOfIsFirst(tests, sel[0], 0);
      SwappedExchanges(tests, idx - 1);
    }
  }

  /**
   * Move Down does nothing without a selection or on the last test;
   * otherwise it exchanges the selected test with the one after it,
   * changes no other position, and keeps the same test selected.
   */
  lemma MoveDownSwaps(tests: seq<TestCase>, sel: seq<string>)
    ensures var idx := SelectedIndex(tests, sel);
      (idx < 0 || idx == |tests| - 1 ==> MovedDown(tests, sel) == (tests, None)) &&
      (0 <= idx < |tests| - 1 ==>
         var r := MovedDown(tests, sel).0;
         |r| == |tests| && multiset(r) == multiset(tests) &&
         r[idx + 1] == tests[idx] && r[idx] == tests[idx + 1] &&
         (forall k :: 0 <= k < |r| && k != idx && k != idx + 1 ==> r[k] == tests[k]) &&
         MovedDown(tests, sel).1 == Some(sel[0]))
  {
    var idx := SelectedIndex(tests, sel);
    if 0 <= idx < |tests| - 1 {
      IndexOfIsFirst(tests, sel[0], 0);
      SwappedExchanges(tests, idx);
    }
  }

  /** With unique ids, Move Down on the test just moved up puts the list back as it was. */
  lemma MoveUpThenDownRestores(tests: seq<TestCase>, sel: seq<string>)
    requires UniqueIds(tests) && SelectedIndex(tests, sel) > 0
    ensures MovedUp(tests, sel).1.Some?
    ensures MovedDown(MovedUp(tests, sel).0, [MovedUp(tests, sel).1.value]).0 == tests
  {
    var idx := SelectedIndex(tests, sel);
    var r := Swapped(tests, idx - 1);
    SwappedExchanges(tests, idx - 1);
    SwappedKeepsUniqueIds(tests, idx - 1);
    IndexOfUnique(r, idx - 1);
    assert Swapped(r, idx - 1) == tests;
  }

  /** With unique ids, Move Up on the test just moved down puts the list back as it was. */
  lemma MoveDownThenUpRestores(tests: seq<TestCase>, sel: seq<string>)
    requires UniqueIds(tests) && 0 <= SelectedIndex(tests, sel) < |tests| - 1
    ensures MovedDown(tests, sel).1.Some?
    ensures MovedUp(MovedDown(tests, sel).0, [MovedDown(tests, sel).1.value]).0 == tests
  {
    var idx := SelectedIndex(tests, sel);
    var r := Swapped(tests, idx);
    SwappedExchanges(tests, idx);
    SwappedKeepsUniqueIds(tests, idx);
    IndexOfUnique(r, idx + 1);
    assert Swapped(r, idx) == tests;
  }

  // ------------------------------------------------------------------
  //  Deleting and enabling
  // ------------------------------------------------------------------

  /** `[t for t in tests if t.id != id]`. */
  function WithoutId(tests: seq<TestCase>, id: string): (r: seq<TestCase>)
    ensures |r| <= |tests|
  {
    Filter(tests, (t: TestCase) => t.id != id)
  }

  /** `_delete_test`, given whether the user confirmed the deletion. */
  function Deleted(tests: seq<TestCase>, sel: seq<string>, confirmed: bool): (r: seq<TestCase>)
    ensures forall t :: t in r ==> t in tests
  {
    var tc := SelectedTest(tests, sel);
    if tc.None? || !confirmed then tests
    else
      FilterMembers(tests, (t: TestCase) => t.id != tc.value.id);
      WithoutId(tests, tc.value.id)
  }

  /**
   * Without a selected test, or when the user declines, nothing is
   * deleted. Otherwise exactly the tests with the selected id go.
   */
  lemma DeleteRemovesSelected(tests: seq<TestCase>, sel: seq<string>, confirmed: bool)
    ensures SelectedTest(tests, sel).None? || !confirmed ==> Deleted(tests, sel, confirmed) == tests
    ensures SelectedTest(tests, sel).Some? && confirmed ==>
              forall t :: t in Deleted(tests, sel, confirmed) <==> t in tests && t.id != sel[0]
  {
    if SelectedTest(tests, sel).Some? {
      IndexOfIsFirst(tests, sel[0], 0);
      FilterMembers(tests, (t: TestCase) => t.id != sel[0]);
    }
  }

  /** With unique ids, deleting a test removes that one position and keeps the rest in order. */
  lemma DeleteUniqueKeepsOrder(tests: seq<TestCase>, i: nat)
    requires UniqueIds(tests) && i < |tests|
    ensures Deleted(tests, [tests[i].id], true) == tests[..i] + tests[i + 1..]
  {
    IndexOfUnique(tests, i);
    FilterDropsOne(tests, i, (t: TestCase) => t.id != tests[i].id);
  }

  /** The enabled cell of row `item` was clicked (`item` is "" when the click hit no row). */
  function Toggled(tests: seq<TestCase>, item: string): (r: seq<TestCase>)
    ensures |r| == |tests| && forall k :: 0 <= k < |r| ==> r[k].id == tests[k].id
  {
    if item == [] then tests
    else
      var i := IndexOf(tests, item, 0);
      if i < 0 then tests else tests[i := tests[i].(enabled := !tests[i].enabled)]
  }

  /**
   * A click on an existing row flips `enabled` of the first test with that
   * id and changes nothing else; otherwise the list is unchanged.
   */
  lemma ToggleFlipsOne(tests: seq<TestCase>, item: string)
    ensures var i := IndexOf(tests, item, 0);
      (item == [] || i < 0 ==> Toggled(tests, item) == tests) &&
      (item != [] && i >= 0 ==>
         tests[i].id == item && |Toggled(tests, item)| == |tests| &&
         Toggled(tests, item)[i].enabled == !tests[i].enabled &&
         Toggled(tests, item)[i] == tests[i].(enabled := Toggled(tests, item)[i].enabled) &&
         forall k :: 0 <= k < |tests| && k != i ==> Toggled(tests, item)[k] == tests[k])
  {
    IndexOfIsFirst(tests, item, 0);
  }

  /** Two clicks on the same enabled cell give back the original list. */
  lemma ToggleTwiceRestores(tests: seq<TestCase>, item: string)
    ensures Toggled(Toggled(tests, item), item) == tests
  {
    var once := Toggled(tests, item);
    IndexOfSameIds(tests, once, item, 0);
    if item != [] && IndexOf(tests, item, 0) >= 0 {
      var i := IndexOf(tests, item, 0);
      assert once[i := once[i].(enabled := !once[i].enabled)] == tests;
    }
  }

  // ------------------------------------------------------------------
  //  Choosing the tests of a run
  // ------------------------------------------------------------------

  /** `_run_all`: the enabled tests in list order, or no run when there are none. */
  function RunAllTests(tests: seq<TestCase>): (r: Option<seq<TestCase>>)
    ensures r.Some? ==> r.value != [] && forall t :: t in r.value ==> t in tests && t.enabled
  {
    var enabled := Filter(tests, (t: TestCase) => t.enabled);
    FilterMembers(tests, (t: TestCase) => t.enabled);
    if enabled == [] then None else Some(enabled)
  }

  /** `_run_selected`: the selected tests in list order, or no run when nothing is selected. */
  function RunSelectedTests(tests: seq<TestCase>, sel: seq<string>): (r: Option<seq<TestCase>>)
    ensures r.Some? ==> forall t :: t in r.value ==> t in tests && t.id in sel
  {
    FilterMembers(tests, (t: TestCase) => t.id in sel);
    if sel == [] then None else Some(Filter(tests, (t: TestCase) => t.id in sel))
  }

  /**
   * Run All runs exactly the enabled tests, in list order, and starts no
   * run when no test is enabled.
   */
  lemma RunAllChoosesEnabled(tests: seq<TestCase>, a: seq<TestCase>, b: seq<TestCase>)
    requires tests == a + b
    ensures RunAllTests(tests).None? <==> forall k :: 0 <= k < |tests| ==> !tests[k].enabled
    ensures RunAllTests(tests).Some? ==>
              (forall t :: t in RunAllTests(tests).value <==> t in tests && t.enabled) &&
              RunAllTests(tests).value == Filter(a, (t: TestCase) => t.enabled) + Filter(b, (t: TestCase) => t.enabled)
  {
    var p := (t: TestCase) => t.enabled;
    FilterMembers(tests, p);
    FilterAppend(a, b, p);
    if forall k :: 0 <= k < |tests| ==> !tests[k].enabled {
      FilterDropsAll(tests, p);
    } else {
      var k :| 0 <= k < |tests| && tests[k].enabled;
      assert tests[k] in Filter(tests, p);
    }
  }

  /**
   * Run Selected runs exactly the tests whose rows are selected, in list
   * order whatever the order of the selection: the chosen tests of the
   * list `a + b` are those of `a` followed by those of `b`.
   */
  lemma RunSelectedKeepsListOrder(tests: seq<TestCase>, sel: seq<string>, a: seq<TestCase>, b: seq<TestCase>)
    requires tests == a + b
    ensures RunSelectedTests(tests, sel).None? <==> sel == []
    ensures RunSelectedTests(tests, sel).Some? ==>
              (forall t :: t in RunSelectedTests(tests, sel).value <==> t in tests && t.id in sel) &&
              RunSelectedTests(tests, sel).value ==
                Filter(a, (t: TestCase) => t.id in sel) + Filter(b, (t: TestCase) => t.id in sel)
  {
    var p := (t: TestCase) => t.id in sel;
    FilterMembers(tests, p);
    FilterAppend(a, b, p);
  }

  // ------------------------------------------------------------------
  //  Counting results
  // ------------------------------------------------------------------

  /** How many of the results passed. */
  function Passes(results: seq<TestResult>): (n: nat)
    ensures n <= |results|
  {
    if results == [] then 0
    else Passes(results[..|results| - 1]) + (if results[|results| - 1].status == Pass then 1 else 0)
  }

  /** The ids of the tests, as the result column reset of `_start_run` visits them. */
  function IdsOf(tests: seq<TestCase>): (ids: set<string>)
    ensures |ids| <= |tests|
  {
    if tests == [] then {} else IdsOf(tests[..|tests| - 1]) + {tests[|tests| - 1].id}
  }

  /** The ids collected are exactly the ids of the tests. */
  lemma {:induction false} IdsOfMembers(tests: seq<TestCase>)
    ensures forall id :: id in IdsOf(tests) <==> exists k :: 0 <= k < |tests| && tests[k].id == id
  {
    if tests != [] {
      var init := tests[..|tests| - 1];
      IdsOfMembers(init);
      forall id | id in IdsOf(tests) ensures exists k :: 0 <= k < |tests| && tests[k].id == id {
        if id in IdsOf(init) {
          var k :| 0 <= k < |init| && init[k].id == id;
          assert tests[k] == init[k];
        } else {
          assert tests[|tests| - 1].id == id;
        }
      }
      forall id | exists k :: 0 <= k < |tests| && tests[k].id == id ensures id in IdsOf(tests) {
        var k :| 0 <= k < |tests| && tests[k].id == id;
        if k < |init| {
          assert init[k] == tests[k];
        }
      }
    }
  }

  /**
   * What the panel receives from a run it started: the runner's results,
   * one per test run, in the order of the tests, never more than the total
   * `_start_run` counted, and at most that many passes.
   */
  lemma PanelResultsFollowRun(tests: seq<TestCase>, env: nat -> Conditions)
    ensures var rs := Reports(RunFrom(tests, env, 0, false));
      |rs| <= |tests| && Passes(rs) <= |rs| &&
      forall k :: 0 <= k < |rs| ==> rs[k] == ResultOf(tests[k], env(k)) && rs[k].test == tests[k]
  {
    RunFromReports(tests, env);
  }

  // ------------------------------------------------------------------
  //  The cumulative run log
  // ------------------------------------------------------------------

  /** The status text a `TestResult` carries. */
  function StatusText(s: Status): (r: string) {
    match s
    case Pass => "PASS"
    case Fail => "FAIL"
    case Timeout => "TIMEOUT"
    case Error => "ERROR"
  }

  /** Different statuses have different, non-empty texts, so a log cell can be read back. */
  lemma StatusTextIsDistinct(a: Status, b: Status)
    ensures StatusText(a) != ""
    ensures StatusText(a) == StatusText(b) ==> a == b
  {
    assert StatusText(a)[0] in {'P', 'F', 'T', 'E'};
    assert StatusText(b)[0] in {'P', 'F', 'T', 'E'};
  }

  /** `{r.test.id: r.status for r in results}`: a later result for the same test replaces an earlier one. */
  function Lookup(results: seq<TestResult>): (m: map<string, Status>)
    ensures forall k :: 0 <= k < |results| ==> results[k].test.id in m
    ensures results != [] ==> m[results[|results| - 1].test.id] == results[|results| - 1].status
  {
    if results == [] then map[]
    else
      var last := results[|results| - 1];
      Lookup(results[..|results| - 1])[last.test.id := last.status]
  }

  /** The lookup holds a test exactly when it has a result, and then its last result's status. */
  lemma {:induction false} LookupIsLastResult(results: seq<TestResult>, id: string)
    ensures id in Lookup(results) <==> exists k :: 0 <= k < |results| && results[k].test.id == id
    ensures id in Lookup(results) ==>
              exists k :: 0 <= k < |results| && results[k].test.id == id && Lookup(results)[id] == results[k].status &&
                forall j :: k < j < |results| ==> results[j].test.id != id
  {
    if results != [] {
      var n := |results| - 1;
      var init := results[..n];
      LookupIsLastResult(init, id);
      assert Lookup(results) == Lookup(init)[results[n].test.id := results[n].status];
      if results[n].test.id == id {
        assert Lookup(results)[id] == results[n].status;
      } else {
        if id in Lookup(init) {
          var k :| 0 <= k < |init| && init[k].test.id == id && Lookup(init)[id] == init[k].status &&
            forall j :: k < j < |init| ==> init[j].test.id != id;
          assert results[k] == init[k];
          forall j | k < j < |results| ensures results[j].test.id != id {
            if j < n { assert results[j] == init[j]; }
          }
        }
        forall k | 0 <= k < |results| && results[k].test.id == id ensures id in Lookup(init) {
          assert k < n && init[k] == results[k] && init[k].test.id == id;
        }
      }
    }
  }

  /** The cell of one test in the log row: its status in this run, or "" when it did not run. */
  function Cell(lookup: map<string, Status>, id: string): string {
    if id in lookup then StatusText(lookup[id]) else ""
  }

  /** `_append_run_row`'s header: "Timestamp" and then the name of every test in list order. */
  function Header(tests: seq<TestCase>): (h: seq<string>)
    ensures |h| == |tests| + 1 && h[0] == "Timestamp"
    ensures forall k :: 0 <= k < |tests| ==> h[k + 1] == tests[k].name
  {
    ["Timestamp"] + seq(|tests|, k requires 0 <= k < |tests| => tests[k].name)
  }

  /** `_append_run_row`'s row: the timestamp and then one cell per test in list order. */
  function RunRow(tests: seq<TestCase>, results: seq<TestResult>, ts: string): (row: seq<string>)
    ensures |row| == |Header(tests)| && row[0] == ts
  {
    [ts] + seq(|tests|, k requires 0 <= k < |tests| => Cell(Lookup(results), tests[k].id))
  }

  /** The lines appended to the log file: the header only when the file is new or empty, then the row. */
  function LogLines(fileIsNew: bool, tests: seq<TestCase>, results: seq<TestResult>, ts: string): (lines: seq<seq<string>>)
    ensures forall k :: 0 <= k < |lines| ==> |lines[k]| == |tests| + 1
  {
    (if fileIsNew then [Header(tests)] else []) + [RunRow(tests, results, ts)]
  }

  /**
   * The row lines up with the header: one cell per test, empty exactly
   * when the test has no result in this run, and otherwise the status of
   * its last result.
   */
  lemma RunRowCells(tests: seq<TestCase>, results: seq<TestResult>, ts: string, i: nat)
    requires i < |tests|
    ensures var row := RunRow(tests, results, ts);
      |row| == |Header(tests)| && row[0] == ts &&
      (row[i + 1] == "" <==> forall k :: 0 <= k < |results| ==> results[k].test.id != tests[i].id) &&
      (row[i + 1] != "" ==>
         exists k :: 0 <= k < |results| && results[k].test.id == tests[i].id &&
           row[i + 1] == StatusText(results[k].status) &&
           forall j :: k < j < |results| ==> results[j].test.id != tests[i].id)
  {
    var id := tests[i].id;
    LookupIsLastResult(results, id);
    if id in Lookup(results) {
      StatusTextIsDistinct(Lookup(results)[id], Lookup(results)[id]);
    }
  }

  /** The log gets one line, or two (header first) when the file is new. */
  lemma LogLinesShape(fileIsNew: bool, tests: seq<TestCase>, results: seq<TestResult>, ts: string)
    ensures var lines := LogLines(fileIsNew, tests, results, ts);
      |lines| == (if fileIsNew then 2 else 1) &&
      lines[|lines| - 1] == RunRow(tests, results, ts) &&
      (fileIsNew ==> lines[0] == Header(tests))
  {
  }

  // ------------------------------------------------------------------
  //  Command lists typed in the dialog
  // ------------------------------------------------------------------

  /** A line worth keeping: something other than whitespace. */
  predicate NonBlank(ln: string) {
    Strip(ln) != []
  }

  /** `_read_cmd_lines`: the non-blank lines of the text box, in order and not stripped. */
  function ReadCmdLines(raw: string): (cmds: seq<string>)
    ensures forall ln :: ln in cmds ==> NonBlank(ln)
  {
    FilterMembers(SplitLines(raw), NonBlank);
    Filter(SplitLines(raw), NonBlank)
  }

  /** Every kept line is a non-blank line of the text, and every non-blank line is kept. */
  lemma ReadCmdLinesKeeps(raw: string)
    ensures forall ln :: ln in ReadCmdLines(raw) <==> ln in SplitLines(raw) && NonBlank(ln)
    ensures forall k :: 0 <= k < |ReadCmdLines(raw)| ==> NoLineBreak(ReadCmdLines(raw)[k])
  {
    var lines := SplitLines(raw);
    FilterMembers(lines, NonBlank);
    forall k | 0 <= k < |ReadCmdLines(raw)| ensures NoLineBreak(ReadCmdLines(raw)[k]) {
      assert ReadCmdLines(raw)[k] in lines;
      var j :| 0 <= j < |lines| && lines[j] == ReadCmdLines(raw)[k];
    }
  }

  /** The first line boundary of `a + b` is where `a` ends, when `a` has none and `b` starts with one. */
  lemma {:induction false} LineEndAfter(a: string, b: string)
    requires NoLineBreak(a) && (b == [] || IsLineBreak(b[0]))
    ensures LineEnd(a + b) == |a|
  {
    if a == [] {
      assert a + b == b;
    } else {
      assert (a + b)[0] == a[0] && (a + b)[1..] == a[1..] + b;
      LineEndAfter(a[1..], b);
    }
  }

  /** Splitting the lines of commands joined with "\n" gives back the commands. */
  lemma {:induction false} SplitLinesOfJoin(cmds: seq<string>)
    requires forall k :: 0 <= k < |cmds| ==> cmds[k] != [] && NoLineBreak(cmds[k])
    ensures SplitLines(Join("\n", cmds)) == cmds
  {
    if |cmds| == 1 {
      LineEndAfter(cmds[0], []);
      assert cmds[0] + [] == cmds[0];
    } else if |cmds| > 1 {
      var rest := Join("\n", cmds[1..]);
      var s := Join("\n", cmds);
      assert s == cmds[0] + ("\n" + rest);
      LineEndAfter(cmds[0], "\n" + rest);
      assert s[..|cmds[0]|] == cmds[0] && s[|cmds[0]|] == '\n' && s[|cmds[0]| + 1..] == rest;
      SplitLinesOfJoin(cmds[1..]);
    }
  }

  /**
   * The edit dialog shows a command list joined with "\n" and reads it
   * back with `_read_cmd_lines`: non-blank commands without line
   * boundaries come back unchanged.
   */
  lemma ReadCmdLinesOfJoin(cmds: seq<string>)
    requires forall k :: 0 <= k < |cmds| ==> NonBlank(cmds[k]) && NoLineBreak(cmds[k])
    ensures ReadCmdLines(Join("\n", cmds)) == cmds
  {
    SplitLinesOfJoin(cmds);
    FilterKeepsAll(cmds, NonBlank);
  }

  // ------------------------------------------------------------------
  //  The panel
  // ------------------------------------------------------------------

  class TestSuitePanel {
    /** `_tests`, in list order. */
    var tests: seq<TestCase>
    /** `_result_map`: the status shown in the result column of each test. */
    var resultMap: map<string, Status>
    /** `_current_run_tests`, `_stop_requested`. */
    var currentRun: seq<TestCase>
    var stopRequested: bool
    /** `_pass_count`, `_fail_count`, `_total_count`. */
    var passCount: int
    var failCount: int
    var totalCount: int
    /** `_run_results`: the results of the current or most recent run. */
    var runResults: seq<TestResult>
    /** `_runner`. */
    const runner: TestRunner

    /** The counters agree with the results received. */
    predicate Tallied()
      reads this
    {
      passCount == Passes(runResults) && failCount == |runResults| - Passes(runResults)
    }

    /** A new panel holding the tests loaded from the configuration. */
    constructor (loaded: seq<TestCase>)
      ensures tests == loaded && resultMap == map[] && currentRun == [] && !stopRequested
      ensures passCount == 0 && failCount == 0 && totalCount == 0 && runResults == []
      ensures Tallied() && fresh(runner) && !runner.stopRequested
    {
      tests := loaded;
      runner := new TestRunner();
      passCount := 0;
      failCount := 0;
      totalCount := 0;
      resultMap := map[];
      runResults := [];
      currentRun := [];
      stopRequested := false;
    }

    /** `_move_up`: returns the row selected afterwards, if anything moved. */
    method MoveUp(sel: seq<string>) returns (newSel: Option<string>)
      modifies this`tests
      ensures (tests, newSel) == MovedUp(old(tests), sel)
    {
      var idx := SelectedIndex(tests, sel);
      if idx <= 0 {
        return None;
      }
      var above, here := tests[idx - 1], tests[idx];
      tests := tests[idx := above][idx - 1 := here];
      assert tests == Swapped(old(tests), idx - 1);
      newSel := Some(tests[idx - 1].id);
    }

    /** `_move_down`: returns the row selected afterwards, if anything moved. */
    method MoveDown(sel: seq<string>) returns (newSel: Option<string>)
      modifies this`tests
      ensures (tests, newSel) == MovedDown(old(tests), sel)
    {
      var idx := SelectedIndex(tests, sel);
      if idx < 0 || idx >= |tests| - 1 {
        return None;
      }
      var here, below := tests[idx], tests[idx + 1];
      tests := tests[idx := below][idx + 1 := here];
      newSel := Some(tests[idx + 1].id);
    }

    /** `_delete_test`, given the user's answer to the confirmation. */
    method DeleteTest(sel: seq<string>, confirmed: bool)
      modifies this`tests
      ensures tests == Deleted(old(tests), sel, confirmed)
    {
      var tc := SelectedTest(tests, sel);
      if tc.None? {
        return;
      }
      if confirmed {
        tests := WithoutId(tests, tc.value.id);
      }
    }

    /** `_on_tree_click`: only a click on the enabled cell of a row changes anything. */
    method OnTreeClick(onEnabledCell: bool, item: string)
      modifies this`tests
      ensures tests == if onEnabledCell then Toggled(old(tests), item) else old(tests)
    {
      if onEnabledCell && item != [] {
        var i := IndexOf(tests, item, 0);
        if i >= 0 {
          tests := tests[i := tests[i].(enabled := !tests[i].enabled)];
        }
      }
    }

    /**
     * `_start_run`: when the port is connected, remember the tests, clear
     * the stop flag, the counters and the results, blank the result
     * column of the tests about to run, and hand the run to the runner,
     * which clears its own stop flag first. Otherwise nothing changes.
     */
    method StartRun(run: seq<TestCase>, connected: bool) returns (started: bool)
      modifies this`currentRun, this`stopRequested, this`passCount, this`failCount, this`totalCount,
               this`runResults, this`resultMap, runner
      ensures started == connected
      ensures !connected ==> unchanged(this) && unchanged(runner)
      ensures connected ==> !runner.stopRequested
      ensures connected ==>
                currentRun == run && !stopRequested && passCount == 0 && failCount == 0 &&
                totalCount == |run| && runResults == [] && resultMap == old(resultMap) - IdsOf(run) && Tallied()
    {
      if !connected {
        return false;
      }
      currentRun := run;
      stopRequested := false;
      passCount := 0;
      failCount := 0;
      totalCount := |run|;
      runResults := [];
      BlankResults(run);
      runner.Start();
      started := true;
    }

    /** The reset of the result column in `_start_run`, one test of the run at a time. */
    method BlankResults(run: seq<TestCase>)
      modifies this`resultMap
      ensures resultMap == old(resultMap) - IdsOf(run)
    {
      for i := 0 to |run|
        invariant resultMap == old(resultMap) - IdsOf(run[..i])
      {
        assert run[..i + 1][..i] == run[..i];
        resultMap := resultMap - {run[i].id};
      }
      assert run[..|run|] == run;
    }

    /** `_run_all`: returns whether a run started. */
    method RunAll(connected: bool) returns (started: bool)
      modifies this`currentRun, this`stopRequested, this`passCount, this`failCount, this`totalCount,
               this`runResults, this`resultMap, runner
      ensures started <==> RunAllTests(tests).Some? && connected
      ensures started ==> currentRun == RunAllTests(tests).value && totalCount == |currentRun| && Tallied()
      ensures started ==> !runner.stopRequested
      ensures !started ==> unchanged(this) && unchanged(runner)
    {
      var chosen := RunAllTests(tests);
      if chosen.None? {
        return false;
      }
      started := StartRun(chosen.value, connected);
    }

    /** `_run_selected`: returns whether a run started. */
    method RunSelected(sel: seq<string>, connected: bool) returns (started: bool)
      modifies this`currentRun, this`stopRequested, this`passCount, this`failCount, this`totalCount,
               this`runResults, this`resultMap, runner
      ensures started <==> sel != [] && connected
      ensures started ==> currentRun == RunSelectedTests(tests, sel).value && totalCount == |currentRun| && Tallied()
      ensures started ==> !runner.stopRequested
      ensures !started ==> unchanged(this) && unchanged(runner)
    {
      var chosen := RunSelectedTests(tests, sel);
      if chosen.None? {
        return false;
      }
      started := StartRun(chosen.value, connected);
    }

    /** `_stop_run`: remember that Stop was pressed and tell the runner. */
    method StopRun()
      modifies this`stopRequested, runner
      ensures stopRequested && runner.stopRequested
    {
      stopRequested := true;
      runner.Stop();
    }

    /** `_on_result`: show the status, keep the result and count it as a pass or a failure. */
    method OnResult(result: TestResult)
      modifies this`resultMap, this`runResults, this`passCount, this`failCount
      ensures resultMap == old(resultMap)[result.test.id := result.status]
      ensures runResults == old(runResults) + [result]
      ensures result.status == Pass ==> passCount == old(passCount) + 1 && failCount == old(failCount)
      ensures result.status != Pass ==> passCount == old(passCount) && failCount == old(failCount) + 1
      ensures old(Tallied()) ==> Tallied()
    {
      resultMap := resultMap[result.test.id := result.status];
      runResults := runResults + [result];
      assert runResults[..|runResults| - 1] == old(runResults);
      if result.status == Pass {
        passCount := passCount + 1;
      } else {
        failCount := failCount + 1;
      }
    }

    /** The event loop running, in order, the `on_result` callbacks posted for the reports of a run. */
    method DeliverResults(trace: seq<Event>)
      modifies this`resultMap, this`runResults, this`passCount, this`failCount
      ensures runResults == old(runResults) + Reports(trace)
      ensures old(Tallied()) ==> Tallied()
    {
      for i := 0 to |trace|
        invariant runResults == old(runResults) + Reports(trace[..i])
        invariant old(Tallied()) ==> Tallied()
      {
        ReportsAppend(trace[..i], [trace[i]]);
        assert trace[..i + 1] == trace[..i] + [trace[i]];
        assert Reports([trace[i]]) == (if trace[i].Reported? then [trace[i].result] else []) by {
          assert [trace[i]][1..] == [];
        }
        if trace[i].Reported? {
          OnResult(trace[i].result);
        }
      }
      assert trace[..|trace|] == trace;
    }

    /** `_append_run_row`: the lines to append to the log file, given whether it is new or empty. */
    method AppendRunRow(ts: string, fileIsNew: bool) returns (lines: seq<seq<string>>)
      ensures lines == LogLines(fileIsNew, tests, runResults, ts)
    {
      var list := tests;
      var headers := Header(list);
      var lookup := Lookup(runResults);
      var row := [ts];
      for i := 0 to |list|
        invariant row == [ts] + seq(i, k requires 0 <= k < i => Cell(lookup, list[k].id))
      {
        row := row + [Cell(lookup, list[i].id)];
      }
      assert row == RunRow(tests, runResults, ts);
      lines := if fileIsNew then [headers, row] else [row];
    }

    /**
     * `_on_done`: log the run when it produced results, then start the same
     * tests again when loop mode is on and Stop was not pressed. Returns the
     * log lines and whether a new run started.
     */
    method OnDone(loopOn: bool, connected: bool, fileIsNew: bool, ts: string)
      returns (logged: seq<seq<string>>, restarted: bool)
      modifies this`currentRun, this`stopRequested, this`passCount, this`failCount, this`totalCount,
               this`runResults, this`resultMap, runner
      ensures logged == if old(runResults) == [] then [] else LogLines(fileIsNew, tests, old(runResults), ts)
      ensures restarted <==> loopOn && !old(stopRequested) && connected
      ensures restarted ==>
                currentRun == old(currentRun) && passCount == 0 && failCount == 0 &&
                totalCount == |currentRun| && runResults == [] && Tallied() && !runner.stopRequested
      ensures !restarted ==> unchanged(this) && unchanged(runner)
    {
      logged := [];
      if runResults != [] {
        logged := AppendRunRow(ts, fileIsNew);
      }
      restarted := false;
      if loopOn && !stopRequested {
        restarted := StartRun(currentRun, connected);
      }
    }
  }
}
