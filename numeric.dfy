/**
 * The numeric-check mini-language of the test runner
 * (`_evaluate_numeric_checks` in app/test_runner.py).
 *
 * Each non-blank line of a check block reads `<prefix> <op> <value>` or
 * `<prefix> in <lo>..<hi>`. The line is parsed with the regular expression
 * `^(.*?)\s*(>=|<=|!=|==|>|<|in)\s+(.+)$`, the prefix is searched literally
 * in the response, the first number after it is extracted with
 * `[-+]?\d+(?:\.\d+)?(?:[eE][-+]?\d+)?` and compared. Both regular
 * expressions are modelled as explicit scanners that make the choices of
 * Python's backtracking engine; numbers are exact reals.
 */
module NumericChecks {
  import opened Results
  import opened PyStr

  // ---------------------------------------------------------------------
  // Comparison operators, in the order the regex alternation tries them
  // ---------------------------------------------------------------------

  datatype Op = Ge | Le | Ne | Eq | Gt | Lt | In

  /** The alternation `>=|<=|!=|==|>|<|in`, in the order it is tried. */
  const Ops: seq<Op> := [Ge, Le, Ne, Eq, Gt, Lt, In]

  function OpText(op: Op): (t: string)
    ensures 1 <= |t| <= 2
  {
    match op
    case Ge => ">=" case Le => "<=" case Ne => "!=" case Eq => "=="
    case Gt => ">" case Lt => "<" case In => "in"
  }

  /** The meaning of a comparison operator on numbers (`in` is handled separately). */
  predicate Compare(op: Op, value: real, threshold: real) {
    match op
    case Ge => value >= threshold
    case Le => value <= threshold
    case Gt => value > threshold
    case Lt => value < threshold
    case Eq => value == threshold
    case Ne => value != threshold
    case In => false
  }

  // ---------------------------------------------------------------------
  // The line regex `^(.*?)\s*(OPS)\s+(.+)$`
  // ---------------------------------------------------------------------

  /** The character at position `k` of `s` is a newline (which `.` does not match). */
  predicate NewlineAt(s: string, k: nat) {
    k < |s| && s[k] == '\n'
  }

  /** `s[a..b]` holds no newline. */
  predicate NoNewlineIn(s: string, a: nat, b: nat) {
    a <= b <= |s| && forall k :: a <= k < b ==> !NewlineAt(s, k)
  }

  /** Length of the longest run of `\s` characters starting at `p`. */
  function SpaceRun(s: string, p: nat): (n: nat)
    requires p <= |s|
    ensures SpacesIn(s, p, p + n)
    ensures p + n < |s| ==> !SpaceAt(s, p + n)
    decreases |s| - p
  {
    if p == |s| || !SpaceAt(s, p) then 0 else 1 + SpaceRun(s, p + 1)
  }

  lemma SpaceRunIsMaximal(s: string, p: nat, n: nat)
    requires SpacesIn(s, p, p + n)
    ensures n <= SpaceRun(s, p)
  {
  }

  /** Where `$` can match last: before a final newline, or at the end. */
  function TailEnd(line: string): (e: nat)
    ensures e <= |line| && (e < |line| ==> line[e] == '\n')
  {
    if |line| > 0 && line[|line| - 1] == '\n' then |line| - 1 else |line|
  }

  /**
   * `(.+)$` matches from `p`: the greedy `.+` runs to the first newline or
   * the end, and `$` then has to hold, at the end or before a final newline.
   */
  predicate TailAt(line: string, p: nat) {
    p < TailEnd(line) && NoNewlineIn(line, p, TailEnd(line))
  }

  /** Operator number `o` of the alternation occurs at `p`. */
  predicate OpAt(line: string, p: nat, o: nat) {
    o < |Ops| && p + |OpText(Ops[o])| <= |line| && line[p] == OpText(Ops[o])[0] &&
    (|OpText(Ops[o])| == 2 ==> line[p + 1] == OpText(Ops[o])[1])
  }

  /** `\s+(.+)$` matches from `q` with `\s+` taking `j` characters. */
  predicate TailFits(line: string, q: nat, j: nat) {
    1 <= j && SpacesIn(line, q, q + j) && TailAt(line, q + j)
  }

  /** `(OPS)\s+(.+)$` matches from `p` with operator `o` and `\s+` of length `j`. */
  predicate OpFits(line: string, p: nat, o: nat, j: nat) {
    OpAt(line, p, o) && TailFits(line, p + |OpText(Ops[o])|, j)
  }

  /** `\s*(OPS)\s+(.+)$` matches from `i` with `\s*` of length `k`. */
  predicate AfterPrefixFits(line: string, i: nat, k: nat, o: nat, j: nat) {
    SpacesIn(line, i, i + k) && OpFits(line, i + k, o, j)
  }

  /** The whole regex matches with `(.*?)` of length `i` and the other choices as given. */
  predicate Fits(line: string, i: nat, k: nat, o: nat, j: nat) {
    NoNewlineIn(line, 0, i) && AfterPrefixFits(line, i, k, o, j)
  }

  /**
   * The backtracking order of the regex engine: the lazy `(.*?)` tries short
   * prefixes first, the greedy `\s*` and `\s+` try long runs first, and the
   * alternation tries operators left to right.
   */
  predicate Before(i1: nat, k1: nat, o1: nat, j1: nat, i2: nat, k2: nat, o2: nat, j2: nat) {
    i1 < i2 || (i1 == i2 && (k1 > k2 || (k1 == k2 && (o1 < o2 || (o1 == o2 && j1 > j2)))))
  }

  // ---------------------------------------------------------------------
  // Alternatives tried in order
  // ---------------------------------------------------------------------

  /**
   * The backtracking engine trying alternatives `i`, `i + 1`, ... up to `n`
   * in turn: the first that succeeds wins, and `more(i)` says whether the
   * engine may go on past alternative `i` when it fails.
   */
  function FirstSome<X>(n: nat, i: nat, attempt: nat -> Option<X>, more: nat -> bool): Option<X>
    decreases n - i
  {
    if i > n then None
    else
      match attempt(i)
      case Some(x) => Some(x)
      case None => if i < n && more(i) then FirstSome(n, i + 1, attempt, more) else None
  }

  /** What the engine returns is an alternative it reached: every one before it let it go on. */
  lemma {:induction false} FirstSomeIsAttempt<X>(n: nat, i: nat, attempt: nat -> Option<X>, more: nat -> bool)
    ensures FirstSome(n, i, attempt, more).Some? ==>
              exists p :: i <= p <= n && FirstSome(n, i, attempt, more) == attempt(p) &&
                forall k :: i <= k < p ==> more(k)
    decreases n - i
  {
    if i <= n && attempt(i).None? && i < n && more(i) {
      FirstSomeIsAttempt(n, i + 1, attempt, more);
      if FirstSome(n, i, attempt, more).Some? {
        var p :| i + 1 <= p <= n && FirstSome(n, i + 1, attempt, more) == attempt(p) &&
          forall k :: i + 1 <= k < p ==> more(k);
        assert FirstSome(n, i, attempt, more) == attempt(p);
      }
    } else if i <= n && attempt(i).Some? {
      assert FirstSome(n, i, attempt, more) == attempt(i);
    }
  }

  /** An alternative `m` that succeeds, with nothing stopping the engine before it, is found or beaten by an earlier one. */
  lemma {:induction false} FirstSomeReaches<X>(n: nat, i: nat, m: nat, attempt: nat -> Option<X>, more: nat -> bool)
    requires i <= m <= n && attempt(m).Some?
    requires forall k :: i <= k < m ==> more(k)
    ensures FirstSome(n, i, attempt, more).Some?
    ensures exists p :: i <= p <= m && FirstSome(n, i, attempt, more) == attempt(p)
    decreases m - i
  {
    if attempt(i).Some? {
      assert FirstSome(n, i, attempt, more) == attempt(i);
    } else {
      assert i < m && more(i);
      FirstSomeReaches(n, i + 1, m, attempt, more);
      assert FirstSome(n, i, attempt, more) == FirstSome(n, i + 1, attempt, more);
    }
  }

  datatype Choice = Choice(i: nat, k: nat, o: nat, j: nat)

  /** Greedy `\s+` followed by `(.+)$`: the longest run `j <= top` that lets the tail match. */
  function FirstSpaces(line: string, q: nat, top: nat): (r: Option<nat>)
    requires SpacesIn(line, q, q + top)
    ensures r.Some? ==> r.value <= top && TailFits(line, q, r.value)
    ensures forall j: nat :: j <= top && TailFits(line, q, j) ==> r.Some? && j <= r.value
  {
    if top == 0 then None
    else if TailAt(line, q + top) then Some(top)
    else FirstSpaces(line, q, top - 1)
  }

  /** Operator `o` at `p` followed by `\s+(.+)$`: the operator and the length the greedy `\s+` settles on. */
  function OpAttempt(line: string, p: nat, o: nat): (r: Option<(nat, nat)>)
    ensures r.Some? ==> r.value.0 == o && OpFits(line, p, o, r.value.1)
  {
    if OpAt(line, p, o) then
      var q := p + |OpText(Ops[o])|;
      match FirstSpaces(line, q, SpaceRun(line, q))
      case Some(j) => Some((o, j))
      case None => None
    else None
  }

  /** The alternation from operator `o` on, each operator followed by `\s+(.+)$`. */
  function FirstOp(line: string, p: nat, o: nat): Option<(nat, nat)> {
    FirstSome(|Ops| - 1, o, (o': nat) => OpAttempt(line, p, o'), (o': nat) => true)
  }

  /** What the alternation settles on fits, with an operator not before `o`. */
  lemma FirstOpFits(line: string, p: nat, o: nat)
    ensures FirstOp(line, p, o).Some? ==>
              o <= FirstOp(line, p, o).value.0 && OpFits(line, p, FirstOp(line, p, o).value.0, FirstOp(line, p, o).value.1)
  {
    var attempt := (o': nat) => OpAttempt(line, p, o');
    FirstSomeIsAttempt(|Ops| - 1, o, attempt, (o': nat) => true);
    if FirstOp(line, p, o).Some? {
      var q :| o <= q <= |Ops| - 1 && FirstOp(line, p, o) == attempt(q);
      assert FirstOp(line, p, o) == OpAttempt(line, p, q);
    }
  }

  /** The alternation finds a match whenever operator `o2` (not before `o`) fits, and the one it finds comes first. */
  lemma FirstOpIsFirst(line: string, p: nat, o: nat, o2: nat, j2: nat)
    requires o <= o2 && OpFits(line, p, o2, j2)
    ensures FirstOp(line, p, o).Some?
    ensures FirstOp(line, p, o).value.0 < o2 ||
            (FirstOp(line, p, o).value.0 == o2 && j2 <= FirstOp(line, p, o).value.1)
  {
    var attempt := (o': nat) => OpAttempt(line, p, o');
    var q := p + |OpText(Ops[o2])|;
    SpaceRunIsMaximal(line, q, j2);
    var at := OpAttempt(line, p, o2);
    assert at.Some? && j2 <= at.value.1;
    FirstSomeReaches(|Ops| - 1, o, o2, attempt, (o': nat) => true);
    var r := FirstOp(line, p, o);
    var found :| o <= found <= o2 && r == attempt(found);
    assert r == OpAttempt(line, p, found) && r.value.0 == found;
  }

  /** No operator starts with a whitespace character. */
  /** Every operator starts with one of `>`, `<`, `!`, `=` and `i`, and only `in` with `i`. */
  lemma OpAtChars(line: string, p: nat, o: nat)
    requires OpAt(line, p, o)
    ensures line[p] in {'>', '<', '!', '=', 'i'} && (line[p] == 'i' <==> o == 6)
  {
    assert o in {0, 1, 2, 3, 4, 5, 6};
  }

  lemma OpStartsWithNonSpace(line: string, p: nat, o: nat)
    requires OpAt(line, p, o)
    ensures !SpaceAt(line, p)
  {
    OpAtChars(line, p, o);
  }

  lemma GapIsForced(line: string, i: nat, k: nat, o: nat, j: nat)
    requires AfterPrefixFits(line, i, k, o, j)
    ensures k == SpaceRun(line, i)
  {
    SpaceRunIsMaximal(line, i, k);
    OpStartsWithNonSpace(line, i + k, o);
  }

  /** What follows a prefix of length `i`: the `\s*` gap, which has to take the whole run of spaces, and the alternation. */
  function AttemptAt(line: string, i: nat): (r: Option<Choice>)
    ensures r.Some? ==> r.value.i == i
  {
    if i > |line| then None
    else
      var k := SpaceRun(line, i);
      match FirstOp(line, i + k, 0)
      case Some((o, j)) => Some(Choice(i, k, o, j))
      case None => None
  }

  /** What succeeds after a prefix is the rest of the regex matching there. */
  lemma AttemptAtFits(line: string, i: nat)
    ensures AttemptAt(line, i).Some? ==>
              AfterPrefixFits(line, i, AttemptAt(line, i).value.k, AttemptAt(line, i).value.o, AttemptAt(line, i).value.j)
  {
    if i <= |line| {
      FirstOpFits(line, i + SpaceRun(line, i), 0);
    }
  }

  /** Lazy `(.*?)`: prefixes of length `i`, `i + 1`, ... up to the first newline or the end of the line. */
  function FirstFit(line: string, i: nat): Option<Choice> {
    FirstSome(|line|, i, (i': nat) => AttemptAt(line, i'), (i': nat) => !NewlineAt(line, i'))
  }

  /** What the search settles on is a match, with a prefix no shorter than `i`. */
  lemma FirstFitFits(line: string, i: nat)
    requires NoNewlineIn(line, 0, i)
    ensures FirstFit(line, i).Some? ==>
              i <= FirstFit(line, i).value.i &&
              Fits(line, FirstFit(line, i).value.i, FirstFit(line, i).value.k, FirstFit(line, i).value.o, FirstFit(line, i).value.j)
  {
    var attempt := (i': nat) => AttemptAt(line, i');
    var more := (i': nat) => !NewlineAt(line, i');
    FirstSomeIsAttempt(|line|, i, attempt, more);
    var r := FirstFit(line, i);
    if r.Some? {
      var p :| i <= p <= |line| && r == attempt(p) && forall k :: i <= k < p ==> more(k);
      assert r == AttemptAt(line, p);
      AttemptAtFits(line, p);
      assert NoNewlineIn(line, 0, p) by {
        forall m | 0 <= m < p ensures !NewlineAt(line, m) {
          if m >= i { assert more(m); }
        }
      }
    }
  }

  /** The search finds a match whenever one exists with a prefix of length at least `i`, and the one it finds comes first. */
  lemma FirstFitIsFirst(line: string, i: nat, c: Choice)
    requires NoNewlineIn(line, 0, i) && i <= c.i && Fits(line, c.i, c.k, c.o, c.j)
    ensures FirstFit(line, i).Some?
    ensures Before(FirstFit(line, i).value.i, FirstFit(line, i).value.k, FirstFit(line, i).value.o,
                   FirstFit(line, i).value.j, c.i, c.k, c.o, c.j) || FirstFit(line, i).value == c
  {
    var attempt := (i': nat) => AttemptAt(line, i');
    var more := (i': nat) => !NewlineAt(line, i');
    GapIsForced(line, c.i, c.k, c.o, c.j);
    FirstOpIsFirst(line, c.i + c.k, 0, c.o, c.j);
    var fo := FirstOp(line, c.i + c.k, 0);
    var a := AttemptAt(line, c.i);
    assert a == Some(Choice(c.i, c.k, fo.value.0, fo.value.1));
    FirstSomeReaches(|line|, i, c.i, attempt, more);
    var r := FirstFit(line, i);
    var p :| i <= p <= c.i && r == attempt(p);
    assert r == AttemptAt(line, p) && r.value.i == p;
  }

  /** The three groups of a successful match of the line regex. */
  datatype CheckParts = CheckParts(prefix: string, op: Op, rhs: string)

  /** Groups 1, 2 and 3 of the match made with the given choices. */
  function GroupsOf(line: string, c: Choice): (parts: CheckParts)
    requires Fits(line, c.i, c.k, c.o, c.j)
  {
    var start := c.i + c.k + |OpText(Ops[c.o])| + c.j;
    CheckParts(line[..c.i], Ops[c.o], line[start..TailEnd(line)])
  }

  /** `_CHECK_RE.match(line)`: the groups of the first match in backtracking order. */
  function MatchCheck(line: string): (r: Option<CheckParts>)
    ensures r.Some? ==> r.value.prefix < line
  {
    match FirstFit(line, 0)
    case None => None
    case Some(c) => FirstFitFits(line, 0); Some(GroupsOf(line, c))
  }

  /** No way of matching comes earlier than `c` in backtracking order. */
  ghost predicate FirstChoice(line: string, c: Choice) {
    forall i2: nat, k2: nat, o2: nat, j2: nat :: Fits(line, i2, k2, o2, j2) ==>
      Before(c.i, c.k, c.o, c.j, i2, k2, o2, j2) || c == Choice(i2, k2, o2, j2)
  }

  /**
   * `MatchCheck` is the regex engine's answer: it fails exactly when no
   * choice of prefix, gaps and operator matches the line, and otherwise it
   * yields the groups of the first match in backtracking order.
   */
  lemma MatchCheckIsFirstMatch(line: string)
    ensures MatchCheck(line).None? <==>
              forall i: nat, k: nat, o: nat, j: nat :: !Fits(line, i, k, o, j)
    ensures MatchCheck(line).Some? ==>
              exists c: Choice :: Fits(line, c.i, c.k, c.o, c.j) && FirstChoice(line, c) &&
                MatchCheck(line).value == GroupsOf(line, c)
  {
    forall i: nat, k: nat, o: nat, j: nat | Fits(line, i, k, o, j)
      ensures FirstFit(line, 0).Some?
      ensures Before(FirstFit(line, 0).value.i, FirstFit(line, 0).value.k, FirstFit(line, 0).value.o,
                     FirstFit(line, 0).value.j, i, k, o, j) || FirstFit(line, 0).value == Choice(i, k, o, j)
    {
      FirstFitIsFirst(line, 0, Choice(i, k, o, j));
    }
    var r := FirstFit(line, 0);
    FirstFitFits(line, 0);
    if r.Some? {
      assert FirstChoice(line, r.value);
    }
  }

  // ---------------------------------------------------------------------
  // The number regex `[-+]?\d+(?:\.\d+)?(?:[eE][-+]?\d+)?` and float()
  // ---------------------------------------------------------------------

  /** Length of the longest run of ASCII digits in `s[p..b]` starting at `p`. */
  function DigitRun(s: string, p: nat, b: nat): (n: nat)
    requires p <= b <= |s|
    ensures p + n <= b
    ensures p + n < b ==> !DigitAt(s, p + n)
    decreases b - p
  {
    if p == b || !DigitAt(s, p) then 0 else 1 + DigitRun(s, p + 1, b)
  }

  /** The run `DigitRun` measures is made of digits: it is the longest digit run from `p` within `s[..b]`. */
  lemma {:induction false} DigitRunIsDigits(s: string, p: nat, b: nat)
    requires p <= b <= |s|
    ensures DigitsIn(s, p, p + DigitRun(s, p, b))
    decreases b - p
  {
    if p < b && DigitAt(s, p) {
      DigitRunIsDigits(s, p + 1, b);
    }
  }

  /** A digit run that ends before `b1` is the same whether it is looked for up to `b1` or `b2`. */
  lemma {:induction false} DigitRunUnclipped(s: string, p: nat, b1: nat, b2: nat)
    requires p <= b1 <= b2 <= |s| && p + DigitRun(s, p, b2) <= b1
    ensures DigitRun(s, p, b1) == DigitRun(s, p, b2)
    decreases b1 - p
  {
    if p < b1 && DigitAt(s, p) {
      DigitRunUnclipped(s, p + 1, b1, b2);
    }
  }

  predicate IsSign(c: char) { c == '+' || c == '-' }

  /** Length of the optional `(?:\.\d+)` group at `p` (0 when it does not match). */
  function FractionAt(s: string, p: nat): (n: nat)
    requires p <= |s|
    ensures p + n <= |s|
  {
    if p < |s| && s[p] == '.' && DigitRun(s, p + 1, |s|) > 0 then 1 + DigitRun(s, p + 1, |s|) else 0
  }

  /** Length of the optional `(?:[eE][-+]?\d+)` group at `p` (0 when it does not match). */
  function ExponentAt(s: string, p: nat): (n: nat)
    requires p <= |s|
    ensures p + n <= |s|
  {
    if p < |s| && (s[p] == 'e' || s[p] == 'E') then
      if p + 1 < |s| && IsSign(s[p + 1]) && DigitRun(s, p + 2, |s|) > 0 then 2 + DigitRun(s, p + 2, |s|)
      else if DigitRun(s, p + 1, |s|) > 0 then 1 + DigitRun(s, p + 1, |s|)
      else 0
    else 0
  }

  /** Length of the number regex's match starting exactly at `p` (0 when there is none). */
  function NumberAt(s: string, p: nat): (n: nat)
    requires p <= |s|
    ensures p + n <= |s|
  {
    var d := if p < |s| && IsSign(s[p]) then p + 1 else p;
    var digits := DigitRun(s, d, |s|);
    if digits == 0 then 0
    else
      var f := d + digits;
      var e := f + FractionAt(s, f);
      e + ExponentAt(s, e) - p
  }

  /** `_NUMBER_RE.search(s[from..])`: start and length of the leftmost match. */
  function SearchNumber(s: string, from: nat): (r: Option<(nat, nat)>)
    requires from <= |s|
    ensures r.Some? ==> from <= r.value.0 <= |s| && r.value.1 == NumberAt(s, r.value.0) > 0
    ensures r.Some? ==> forall p: nat :: from <= p < r.value.0 ==> NumberAt(s, p) == 0
    ensures r.None? ==> forall p: nat :: from <= p <= |s| ==> NumberAt(s, p) == 0
    decreases |s| - from
  {
    if NumberAt(s, from) > 0 then Some((from, NumberAt(s, from)))
    else if from == |s| then None
    else SearchNumber(s, from + 1)
  }

  /** `x` times 10 to the power `e`: the decimal point moved `e` places. */
  function Scale(x: real, e: int): (r: real)
    ensures x >= 0.0 ==> r >= 0.0
    decreases if e < 0 then -e else e
  {
    if e == 0 then x else if e > 0 then Scale(x, e - 1) * 10.0 else Scale(x, e + 1) / 10.0
  }

  /** Position after the optional sign of the text `s[a..b]`. */
  function SignEnd(s: string, a: nat, b: nat): (d: nat)
    requires a <= b <= |s|
    ensures a <= d <= b && (d == a + 1 <==> a < b && IsSign(s[a]))
  {
    if a < b && IsSign(s[a]) then a + 1 else a
  }

  /** Position after the mantissa `\d*(\.\d*)?` starting at `d` in `s[..b]`. */
  function MantissaEnd(s: string, d: nat, b: nat): (m: nat)
    requires d <= b <= |s|
    ensures d + DigitRun(s, d, b) <= m <= b
  {
    var dot := d + DigitRun(s, d, b);
    if dot < b && s[dot] == '.' then dot + 1 + DigitRun(s, dot + 1, b) else dot
  }

  /** Where the digits of an exponent starting at `m` begin: after `e` or `E` and an optional sign. */
  function ExponentDigits(s: string, m: nat, b: nat): (es: nat)
    requires m < b <= |s|
    ensures m < es <= b
  {
    if m + 1 < b && IsSign(s[m + 1]) then m + 2 else m + 1
  }

  /** `s[m..b]` is an exponent `[eE][-+]?\d+`. */
  predicate ExponentShape(s: string, m: nat, b: nat)
    requires m <= b <= |s|
  {
    m < b && (s[m] == 'e' || s[m] == 'E') &&
    ExponentDigits(s, m, b) < b && DigitRun(s, ExponentDigits(s, m, b), b) == b - ExponentDigits(s, m, b)
  }

  /** The value of the exponent `s[m..b]`. */
  function ExponentValue(s: string, m: nat, b: nat): int
    requires m <= b <= |s| && ExponentShape(s, m, b)
  {
    var es := ExponentDigits(s, m, b);
    var v: int := DigitsValue(s, es, b);
    if s[es - 1] == '-' then -v else v
  }

  /** The mantissa starting at `d` holds at least one digit, before or after the point. */
  predicate MantissaHasDigit(s: string, d: nat, b: nat)
    requires d <= b <= |s|
  {
    DigitRun(s, d, b) > 0 || (d < b && s[d] == '.' && DigitRun(s, d + 1, b) > 0)
  }

  /**
   * The text `s[a..b]`, which has no surrounding whitespace, is one that
   * Python's `float()` accepts in decimal notation: an optional sign, digits
   * with an optional fraction (at least one digit in all) and an optional
   * exponent.
   */
  predicate FloatShape(s: string, a: nat, b: nat)
    requires a <= b <= |s|
  {
    var d := SignEnd(s, a, b);
    var m := MantissaEnd(s, d, b);
    MantissaHasDigit(s, d, b) && (m == b || ExponentShape(s, m, b))
  }

  /** The exact value of a float literal. */
  function FloatValue(s: string, a: nat, b: nat): real
    requires a <= b <= |s| && FloatShape(s, a, b)
  {
    var d := SignEnd(s, a, b);
    var dot := d + DigitRun(s, d, b);
    var m := MantissaEnd(s, d, b);
    var fracStart := if m == dot then m else dot + 1;
    var mantissa := (DigitsValue(s, d, dot) as real) + Scale(DigitsValue(s, fracStart, m) as real, fracStart - m);
    var magnitude := Scale(mantissa, if m == b then 0 else ExponentValue(s, m, b));
    if d == a + 1 && s[a] == '-' then -magnitude else magnitude
  }

  /** Python's `float()` applied to the text `s[a..b]`, which has no surrounding whitespace. */
  function FloatIn(s: string, a: nat, b: nat): (r: Option<real>)
    requires a <= b <= |s|
  {
    if FloatShape(s, a, b) then Some(FloatValue(s, a, b)) else None
  }

  /** Python's `float(text)`: whitespace around the number is allowed. */
  function ParseFloat(text: string): (r: Option<real>)
    ensures r.Some? ==> Strip(text) != []
  {
    var s := Strip(text);
    FloatIn(s, 0, |s|)
  }

  /** `float()` agrees with `int()` on every text `int()` accepts. */
  lemma FloatAgreesWithInt(text: string)
    requires ParseInt(text).Some?
    ensures ParseFloat(text) == Some(ParseInt(text).value as real)
  {
    var s := Strip(text);
    var d := if IsSign(s[0]) then 1 else 0;
    assert DigitRun(s, d, |s|) == |s| - d by { DigitRunOfDigits(s, d, |s|); }
  }

  lemma {:induction false} DigitRunOfDigits(s: string, p: nat, b: nat)
    requires p <= b && DigitsIn(s, p, b)
    ensures DigitRun(s, p, b) == b - p
    decreases b - p
  {
    if p < b {
      DigitRunOfDigits(s, p + 1, b);
    }
  }

  /** The three groups of a number match: optional sign up to `d`, digits up to `f`, fraction up to `e`, then the exponent. */
  lemma NumberParts(s: string, p: nat, d: nat, f: nat)
    requires p <= |s| && NumberAt(s, p) > 0 && d == (if IsSign(s[p]) then p + 1 else p)
    requires f == d + DigitRun(s, d, |s|)
    ensures d < f && p + NumberAt(s, p) == f + FractionAt(s, f) + ExponentAt(s, f + FractionAt(s, f))
  {
  }

  /** A fraction group `.\d+` is read by `float()` as the fraction of the mantissa. */
  lemma FractionIsMantissa(s: string, d: nat, f: nat, b: nat)
    requires d <= f <= b <= |s| && FractionAt(s, f) > 0 && f + FractionAt(s, f) <= b
    requires DigitRun(s, d, b) == f - d
    ensures MantissaEnd(s, d, b) == f + FractionAt(s, f)
  {
    DigitRunUnclipped(s, f + 1, b, |s|);
  }

  /** Without a fraction group, the mantissa `float()` reads ends with the digits. */
  lemma NoFractionIsMantissa(s: string, d: nat, f: nat, b: nat)
    requires d <= f <= b <= |s| && FractionAt(s, f) == 0 && (f < b ==> ExponentAt(s, f) > 0)
    requires DigitRun(s, d, b) == f - d
    ensures MantissaEnd(s, d, b) == f
  {
  }

  /** Inside a number match, the mantissa `float()` reads ends where the regex's fraction group ends. */
  lemma MantissaOfNumber(s: string, d: nat, f: nat, b: nat)
    requires d < f <= b <= |s| && f == d + DigitRun(s, d, |s|)
    requires b == f + FractionAt(s, f) + ExponentAt(s, f + FractionAt(s, f))
    ensures DigitRun(s, d, b) == f - d
    ensures MantissaEnd(s, d, b) == f + FractionAt(s, f)
  {
    DigitRunUnclipped(s, d, b, |s|);
    if FractionAt(s, f) > 0 {
      FractionIsMantissa(s, d, f, b);
    } else {
      NoFractionIsMantissa(s, d, f, b);
    }
  }

  /** Inside a number match, what follows the mantissa is an exponent `float()` accepts. */
  lemma ExponentOfNumber(s: string, e: nat, b: nat)
    requires e < b <= |s| && e + ExponentAt(s, e) == b
    ensures ExponentShape(s, e, b)
  {
    if e + 1 < |s| && IsSign(s[e + 1]) && DigitRun(s, e + 2, |s|) > 0 {
      DigitRunUnclipped(s, e + 2, b, |s|);
    } else {
      DigitRunUnclipped(s, e + 1, b, |s|);
    }
  }

  /** `FloatShape` from its parts: where the sign and the mantissa end, and what follows the mantissa. */
  lemma FloatShapeOfParts(s: string, a: nat, b: nat, d: nat, m: nat)
    requires a <= d <= m <= b <= |s| && d == SignEnd(s, a, b) && m == MantissaEnd(s, d, b)
    requires MantissaHasDigit(s, d, b) && (m == b || ExponentShape(s, m, b))
    ensures FloatShape(s, a, b)
  {
  }

  /** A sign, digits, the fraction group and the exponent group make up text `float()` accepts. */
  lemma NumberPartsAreFloat(s: string, p: nat, d: nat, f: nat, b: nat)
    requires p <= d <= p + 1 && (d == p + 1 <==> p < |s| && IsSign(s[p]))
    requires d < f <= b <= |s| && f == d + DigitRun(s, d, |s|)
    requires b == f + FractionAt(s, f) + ExponentAt(s, f + FractionAt(s, f))
    ensures FloatShape(s, p, b)
  {
    var e := f + FractionAt(s, f);
    MantissaOfNumber(s, d, f, b);
    if e < b {
      ExponentOfNumber(s, e, b);
    }
    FloatShapeOfParts(s, p, b, d, e);
  }

  /** Every match of the number regex is text that `float()` accepts. */
  lemma NumberTextIsFloat(s: string, p: nat)
    requires p <= |s| && NumberAt(s, p) > 0
    ensures FloatIn(s, p, p + NumberAt(s, p)).Some?
  {
    var d := if IsSign(s[p]) then p + 1 else p;
    var f := d + DigitRun(s, d, |s|);
    var b := p + NumberAt(s, p);
    NumberParts(s, p, d, f);
    NumberPartsAreFloat(s, p, d, f, b);
    assert FloatIn(s, p, b) == Some(FloatValue(s, p, b));
  }

  /** `float(_NUMBER_RE.search(region).group())`: the value of the leftmost number in `region`. */
  function FirstNumber(region: string): Option<real> {
    match SearchNumber(region, 0)
    case None => None
    case Some((p, n)) => FloatIn(region, p, p + n)
  }

  /** A number is found exactly when the number regex matches somewhere in the region. */
  lemma FirstNumberFound(region: string)
    ensures FirstNumber(region).Some? <==> exists p: nat :: p <= |region| && NumberAt(region, p) > 0
  {
    match SearchNumber(region, 0)
    case None =>
    case Some((p, n)) => NumberTextIsFloat(region, p);
  }

  // ---------------------------------------------------------------------
  // Evaluation
  // ---------------------------------------------------------------------

  /** The failure a check line reports; the wording of the messages is not modelled. */
  datatype Failure =
    | BadSyntax(line: string)
    | PrefixNotFound(prefix: string)
    | NoNumber(prefix: string)
    | BadRange(rhs: string)
    | NonNumericBounds(rhs: string)
    | NonNumericThreshold(rhs: string)
    | NotInRange(value: real, lo: real, hi: real, prefix: string)
    | ComparisonFailed(value: real, op: Op, threshold: real, prefix: string)

  /** The part of the response searched for a number: what follows the first occurrence of a non-empty prefix. */
  function SearchRegion(actual: string, prefix: string): (r: Option<string>)
    ensures prefix == [] ==> r == Some(actual)
    ensures prefix != [] ==> (r.None? <==> Find(actual, prefix) == -1)
    ensures prefix != [] && r.Some? ==>
              actual == actual[..Find(actual, prefix)] + prefix + r.value
  {
    if prefix == [] then Some(actual)
    else
      var idx := Find(actual, prefix);
      if idx == -1 then None
      else
        assert actual == actual[..idx] + actual[idx..idx + |prefix|] + actual[idx + |prefix|..];
        Some(actual[idx + |prefix|..])
  }

  /**
   * A non-empty prefix is looked up at its first occurrence: there is no
   * region exactly when the response lacks the prefix, and otherwise the
   * region is what follows the earliest occurrence.
   */
  lemma SearchRegionIsAfterFirstOccurrence(actual: string, prefix: string)
    requires prefix != []
    ensures SearchRegion(actual, prefix).None? <==> !Contains(actual, prefix)
    ensures SearchRegion(actual, prefix).Some? ==>
              exists i :: OccursAt(actual, prefix, i) && SearchRegion(actual, prefix).value == actual[i + |prefix|..]
                && forall j :: 0 <= j < i ==> !OccursAt(actual, prefix, j)
  {
    FindIffContains(actual, prefix);
    var i := Find(actual, prefix);
    if i != -1 {
      forall j | 0 <= j < i ensures !OccursAt(actual, prefix, j) {
        if OccursAt(actual, prefix, j) {
          FindIsFirst(actual, prefix, j);
        }
      }
    }
  }

  /** The verdict on one stripped, non-blank check line: `None` when it passes. */
  function CheckLine(line: string, actual: string): (r: Option<Failure>)
    ensures r == Some(BadSyntax(line)) <==> MatchCheck(line).None?
  {
    match MatchCheck(line)
    case None => Some(BadSyntax(line))
    case Some(parts) => CheckMatched(parts, actual)
  }

  /** The verdict on a line the regex matched: look up the prefix, then the first number after it. */
  function CheckMatched(parts: CheckParts, actual: string): (r: Option<Failure>)
    ensures r.Some? ==> !r.value.BadSyntax?
  {
    var prefix := Strip(parts.prefix);
    match SearchRegion(actual, prefix)
    case None => Some(PrefixNotFound(prefix))
    case Some(region) =>
      match FirstNumber(region)
      case None => Some(NoNumber(prefix))
      case Some(value) => CheckValue(parts.op, Strip(parts.rhs), value, prefix)
  }

  /** The verdict on the number `value` found after `prefix`, against the stripped right-hand side `rhs`. */
  function CheckValue(op: Op, rhs: string, value: real, prefix: string): (r: Option<Failure>)
    ensures r.Some? ==> !r.value.BadSyntax? && !r.value.PrefixNotFound? && !r.value.NoNumber?
  {
    if op == In then
      var bounds := Split(rhs, "..");
      if |bounds| != 2 then Some(BadRange(rhs))
      else
        match (ParseFloat(bounds[0]), ParseFloat(bounds[1]))
        case (Some(lo), Some(hi)) =>
          if lo <= value <= hi then None else Some(NotInRange(value, lo, hi, prefix))
        case _ => Some(NonNumericBounds(rhs))
    else
      match ParseFloat(rhs)
      case None => Some(NonNumericThreshold(rhs))
      case Some(threshold) =>
        if Compare(op, value, threshold) then None
        else Some(ComparisonFailed(value, op, threshold, prefix))
  }

  /** A line is reported as malformed exactly when the line regex cannot match it in any way. */
  lemma BadSyntaxIffNoMatch(line: string, actual: string)
    ensures CheckLine(line, actual) == Some(BadSyntax(line)) <==>
              forall i: nat, k: nat, o: nat, j: nat :: !Fits(line, i, k, o, j)
  {
    MatchCheckIsFirstMatch(line);
  }

  /** A non-empty prefix is reported missing exactly when the response does not contain it. */
  lemma PrefixNotFoundIffAbsent(parts: CheckParts, actual: string)
    requires Strip(parts.prefix) != []
    ensures CheckMatched(parts, actual) == Some(PrefixNotFound(Strip(parts.prefix))) <==>
              !Contains(actual, Strip(parts.prefix))
  {
    SearchRegionIsAfterFirstOccurrence(actual, Strip(parts.prefix));
  }

  /** Once the prefix is found, "no number" is reported exactly when no number follows it. */
  lemma NoNumberIffNoneAfterPrefix(parts: CheckParts, actual: string, region: string)
    requires SearchRegion(actual, Strip(parts.prefix)) == Some(region)
    ensures CheckMatched(parts, actual) == Some(NoNumber(Strip(parts.prefix))) <==>
              forall p: nat :: p <= |region| ==> NumberAt(region, p) == 0
  {
    FirstNumberFound(region);
  }

  /** A comparison check passes exactly when its threshold parses and the comparison holds. */
  lemma ComparisonVerdict(op: Op, rhs: string, value: real, prefix: string)
    requires op != In
    ensures CheckValue(op, rhs, value, prefix).None? <==>
              exists t :: ParseFloat(rhs) == Some(t) && Compare(op, value, t)
    ensures ParseFloat(rhs).None? <==> CheckValue(op, rhs, value, prefix) == Some(NonNumericThreshold(rhs))
  {
  }

  /** A range check passes exactly when `lo..hi` splits into two numbers and `lo <= value <= hi`. */
  lemma RangeVerdict(rhs: string, value: real, prefix: string)
    ensures CheckValue(In, rhs, value, prefix).None? <==>
              exists lo, hi :: |Split(rhs, "..")| == 2 && ParseFloat(Split(rhs, "..")[0]) == Some(lo) &&
                ParseFloat(Split(rhs, "..")[1]) == Some(hi) && lo <= value <= hi
    ensures |Split(rhs, "..")| != 2 <==> CheckValue(In, rhs, value, prefix) == Some(BadRange(rhs))
  {
    var bounds := Split(rhs, "..");
    var r := CheckValue(In, rhs, value, prefix);
    if |bounds| != 2 {
      assert r == Some(BadRange(rhs));
    } else {
      var a, b := ParseFloat(bounds[0]), ParseFloat(bounds[1]);
      if a.Some? && b.Some? {
        assert r == if a.value <= value <= b.value then None else Some(NotInRange(value, a.value, b.value, prefix));
      } else {
        assert r == Some(NonNumericBounds(rhs));
      }
    }
  }

  // ---------------------------------------------------------------------
  // A consequence of the lazy prefix: the check `Vin >= 3`
  // ---------------------------------------------------------------------

  /**
   * On `Vin >= 3` the first way of matching takes the prefix `V`, no gap,
   * the operator `in` and a single space: the lazy `.*?` tries the prefix
   * `V` before `Vin `, and `in` followed by a space already fits there.
   */
  lemma VinChoice(line: string)
    requires line == "Vin >= 3"
    ensures FirstFit(line, 0) == Some(Choice(1, 0, 6, 1))
  {
    var c := Choice(1, 0, 6, 1);
    assert OpAt(line, 1, 6) && SpacesIn(line, 3, 4) && TailAt(line, 4);
    FirstFitIsFirst(line, 0, c);
    FirstFitFits(line, 0);
    var r := FirstFit(line, 0).value;
    assert r.i <= 1;
    assert !SpaceAt(line, r.i);
    assert r.k == 0;
    OpAtChars(line, r.i, r.o);
    assert r.i == 1 && r.o == 6 by {
      assert line[0] == 'V' && line[1] == 'i';
    }
    assert !SpaceAt(line, 4);
    assert r.j == 1;
  }

  /** So `Vin >= 3` is read as the range check `V in >= 3`. */
  lemma VinQuirk(line: string)
    requires line == "Vin >= 3"
    ensures MatchCheck(line) == Some(CheckParts("V", In, ">= 3"))
  {
    VinChoice(line);
    var c := Choice(1, 0, 6, 1);
    FirstFitFits(line, 0);
    assert |line| == 8 && line[7] != '\n';
    assert TailEnd(line) == 8 && |OpText(Ops[6])| == 2;
    assert GroupsOf(line, c) == CheckParts(line[..1], In, line[4..8]);
    assert line[..1] == "V";
    assert line[4..8] == ">= 3";
  }

  /** `>= 3` holds no `..`, so it is a malformed range. */
  lemma NoRangeSeparator(rhs: string)
    requires rhs == ">= 3"
    ensures Split(rhs, "..") == [rhs]
  {
    assert |rhs| == 4 && rhs[0] == '>' && rhs[1] == '=' && rhs[2] == ' ';
    forall i | 0 <= i <= |rhs| - 2 ensures !OccursAt(rhs, "..", i) {
      assert i == 0 || i == 1 || i == 2;
      assert rhs[i] != '.';
    }
    FindIffContains(rhs, "..");
  }

  /** Whatever the response, the check `Vin >= 3` never passes. */
  lemma VinNeverPasses(line: string, actual: string)
    requires line == "Vin >= 3"
    ensures CheckLine(line, actual) in {Some(PrefixNotFound("V")), Some(NoNumber("V")), Some(BadRange(">= 3"))}
  {
    VinQuirk(line);
    var parts := CheckParts("V", In, ">= 3");
    StripOfSpaceFreeEnds(parts.prefix);
    StripOfSpaceFreeEnds(parts.rhs);
    NoRangeSeparator(parts.rhs);
  }

  /** What one raw line of a check block contributes: nothing when blank or passing, else its failure. */
  function LineVerdict(raw: string, actual: string): (r: seq<Failure>)
    ensures |r| <= 1
    ensures r == [] <==> Strip(raw) == [] || CheckLine(Strip(raw), actual).None?
  {
    var line := Strip(raw);
    if line == [] then []
    else match CheckLine(line, actual) case None => [] case Some(f) => [f]
  }

  /** The verdict on each raw line against the response `actual`. */
  function Verdicts(actual: string): string -> seq<Failure> {
    raw => LineVerdict(raw, actual)
  }

  /** The failures the first `n` lines contribute, in line order. */
  function LineFailures(lines: seq<string>, n: nat, verdict: string -> seq<Failure>): seq<Failure>
    requires n <= |lines|
  {
    if n == 0 then [] else LineFailures(lines, n - 1, verdict) + verdict(lines[n - 1])
  }

  /** The failure list `_evaluate_numeric_checks` returns. */
  function NumericFailures(checks: string, actual: string): seq<Failure> {
    if Strip(checks) == [] then []
    else
      var lines := Split(checks, "\n");
      LineFailures(lines, |lines|, Verdicts(actual))
  }

  /** The loop of `_evaluate_numeric_checks`: each line's verdict, appended in line order, none skipped. */
  method CollectLineFailures(lines: seq<string>, verdict: string -> seq<Failure>) returns (failures: seq<Failure>)
    ensures failures == LineFailures(lines, |lines|, verdict)
  {
    failures := [];
    for n := 0 to |lines|
      invariant failures == LineFailures(lines, n, verdict)
    {
      failures := failures + verdict(lines[n]);
    }
  }

  /**
   * `_evaluate_numeric_checks(checks, actual)`: every non-blank line is
   * evaluated (no short-circuit), each contributing at most one failure.
   */
  method EvaluateNumericChecks(checks: string, actual: string) returns (allPassed: bool, failures: seq<Failure>)
    ensures failures == NumericFailures(checks, actual)
    ensures allPassed <==> failures == []
  {
    if Strip(checks) == [] {
      return true, [];
    }
    var lines := Split(checks, "\n");
    failures := CollectLineFailures(lines, Verdicts(actual));
    allPassed := |failures| == 0;
  }

  /** Nothing is dropped: the lines pass together exactly when each of them passes. */
  lemma {:induction false} LineFailuresEmpty(lines: seq<string>, n: nat, verdict: string -> seq<Failure>)
    requires n <= |lines|
    ensures LineFailures(lines, n, verdict) == [] <==> forall k :: 0 <= k < n ==> verdict(lines[k]) == []
  {
    if n > 0 {
      LineFailuresEmpty(lines, n - 1, verdict);
      assert |LineFailures(lines, n, verdict)| == |LineFailures(lines, n - 1, verdict)| + |verdict(lines[n - 1])|;
    }
  }

  /** Lines that each report at most one failure report at most one failure per line in all. */
  lemma {:induction false} LineFailuresBound(lines: seq<string>, n: nat, verdict: string -> seq<Failure>)
    requires n <= |lines| && forall k :: 0 <= k < n ==> |verdict(lines[k])| <= 1
    ensures |LineFailures(lines, n, verdict)| <= n
  {
    if n > 0 {
      LineFailuresBound(lines, n - 1, verdict);
    }
  }

  /** Each line of the checks contributes at most one failure. */
  lemma AtMostOneFailurePerLine(checks: string, actual: string)
    ensures |NumericFailures(checks, actual)| <= |Split(checks, "\n")|
  {
    var lines := Split(checks, "\n");
    LineFailuresBound(lines, |lines|, Verdicts(actual));
  }

  /** The early return on blank checks is only a shortcut: evaluating every line gives the same failures. */
  lemma EarlyExitIsShortcut(checks: string, actual: string)
    ensures NumericFailures(checks, actual) == LineFailures(Split(checks, "\n"), |Split(checks, "\n")|, Verdicts(actual))
  {
    var lines := Split(checks, "\n");
    if Strip(checks) == [] {
      SplitOfBlank(checks, "\n");
      LineFailuresEmpty(lines, |lines|, Verdicts(actual));
      forall k | 0 <= k < |lines| ensures Verdicts(actual)(lines[k]) == [] {
        assert AllSpace(lines[k]);
      }
    }
  }

  /** The numeric checks pass exactly when every non-blank line of them passes. */
  lemma AllPassedIffEveryLinePasses(checks: string, actual: string)
    ensures NumericFailures(checks, actual) == [] <==>
              forall k :: 0 <= k < |Split(checks, "\n")| ==>
                Strip(Split(checks, "\n")[k]) == [] || CheckLine(Strip(Split(checks, "\n")[k]), actual).None?
  {
    var lines := Split(checks, "\n");
    EarlyExitIsShortcut(checks, actual);
    LineFailuresEmpty(lines, |lines|, Verdicts(actual));
  }
}
