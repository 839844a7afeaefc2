/**
 * The handful of Python `str` operations the program relies on, with the
 * semantics Python gives them: `isspace`/`strip`, `find` and `in`, `split`
 * with a separator, `join`, `replace`, `splitlines`, and `int()` on text.
 */
module PyStr {
  import opened Results

  /** The characters for which Python's `str.isspace()` (and the regex class `\s`) hold. */
  predicate IsSpace(c: char) {
    ('\t' <= c <= '\r') || ('\U{1C}' <= c <= ' ') || c == '\U{85}' || c == '\U{A0}'
    || c == '\U{1680}' || ('\U{2000}' <= c <= '\U{200A}') || c == '\U{2028}' || c == '\U{2029}'
    || c == '\U{202F}' || c == '\U{205F}' || c == '\U{3000}'
  }

  /** The character at position `k` of `s` is whitespace. */
  predicate SpaceAt(s: string, k: nat) {
    k < |s| && IsSpace(s[k])
  }

  /** `s[a..b]` is made of whitespace. */
  predicate SpacesIn(s: string, a: nat, b: nat) {
    a <= b <= |s| && forall k :: a <= k < b ==> SpaceAt(s, k)
  }

  predicate AllSpace(s: string) {
    SpacesIn(s, 0, |s|)
  }

  predicate IsDigit(c: char) {
    '0' <= c <= '9'
  }

  /** Index of the first non-whitespace character of `s` at or after `i`, or `|s|`. */
  function SkipSpace(s: string, i: nat): (a: nat)
    requires i <= |s|
    ensures i <= a <= |s| && (a < |s| ==> !SpaceAt(s, a))
    ensures SpacesIn(s, i, a)
    decreases |s| - i
  {
    if i == |s| || !SpaceAt(s, i) then i else SkipSpace(s, i + 1)
  }

  /** Index just after the last non-whitespace character of `s[a..j]`, or `a`. */
  function SkipSpaceBack(s: string, a: nat, j: nat): (e: nat)
    requires a <= j <= |s|
    ensures a <= e <= j && (a < e ==> !SpaceAt(s, e - 1))
    ensures SpacesIn(s, e, j)
    decreases j - a
  {
    if j == a || !SpaceAt(s, j - 1) then j else SkipSpaceBack(s, a, j - 1)
  }

  /** Python's `s.strip()`: the text without surrounding whitespace. */
  function Strip(s: string): (r: string)
    ensures |r| <= |s|
    ensures r == [] <==> AllSpace(s)
    ensures r != [] ==> !SpaceAt(r, 0) && !SpaceAt(r, |r| - 1)
  {
    var a := SkipSpace(s, 0);
    var e := SkipSpaceBack(s, a, |s|);
    assert a < e ==> !AllSpace(s) by {
      if a < e { assert !SpaceAt(s, e - 1); }
    }
    s[a..e]
  }

  /** What `strip` removes is whitespace, and only from the two ends. */
  lemma StripRemovesOuterSpace(s: string)
    ensures exists a, e :: 0 <= a <= e <= |s| && Strip(s) == s[a..e] &&
              SpacesIn(s, 0, a) && SpacesIn(s, e, |s|)
  {
    var a := SkipSpace(s, 0);
    var e := SkipSpaceBack(s, a, |s|);
    assert Strip(s) == s[a..e];
  }

  /** Stripping twice is stripping once. */
  lemma StripIsIdempotent(s: string)
    ensures Strip(Strip(s)) == Strip(s)
  {
    StripOfSpaceFreeEnds(Strip(s));
  }

  lemma StripOfSpaceFreeEnds(s: string)
    requires s == [] || (!SpaceAt(s, 0) && !SpaceAt(s, |s| - 1))
    ensures Strip(s) == s
  {
    if s != [] {
      assert SkipSpace(s, 0) == 0;
      assert SkipSpaceBack(s, 0, |s|) == |s|;
      assert s[0..|s|] == s;
    }
  }

  /** `sub` occurs in `s` starting at index `i`. */
  predicate OccursAt(s: string, sub: string, i: int) {
    0 <= i && i + |sub| <= |s| && s[i..i + |sub|] == sub
  }

  /** Python's `sub in s`. */
  predicate Contains(s: string, sub: string) {
    exists i :: 0 <= i <= |s| - |sub| && OccursAt(s, sub, i)
  }

  function FindFrom(s: string, sub: string, from: nat): (r: int)
    requires from <= |s| + 1
    ensures r == -1 || (from <= r && OccursAt(s, sub, r))
    decreases |s| + 1 - from
  {
    if from + |sub| > |s| then -1
    else if s[from..from + |sub|] == sub then from
    else FindFrom(s, sub, from + 1)
  }

  /** Python's `s.find(sub)`: an index at which `sub` occurs, or -1. */
  function Find(s: string, sub: string): (r: int)
    ensures r == -1 || OccursAt(s, sub, r)
  {
    FindFrom(s, sub, 0)
  }

  lemma {:induction false} FindFromIsFirst(s: string, sub: string, from: nat, i: int)
    requires from <= i && OccursAt(s, sub, i)
    ensures FindFrom(s, sub, from) != -1 && FindFrom(s, sub, from) <= i
    decreases |s| + 1 - from
  {
    if from < i {
      FindFromIsFirst(s, sub, from + 1, i);
    }
  }

  /** `find` misses no occurrence: it is -1 only when `sub` is absent, and otherwise the first index. */
  lemma FindIsFirst(s: string, sub: string, i: int)
    requires OccursAt(s, sub, i)
    ensures Find(s, sub) != -1 && Find(s, sub) <= i
  {
    FindFromIsFirst(s, sub, 0, i);
  }

  /** Python's `sub in s` and `s.find(sub) != -1` agree. */
  lemma FindIffContains(s: string, sub: string)
    ensures Find(s, sub) == -1 <==> !Contains(s, sub)
  {
    if Contains(s, sub) {
      var i :| 0 <= i <= |s| - |sub| && OccursAt(s, sub, i);
      FindIsFirst(s, sub, i);
    }
  }

  lemma OccursInPrefix(s: string, sub: string, n: nat, i: int)
    requires n <= |s| && OccursAt(s[..n], sub, i)
    ensures OccursAt(s, sub, i) && i + |sub| <= n
  {
    assert s[..n][i..i + |sub|] == s[i..i + |sub|];
  }

  lemma OccursInSuffix(s: string, sub: string, n: nat, i: int)
    requires n <= |s| && OccursAt(s[n..], sub, i)
    ensures OccursAt(s, sub, n + i)
  {
    assert s[n..][i..i + |sub|] == s[n + i..n + i + |sub|];
  }

  /** Python's `sep.join(parts)`. */
  function Join(sep: string, parts: seq<string>): (j: string)
    ensures parts != [] ==> parts[0] <= j
    ensures |parts| > 1 ==> parts[0] + sep <= j
  {
    if parts == [] then []
    else if |parts| == 1 then parts[0]
    else parts[0] + sep + Join(sep, parts[1..])
  }

  /** Python's `s.split(sep)` for a non-empty separator (an empty one raises). */
  function Split(s: string, sep: string): (parts: seq<string>)
    requires sep != []
    ensures |parts| >= 1
    decreases |s|
  {
    var i := Find(s, sep);
    if i == -1 then [s] else [s[..i]] + Split(s[i + |sep|..], sep)
  }

  /** Joining the pieces with the separator gives back the text: `sep.join(s.split(sep)) == s`. */
  lemma {:induction false} JoinSplit(s: string, sep: string)
    requires sep != []
    ensures Join(sep, Split(s, sep)) == s
    decreases |s|
  {
    var i := Find(s, sep);
    if i != -1 {
      var head, tail := s[..i], s[i + |sep|..];
      var rest := Split(tail, sep);
      JoinSplit(tail, sep);
      assert ([head] + rest)[1..] == rest;
      assert Join(sep, Split(s, sep)) == head + sep + tail;
      assert s == head + sep + tail by {
        assert s[i..i + |sep|] == sep;
      }
    }
  }

  /** No piece `split` returns contains the separator. */
  lemma {:induction false} SplitPartsLackSeparator(s: string, sep: string)
    requires sep != []
    ensures forall k :: 0 <= k < |Split(s, sep)| ==> !Contains(Split(s, sep)[k], sep)
    decreases |s|
  {
    var i := Find(s, sep);
    if i == -1 {
      FindIffContains(s, sep);
    } else {
      var head := s[..i];
      assert !Contains(head, sep) by {
        forall j | OccursAt(head, sep, j) ensures false {
          OccursInPrefix(s, sep, i, j);
          FindIsFirst(s, sep, j);
        }
      }
      SplitPartsLackSeparator(s[i + |sep|..], sep);
    }
  }

  /** Every piece of a joined text is part of that text, so pieces of blank text are blank. */
  lemma {:induction false} JoinedPiecesOfBlank(sep: string, parts: seq<string>)
    requires AllSpace(Join(sep, parts))
    ensures forall k :: 0 <= k < |parts| ==> AllSpace(parts[k])
  {
    if |parts| > 1 {
      var rest := Join(sep, parts[1..]);
      var whole := parts[0] + sep + rest;
      forall i | 0 <= i < |parts[0]| ensures SpaceAt(parts[0], i) {
        assert SpaceAt(whole, i) && whole[i] == parts[0][i];
      }
      forall i | 0 <= i < |rest| ensures SpaceAt(rest, i) {
        assert SpaceAt(whole, |parts[0]| + |sep| + i) && whole[|parts[0]| + |sep| + i] == rest[i];
      }
      JoinedPiecesOfBlank(sep, parts[1..]);
      forall k | 0 <= k < |parts| ensures AllSpace(parts[k]) {
        if k > 0 {
          assert parts[k] == parts[1..][k - 1];
        }
      }
    }
  }

  /** Splitting blank text gives only blank pieces. */
  lemma SplitOfBlank(s: string, sep: string)
    requires sep != [] && AllSpace(s)
    ensures forall k :: 0 <= k < |Split(s, sep)| ==> AllSpace(Split(s, sep)[k])
  {
    JoinSplit(s, sep);
    JoinedPiecesOfBlank(sep, Split(s, sep));
  }

  /** Python's `s.replace(target, replacement)` for a non-empty `target`. */
  function Replace(s: string, target: string, replacement: string): (r: string)
    requires target != []
    ensures !Contains(s, target) ==> r == s
  {
    FindIffContains(s, target);
    Join(replacement, Split(s, target))
  }

  /** An occurrence inside the front part of `a + b` is one in `a`. */
  lemma OccursInFront(a: string, b: string, t: string, i: nat)
    requires i + |t| <= |a|
    ensures OccursAt(a + b, t, i) <==> OccursAt(a, t, i)
  {
    assert (a + b)[i..i + |t|] == a[i..i + |t|];
  }

  /** An occurrence inside the back part of `a + b` is one in `b`. */
  lemma OccursInBack(a: string, b: string, t: string, i: nat)
    requires |a| <= i
    ensures OccursAt(a + b, t, i) <==> OccursAt(b, t, i - |a|)
  {
    if i + |t| <= |a + b| {
      assert (a + b)[i..i + |t|] == b[i - |a|..i - |a| + |t|];
    }
  }

  /** Joining pieces that lack `t`, with a separator sharing no character with `t`, creates no occurrence of `t`. */
  lemma {:induction false} JoinAvoids(sep: string, parts: seq<string>, t: string)
    requires sep != [] && t != []
    requires forall a, b :: 0 <= a < |sep| && 0 <= b < |t| ==> sep[a] != t[b]
    requires forall k :: 0 <= k < |parts| ==> !Contains(parts[k], t)
    ensures !Contains(Join(sep, parts), t)
  {
    if |parts| > 1 {
      var head, rest := parts[0], Join(sep, parts[1..]);
      forall k | 0 <= k < |parts[1..]| ensures !Contains(parts[1..][k], t) {
        assert parts[1..][k] == parts[k + 1];
      }
      JoinAvoids(sep, parts[1..], t);
      var whole := head + sep + rest;
      assert Join(sep, parts) == whole;
      forall i | 0 <= i <= |whole| - |t| ensures !OccursAt(whole, t, i) {
        if i + |t| <= |head| {
          assert !OccursAt(head, t, i);
          OccursInFront(head, sep + rest, t, i);
        } else if i >= |head| + |sep| {
          assert !OccursAt(rest, t, i - |head + sep|);
          OccursInBack(head + sep, rest, t, i);
        } else {
          var j := if i < |head| then |head| else i;
          assert whole[j] == sep[j - |head|];
          assert whole[i..i + |t|][j - i] != t[j - i];
        }
      }
    }
  }

  /** After `s.replace(target, replacement)` no `target` is left, when the replacement shares no character with it. */
  lemma ReplaceRemovesTarget(s: string, target: string, replacement: string)
    requires target != [] && replacement != []
    requires forall a, b :: 0 <= a < |replacement| && 0 <= b < |target| ==> replacement[a] != target[b]
    ensures !Contains(Replace(s, target, replacement), target)
  {
    SplitPartsLackSeparator(s, target);
    JoinAvoids(replacement, Split(s, target), target);
  }

  /** The comprehension `[p.strip() for p in parts[:n] if p.strip()]`. */
  function NonBlankStripped(parts: seq<string>, n: nat): (r: seq<string>)
    requires n <= |parts|
    ensures |r| <= n
  {
    if n == 0 then []
    else NonBlankStripped(parts, n - 1) + (if Strip(parts[n - 1]) != [] then [Strip(parts[n - 1])] else [])
  }

  /** Every kept entry is non-blank and already stripped, and comes from one of the first `n` parts. */
  lemma {:induction false} NonBlankStrippedEntries(parts: seq<string>, n: nat)
    requires n <= |parts|
    ensures forall k :: 0 <= k < |NonBlankStripped(parts, n)| ==>
              NonBlankStripped(parts, n)[k] != [] && Strip(NonBlankStripped(parts, n)[k]) == NonBlankStripped(parts, n)[k]
    ensures forall k :: 0 <= k < |NonBlankStripped(parts, n)| ==>
              exists j :: 0 <= j < n && NonBlankStripped(parts, n)[k] == Strip(parts[j])
  {
    if n > 0 {
      var prev, r := NonBlankStripped(parts, n - 1), NonBlankStripped(parts, n);
      NonBlankStrippedEntries(parts, n - 1);
      StripIsIdempotent(parts[n - 1]);
      forall k | 0 <= k < |r|
        ensures r[k] != [] && Strip(r[k]) == r[k]
        ensures exists j :: 0 <= j < n && r[k] == Strip(parts[j])
      {
        if k < |prev| {
          assert r[k] == prev[k];
          var j :| 0 <= j < n - 1 && prev[k] == Strip(parts[j]);
          assert 0 <= j < n && r[k] == Strip(parts[j]);
        } else {
          assert r[k] == Strip(parts[n - 1]);
        }
      }
      assert r == NonBlankStripped(parts, n);
    } else {
      assert NonBlankStripped(parts, n) == [];
    }
  }

  /** Every non-blank part among the first `n` is kept, stripped. */
  lemma {:induction false} NonBlankStrippedKeeps(parts: seq<string>, n: nat)
    requires n <= |parts|
    ensures forall k :: 0 <= k < n && Strip(parts[k]) != [] ==> Strip(parts[k]) in NonBlankStripped(parts, n)
  {
    if n > 0 {
      NonBlankStrippedKeeps(parts, n - 1);
      var prev, r := NonBlankStripped(parts, n - 1), NonBlankStripped(parts, n);
      assert r == prev + (if Strip(parts[n - 1]) != [] then [Strip(parts[n - 1])] else []);
      forall k | 0 <= k < n && Strip(parts[k]) != [] ensures Strip(parts[k]) in r {
        if k < n - 1 {
          assert Strip(parts[k]) in prev;
        } else {
          assert r[|prev|] == Strip(parts[k]);
        }
      }
    }
  }

  /** Blank parts contribute nothing. */
  lemma {:induction false} NonBlankStrippedOfBlank(parts: seq<string>, n: nat)
    requires n <= |parts|
    requires forall k :: 0 <= k < n ==> AllSpace(parts[k])
    ensures NonBlankStripped(parts, n) == []
  {
    if n > 0 {
      NonBlankStrippedOfBlank(parts, n - 1);
    }
  }

  /** The line boundaries recognised by Python's `str.splitlines()`. */
  predicate IsLineBreak(c: char) {
    c == '\n' || c == '\r' || c == '\U{0B}' || c == '\U{0C}' || c == '\U{1C}' || c == '\U{1D}'
    || c == '\U{1E}' || c == '\U{85}' || c == '\U{2028}' || c == '\U{2029}'
  }

  predicate NoLineBreak(s: string) {
    forall k :: 0 <= k < |s| ==> !IsLineBreak(s[k])
  }

  /** Index of the first line boundary in `s`, or `|s|`. */
  function LineEnd(s: string): (n: nat)
    ensures n <= |s| && NoLineBreak(s[..n])
    ensures n < |s| ==> IsLineBreak(s[n])
  {
    if s == [] || IsLineBreak(s[0]) then 0
    else
      var n := 1 + LineEnd(s[1..]);
      assert s[..n] == [s[0]] + s[1..][..n - 1];
      n
  }

  /** Python's `s.splitlines()`: "\r\n" is one boundary and a final boundary adds no empty line. */
  function SplitLines(s: string): (lines: seq<string>)
    ensures forall k :: 0 <= k < |lines| ==> NoLineBreak(lines[k])
    decreases |s|
  {
    if s == [] then []
    else
      var n := LineEnd(s);
      if n == |s| then [s]
      else
        var skip := if s[n] == '\r' && n + 1 < |s| && s[n + 1] == '\n' then 2 else 1;
        [s[..n]] + SplitLines(s[n + skip..])
  }

  /** The character at position `k` of `s` is an ASCII digit. */
  predicate DigitAt(s: string, k: nat) {
    k < |s| && IsDigit(s[k])
  }

  /** Every character of `s[a..b]` is an ASCII digit. */
  predicate DigitsIn(s: string, a: nat, b: nat) {
    a <= b <= |s| && forall k :: a <= k < b ==> DigitAt(s, k)
  }

  /** The value of an ASCII digit (0 for any other character). */
  function DigitValue(c: char): (v: nat)
    ensures v <= 9
  {
    if IsDigit(c) then c as int - '0' as int else 0
  }

  /** Numeric value of the text `s[a..b]`, read as decimal digits. */
  function DigitsValue(s: string, a: nat, b: nat): (v: nat)
    requires a <= b <= |s|
    decreases b - a
  {
    if a == b then 0 else DigitsValue(s, a, b - 1) * 10 + DigitValue(s[b - 1])
  }

  /** The value of a digit run depends on its characters only, not on where it sits. */
  lemma {:induction false} DigitsValueOfSameText(s: string, a: nat, t: string, c: nat, n: nat)
    requires DigitsIn(s, a, a + n) && c + n <= |t|
    requires forall k :: a <= k < a + n ==> s[k] == t[c + (k - a)]
    ensures DigitsIn(t, c, c + n) && DigitsValue(t, c, c + n) == DigitsValue(s, a, a + n)
    decreases n
  {
    if n > 0 {
      assert t[c + n - 1] == s[a + n - 1] && DigitAt(s, a + n - 1);
      DigitsValueOfSameText(s, a, t, c, n - 1);
    }
    forall k | c <= k < c + n ensures DigitAt(t, k) {
      assert t[k] == s[a + (k - c)] && DigitAt(s, a + (k - c));
    }
  }

  /** Python's `int(text)`: optional sign and decimal digits, surrounding whitespace allowed. */
  function ParseInt(text: string): (r: Option<int>)
    ensures r.Some? ==> Strip(text) != []
  {
    var s := Strip(text);
    if s == [] then None
    else
      var neg := s[0] == '-';
      var start := if s[0] == '-' || s[0] == '+' then 1 else 0;
      if start == |s| || !DigitsIn(s, start, |s|) then None
      else
        var v: int := DigitsValue(s, start, |s|);
        Some(if neg then -v else v)
  }

  /** The decimal text of a natural number, as Python's `str(n)` writes it. */
  function NatToText(n: nat): (s: string)
    ensures s != [] && DigitsIn(s, 0, |s|) && DigitsValue(s, 0, |s|) == n
    ensures n > 0 ==> s[0] != '0'
  {
    var d := ['0' + (n % 10) as char];
    if n < 10 then
      d
    else
      var s := NatToText(n / 10) + d;
      DigitsValueOfSameText(NatToText(n / 10), 0, s, 0, |s| - 1);
      s
  }

  /** `int(str(n)) == n` for every natural number. */
  lemma {:induction false} ParseIntOfText(n: nat)
    ensures ParseInt(NatToText(n)) == Some(n)
  {
    var s := NatToText(n);
    assert DigitAt(s, 0) && DigitAt(s, |s| - 1);
    StripOfSpaceFreeEnds(s);
  }
}
