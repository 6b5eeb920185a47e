/** The regular expressions of llm/sql_guard.py, each written out as a
    matcher over string positions.

    `re.search` tries start positions from left to right and takes the first
    one at which the pattern matches; `re.sub` and `re.findall` scan left to
    right and resume after each match. Greedy `\s+`, `\d+` and character-class
    runs take the longest run (backtracking into them never helps these
    patterns, except in the select list below, where it is written out).
    `\b` next to a word character of the pattern means the neighbouring
    character is not a word character. */
module SqlPatterns {
  import opened PyText

  /** `\b` in front of a pattern whose first character is a word character */
  predicate BoundaryBefore(s: string, i: nat) {
    i == 0 || (i <= |s| && !IsWordChar(s[i - 1]))
  }

  /** `\b` after a pattern whose last character is a word character */
  predicate BoundaryAfter(s: string, j: nat) {
    j >= |s| || !IsWordChar(s[j])
  }

  // ---------------------------------------------------------------------
  // `\bword\b` (the JOIN check and every BLOCK_PATTERNS entry)
  // ---------------------------------------------------------------------

  predicate WordAt(s: string, w: string, i: nat) {
    BoundaryBefore(s, i) && OccursAt(s, w, i) && BoundaryAfter(s, i + |w|)
  }

  /** `re.search(r"\b" + w + r"\b", s)`: the leftmost whole-word occurrence. */
  function FindWord(s: string, w: string): (r: Option<nat>)
    ensures r.Some? ==> WordAt(s, w, r.value) && forall j :: 0 <= j < r.value ==> !WordAt(s, w, j)
    ensures r.None? ==> forall j :: !WordAt(s, w, j)
  {
    var P := (i: nat) => WordAt(s, w, i);
    assert forall j: nat :: P(j) == WordAt(s, w, j);
    FirstIndex(P, 0, |s| + 1)
  }

  predicate HasWord(s: string, w: string) {
    FindWord(s, w).Some?
  }

  // ---------------------------------------------------------------------
  // `re.sub(r"\s+", " ", s).strip()` and `.lower()`
  // ---------------------------------------------------------------------

  /** `re.sub(r"\s+", " ", s)`: every maximal run of whitespace becomes one space. */
  function CollapseRuns(s: string): (r: string)
    ensures forall k :: 0 <= k < |r| && IsSpace(r[k]) ==> r[k] == ' '
    ensures forall k :: 0 <= k < |r| - 1 ==> r[k] != ' ' || r[k + 1] != ' '
    ensures r != [] <==> s != []
    ensures r != [] ==> (IsSpace(r[0]) <==> IsSpace(s[0]))
    decreases |s|
  {
    if s == [] then []
    else if IsSpace(s[0]) then
      [' '] + CollapseRuns(LStrip(s))
    else [s[0]] + CollapseRuns(s[1..])
  }

  /** `_collapse_ws` */
  function CollapseWs(s: string): string {
    Strip(CollapseRuns(s))
  }

  /** `normalize_sql`: the text every check of the guard looks at. */
  function Normalize(s: string): string {
    LowerStr(CollapseWs(s))
  }

  /** What normalize_sql promises of its output: lower case, no whitespace
      but single spaces, nothing to trim. */
  predicate IsNormalized(t: string) {
    (forall k :: 0 <= k < |t| ==> !IsUpper(t[k]))
    && (forall k :: 0 <= k < |t| && IsSpace(t[k]) ==> t[k] == ' ')
    && (forall k :: 0 <= k < |t| - 1 ==> t[k] != ' ' || t[k + 1] != ' ')
    && (t == [] || (t[0] != ' ' && t[|t| - 1] != ' '))
  }

  /** _collapse_ws leaves single spaces only, and nothing to trim. */
  lemma CollapseWsShape(s: string)
    ensures var t := CollapseWs(s);
            (forall k :: 0 <= k < |t| && IsSpace(t[k]) ==> t[k] == ' ')
            && (forall k :: 0 <= k < |t| - 1 ==> t[k] != ' ' || t[k + 1] != ' ')
            && (t == [] || (!IsSpace(t[0]) && !IsSpace(t[|t| - 1])))
  {
    var c := CollapseRuns(s);
    var t := Strip(c);
    var i := StripStart(c);
    forall k | 0 <= k < |t| ensures t[k] == c[i + k] { }
  }

  lemma NormalizeIsNormalized(s: string)
    ensures IsNormalized(Normalize(s))
  {
    var t := CollapseWs(s);
    CollapseWsShape(s);
    var n := Normalize(s);
    forall k | 0 <= k < |n| ensures n[k] == Lower(t[k]) && (t[k] == ' ' <==> n[k] == ' ') { }
  }

  /** Leading whitespace of a + b is that of a, when a does not end in it. */
  lemma LStripAppend(a: string, b: string)
    requires a != [] && !IsSpace(a[|a| - 1])
    ensures LStrip(a + b) == LStrip(a) + b
  {
    var e := SpanEnd(a, 0, IsSpace);
    var f := SpanEnd(a + b, 0, IsSpace);
    assert e < |a|;
    assert forall j :: 0 <= j <= e ==> (a + b)[j] == a[j];
    assert f == e;
  }

  /** Whitespace runs cannot span the seam when a does not end in whitespace,
      so the two sides collapse separately. */
  lemma {:induction false} CollapseRunsAppend(a: string, b: string)
    requires a == [] || !IsSpace(a[|a| - 1])
    ensures CollapseRuns(a + b) == CollapseRuns(a) + CollapseRuns(b)
    decreases |a|
  {
    if a == [] {
      assert a + b == b;
    } else if IsSpace(a[0]) {
      var l := LStrip(a);
      assert l != [] && l[|l| - 1] == a[|a| - 1];
      CollapseRunsAppend(l, b);
      CollapseSpaceStep(a, b);
    } else {
      var t := a[1..];
      assert t == [] || t[|t| - 1] == a[|a| - 1];
      CollapseRunsAppend(t, b);
      CollapseWordStep(a, b);
    }
  }

  /** The step of `CollapseRunsAppend` at a leading whitespace run. */
  lemma CollapseSpaceStep(a: string, b: string)
    requires a != [] && IsSpace(a[0]) && !IsSpace(a[|a| - 1])
    requires CollapseRuns(LStrip(a) + b) == CollapseRuns(LStrip(a)) + CollapseRuns(b)
    ensures CollapseRuns(a + b) == CollapseRuns(a) + CollapseRuns(b)
  {
    var l := LStrip(a);
    LStripAppend(a, b);
    calc {
      CollapseRuns(a + b);
      { assert (a + b)[0] == a[0]; }
      [' '] + CollapseRuns(l + b);
      [' '] + (CollapseRuns(l) + CollapseRuns(b));
      ([' '] + CollapseRuns(l)) + CollapseRuns(b);
    }
  }

  /** The step of `CollapseRunsAppend` at a leading non-space character. */
  lemma CollapseWordStep(a: string, b: string)
    requires a != [] && !IsSpace(a[0])
    requires CollapseRuns(a[1..] + b) == CollapseRuns(a[1..]) + CollapseRuns(b)
    ensures CollapseRuns(a + b) == CollapseRuns(a) + CollapseRuns(b)
  {
    var c, t := a[0], a[1..];
    assert a == [c] + t;
    calc {
      CollapseRuns(a + b);
      { AppendAssoc([c], t, b); }
      CollapseRuns([c] + (t + b));
      { CollapseRunsCons(c, t + b); }
      [c] + CollapseRuns(t + b);
      [c] + (CollapseRuns(t) + CollapseRuns(b));
      { AppendAssoc([c], CollapseRuns(t), CollapseRuns(b)); }
      ([c] + CollapseRuns(t)) + CollapseRuns(b);
      { CollapseRunsCons(c, t); }
      CollapseRuns(a) + CollapseRuns(b);
    }
  }

  lemma CollapseRunsCons(c: char, rest: string)
    requires !IsSpace(c)
    ensures CollapseRuns([c] + rest) == [c] + CollapseRuns(rest)
  {
    assert ([c] + rest)[1..] == rest;
  }

  /** Text whose last character is not whitespace keeps that property when
      its runs are collapsed. */
  lemma {:induction false} CollapseRunsLast(s: string)
    requires s != [] && !IsSpace(s[|s| - 1])
    ensures CollapseRuns(s) != [] && !IsSpace(CollapseRuns(s)[|CollapseRuns(s)| - 1])
    decreases |s|
  {
    if IsSpace(s[0]) {
      CollapseRunsLast(LStrip(s));
    } else if |s| > 1 {
      CollapseRunsLast(s[1..]);
    }
  }

  /** Stripping c + y, where both end in a non-space character, only drops
      the leading whitespace of c. */
  lemma StripAppend(c: string, y: string)
    requires c != [] && !IsSpace(c[|c| - 1])
    requires y != [] && !IsSpace(y[|y| - 1])
    ensures Strip(c + y) == LStrip(c) + y
  {
    LStripAppend(c, y);
    var l := LStrip(c) + y;
    assert !IsSpace(l[|l| - 1]);
    assert TrailStart(l, IsSpace) == |l|;
  }

  /** Appending " LIMIT n" after text that ends in a non-space character gives
      text whose normal form holds " limit ". */
  lemma NormalizeAppendLimit(x: string, digits: string)
    requires x != [] && !IsSpace(x[|x| - 1])
    requires digits != [] && AllDigits(digits)
    ensures Contains(Normalize(x + " LIMIT " + digits), " limit ")
  {
    var y := " LIMIT " + digits;
    assert x + " LIMIT " + digits == x + y;
    var l := CollapseWsAppendLimit(x, digits);
    LowerStrAppend(l, y);
    LowerStrAppend(" LIMIT ", digits);
    LowerLimitWord();
    var n := Normalize(x + y);
    assert n == LowerStr(l) + (" limit " + LowerStr(digits));
    OccursAtSeam(LowerStr(l), " limit ", LowerStr(digits));
    ContainsIff(n, " limit ");
  }

  /** _collapse_ws keeps the appended " LIMIT n" as it is. */
  lemma CollapseWsAppendLimit(x: string, digits: string) returns (l: string)
    requires x != [] && !IsSpace(x[|x| - 1])
    requires digits != [] && AllDigits(digits)
    ensures CollapseWs(x + (" LIMIT " + digits)) == l + (" LIMIT " + digits)
    ensures l == LStrip(CollapseRuns(x))
  {
    var y := " LIMIT " + digits;
    CollapseRunsAppend(x, y);
    LimitSuffixCollapsed(digits);
    var c := CollapseRuns(x);
    CollapseRunsLast(x);
    StripAppend(c, y);
    l := LStrip(c);
  }

  /** Appending " LIMIT n" to normalised text gives text whose normal form is
      the text followed by " limit n". */
  lemma NormalizeAppendLimitExact(x: string, digits: string)
    requires IsNormalized(x) && x != []
    requires digits != [] && AllDigits(digits)
    ensures Normalize(x + " LIMIT " + digits) == x + " limit " + digits
    ensures LowerStr(x + " LIMIT " + digits) == x + " limit " + digits
  {
    var y := " LIMIT " + digits;
    AppendAssoc(x, " LIMIT ", digits);
    var l := CollapseWsAppendLimit(x, digits);
    CollapseRunsFixpoint(x);
    assert l == x;
    LowerStrAppend(x, y);
    LowerStrAppend(" LIMIT ", digits);
    LowerLimitWord();
    LowerStrNoUpper(x);
    LowerStrNoUpper(digits);
    AppendAssoc(x, " limit ", digits);
  }

  lemma LimitSuffixCollapsed(digits: string)
    requires AllDigits(digits)
    ensures CollapseRuns(" LIMIT " + digits) == " LIMIT " + digits
  {
    var w := " LIMIT ";
    var y := w + digits;
    forall k | 0 <= k < |y| ensures IsSpace(y[k]) ==> y[k] == ' ' && (k == 0 || k == 6) {
      if k >= 7 {
        assert y[k] == digits[k - 7];
      } else {
        assert y[k] == w[k];
      }
    }
    CollapseRunsFixpoint(y);
  }

  lemma OccursAtSeam(a: string, w: string, b: string)
    ensures OccursAt(a + (w + b), w, |a|)
  {
    assert (a + (w + b))[|a|..|a| + |w|] == w;
  }

  lemma LowerLimitWord()
    ensures LowerStr(" LIMIT ") == " limit "
  {
    var w := LowerStr(" LIMIT ");
    assert w[0] == ' ' && w[1] == 'l' && w[2] == 'i' && w[3] == 'm';
    assert w[4] == 'i' && w[5] == 't' && w[6] == ' ';
  }

  /** The characters that are not whitespace, in order. */
  function NonSpace(s: string): string {
    if s == [] then [] else (if IsSpace(s[0]) then [] else [s[0]]) + NonSpace(s[1..])
  }

  lemma {:induction false} NonSpaceAppend(a: string, b: string)
    ensures NonSpace(a + b) == NonSpace(a) + NonSpace(b)
  {
    if a != [] {
      assert (a + b)[0] == a[0];
      assert (a + b)[1..] == a[1..] + b;
      NonSpaceAppend(a[1..], b);
      calc {
        NonSpace(a + b);
        (if IsSpace(a[0]) then [] else [a[0]]) + NonSpace(a[1..] + b);
        (if IsSpace(a[0]) then [] else [a[0]]) + (NonSpace(a[1..]) + NonSpace(b));
        NonSpace(a) + NonSpace(b);
      }
    } else {
      assert a + b == b;
    }
  }

  lemma {:induction false} NonSpaceAllSpace(s: string)
    requires AllSpace(s)
    ensures NonSpace(s) == []
  {
    if s != [] { NonSpaceAllSpace(s[1..]); }
  }

  lemma NonSpaceStrip(s: string)
    ensures NonSpace(Strip(s)) == NonSpace(s)
  {
    var t := Strip(s);
    var i := StripStart(s);
    var pre, post := s[..i], s[i + |t|..];
    assert s == pre + t + post;
    NonSpaceAllSpace(pre);
    NonSpaceAllSpace(post);
    NonSpaceAppend(pre, t);
    NonSpaceAppend(pre + t, post);
  }

  lemma {:induction false} NonSpaceCollapseRuns(s: string)
    ensures NonSpace(CollapseRuns(s)) == NonSpace(s)
    decreases |s|
  {
    if s != [] {
      if IsSpace(s[0]) {
        var rest := LStrip(s);
        NonSpaceCollapseRuns(rest);
        assert s == s[..|s| - |rest|] + rest;
        NonSpaceAppend(s[..|s| - |rest|], rest);
        NonSpaceAllSpace(s[..|s| - |rest|]);
        NonSpaceAppend([' '], CollapseRuns(rest));
      } else {
        NonSpaceCollapseRuns(s[1..]);
        NonSpaceAppend([s[0]], CollapseRuns(s[1..]));
      }
    }
  }

  lemma {:induction false} NonSpaceLower(s: string)
    ensures NonSpace(LowerStr(s)) == LowerStr(NonSpace(s))
  {
    if s != [] {
      assert LowerStr(s)[1..] == LowerStr(s[1..]);
      NonSpaceLower(s[1..]);
      LowerStrAppend(if IsSpace(s[0]) then [] else [s[0]], NonSpace(s[1..]));
    }
  }

  /** Normalisation changes only whitespace and letter case: the other
      characters survive, in order, lower-cased. */
  lemma NormalizeKeepsContent(s: string)
    ensures NonSpace(Normalize(s)) == LowerStr(NonSpace(s))
  {
    NonSpaceLower(CollapseWs(s));
    NonSpaceStrip(CollapseRuns(s));
    NonSpaceCollapseRuns(s);
  }

  lemma {:induction false} CollapseRunsFixpoint(t: string)
    requires forall k :: 0 <= k < |t| && IsSpace(t[k]) ==> t[k] == ' '
    requires forall k :: 0 <= k < |t| - 1 ==> t[k] != ' ' || t[k + 1] != ' '
    ensures CollapseRuns(t) == t
  {
    if t != [] {
      if IsSpace(t[0]) {
        assert SpanEnd(t, 0, IsSpace) == 1 by {
          if |t| > 1 { assert !IsSpace(t[1]); assert SpanEnd(t, 1, IsSpace) == 1; }
        }
        CollapseRunsFixpoint(t[1..]);
      } else {
        CollapseRunsFixpoint(t[1..]);
      }
    }
  }

  /** Normalised text is its own normalisation, so normalize_sql is idempotent. */
  lemma NormalizeFixpoint(t: string)
    requires IsNormalized(t)
    ensures Normalize(t) == t
  {
    CollapseRunsFixpoint(t);
    StripTrimmed(t);
  }

  lemma NormalizeIdempotent(s: string)
    ensures Normalize(Normalize(s)) == Normalize(s)
  {
    NormalizeIsNormalized(s);
    NormalizeFixpoint(Normalize(s));
  }

  // ---------------------------------------------------------------------
  // `_extract_table`: `\bfrom\s+([a-zA-Z0-9_.]+)`
  // ---------------------------------------------------------------------

  predicate IsTableChar(c: char) {
    IsWordChar(c) || c == '.'
  }

  /** The pattern matches at i: `from` on a word boundary, whitespace, then a
      table character. */
  predicate FromAt(s: string, i: nat) {
    BoundaryBefore(s, i) && OccursAt(s, "from", i) && i + 4 < |s| && IsSpace(s[i + 4])
    && var e := SpanEnd(s, i + 4, IsSpace); e < |s| && IsTableChar(s[e])
  }

  /** The captured group of a match at i: the longest run of table characters
      after the whitespace. */
  function TableAt(s: string, i: nat): (t: string)
    requires FromAt(s, i)
    ensures t != [] && forall k :: 0 <= k < |t| ==> IsTableChar(t[k])
  {
    var e := SpanEnd(s, i + 4, IsSpace);
    s[e..SpanEnd(s, e, IsTableChar)]
  }

  /** `_extract_table`, with None where the source raises. */
  function ExtractTable(norm: string): (r: Option<string>)
    ensures r.None? <==> forall i :: !FromAt(norm, i)
    ensures r.Some? ==> exists i: nat :: FromAt(norm, i) && (forall j :: 0 <= j < i ==> !FromAt(norm, j))
                                    && r.value == TableAt(norm, i)
  {
    var P := (i: nat) => FromAt(norm, i);
    assert forall j: nat :: P(j) == FromAt(norm, j);
    var first := FirstIndex(P, 0, |norm| + 1);
    if first.Some? then Some(TableAt(norm, first.value)) else None
  }

  // ---------------------------------------------------------------------
  // `_extract_limit`: `\blimit\s+(\d+)`, and the clamp `(?i)\blimit\s+\d+`
  // ---------------------------------------------------------------------

  predicate LimitAt(s: string, i: nat) {
    BoundaryBefore(s, i) && OccursAt(s, "limit", i) && i + 5 < |s| && IsSpace(s[i + 5])
    && var e := SpanEnd(s, i + 5, IsSpace); e < |s| && IsDigit(s[e])
  }

  /** Where the digits of a match at i start. */
  function LimitDigitsStart(s: string, i: nat): (e: nat)
    requires LimitAt(s, i)
    ensures i + 5 < e < |s| && IsDigit(s[e])
  {
    SpanEnd(s, i + 5, IsSpace)
  }

  /** Where a match at i ends: after the longest run of digits. */
  function LimitEnd(s: string, i: nat): (r: nat)
    requires LimitAt(s, i)
    ensures LimitDigitsStart(s, i) < r <= |s|
    ensures AllDigits(s[LimitDigitsStart(s, i)..r])
  {
    var e := LimitDigitsStart(s, i);
    var r := SpanEnd(s, e, IsDigit);
    assert forall k :: 0 <= k < r - e ==> s[e..r][k] == s[e + k];
    r
  }

  /** `int(m.group(1))` of a match at i, when `int` accepts the digits. */
  function LimitValue(s: string, i: nat): nat
    requires LimitAt(s, i)
  {
    DigitsValue(s[LimitDigitsStart(s, i)..LimitEnd(s, i)])
  }

  /** CPython's `sys.int_info.default_max_str_digits`: `int()` raises
      ValueError on a decimal string with more digits than this. */
  const MaxStrDigits: nat := 4300

  /** How many digits the match at i captures. */
  function LimitDigitCount(s: string, i: nat): nat
    requires LimitAt(s, i)
  {
    LimitEnd(s, i) - LimitDigitsStart(s, i)
  }

  /** i is where `re.search(r"\blimit\s+(\d+)", s)` matches. */
  predicate FirstLimitAt(s: string, i: nat) {
    LimitAt(s, i) && forall j :: 0 <= j < i ==> !LimitAt(s, j)
  }

  /** `_extract_limit`: the value of the leftmost match; None when there is no
      match, and None too when its digits are too many for `int()`, whose
      ValueError the `except` branch turns into None. */
  function ExtractLimit(norm: string): (r: Option<nat>)
    ensures (forall i :: !LimitAt(norm, i)) ==> r.None?
    ensures forall i: nat :: FirstLimitAt(norm, i) ==>
              r == if LimitDigitCount(norm, i) > MaxStrDigits then None else Some(LimitValue(norm, i))
    ensures r.Some? ==> exists i: nat :: FirstLimitAt(norm, i) && LimitDigitCount(norm, i) <= MaxStrDigits
                                    && r.value == LimitValue(norm, i)
  {
    var P := (i: nat) => LimitAt(norm, i);
    assert forall j: nat :: P(j) == LimitAt(norm, j);
    var first := FirstIndex(P, 0, |norm| + 1);
    if first.None? then None
    else
      assert forall i: nat :: FirstLimitAt(norm, i) ==> i == first.value;
      if LimitDigitCount(norm, first.value) > MaxStrDigits then None
      else Some(LimitValue(norm, first.value))
  }

  /** `re.sub(r"(?i)\blimit\s+\d+", repl, s)` from position k on. The match is
      looked for in low, the lower-cased s, which has the same word
      characters, whitespace and digits at the same positions; each match is
      replaced by repl and the scan resumes after it. */
  function ClampFrom(s: string, low: string, k: nat, repl: string): string
    requires |low| == |s|
    decreases |s| - k
  {
    if k >= |s| then []
    else if LimitAt(low, k) then repl + ClampFrom(s, low, LimitEnd(low, k), repl)
    else [s[k]] + ClampFrom(s, low, k + 1, repl)
  }

  function ClampLimits(s: string, repl: string): string {
    ClampFrom(s, LowerStr(s), 0, repl)
  }

  /** Where no match starts, the clamp copies the text unchanged. */
  lemma {:induction false} ClampNoMatch(s: string, low: string, k: nat, repl: string)
    requires |low| == |s| && k <= |s|
    requires forall j :: k <= j ==> !LimitAt(low, j)
    ensures ClampFrom(s, low, k, repl) == s[k..]
    decreases |s| - k
  {
    if k < |s| {
      ClampNoMatch(s, low, k + 1, repl);
    }
  }

  lemma ClampCopy(s: string, low: string, k: nat, repl: string)
    requires |low| == |s| && k < |s| && !LimitAt(low, k)
    ensures ClampFrom(s, low, k, repl) == [s[k]] + ClampFrom(s, low, k + 1, repl)
  {
  }

  lemma ClampHit(s: string, low: string, m: nat, repl: string)
    requires |low| == |s| && m < |s| && LimitAt(low, m)
    ensures ClampFrom(s, low, m, repl) == s[m..m] + repl + ClampFrom(s, low, LimitEnd(low, m), repl)
  {
    assert s[m..m] == [];
  }

  /** The clamp only copies characters of s and of repl. */
  lemma {:induction false} ClampChars(s: string, low: string, k: nat, repl: string)
    requires |low| == |s|
    ensures forall c :: c in ClampFrom(s, low, k, repl) ==> c in s || c in repl
    decreases |s| - k
  {
    if k < |s| {
      if LimitAt(low, k) {
        ClampChars(s, low, LimitEnd(low, k), repl);
      } else {
        ClampChars(s, low, k + 1, repl);
      }
    }
  }

  /** The clamp jumps from match to match: the text up to the next match is
      copied, that match is replaced by repl, and the rest is clamped the same
      way. Nothing else is altered. */
  lemma {:induction false} ClampStep(s: string, low: string, k: nat, m: nat, repl: string)
    requires |low| == |s| && k <= m < |s|
    requires LimitAt(low, m)
    requires forall j :: k <= j < m ==> !LimitAt(low, j)
    ensures ClampFrom(s, low, k, repl) == s[k..m] + repl + ClampFrom(s, low, LimitEnd(low, m), repl)
    decreases m - k, 1
  {
    if k < m {
      ClampSkip(s, low, k, m, repl);
    } else {
      ClampHit(s, low, m, repl);
    }
  }

  lemma {:induction false} ClampSkip(s: string, low: string, k: nat, m: nat, repl: string)
    requires |low| == |s| && k < m < |s|
    requires LimitAt(low, m)
    requires forall j :: k <= j < m ==> !LimitAt(low, j)
    ensures ClampFrom(s, low, k, repl) == s[k..m] + repl + ClampFrom(s, low, LimitEnd(low, m), repl)
    decreases m - k, 0
  {
    var rest := ClampFrom(s, low, LimitEnd(low, m), repl);
    calc {
      ClampFrom(s, low, k, repl);
      { ClampCopy(s, low, k, repl); }
      [s[k]] + ClampFrom(s, low, k + 1, repl);
      { ClampStep(s, low, k + 1, m, repl); }
      [s[k]] + (s[k + 1..m] + repl + rest);
      { SliceCons(s, k, m); }
      s[k..m] + repl + rest;
    }
  }

  /** From the start of the text, up to the first match. */
  lemma ClampFirst(s: string, low: string, m: nat, repl: string)
    requires |low| == |s| && m < |s|
    requires LimitAt(low, m)
    requires forall j :: 0 <= j < m ==> !LimitAt(low, j)
    ensures ClampFrom(s, low, 0, repl) == s[..m] + repl + ClampFrom(s, low, LimitEnd(low, m), repl)
  {
    ClampStep(s, low, 0, m, repl);
    assert s[0..m] == s[..m];
  }

  // ---------------------------------------------------------------------
  // `_extract_selected_columns`: `\bselect\s+(.*?)\s+\bfrom\b`,
  // `\bas\s+[a-zA-Z0-9_]+\b` and `[a-zA-Z_][a-zA-Z0-9_]*`
  // ---------------------------------------------------------------------

  /** `\bselect\s+` can start at i. */
  predicate SelectAt(s: string, i: nat) {
    BoundaryBefore(s, i) && OccursAt(s, "select", i) && i + 6 < |s| && IsSpace(s[i + 6])
  }

  /** `\s+\bfrom\b` matches at g. */
  predicate FromWordAfter(s: string, g: nat) {
    g < |s| && IsSpace(s[g])
    && var h := SpanEnd(s, g, IsSpace); OccursAt(s, "from", h) && BoundaryAfter(s, h + 4)
  }

  /** The lazy group `(.*?)` of a match starting at i. The greedy `\s+` after
      `select` first takes the whole whitespace run, ending at e; the group then
      grows one character at a time (never across a newline, which `.` does not
      match) until `\s+\bfrom\b` follows. If that fails, the regex gives back
      whitespace: that only succeeds when the run has at least two characters and
      `from` directly follows it, and then the group is empty. */
  function SelectListAt(s: string, i: nat): (r: Option<string>)
    ensures r.Some? ==> SelectAt(s, i) && '\n' !in r.value
  {
    if !SelectAt(s, i) then None
    else
      var e := SpanEnd(s, i + 6, IsSpace);
      var n := SpanEnd(s, e, c => c != '\n');
      var P := (g: nat) => FromWordAfter(s, g);
      var close := FirstIndex(P, e, n + 1);
      if close.Some? then
        var g := close.value;
        assert FromWordAfter(s, g);
        assert forall k :: e <= k < g ==> s[k] != '\n';
        Some(s[e..g])
      else if e - (i + 6) >= 2 && FromWordAfter(s, e - 1) then Some([])
      else None
  }

  /** `re.search(r"\bselect\s+(.*?)\s+\bfrom\b", s).group(1)`, or None. */
  function SelectList(s: string): (r: Option<string>)
    ensures r.Some? ==> '\n' !in r.value
  {
    var P := (i: nat) => SelectListAt(s, i).Some?;
    var first := FirstIndex(P, 0, |s| + 1);
    if first.Some? then SelectListAt(s, first.value) else None
  }

  /** On normalised text that starts with `select `, the select list is the
      text between that `select ` and the first `\s+\bfrom\b` after it. */
  lemma SelectListNormalized(s: string, g: nat)
    requires IsNormalized(s) && StartsWith(s, "select ")
    requires 7 <= g && FromWordAfter(s, g) && forall j :: 7 <= j < g ==> !FromWordAfter(s, j)
    ensures SelectList(s) == Some(s[7..g])
  {
    assert SelectAt(s, 0) by { assert s[0..6] == "select"; }
    assert SpanEnd(s, 6, IsSpace) == 7 by {
      assert s[6] == ' ';
      assert s[6] == ' ' ==> s[7] != ' ';
      assert !IsSpace(s[7]);
      assert SpanEnd(s, 7, IsSpace) == 7;
    }
    assert '\n' !in s;
    assert SpanEnd(s, 7, c => c != '\n') == |s| by {
      SpanNoNewline(s, 7);
    }
    var P := (j: nat) => FromWordAfter(s, j);
    assert P(g);
    var v := FirstIndex(P, 7, |s| + 1);
    assert v == Some(g);
    assert SelectListAt(s, 0) == Some(s[7..g]);
    var Q := (i: nat) => SelectListAt(s, i).Some?;
    assert Q(0);
    assert FirstIndex(Q, 0, |s| + 1) == Some(0);
  }

  lemma SpanNoNewline(s: string, k: nat)
    requires k <= |s| && '\n' !in s
    ensures SpanEnd(s, k, c => c != '\n') == |s|
  {
  }

  /** `\bas\s+[a-zA-Z0-9_]+\b` matches at k (an `AS alias` fragment). */
  predicate AliasAt(p: string, k: nat) {
    BoundaryBefore(p, k) && OccursAt(p, "as", k) && k + 2 < |p| && IsSpace(p[k + 2])
    && var e := SpanEnd(p, k + 2, IsSpace); e < |p| && IsWordChar(p[e])
  }

  function AliasEnd(p: string, k: nat): (r: nat)
    requires AliasAt(p, k)
    ensures k + 2 < r <= |p|
  {
    SpanEnd(p, SpanEnd(p, k + 2, IsSpace), IsWordChar)
  }

  /** `re.sub(r"\bas\s+[a-zA-Z0-9_]+\b", "", p)` from position k on. */
  function RemoveAliasesFrom(p: string, k: nat): string
    decreases |p| - k
  {
    if k >= |p| then []
    else if AliasAt(p, k) then RemoveAliasesFrom(p, AliasEnd(p, k))
    else [p[k]] + RemoveAliasesFrom(p, k + 1)
  }

  function RemoveAliases(p: string): string {
    RemoveAliasesFrom(p, 0)
  }

  /** A fragment without `AS alias` is left unchanged. */
  lemma {:induction false} RemoveAliasesNone(p: string, k: nat)
    requires k <= |p|
    requires forall j :: k <= j ==> !AliasAt(p, j)
    ensures RemoveAliasesFrom(p, k) == p[k..]
    decreases |p| - k
  {
    if k < |p| {
      RemoveAliasesNone(p, k + 1);
    }
  }

  /** The removal jumps from match to match: the text up to the next
      `as <alias>` is kept, the match itself is dropped, and the rest is
      handled the same way. */
  lemma {:induction false} RemoveAliasesStep(p: string, k: nat, m: nat)
    requires k <= m < |p| && AliasAt(p, m)
    requires forall j :: k <= j < m ==> !AliasAt(p, j)
    ensures RemoveAliasesFrom(p, k) == p[k..m] + RemoveAliasesFrom(p, AliasEnd(p, m))
    decreases m - k
  {
    if k < m {
      var rest := RemoveAliasesFrom(p, AliasEnd(p, m));
      calc {
        RemoveAliasesFrom(p, k);
        { AliasCopy(p, k); }
        [p[k]] + RemoveAliasesFrom(p, k + 1);
        { RemoveAliasesStep(p, k + 1, m); }
        [p[k]] + (p[k + 1..m] + rest);
        { SliceCons(p, k, m); AppendAssoc([p[k]], p[k + 1..m], rest); }
        p[k..m] + rest;
      }
    } else {
      assert p[m..m] == [];
    }
  }

  lemma AliasCopy(p: string, k: nat)
    requires k < |p| && !AliasAt(p, k)
    ensures RemoveAliasesFrom(p, k) == [p[k]] + RemoveAliasesFrom(p, k + 1)
  {
  }

  predicate IsIdentStart(c: char) {
    IsLetter(c) || c == '_'
  }

  /** What `[a-zA-Z_][a-zA-Z0-9_]*` matches as a whole. */
  predicate IsIdentifier(t: string) {
    t != [] && IsIdentStart(t[0]) && forall k :: 0 <= k < |t| ==> IsWordChar(t[k])
  }

  /** `re.findall(r"[a-zA-Z_][a-zA-Z0-9_]*", p)` from position k on. */
  function IdentifiersFrom(p: string, k: nat): (r: seq<string>)
    requires k <= |p|
    ensures forall t :: t in r ==> IsIdentifier(t)
    decreases |p| - k
  {
    if k >= |p| then []
    else if IsIdentStart(p[k]) then
      var e := SpanEnd(p, k, IsWordChar);
      assert forall j :: 0 <= j < e - k ==> p[k..e][j] == p[k + j];
      [p[k..e]] + IdentifiersFrom(p, e)
    else IdentifiersFrom(p, k + 1)
  }

  function Identifiers(p: string): seq<string> {
    IdentifiersFrom(p, 0)
  }

  /** The scan from k reaches i inside a word run without a match: the run
      starts at j, which is k or follows a non-word character, and only
      digits come between j and i. */
  predicate DigitsBefore(p: string, k: nat, j: nat, i: nat) {
    k <= j <= i <= |p| && (j == k || !IsWordChar(p[j - 1]))
    && forall m :: j <= m < i ==> IsDigit(p[m])
  }

  /** Every identifier that the scan from k reaches is found whole: one
      that starts a word, or that follows only digits in its word. */
  lemma {:induction false} IdentifiersComplete(p: string, k: nat, j: nat, i: nat)
    requires i < |p| && DigitsBefore(p, k, j, i) && IsIdentStart(p[i])
    ensures p[i..SpanEnd(p, i, IsWordChar)] in IdentifiersFrom(p, k)
    decreases i - k
  {
    if k < i {
      if j == k {
        assert IsDigit(p[k]);
        IdentifiersComplete(p, k + 1, k + 1, i);
      } else if IsIdentStart(p[k]) {
        var e := SpanEnd(p, k, IsWordChar);
        assert !IsWordChar(p[j - 1]);
        assert e < j;
        IdentifiersComplete(p, e, j, i);
      } else {
        IdentifiersComplete(p, k + 1, j, i);
      }
    }
  }

  /** The tokens come in the order of the text: those before a non-word
      character at m - 1 are followed by those after it, and no token spans
      it. */
  lemma {:induction false} IdentifiersSplit(p: string, k: nat, m: nat)
    requires k <= m <= |p| && (m == k || !IsWordChar(p[m - 1]))
    ensures IdentifiersFrom(p, k) == IdentifiersFrom(p[..m], k) + IdentifiersFrom(p, m)
    decreases m - k
  {
    if k < m {
      var q := p[..m];
      assert q[k] == p[k];
      if IsIdentStart(p[k]) {
        var e := SpanEnd(p, k, IsWordChar);
        assert e < m;
        SpanEndPrefix(p, m, k, IsWordChar);
        assert q[k..e] == p[k..e];
        IdentifiersSplit(p, e, m);
        assert IdentifiersFrom(p, k) == [p[k..e]] + IdentifiersFrom(p, e);
        assert IdentifiersFrom(q, k) == [p[k..e]] + IdentifiersFrom(q, e);
      } else {
        IdentifiersSplit(p, k + 1, m);
      }
    }
  }

  /** A run that ends before m ends at the same place in the prefix p[..m]. */
  lemma {:induction false} SpanEndPrefix(p: string, m: nat, j: nat, P: char -> bool)
    requires j <= m <= |p| && SpanEnd(p, j, P) < m
    ensures SpanEnd(p[..m], j, P) == SpanEnd(p, j, P)
    decreases m - j
  {
    assert p[..m][j] == p[j];
    if P(p[j]) {
      SpanEndPrefix(p, m, j + 1, P);
    }
  }

  /** Every identifier token is a whole run of word characters of p, less any
      leading digits: it starts where the scan from k first meets a letter
      or '_' in its word, and ends where the run ends. */
  lemma {:induction false} IdentifiersOccur(p: string, k: nat, t: string)
    requires k <= |p| && t in IdentifiersFrom(p, k)
    ensures exists j: nat, i: nat :: DigitsBefore(p, k, j, i) && OccursAt(p, t, i) && BoundaryAfter(p, i + |t|)
    decreases |p| - k
  {
    if k < |p| {
      if IsIdentStart(p[k]) {
        var e := SpanEnd(p, k, IsWordChar);
        if t == p[k..e] {
          assert DigitsBefore(p, k, k, k) && OccursAt(p, t, k);
        } else if e < |p| {
          assert IdentifiersFrom(p, e) == IdentifiersFrom(p, e + 1);
          IdentifiersOccur(p, e + 1, t);
          var j: nat, i: nat :| DigitsBefore(p, e + 1, j, i) && OccursAt(p, t, i) && BoundaryAfter(p, i + |t|);
          assert DigitsBefore(p, k, j, i);
        }
      } else {
        IdentifiersOccur(p, k + 1, t);
        var j: nat, i: nat :| DigitsBefore(p, k + 1, j, i) && OccursAt(p, t, i) && BoundaryAfter(p, i + |t|);
        if j == k + 1 && IsWordChar(p[k]) {
          assert DigitsBefore(p, k, k, i);
        } else {
          assert DigitsBefore(p, k, j, i);
        }
      }
    }
  }
}
