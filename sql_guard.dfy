/** The SQL guard of llm/sql_guard.py: the checks that untrusted text from a
    language model goes through before it may run as a query. `validate_sql`
    either returns the one SELECT statement to execute or rejects the text;
    a rejection here is the `SQLGuardError` the source raises, with one
    reason per raise site. */
module SqlGuard {
  import opened PyText
  import opened SqlPatterns
  import opened SqlColumns

  // ---------------------------------------------------------------------
  // Policy (llm/sql_guard.py:34-103)
  // ---------------------------------------------------------------------

  /** The policy tables. A table absent from allowedColumns is checked for
      its name only (`ALLOWED_COLUMNS.get(table)` is None). Each block word w
      stands for the pattern `\bw\b`. */
  datatype Policy = Policy(
    allowedTables: set<string>,
    allowedColumns: map<string, set<string>>,
    blockWords: seq<string>,
    disallowJoin: bool,
    defaultLimit: nat,
    maxLimit: nat)

  const KpiColumns: set<string> := {
    "event_date", "campaign_id", "impressions", "clicks", "conversions", "ctr", "cvr",
    "ad_cost", "ad_revenue", "payments_total", "payments_success", "payments_failed",
    "payment_success_rate", "pay_amount_success"
  }

  const InsightColumns: set<string> := {
    "event_date", "headline", "risk_level", "summary_md", "created_at"
  }

  /** `BLOCK_PATTERNS`, each `\b<word>\b`, as its words. */
  const BlockWords: seq<string> :=
    ["insert", "update", "delete", "merge", "drop", "create", "alter", "truncate", "grant",
     "revoke", "copy", "export", "import", "attach", "detach", "pragma", "call", "execute"]

  const DefaultPolicy: Policy := Policy(
    {"mart.daily_campaign_kpi", "mart_daily_insight", "mart_daily_insight_latest"},
    map[
      "mart.daily_campaign_kpi" := KpiColumns,
      "mart_daily_insight" := InsightColumns,
      "mart_daily_insight_latest" := InsightColumns],
    BlockWords,
    true,
    1000,
    5000)

  /** The shipped policy: every allowed table has a column allowlist, so the
      column check applies to every table that passes the table check; JOIN
      is refused; the default limit is within the maximum. */
  lemma DefaultPolicyShape()
    ensures DefaultPolicy.allowedColumns.Keys == DefaultPolicy.allowedTables
    ensures DefaultPolicy.disallowJoin
    ensures DefaultPolicy.defaultLimit <= DefaultPolicy.maxLimit
    ensures |DefaultPolicy.blockWords| == 18 && "join" !in DefaultPolicy.blockWords
    ensures WordBoundedPolicy(DefaultPolicy)
  {
    BlockWordsBounded();
  }

  /** Each of the 18 block words starts and ends with a letter. */
  lemma BlockWordsBounded()
    ensures forall w :: w in BlockWords ==> WordBounded(w)
  {
    assert WordBounded(BlockWords[0]);
    assert WordBounded(BlockWords[1]);
    assert WordBounded(BlockWords[2]);
    assert WordBounded(BlockWords[3]);
    assert WordBounded(BlockWords[4]);
    assert WordBounded(BlockWords[5]);
    assert WordBounded(BlockWords[6]);
    assert WordBounded(BlockWords[7]);
    assert WordBounded(BlockWords[8]);
    assert WordBounded(BlockWords[9]);
    assert WordBounded(BlockWords[10]);
    assert WordBounded(BlockWords[11]);
    assert WordBounded(BlockWords[12]);
    assert WordBounded(BlockWords[13]);
    assert WordBounded(BlockWords[14]);
    assert WordBounded(BlockWords[15]);
    assert WordBounded(BlockWords[16]);
    assert WordBounded(BlockWords[17]);
  }

  predicate WordBounded(w: string) {
    w != [] && IsWordChar(w[0]) && IsWordChar(w[|w| - 1])
  }

  /** Every block word starts and ends with a word character, so that `\b`
      on either side of it means a non-word neighbour (or none), as
      BoundaryBefore and BoundaryAfter say. For other words the block-word
      check of this model is not `\bword\b`. */
  predicate WordBoundedPolicy(p: Policy) {
    forall w :: w in p.blockWords ==> WordBounded(w)
  }

  // ---------------------------------------------------------------------
  // `strip_sql_fence` (llm/sql_guard.py:114-125)
  // ---------------------------------------------------------------------

  const Fence: string := "```"
  const SqlFence: string := "```sql"

  /** `re.search(r"```sql\s*(.*?)```", text, IGNORECASE | DOTALL)`: the opening
      fence is the first case-insensitive "```sql"; the lazy group ends at the
      first "```" after it. When that closing fence is missing no later
      opening fence can have one either (a later opening fence would itself be
      a closing one), so the search fails. The group with `\s*` in front of it,
      stripped, is the text between the fences, stripped. */
  function StripSqlFence(text: string): (r: string)
    ensures r == [] || (!IsSpace(r[0]) && !IsSpace(r[|r| - 1]))
  {
    if text == [] then []
    else
      var open := FindFrom(LowerStr(text), SqlFence, 0);
      var close := if open.Some? then FindFrom(text, Fence, open.value + 6) else None;
      if close.Some? then Strip(text[open.value + 6..close.value])
      else Strip(RemoveAll(text, Fence))
  }

  /** A fenced answer yields the stripped text between the first opening
      fence and the next closing fence. */
  lemma StripSqlFenceFenced(text: string, p: nat, b: nat)
    requires OccursAt(LowerStr(text), SqlFence, p)
    requires forall j :: 0 <= j < p ==> !OccursAt(LowerStr(text), SqlFence, j)
    requires p + 6 <= b && OccursAt(text, Fence, b)
    requires forall j :: p + 6 <= j < b ==> !OccursAt(text, Fence, j)
    ensures StripSqlFence(text) == Strip(text[p + 6..b])
  {
    FindFromFirst(LowerStr(text), SqlFence, 0, p);
    FindFromFirst(text, Fence, p + 6, b);
  }

  /** Text without any fence is only stripped. */
  lemma StripSqlFencePlain(text: string)
    requires forall i :: !OccursAt(text, Fence, i)
    ensures StripSqlFence(text) == Strip(text)
  {
    if text != [] {
      RemoveAllAbsent(text, Fence);
      var f := FindFrom(LowerStr(text), SqlFence, 0);
      if f.Some? {
        assert FindFrom(text, Fence, f.value + 6).None?;
      }
    }
  }

  /** A bare fence, "```" without "sql", is removed by the second regex
      (`replace("```", "")`): the text inside comes back stripped, provided
      it holds no backtick and does not itself start with "sql" in any case
      (which would make the opening an "```sql" fence). */
  lemma StripSqlFenceBare(s: string)
    requires '`' !in s && !StartsWith(LowerStr(s), "sql")
    ensures StripSqlFence(Fence + s + Fence) == Strip(s)
  {
    var text := Fence + s + Fence;
    NoSqlFenceOpening(s);
    assert FindFrom(LowerStr(text), SqlFence, 0).None?;
    RemoveBareFences(s);
  }

  /** Around backtick-free text whose lower-case form does not start with
      "sql", no "```sql" opens. */
  lemma NoSqlFenceOpening(s: string)
    requires '`' !in s && !StartsWith(LowerStr(s), "sql")
    ensures forall i :: !OccursAt(LowerStr(Fence + s + Fence), SqlFence, i)
  {
    var ls := LowerStr(s);
    LowerStrAppend(Fence, s);
    LowerStrAppend(Fence + s, Fence);
    LowerStrNoUpper(Fence);
    assert LowerStr(Fence + s + Fence) == Fence + ls + Fence;
    assert '`' !in ls by {
      forall k | 0 <= k < |ls| ensures ls[k] != '`' {
        assert s[k] != '`';
      }
    }
    forall i: nat
      ensures !OccursAt(Fence + ls + Fence, SqlFence, i)
    {
      NoOpeningAt(ls, i);
    }
  }

  lemma NoOpeningAt(ls: string, i: nat)
    requires '`' !in ls && !StartsWith(ls, "sql")
    ensures !OccursAt(Fence + ls + Fence, SqlFence, i)
  {
    var t := Fence + ls + Fence;
    if i + 6 <= |t| {
      if i == 0 {
        if |ls| >= 3 {
          var q := SqlFence[3..6];
          assert q[0] == 's' && q[1] == 'q' && q[2] == 'l';
          assert q == "sql";
          assert t[0..6][3..6] == ls[0..3];
        } else {
          assert t[0..6][3 + |ls|] == '`';
        }
      } else {
        assert t[i..i + 6][2] == ls[i - 1];
      }
    }
  }

  /** `replace("```", "")` on a bare fenced text leaves its inside. */
  lemma RemoveBareFences(s: string)
    requires '`' !in s
    ensures RemoveAll(Fence + s + Fence, Fence) == s
  {
    var text := Fence + s + Fence;
    assert StartsWith(text, Fence);
    assert text[3..] == s + Fence;
    RemoveBeforeFence(s);
  }

  lemma {:induction false} RemoveBeforeFence(s: string)
    requires '`' !in s
    ensures RemoveAll(s + Fence, Fence) == s
  {
    if s == [] {
      assert StartsWith(Fence, Fence);
      assert Fence[3..] == [];
      assert RemoveAll([], Fence) == [];
    } else {
      var t := s + Fence;
      assert t[0] == s[0] != '`';
      assert |t| < 3 || t[0..3][0] != Fence[0];
      assert t[1..] == s[1..] + Fence;
      RemoveBeforeFence(s[1..]);
      assert t == [s[0]] + t[1..];
    }
  }

  /** Whatever the input, the result holds no "```": a fenced answer is cut
      before its first closing fence, and `replace` leaves at most two
      backticks of every run. */
  lemma StripSqlFenceNoFence(text: string)
    ensures !Contains(StripSqlFence(text), Fence)
  {
    if text != [] {
      var f := FindFrom(LowerStr(text), SqlFence, 0);
      var c := if f.Some? then FindFrom(text, Fence, f.value + 6) else None;
      if c.Some? {
        assert StripSqlFence(text) == Strip(text[f.value + 6..c.value]);
        SliceNoFence(text, f.value + 6, c.value);
      } else {
        assert StripSqlFence(text) == Strip(RemoveAll(text, Fence));
        RemovedNoFence(text);
      }
    }
  }

  lemma SliceNoFence(text: string, a: nat, b: nat)
    requires a <= b <= |text|
    requires forall j :: a <= j < b ==> !OccursAt(text, Fence, j)
    ensures !Contains(Strip(text[a..b]), Fence)
  {
    NoFenceBetween(text, a, b);
    StripAbsent(text[a..b], Fence);
  }

  lemma RemovedNoFence(text: string)
    ensures !Contains(Strip(RemoveAll(text, Fence)), Fence)
  {
    RemoveFenceNoFence(text);
    StripAbsent(RemoveAll(text, Fence), Fence);
  }

  lemma NoFenceBetween(text: string, a: nat, b: nat)
    requires a <= b <= |text|
    requires forall j :: a <= j < b ==> !OccursAt(text, Fence, j)
    ensures forall i :: !OccursAt(text[a..b], Fence, i)
  {
    forall i | OccursAt(text[a..b], Fence, i) ensures false {
      OccursInSlice(text, Fence, a, b, i);
    }
  }

  predicate TwoTicks(s: string) {
    |s| >= 2 && s[0] == '`' && s[1] == '`'
  }

  /** Removing "```" from text that does not start with two backticks gives
      text that does not start with two backticks. */
  lemma RemoveFenceHead(s: string)
    requires !TwoTicks(s)
    ensures !TwoTicks(RemoveAll(s, Fence))
  {
    if s != [] && s[0] == '`' {
      assert !StartsWith(s, Fence);
      var t := s[1..];
      if t != [] && t[0] == '`' {
        assert false;
      } else if t != [] {
        assert !StartsWith(t, Fence);
        assert RemoveAll(t, Fence) == [t[0]] + RemoveAll(t[1..], Fence);
      }
    } else if s != [] {
      assert !StartsWith(s, Fence);
    }
  }

  /** Putting one character before fence-free text creates a fence only
      when that character and the first two of the text are backticks. */
  lemma ConsNoFence(c: char, rest: string)
    requires forall i :: !OccursAt(rest, Fence, i)
    requires c == '`' ==> !TwoTicks(rest)
    ensures forall i :: !OccursAt([c] + rest, Fence, i)
  {
    forall i: nat ensures !OccursAt([c] + rest, Fence, i) {
      if i == 0 {
        ConsHead(c, rest);
      } else {
        ConsTail(c, rest, i);
      }
    }
  }

  lemma ConsHead(c: char, rest: string)
    requires c == '`' ==> !TwoTicks(rest)
    ensures !OccursAt([c] + rest, Fence, 0)
  {
    var r := [c] + rest;
    if |r| >= 3 {
      assert r[0..3] == [c, rest[0], rest[1]];
    }
  }

  lemma ConsTail(c: char, rest: string, i: nat)
    requires 0 < i && !OccursAt(rest, Fence, i - 1)
    ensures !OccursAt([c] + rest, Fence, i)
  {
    var r := [c] + rest;
    if i + 3 <= |r| {
      assert r[i..i + 3] == rest[i - 1..i + 2];
    }
  }

  /** `text.replace("```", "")` holds no "```". */
  lemma {:induction false} RemoveFenceNoFence(s: string)
    ensures forall i :: !OccursAt(RemoveAll(s, Fence), Fence, i)
    decreases |s|
  {
    if s != [] {
      if StartsWith(s, Fence) {
        RemoveFenceNoFence(s[3..]);
      } else {
        RemoveFenceNoFence(s[1..]);
        if s[0] == '`' {
          assert !TwoTicks(s[1..]);
          RemoveFenceHead(s[1..]);
        }
        ConsNoFence(s[0], RemoveAll(s[1..], Fence));
        assert RemoveAll(s, Fence) == [s[0]] + RemoveAll(s[1..], Fence);
      }
    }
  }

  // ---------------------------------------------------------------------
  // `_has_multi_statement` and `_strip_trailing_semicolon`
  // (llm/sql_guard.py:135-154)
  // ---------------------------------------------------------------------

  function DropTrailingSemicolon(s: string): (r: string)
    ensures |r| <= |s| && r == s[..|r|]
  {
    if s != [] && s[|s| - 1] == ';' then s[..|s| - 1] else s
  }

  /** `_has_multi_statement`: a `;` remains once the trimmed text loses one
      trailing `;`. */
  predicate HasMultiStatement(sql: string) {
    var s := Strip(sql);
    s != [] && ';' in DropTrailingSemicolon(s)
  }

  /** `_strip_trailing_semicolon` */
  function StripTrailingSemicolon(sql: string): (r: string)
    ensures |r| <= |Strip(sql)| && r == Strip(sql)[..|r|]
    ensures r == [] || !IsSpace(r[|r| - 1])
    ensures |Strip(sql)| - |r| >= 1 ==> Strip(sql)[|Strip(sql)| - 1] == ';'
  {
    var s := Strip(sql);
    if s != [] && s[|s| - 1] == ';' then RStrip(s[..|s| - 1]) else s
  }

  /** Multi-statement means a `;` anywhere in the trimmed text but at its
      very end. */
  lemma HasMultiStatementIff(sql: string)
    ensures HasMultiStatement(sql)
            <==> exists i :: 0 <= i < |Strip(sql)| - 1 && Strip(sql)[i] == ';'
  {
    var s := Strip(sql);
    if s != [] {
      var d := DropTrailingSemicolon(s);
      if ';' in d {
        var i :| 0 <= i < |d| && d[i] == ';';
        assert s[i] == ';';
      }
      if exists i :: 0 <= i < |s| - 1 && s[i] == ';' {
        var i :| 0 <= i < |s| - 1 && s[i] == ';';
        assert d[i] == ';';
      }
    }
  }

  /** The text handed on after both steps holds a `;` exactly when the
      multi-statement check fires: text that passes is a single statement. */
  lemma SemicolonFreeIff(sql: string)
    ensures ';' in StripTrailingSemicolon(sql) <==> HasMultiStatement(sql)
  {
    var s := Strip(sql);
    var r := StripTrailingSemicolon(sql);
    if s != [] && s[|s| - 1] == ';' {
      var d := s[..|s| - 1];
      assert DropTrailingSemicolon(s) == d;
      var t := RStrip(d);
      assert |t| <= |d| && t == d[..|t|];
      if ';' in d {
        var i :| 0 <= i < |d| && d[i] == ';';
        assert t[i] == ';';
      }
      if ';' in t {
        var i :| 0 <= i < |t| && t[i] == ';';
        assert d[i] == ';';
      }
    }
  }

  // ---------------------------------------------------------------------
  // `_ensure_limit` (llm/sql_guard.py:179-189)
  // ---------------------------------------------------------------------

  /** `f"LIMIT {n}"` */
  function LimitClause(n: nat): (r: string)
    ensures ';' !in r
  {
    "LIMIT " + Decimal(n)
  }

  /** `_ensure_limit`: a query without " limit " in its normal form gets
      " LIMIT <default>" after its trailing whitespace is dropped; one whose
      first limit is above the maximum has every `limit <digits>` replaced by
      "LIMIT <max>"; any other query is returned as it is. */
  function EnsureLimit(p: Policy, raw: string): string {
    var norm := Normalize(raw);
    if Contains(norm, " limit ") then
      var lim := ExtractLimit(norm);
      if lim.Some? && lim.value > p.maxLimit then ClampLimits(raw, LimitClause(p.maxLimit))
      else raw
    else RStrip(raw) + " LIMIT " + Decimal(p.defaultLimit)
  }

  /** Without a limit, " LIMIT <default>" is appended. */
  lemma EnsureLimitAppends(p: Policy, raw: string)
    requires !Contains(Normalize(raw), " limit ")
    ensures EnsureLimit(p, raw) == RStrip(raw) + " LIMIT " + Decimal(p.defaultLimit)
  {
  }

  /** For a query with any content, the normal form of the appended result
      holds " limit ", so a second pass does not append again. */
  lemma EnsureLimitAppendsOnce(p: Policy, raw: string)
    requires !Contains(Normalize(raw), " limit ") && !AllSpace(raw)
    ensures Contains(Normalize(EnsureLimit(p, raw)), " limit ")
  {
    AppendedHasLimit(raw, Decimal(p.defaultLimit));
    EnsureLimitAppends(p, raw);
  }

  lemma AppendedHasLimit(raw: string, digits: string)
    requires !AllSpace(raw) && digits != [] && AllDigits(digits)
    ensures Contains(Normalize(RStrip(raw) + " LIMIT " + digits), " limit ")
  {
    RStripNotEmpty(raw);
    NormalizeAppendLimit(RStrip(raw), digits);
  }

  /** A limit at or below the maximum leaves the query unchanged, and then
      `_ensure_limit` is idempotent. */
  lemma EnsureLimitKeeps(p: Policy, raw: string)
    requires Contains(Normalize(raw), " limit ")
    requires ExtractLimit(Normalize(raw)).None? || ExtractLimit(Normalize(raw)).value <= p.maxLimit
    ensures EnsureLimit(p, raw) == raw
    ensures EnsureLimit(p, EnsureLimit(p, raw)) == EnsureLimit(p, raw)
  {
  }

  /** A first limit with more digits than `int()` converts is left as it is:
      `_extract_limit` answers None, so the query passes unclamped, however
      large the number. */
  lemma EnsureLimitTooManyDigits(p: Policy, raw: string, i: nat)
    requires Contains(Normalize(raw), " limit ")
    requires FirstLimitAt(Normalize(raw), i) && LimitDigitCount(Normalize(raw), i) > MaxStrDigits
    ensures EnsureLimit(p, raw) == raw
  {
  }

  /** A first limit above the maximum (and, as ExtractLimit answers Some,
      of at most MaxStrDigits digits) makes the result the raw text with
      every case-insensitive `limit <digits>` replaced by "LIMIT <max>"
      (what that leaves of the text is stated by ClampFirst, ClampStep and
      ClampNoMatch). */
  lemma EnsureLimitIsClamp(p: Policy, raw: string)
    requires Contains(Normalize(raw), " limit ")
    requires ExtractLimit(Normalize(raw)).Some? && ExtractLimit(Normalize(raw)).value > p.maxLimit
    ensures EnsureLimit(p, raw) == ClampFrom(raw, LowerStr(raw), 0, LimitClause(p.maxLimit))
  {
  }

  /** `_ensure_limit` is not idempotent. In "(limit 9999)" the limit follows
      a parenthesis, so the normal form holds no " limit " and " LIMIT 1000"
      is appended; a second pass then finds " limit ", reads the first limit
      9999 and clamps it. */
  lemma EnsureLimitNotIdempotent()
    ensures var once := EnsureLimit(DefaultPolicy, "(limit 9999)");
            EnsureLimit(DefaultPolicy, once) != once
  {
    var x := "(limit 9999)";
    assert IsSample(x);
    assert DefaultPolicy.maxLimit == 5000;
    SecondPassClamps(DefaultPolicy, x);
  }

  /** The characters of "(limit 9999)", one by one. */
  predicate IsSample(x: string) {
    |x| == 12 && x[0] == '(' && x[1] == 'l' && x[2] == 'i' && x[3] == 'm' && x[4] == 'i'
    && x[5] == 't' && x[6] == ' ' && x[7] == '9' && x[8] == '9' && x[9] == '9' && x[10] == '9'
    && x[11] == ')'
  }

  /** The same for any policy whose maximum is below 9999. */
  lemma SecondPassClamps(p: Policy, x: string)
    requires p.maxLimit < 9999 && IsSample(x)
    ensures var once := EnsureLimit(p, x);
            EnsureLimit(p, once) != once
  {
    var d := Decimal(p.defaultLimit);
    SampleFirstPass(p, x);
    SampleSecondPass(p, x, d);
  }

  /** The first pass appends " LIMIT <default>". */
  lemma SampleFirstPass(p: Policy, x: string)
    requires IsSample(x)
    ensures IsNormalized(x)
    ensures EnsureLimit(p, x) == x + " LIMIT " + Decimal(p.defaultLimit)
  {
    SampleNormalized(x);
    NormalizeFixpoint(x);
    SampleNoLimitWord(x);
    assert RStrip(x) == x;
  }

  /** The second pass rewrites the first limit, so its output differs at
      position 1, where "limit" became "LIMIT". */
  lemma SampleSecondPass(p: Policy, x: string, d: string)
    requires p.maxLimit < 9999 && IsSample(x) && IsNormalized(x)
    requires d != [] && AllDigits(d)
    ensures EnsureLimit(p, x + " LIMIT " + d) != x + " LIMIT " + d
  {
    var once := x + " LIMIT " + d;
    assert once[1] == x[1] == 'l';
    NormalizeAppendLimitExact(x, d);
    var n := x + " limit " + d;
    OccursAtSeam(x, " limit ", d);
    AppendAssoc(x, " limit ", d);
    ContainsIff(n, " limit ");
    SampleFirstLimit(x, d, n);
    FirstLimitRewritten(p, once, 1);
  }

  /** For text whose lower-case form is already its normal form: when the
      limit step clamps, the text changes where the first limit starts,
      unless it already read "LIMIT" there. */
  lemma FirstLimitRewritten(p: Policy, raw: string, i: nat)
    requires Contains(Normalize(raw), " limit ") && LowerStr(raw) == Normalize(raw)
    requires FirstLimitAt(Normalize(raw), i)
    requires ExtractLimit(Normalize(raw)).Some? && ExtractLimit(Normalize(raw)).value > p.maxLimit
    requires raw[i] != 'L'
    ensures EnsureLimit(p, raw) != raw
  {
    var n := Normalize(raw);
    var repl := LimitClause(p.maxLimit);
    ClampFirst(raw, n, i, repl);
    EnsureLimitIsClamp(p, raw);
    var clamped := ClampFrom(raw, n, 0, repl);
    assert clamped[i] == repl[0] == 'L';
  }

  lemma SampleNormalized(x: string)
    requires IsSample(x)
    ensures IsNormalized(x)
  {
    forall k | 0 <= k < |x|
      ensures !IsUpper(x[k]) && (IsSpace(x[k]) <==> k == 6)
    {
    }
  }

  lemma SampleNoLimitWord(x: string)
    requires IsSample(x)
    ensures !Contains(x, " limit ")
  {
    forall i: nat
      ensures !OccursAt(x, " limit ", i)
    {
      if i + 7 <= |x| {
        assert x[i..i + 7][0] == x[i];
      }
    }
    ContainsIff(x, " limit ");
  }

  /** In "(limit 9999) limit <d>" the first limit is at 1 and reads 9999. */
  lemma SampleFirstLimit(x: string, d: string, n: string)
    requires IsSample(x) && d != [] && AllDigits(d) && n == x + " limit " + d
    ensures FirstLimitAt(n, 1) && LimitDigitCount(n, 1) == 4
    ensures ExtractLimit(n) == Some(9999)
  {
    SampleLimitAt(x, d, n);
    NinesValue(n[7..11]);
  }

  lemma SampleLimitAt(x: string, d: string, n: string)
    requires IsSample(x) && d != [] && AllDigits(d) && n == x + " limit " + d
    ensures FirstLimitAt(n, 1) && LimitDigitsStart(n, 1) == 7 && LimitEnd(n, 1) == 11
    ensures n[7] == '9' && n[8] == '9' && n[9] == '9' && n[10] == '9'
  {
    assert n[..12] == x;
    var w := n[1..6];
    assert w[0] == 'l' && w[1] == 'i' && w[2] == 'm' && w[3] == 'i' && w[4] == 't';
    assert w == "limit";
    assert SpanEnd(n, 7, IsSpace) == 7;
    assert LimitAt(n, 1);
    assert !OccursAt(n, "limit", 0);
    assert n[12] == ' ';
    assert SpanEnd(n, 11, IsDigit) == 11;
  }

  lemma NinesValue(a: string)
    requires |a| == 4 && a[0] == '9' && a[1] == '9' && a[2] == '9' && a[3] == '9'
    ensures AllDigits(a) && DigitsValue(a) == 9999
  {
    var b := a[..3];
    var c := b[..2];
    var e := c[..1];
    assert e[..0] == [];
    assert DigitsValue(e) == 9;
    assert DigitsValue(c) == 99;
    assert DigitsValue(b) == 999;
  }

  /** The limit step never introduces a `;`. */
  lemma EnsureLimitNoSemicolon(p: Policy, raw: string)
    requires ';' !in raw
    ensures ';' !in EnsureLimit(p, raw)
  {
    var norm := Normalize(raw);
    if Contains(norm, " limit ") {
      var repl := LimitClause(p.maxLimit);
      ClampChars(raw, LowerStr(raw), 0, repl);
      assert ';' !in ClampLimits(raw, repl);
    } else {
      var x := RStrip(raw);
      assert x == raw[..|x|];
      AppendLimitNoSemicolon(x, p.defaultLimit);
    }
  }

  lemma AppendLimitNoSemicolon(x: string, n: nat)
    requires ';' !in x
    ensures ';' !in x + " LIMIT " + Decimal(n)
  {
    var d := Decimal(n);
    assert ';' !in d;
    assert ';' !in " LIMIT ";
  }

  // ---------------------------------------------------------------------
  // `validate_sql` (llm/sql_guard.py:232-307)
  // ---------------------------------------------------------------------

  /** One constructor per `raise SQLGuardError` in `validate_sql` and the
      helpers it calls. */
  datatype Reason =
    | EmptyInput                                  // line 238
    | MultiStatement                              // line 245
    | NotASelect                                  // line 254
    | JoinNotAllowed                              // line 258
    | BlockedKeyword                              // line 263
    | MissingFrom                                 // line 165
    | TableNotAllowed(table: string)              // line 268
    | TooManyUnknownColumns(tokens: seq<string>)  // line 302

  datatype Outcome = Accepted(sql: string) | Rejected(reason: Reason)

  /** The input after fence stripping and trimming. */
  function Unfenced(text: string): string {
    Strip(StripSqlFence(text))
  }

  /** The raw statement the later stages look at: trimmed, one trailing `;`
      removed. */
  function Cleaned(text: string): string {
    StripTrailingSemicolon(Unfenced(text))
  }

  /** The loop over BLOCK_PATTERNS finds one of them in norm. */
  predicate HasBlockedWord(norm: string, words: seq<string>) {
    exists i :: 0 <= i < |words| && HasWord(norm, words[i])
  }

  /** The suspicious tokens when the column check applies (the table has a
      column allowlist and the projection yields a column list). */
  function UnknownColumns(p: Policy, norm: string, table: string): Option<seq<string>> {
    if table in p.allowedColumns then
      var selected := SelectedColumns(norm);
      if selected.Some? then Some(Suspicious(selected.value, table, p.allowedColumns[table]))
      else None
    else None
  }

  /** The outcome of `validate_sql`, stage by stage. */
  function Validate(p: Policy, text: string): Outcome {
    if Strip(text) == [] then Rejected(EmptyInput)
    else if HasMultiStatement(Unfenced(text)) then Rejected(MultiStatement)
    else ValidateStatement(p, Cleaned(text))
  }

  /** The stages after the `;` handling, on the cleaned raw statement. */
  function ValidateStatement(p: Policy, raw: string): Outcome {
    var norm := Normalize(raw);
    if !StartsWith(norm, "select ") then Rejected(NotASelect)
    else if p.disallowJoin && HasWord(norm, "join") then Rejected(JoinNotAllowed)
    else if HasBlockedWord(norm, p.blockWords) then Rejected(BlockedKeyword)
    else ValidateTable(p, raw, norm)
  }

  /** The table, column and limit stages. */
  function ValidateTable(p: Policy, raw: string, norm: string): Outcome {
    var table := ExtractTable(norm);
    if table.None? then Rejected(MissingFrom)
    else if table.value !in p.allowedTables then Rejected(TableNotAllowed(table.value))
    else
      var unknown := UnknownColumns(p, norm, table.value);
      if unknown.Some? && |unknown.value| >= 3 then
        Rejected(TooManyUnknownColumns(Report(unknown.value)))
      else Accepted(EnsureLimit(p, raw))
  }

  /** The checks of the SELECT, JOIN and block-word stages pass on the
      cleaned raw statement. */
  predicate StatementChecks(p: Policy, raw: string) {
    var norm := Normalize(raw);
    StartsWith(norm, "select ") && !(p.disallowJoin && HasWord(norm, "join"))
    && !HasBlockedWord(norm, p.blockWords)
  }

  /** Every check before the table stage passes: the input is not blank, it
      is a single statement, and the statement checks pass. */
  predicate PassesStatementChecks(p: Policy, text: string) {
    !AllSpace(text) && !HasMultiStatement(Unfenced(text)) && StatementChecks(p, Cleaned(text))
  }

  /** The first two stages: blank input, then a `;` before the last
      character of the unfenced text; everything else goes on to the
      statement stages on the cleaned text. */
  lemma ValidateStages(p: Policy, text: string)
    ensures AllSpace(text) ==> Validate(p, text) == Rejected(EmptyInput)
    ensures !AllSpace(text) && HasMultiStatement(Unfenced(text)) ==> Validate(p, text) == Rejected(MultiStatement)
    ensures !AllSpace(text) && !HasMultiStatement(Unfenced(text)) ==>
              Validate(p, text) == ValidateStatement(p, Cleaned(text))
  {
    StripEmpty(text);
  }

  /** The table stage accepts, or rejects for the table or the columns:
      for a missing `from <table>`, for a first table outside the allowlist
      (naming it), or for the columns of an allowed table. */
  lemma TableStageReasons(p: Policy, raw: string, norm: string)
    ensures var o := ValidateTable(p, raw, norm);
            o.Accepted? || o.reason.MissingFrom? || o.reason.TableNotAllowed? || o.reason.TooManyUnknownColumns?
    ensures var o := ValidateTable(p, raw, norm);
            o.Rejected? && o.reason.MissingFrom? <==> ExtractTable(norm).None?
    ensures var o := ValidateTable(p, raw, norm);
            o.Rejected? && o.reason.TableNotAllowed?
            <==> ExtractTable(norm).Some? && ExtractTable(norm).value !in p.allowedTables
    ensures var o := ValidateTable(p, raw, norm);
            o.Rejected? && o.reason.TableNotAllowed? ==> Some(o.reason.table) == ExtractTable(norm)
  {
  }

  /** The statement stages never reject for emptiness or for several
      statements; they fall through to the table stage exactly when the
      statement checks pass, and reject for the SELECT, the JOIN or a block
      word otherwise. */
  lemma StatementStages(p: Policy, raw: string)
    ensures var o := ValidateStatement(p, raw);
            !(o.Rejected? && (o.reason.EmptyInput? || o.reason.MultiStatement?))
    ensures StatementChecks(p, raw) ==> ValidateStatement(p, raw) == ValidateTable(p, raw, Normalize(raw))
    ensures !StatementChecks(p, raw) ==>
              var o := ValidateStatement(p, raw);
              o.Rejected? && (o.reason.NotASelect? || o.reason.JoinNotAllowed? || o.reason.BlockedKeyword?)
  {
    var o := ValidateStatement(p, raw);
    if StatementChecks(p, raw) {
      assert o == ValidateTable(p, raw, Normalize(raw));
      TableStageReasons(p, raw, Normalize(raw));
    } else {
      assert o.Rejected? && (o.reason.NotASelect? || o.reason.JoinNotAllowed? || o.reason.BlockedKeyword?);
    }
  }

  /** Empty or all-whitespace input is rejected as empty, and nothing else is. */
  lemma ValidateEmpty(p: Policy, text: string)
    ensures Validate(p, text) == Rejected(EmptyInput) <==> AllSpace(text)
  {
    ValidateStages(p, text);
    StatementStages(p, Cleaned(text));
  }

  /** What an accepted cleaned statement satisfies: the statement checks
      passed; its normal form is normalised and names an allowed table; and
      the text returned is the statement after the limit step. */
  lemma StatementAccepted(p: Policy, raw: string, out: string)
    requires ValidateStatement(p, raw) == Accepted(out)
    ensures StatementChecks(p, raw)
    ensures IsNormalized(Normalize(raw))
    ensures ExtractTable(Normalize(raw)).Some? && ExtractTable(Normalize(raw)).value in p.allowedTables
    ensures out == EnsureLimit(p, raw)
  {
    StatementStages(p, raw);
    TableStageReasons(p, raw, Normalize(raw));
    NormalizeIsNormalized(raw);
  }

  /** What an accepted query satisfies: every check before the table stage
      passed; its normal form is normalised and names an allowed table; it
      holds no `;`; and the text returned is the cleaned raw text after the
      limit step. */
  lemma ValidateAccepted(p: Policy, text: string, out: string)
    requires Validate(p, text) == Accepted(out)
    ensures PassesStatementChecks(p, text)
    ensures IsNormalized(Normalize(Cleaned(text)))
    ensures ExtractTable(Normalize(Cleaned(text))).Some?
    ensures ExtractTable(Normalize(Cleaned(text))).value in p.allowedTables
    ensures out == EnsureLimit(p, Cleaned(text))
    ensures ';' !in Cleaned(text) && ';' !in out
  {
    ValidateStages(p, text);
    StatementAccepted(p, Cleaned(text), out);
    SemicolonFreeIff(Unfenced(text));
    EnsureLimitNoSemicolon(p, Cleaned(text));
  }

  /** The table stage on the cleaned statement: no `from <table>` match
      rejects it, and the first match must be an allowed table. */
  lemma StatementTableIff(p: Policy, raw: string, t: string)
    ensures ValidateStatement(p, raw) == Rejected(MissingFrom)
            <==> StatementChecks(p, raw) && ExtractTable(Normalize(raw)).None?
    ensures ValidateStatement(p, raw) == Rejected(TableNotAllowed(t))
            <==> StatementChecks(p, raw) && ExtractTable(Normalize(raw)) == Some(t) && t !in p.allowedTables
  {
    StatementStages(p, raw);
    if StatementChecks(p, raw) {
      TableStageReasons(p, raw, Normalize(raw));
    }
  }

  /** The table stage of the whole guard, as `StatementTableIff` states it
      for the cleaned statement. */
  lemma ValidateTableIff(p: Policy, text: string, t: string)
    ensures Validate(p, text) == Rejected(MissingFrom)
            <==> PassesStatementChecks(p, text) && ExtractTable(Normalize(Cleaned(text))).None?
    ensures Validate(p, text) == Rejected(TableNotAllowed(t))
            <==> PassesStatementChecks(p, text) && ExtractTable(Normalize(Cleaned(text))) == Some(t)
                 && t !in p.allowedTables
  {
    ValidateStages(p, text);
    StatementTableIff(p, Cleaned(text), t);
  }

  /** The unknown columns are the suspicious tokens of the projection,
      and there are three or more exactly when three distinct tokens are
      suspicious. */
  lemma UnknownColumnsIff(p: Policy, norm: string, table: string)
    ensures var unknown := UnknownColumns(p, norm, table);
            unknown.Some? && |unknown.value| >= 3
            <==> table in p.allowedColumns && SelectedColumns(norm).Some?
                 && |set x | x in SelectedColumns(norm).value
                             && IsSuspicious(x, table, p.allowedColumns[table])| >= 3
    ensures var unknown := UnknownColumns(p, norm, table);
            unknown.Some? ==>
              table in p.allowedColumns && SelectedColumns(norm).Some?
              && forall x :: x in unknown.value ==>
                   x in SelectedColumns(norm).value && IsSuspicious(x, table, p.allowedColumns[table])
  {
    if table in p.allowedColumns && SelectedColumns(norm).Some? {
      var selected := SelectedColumns(norm).value;
      SuspiciousCount(selected, table, p.allowedColumns[table]);
      SuspiciousElems(selected, table, p.allowedColumns[table]);
    }
  }

  /** The column stage rejects exactly when the table is allowed and has a
      column allowlist, the projection yields a column list, and at least
      three distinct tokens of it are suspicious; the message then lists
      suspicious tokens, sorted, at most ten. */
  lemma TableColumnsIff(p: Policy, raw: string, norm: string)
    ensures (ValidateTable(p, raw, norm).Rejected? && ValidateTable(p, raw, norm).reason.TooManyUnknownColumns?)
            <==> var table := ExtractTable(norm);
                 table.Some? && table.value in p.allowedTables && table.value in p.allowedColumns
                 && SelectedColumns(norm).Some?
                 && |set x | x in SelectedColumns(norm).value
                             && IsSuspicious(x, table.value, p.allowedColumns[table.value])| >= 3
    ensures ValidateTable(p, raw, norm).Rejected? && ValidateTable(p, raw, norm).reason.TooManyUnknownColumns? ==>
              var tokens := ValidateTable(p, raw, norm).reason.tokens;
              var table := ExtractTable(norm).value;
              Sorted(tokens) && |tokens| <= 10
              && forall x :: x in tokens ==>
                   x in SelectedColumns(norm).value && IsSuspicious(x, table, p.allowedColumns[table])
  {
    var table := ExtractTable(norm);
    if table.Some? && table.value in p.allowedTables {
      UnknownColumnsIff(p, norm, table.value);
      var unknown := UnknownColumns(p, norm, table.value);
      if unknown.Some? {
        ReportShape(unknown.value);
      }
    }
  }

  /** The column stage on the cleaned statement, as `TableColumnsIff`
      states it, once the statement checks pass. */
  lemma StatementColumnsIff(p: Policy, raw: string)
    ensures (ValidateStatement(p, raw).Rejected? && ValidateStatement(p, raw).reason.TooManyUnknownColumns?)
            <==> StatementChecks(p, raw)
                 && var norm := Normalize(raw);
                    var table := ExtractTable(norm);
                    table.Some? && table.value in p.allowedTables && table.value in p.allowedColumns
                    && SelectedColumns(norm).Some?
                    && |set x | x in SelectedColumns(norm).value
                                && IsSuspicious(x, table.value, p.allowedColumns[table.value])| >= 3
    ensures ValidateStatement(p, raw).Rejected? && ValidateStatement(p, raw).reason.TooManyUnknownColumns? ==>
              var tokens := ValidateStatement(p, raw).reason.tokens;
              var norm := Normalize(raw);
              var table := ExtractTable(norm).value;
              Sorted(tokens) && |tokens| <= 10
              && forall x :: x in tokens ==>
                   x in SelectedColumns(norm).value && IsSuspicious(x, table, p.allowedColumns[table])
  {
    StatementStages(p, raw);
    TableColumnsIff(p, raw, Normalize(raw));
  }

  /** The column stage of the whole guard, as `StatementColumnsIff` states
      it for the cleaned statement. */
  lemma ValidateColumnsIff(p: Policy, text: string)
    ensures (Validate(p, text).Rejected? && Validate(p, text).reason.TooManyUnknownColumns?)
            <==> PassesStatementChecks(p, text)
                 && var norm := Normalize(Cleaned(text));
                    var table := ExtractTable(norm);
                    table.Some? && table.value in p.allowedTables && table.value in p.allowedColumns
                    && SelectedColumns(norm).Some?
                    && |set x | x in SelectedColumns(norm).value
                                && IsSuspicious(x, table.value, p.allowedColumns[table.value])| >= 3
    ensures Validate(p, text).Rejected? && Validate(p, text).reason.TooManyUnknownColumns? ==>
              var tokens := Validate(p, text).reason.tokens;
              var norm := Normalize(Cleaned(text));
              var table := ExtractTable(norm).value;
              Sorted(tokens) && |tokens| <= 10
              && forall x :: x in tokens ==>
                   x in SelectedColumns(norm).value && IsSuspicious(x, table, p.allowedColumns[table])
  {
    ValidateStages(p, text);
    StatementColumnsIff(p, Cleaned(text));
  }

  /** A statement whose normal form does not start with "select " is
      rejected by the SELECT check, whatever else it holds. */
  lemma StatementNotSelect(p: Policy, raw: string)
    requires !StartsWith(Normalize(raw), "select ")
    ensures ValidateStatement(p, raw) == Rejected(NotASelect)
  {
  }

  /** A statement whose normal form starts with "delete" is rejected by the
      SELECT check, before the block words are looked at. */
  lemma ValidateDeleteIsNotASelect(p: Policy, text: string)
    requires !AllSpace(text) && !HasMultiStatement(Unfenced(text))
    requires StartsWith(Normalize(Cleaned(text)), "delete")
    ensures Validate(p, text) == Rejected(NotASelect)
  {
    ValidateStages(p, text);
    StatementDelete(p, Cleaned(text));
  }

  /** `ValidateDeleteIsNotASelect` on the cleaned statement. */
  lemma StatementDelete(p: Policy, raw: string)
    requires StartsWith(Normalize(raw), "delete")
    ensures ValidateStatement(p, raw) == Rejected(NotASelect)
  {
    StartsWithExclusive(Normalize(raw), "delete", "select ");
    StatementNotSelect(p, raw);
  }

  /** A SELECT holding the word JOIN is refused for the join, whatever block
      words it also holds: the JOIN check comes first. */
  lemma StatementJoinFirst(p: Policy, raw: string)
    requires StartsWith(Normalize(raw), "select ")
    requires p.disallowJoin && HasWord(Normalize(raw), "join")
    ensures ValidateStatement(p, raw) == Rejected(JoinNotAllowed)
  {
  }

  /** `StatementJoinFirst` for the whole guard. */
  lemma ValidateJoinFirst(p: Policy, text: string)
    requires !AllSpace(text) && !HasMultiStatement(Unfenced(text))
    requires StartsWith(Normalize(Cleaned(text)), "select ")
    requires p.disallowJoin && HasWord(Normalize(Cleaned(text)), "join")
    ensures Validate(p, text) == Rejected(JoinNotAllowed)
  {
    ValidateStages(p, text);
    StatementJoinFirst(p, Cleaned(text));
  }

  /** A fence with nothing inside passes the emptiness check, which looks at
      the input only, and is rejected by the SELECT check. */
  lemma ValidateEmptyFence(p: Policy, text: string)
    requires !AllSpace(text) && Unfenced(text) == []
    ensures Validate(p, text) == Rejected(NotASelect)
  {
    ValidateStages(p, text);
    assert Cleaned(text) == [];
    assert Normalize([]) == [];
  }

  /** `validate_sql`. The loop over the block patterns is in ScanBlockWords
      and the loop over the selected tokens in CollectSuspicious. */
  method ValidateSql(p: Policy, sqlOrText: string) returns (r: Outcome)
    ensures r == Validate(p, sqlOrText)
  {
    if sqlOrText == [] || Strip(sqlOrText) == [] {
      return Rejected(EmptyInput);
    }
    var raw := StripSqlFence(sqlOrText);
    raw := Strip(raw);
    if HasMultiStatement(raw) {
      return Rejected(MultiStatement);
    }
    raw := StripTrailingSemicolon(raw);
    assert Validate(p, sqlOrText) == ValidateStatement(p, raw);
    var norm := Normalize(raw);
    if !StartsWith(norm, "select ") {
      return Rejected(NotASelect);
    }
    if p.disallowJoin && HasWord(norm, "join") {
      return Rejected(JoinNotAllowed);
    }
    var blocked := ScanBlockWords(norm, p.blockWords);
    if blocked {
      return Rejected(BlockedKeyword);
    }
    assert Validate(p, sqlOrText) == ValidateTable(p, raw, norm);
    var t := ExtractTable(norm);
    if t.None? {
      return Rejected(MissingFrom);
    }
    var table := t.value;
    if table !in p.allowedTables {
      return Rejected(TableNotAllowed(table));
    }
    if table in p.allowedColumns {
      var allowedCols := p.allowedColumns[table];
      var selected := ExtractSelectedColumns(norm);
      if selected.Some? {
        var suspicious := CollectSuspicious(selected.value, table, allowedCols);
        if |suspicious| >= 3 {
          return Rejected(TooManyUnknownColumns(Report(suspicious)));
        }
      }
    }
    raw := EnsureLimit(p, raw);
    return Accepted(raw);
  }

  /** `for pat in BLOCK_PATTERNS: if re.search(pat, norm)`: whether any block
      word occurs as a whole word. */
  method ScanBlockWords(norm: string, words: seq<string>) returns (found: bool)
    ensures found == HasBlockedWord(norm, words)
    ensures !found ==> forall i :: 0 <= i < |words| ==> !HasWord(norm, words[i])
  {
    var k := 0;
    while k < |words|
      invariant 0 <= k <= |words|
      invariant forall i :: 0 <= i < k ==> !HasWord(norm, words[i])
    {
      if HasWord(norm, words[k]) {
        return true;
      }
      k := k + 1;
    }
    return false;
  }

  /** The loop that collects `suspicious`, skipping keywords, the table's last
      segment and allowed columns. */
  method CollectSuspicious(tokens: seq<string>, table: string, allowedCols: set<string>)
    returns (suspicious: seq<string>)
    ensures suspicious == Suspicious(tokens, table, allowedCols)
    ensures forall t :: t in suspicious <==> t in tokens && IsSuspicious(t, table, allowedCols)
  {
    suspicious := [];
    var i := 0;
    while i < |tokens|
      invariant 0 <= i <= |tokens|
      invariant suspicious == Suspicious(tokens[..i], table, allowedCols)
    {
      var token := tokens[i];
      assert tokens[..i + 1][..i] == tokens[..i];
      if token in FunctionWords || token in ClauseWords {
        // continue
      } else if token == LastPiece(table, '.') {
        // continue
      } else if token !in allowedCols {
        suspicious := suspicious + [token];
      }
      i := i + 1;
    }
    assert tokens[..|tokens|] == tokens;
    SuspiciousElems(tokens, table, allowedCols);
  }
}
