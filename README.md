# SQL guard and insight extraction, modelled in Dafny

This project models two pieces of a marketing-KPI analytics repository.

The first is the **SQL guard** of `llm/sql_guard.py`. A language model turns
a question into SQL, and the guard stands between it and the database.
`validate_sql` takes the model's answer, which may be wrapped in a Markdown
fence, and does the following in order:

- refuses blank input (it looks at the input before the fence is removed);
- strips the fence;
- refuses several statements;
- drops one trailing `;`;
- lower-cases and collapses the text for the checks;
- refuses anything that does not start with `select `, any `JOIN`, and any
  block word (`insert`, `drop`, `pragma`, ...);
- requires a `from <table>` naming an allowed table;
- refuses a projection with three or more distinct suspicious column tokens;
- appends ` LIMIT 1000` when the normal form holds no " limit "; otherwise,
  when the first `limit <digits>` reads above 5000, rewrites every
  `limit <digits>` of the statement to `LIMIT 5000`.

It returns the statement to run or raises `SQLGuardError`.

The second is the rule-based **headline and risk extraction** of
`llm/insight_generator.py`. `extract_headline_and_risk` does three things:

- it takes the first bullet within seven lines of the first `## 1) 오늘 요약`
  heading as the headline, cut to 180 characters;
- it labels the report `MEDIUM` or `HIGH` when the lower-cased Markdown holds
  one of two keyword lists;
- otherwise it labels the report `LOW`.

`yyyymmdd` turns an ISO date into a file-name stamp.

## Modules

- `py_text.dfy` (`PyText`): the Python `str` built-ins the source calls
  (`strip`, `lower`, `in`, `replace`, `split`, `int`, `str`), and the
  leftmost-position search that `re.search` performs.
- `sql_patterns.dfy` (`SqlPatterns`): each regular expression of the guard as
  a matcher over string positions. This covers `\s+` collapsing, `\bword\b`,
  `\bfrom\s+(...)`, `\blimit\s+(\d+)` and the case-insensitive `re.sub` that
  clamps limits, the lazy `select (.*?) from` group, `AS alias` removal and
  identifier `findall`.
- `sql_columns.dfy` (`SqlColumns`): `_extract_selected_columns`, the
  suspicious-token count, and the `sorted(set(...))[:10]` message list.
- `sql_guard.dfy` (`SqlGuard`): the policy, and the remaining helpers.
  `validate_sql` appears twice:
  - as the function `Validate`, with the stages `ValidateStatement` and
    `ValidateTable`;
  - as the method `ValidateSql`, which mirrors the source's early returns and
    loops and is proved equal to `Validate`.

  Each `raise SQLGuardError` is a `Rejected(reason)` outcome, with one reason
  per raise site.
- `insight.dfy` (`InsightGenerator`): `yyyymmdd`, `str.splitlines`, and
  `extract_headline_and_risk` with its loops as methods proved against
  specification functions.

The source's policy constants are the value `DefaultPolicy`. Every operation
takes the policy as a parameter, so every property holds for any policy. The
block-word check stands for `\bword\b` only when each block word starts and
ends with a word character (`WordBoundedPolicy`); the shipped words do
(`DefaultPolicyShape`).

## Model

| member | source | states |
|---|---|---|
| SqlGuard.DefaultPolicyShape | llm/sql_guard.py:34-103 | the shipped policy gives every allowed table a column allowlist, refuses JOIN, has 18 block words that each start and end with a word character, and keeps the default limit within the maximum |
| SqlGuard.BlockWordsBounded | llm/sql_guard.py:77-96 | each `BLOCK_PATTERNS` word starts and ends with a letter, so `\b` on both sides means a non-word neighbour or none |
| SqlGuard.StripSqlFence | llm/sql_guard.py:114-125 | whichever regex applies, the result has no whitespace at either end (what it holds is stated by the four lemmas below) |
| SqlGuard.StripSqlFenceFenced | llm/sql_guard.py:118-122 | when the first case-insensitive "```sql" is at p and the first "```" after it at b, the result is the stripped text between them |
| SqlGuard.StripSqlFencePlain | llm/sql_guard.py:123-125 | text holding no "```" is only stripped |
| SqlGuard.StripSqlFenceBare | llm/sql_guard.py:123-125 | a bare fence "```" + s + "```", with no backtick in s and s not starting with "sql" in any case, gives s stripped |
| SqlGuard.RemoveBareFences | llm/sql_guard.py:124 | `replace("```", "")` on "```" + s + "```" with a backtick-free s leaves s |
| SqlGuard.StripSqlFenceNoFence | llm/sql_guard.py:114-125 | whatever the input, the result holds no "```" |
| SqlGuard.RemoveFenceNoFence | llm/sql_guard.py:124 | `replace("```", "")` leaves no "```" anywhere, even where removals bring backticks together |
| SqlPatterns.CollapseRuns | llm/sql_guard.py:111 | after `re.sub(r"\s+", " ", s)` every whitespace character is a space, no two spaces are adjacent, the result is empty exactly when s is, and it starts with whitespace exactly when s does |
| PyText.Strip | llm/sql_guard.py:111 | `strip()` returns a slice of the text with only whitespace outside it and no whitespace at either of its ends |
| SqlPatterns.CollapseWsShape | llm/sql_guard.py:110-111 | after `_collapse_ws`, every whitespace character is a space, no two spaces are adjacent, and neither end is whitespace |
| SqlPatterns.CollapseRunsAppend | llm/sql_guard.py:111 | runs collapse independently on both sides of a seam that does not end in whitespace |
| SqlPatterns.NormalizeIsNormalized | llm/sql_guard.py:128-132 | the output of `normalize_sql` has no upper-case letter, only single spaces, and nothing to trim |
| SqlPatterns.NormalizeFixpoint | llm/sql_guard.py:128-132 | normalised text is its own normalisation |
| SqlPatterns.NormalizeIdempotent | llm/sql_guard.py:128-132 | `normalize_sql(normalize_sql(s)) == normalize_sql(s)` |
| SqlPatterns.NormalizeKeepsContent | llm/sql_guard.py:128-132 | normalisation changes only whitespace and case: the non-whitespace characters survive in order, lower-cased |
| SqlPatterns.FindWord | llm/sql_guard.py:257 | the result is the leftmost whole-word occurrence of the word, or None exactly when there is none |
| SqlGuard.ScanBlockWords | llm/sql_guard.py:261-263 | the loop over the block patterns reports a hit exactly when some block word occurs as a whole word |
| SqlGuard.HasMultiStatementIff | llm/sql_guard.py:135-147 | `_has_multi_statement` holds exactly when the stripped text has a `;` before its last character |
| SqlGuard.StripTrailingSemicolon | llm/sql_guard.py:150-154 | the result is a prefix of the stripped text with no whitespace at its end; it is shorter only when the stripped text ends in `;` |
| SqlGuard.SemicolonFreeIff | llm/sql_guard.py:135-154 | after `_strip_trailing_semicolon` the text holds a `;` exactly when `_has_multi_statement` fires |
| SqlPatterns.ExtractTable | llm/sql_guard.py:157-166 | None exactly when no position matches `\bfrom\s+[a-zA-Z0-9_.]`, else the table-character run of the leftmost match |
| SqlPatterns.ExtractLimit | llm/sql_guard.py:169-176 | None when `\blimit\s+\d` matches nowhere; at the leftmost match, None when its digits are more than the 4300 that `int()` converts (the `except` branch), else their value |
| SqlGuard.EnsureLimitTooManyDigits | llm/sql_guard.py:173-187 | a query with " limit " whose first limit has more than 4300 digits is returned unchanged, unclamped |
| PyText.DecimalRoundTrip | llm/sql_guard.py:174-189 | `int(str(n)) == n` for the limits written into and read from the SQL |
| SqlGuard.EnsureLimitAppendsOnce | llm/sql_guard.py:179-189 | for non-blank input without " limit ", the result's normal form holds " limit ", so a second pass appends nothing |
| SqlPatterns.NormalizeAppendLimit | llm/sql_guard.py:189 | text ending in a non-space character, plus " LIMIT <digits>", normalises to text that holds " limit " |
| SqlPatterns.NormalizeAppendLimitExact | llm/sql_guard.py:128-132 | normalised text plus " LIMIT <digits>" normalises, and lower-cases, to the text plus " limit <digits>" |
| SqlGuard.EnsureLimitKeeps | llm/sql_guard.py:181-187 | a query with " limit " whose first limit is absent or within the maximum is returned unchanged, and `_ensure_limit` is then idempotent |
| SqlGuard.EnsureLimitIsClamp | llm/sql_guard.py:184-186 | a first limit above the maximum (and, as it was read, of at most 4300 digits) makes the result the case-insensitive clamp of the raw text |
| SqlGuard.FirstLimitRewritten | llm/sql_guard.py:184-186 | for text whose lower-case form is already its normal form (single spaces, no whitespace at either end), when the clamp applies, the output differs from the input where the first limit starts, unless that limit was already written "LIMIT" |
| SqlGuard.EnsureLimitNotIdempotent | llm/sql_guard.py:179-189 | `_ensure_limit` with the shipped limits is not idempotent: on "(limit 9999)" a second pass changes the output of the first |
| SqlGuard.SecondPassClamps | llm/sql_guard.py:179-189 | the same for any policy whose maximum is below 9999: the first pass appends a limit, the second clamps the earlier one |
| SqlPatterns.ClampStep | llm/sql_guard.py:186 | the clamp copies the text up to the next match, replaces that match by "LIMIT <max>", and continues after it |
| SqlPatterns.ClampNoMatch | llm/sql_guard.py:186 | where no match starts, the clamp leaves the text unchanged |
| SqlPatterns.ClampChars | llm/sql_guard.py:186 | the clamp writes only characters of the text and of the replacement |
| SqlGuard.EnsureLimitNoSemicolon | llm/sql_guard.py:179-189 | the limit step never introduces a `;` |
| SqlPatterns.SelectListNormalized | llm/sql_guard.py:199-202 | on normalised text starting with `select `, the lazy group is the text up to the first `\s+\bfrom\b` |
| SqlPatterns.RemoveAliasesNone | llm/sql_guard.py:212 | a part with no `as <alias>` fragment is left unchanged |
| SqlPatterns.RemoveAliasesStep | llm/sql_guard.py:212 | the substitution keeps the text up to the next `as <alias>` match, drops the match (`as`, its whitespace and the alias word), and goes on after it |
| SqlPatterns.IdentifiersFrom | llm/sql_guard.py:215 | every token `findall` returns is an identifier: a letter or `_`, then word characters |
| SqlPatterns.IdentifiersComplete | llm/sql_guard.py:215 | every identifier the scan reaches is returned whole: one that starts a word of the part, or that follows only digits in its word (the `x` of `2x`) |
| SqlPatterns.IdentifiersSplit | llm/sql_guard.py:215 | the tokens come in text order: those before a non-word character, then those after it, none spanning it |
| SqlPatterns.IdentifiersOccur | llm/sql_guard.py:215 | every token occurs in the part, starts at the first letter or `_` of its word with only digits before it in that word, and ends where the word ends, so no token is the tail of a longer identifier |
| PyText.Split | llm/sql_guard.py:207 | `split(",")` gives at least one piece, no piece holds the separator, and one piece, the text itself, exactly when the separator is absent |
| PyText.SplitJoin | llm/sql_guard.py:207 | joining the pieces of `split(",")` with "," gives the text back |
| SqlColumns.DedupElems | llm/sql_guard.py:220-225 | the dedup loop keeps every token once, adds nothing, and leaves no repeats |
| SqlColumns.DedupDistinct | llm/sql_guard.py:220-225 | a list without repeats is left as it is |
| SqlColumns.TokensElems | llm/sql_guard.py:207-218 | the collected tokens are exactly the tokens of the parts |
| SqlColumns.SelectedColumns | llm/sql_guard.py:192-225 | a column list, when there is one, holds distinct identifiers |
| SqlColumns.SelectedColumnsCases | llm/sql_guard.py:199-207 | None exactly when the select-from match fails or the projection is `*`/`* ...`; otherwise its tokens are those of the comma-separated parts |
| SqlColumns.CollectColumns | llm/sql_guard.py:207-225 | the two loops return the distinct tokens in order of first appearance, exactly those of the parts |
| SqlColumns.ExtractSelectedColumns | llm/sql_guard.py:192-225 | the method returns what `SelectedColumns` specifies |
| PyText.LastPieceSuffix | llm/sql_guard.py:291 | `table.split(".")[-1]` is the part of the name after its last dot, or the whole name |
| SqlColumns.SuspiciousElems | llm/sql_guard.py:281-297 | the suspicious list holds exactly the tokens that are not skipped keywords, not the table's last segment, and not allowed columns; it has no repeats when the tokens have none |
| SqlGuard.CollectSuspicious | llm/sql_guard.py:281-297 | the loop collects exactly the suspicious tokens |
| SqlColumns.SuspiciousCount | llm/sql_guard.py:281-301 | the length compared with 3 is the number of distinct suspicious tokens |
| SqlColumns.SortStrings | llm/sql_guard.py:302 | `sorted` returns a sorted permutation (code-point order) |
| SqlColumns.ReportShape | llm/sql_guard.py:302 | the message lists suspicious tokens sorted, without repeats, `min(n, 10)` of them for n distinct tokens, and every suspicious token it leaves out comes after every listed one |
| SqlColumns.ReportSmallest | llm/sql_guard.py:302 | `sorted(set(..))[:10]` keeps the smallest: an unlisted suspicious token is greater than every listed one |
| SqlColumns.StrLessTrans | llm/sql_guard.py:302 | the order `sorted` uses on strings is transitive |
| SqlGuard.ValidateSql | llm/sql_guard.py:232-307 | the method with the source's early returns and loops returns the outcome `Validate` specifies |
| SqlGuard.ValidateStages | llm/sql_guard.py:237-248 | blank input is rejected first, then text with a non-trailing `;`; everything else goes to the statement stages on the cleaned text |
| SqlGuard.ValidateEmpty | llm/sql_guard.py:237-238 | the rejection is EmptyInput exactly when the input is empty or all whitespace |
| SqlGuard.StatementStages | llm/sql_guard.py:250-263 | the statement stages pass on to the table stage exactly when the SELECT, JOIN and block-word checks pass, and otherwise reject for one of those three |
| SqlGuard.TableStageReasons | llm/sql_guard.py:265-305 | the table stage accepts or rejects for the table or columns; MissingFrom exactly when no `from <table>` matches; TableNotAllowed exactly when the first match is outside the allowlist, and it names that table |
| SqlGuard.StatementAccepted | llm/sql_guard.py:250-307 | an accepted statement passed the checks, its normal form is normalised and names an allowed table, and the output is the statement after the limit step |
| SqlGuard.ValidateAccepted | llm/sql_guard.py:232-307 | an accepted query passed every check before the table stage, names an allowed table, holds no `;` before or after the limit step, and is the cleaned input after the limit step |
| SqlGuard.StatementTableIff | llm/sql_guard.py:265-268 | on the cleaned statement, MissingFrom and TableNotAllowed(t) occur exactly under their conditions, once the statement checks pass |
| SqlGuard.ValidateTableIff | llm/sql_guard.py:232-268 | for the whole guard, MissingFrom and TableNotAllowed(t) occur exactly under their conditions, once every earlier check passes |
| SqlGuard.UnknownColumnsIff | llm/sql_guard.py:270-301 | three or more unknown columns exactly when the table has a column allowlist, a column list exists, and at least three distinct tokens are suspicious; each reported token is selected and suspicious |
| SqlGuard.TableColumnsIff | llm/sql_guard.py:266-302 | the column rejection happens exactly under that condition for an allowed table, and its list is sorted, at most ten, of suspicious selected tokens |
| SqlGuard.StatementColumnsIff | llm/sql_guard.py:250-302 | the same on the cleaned statement, once the statement checks pass |
| SqlGuard.ValidateColumnsIff | llm/sql_guard.py:232-302 | the same for the whole guard, once every earlier check passes |
| SqlGuard.StatementNotSelect | llm/sql_guard.py:253-254 | a statement whose normal form does not start with "select " is rejected as NotASelect, whatever else it holds |
| SqlGuard.StatementJoinFirst | llm/sql_guard.py:253-263 | a SELECT holding the word JOIN is refused for the join, whatever block words it also holds |
| SqlGuard.ValidateJoinFirst | llm/sql_guard.py:232-263 | the same for the whole guard, once the input is a single non-blank statement |
| SqlGuard.ValidateDeleteIsNotASelect | llm/sql_guard.py:250-263 | a single statement starting with `delete` is rejected by the SELECT check, before any block word is looked at |
| SqlGuard.ValidateEmptyFence | llm/sql_guard.py:237-254 | an empty fence passes the emptiness check and is rejected as NotASelect |
| PyText.RemoveAll | llm/insight_generator.py:52 | `replace(pat, "")` never lengthens the text and keeps only characters of it |
| InsightGenerator.YyyymmddIsWithout | llm/insight_generator.py:50-52 | `replace("-", "")` drops exactly the '-' characters and keeps the others in order |
| InsightGenerator.YyyymmddChars | llm/insight_generator.py:50-52 | the stamp holds no '-' and every other character of the date |
| InsightGenerator.YyyymmddIsoDate | llm/insight_generator.py:50-52 | "Y-M-D" with dash-free parts becomes "YMD" |
| InsightGenerator.SplitLinesNoBreak | llm/insight_generator.py:365 | no line of `splitlines()` holds a line break |
| InsightGenerator.SplitLinesContent | llm/insight_generator.py:365 | the lines together are the text with its line breaks removed |
| InsightGenerator.KeptLinesShape | llm/insight_generator.py:365 | every kept line is non-blank, has no whitespace at either end, and has no break |
| InsightGenerator.NonEmptyLinesShape | llm/insight_generator.py:365 | the lines of the Markdown the headline search reads are all such clean lines |
| InsightGenerator.FindStart | llm/insight_generator.py:368-373 | the result is the first line in the range starting with the pattern, or None exactly when there is none |
| InsightGenerator.DropDashesShape | llm/insight_generator.py:372 | `lstrip("-")` drops only dashes and leaves no leading dash |
| InsightGenerator.DropDashesSuffix | llm/insight_generator.py:372 | `lstrip("-")` keeps a suffix of the line |
| InsightGenerator.HeadlineFound | llm/insight_generator.py:368-375 | with the first summary heading at i and the first bullet of the next seven lines at j, the headline is that bullet without dashes and surrounding whitespace |
| InsightGenerator.HeadlineDefault | llm/insight_generator.py:362-374 | without a summary heading, or without a bullet in the seven lines after the first one, the headline is "Daily KPI Insight" |
| InsightGenerator.HeadlineIgnoresLaterLines | llm/insight_generator.py:368-374 | lines after the first heading's seven-line window do not change the headline |
| InsightGenerator.ScanHeadline | llm/insight_generator.py:368-374 | the nested loops with their breaks compute the headline `HeadlineOf` specifies |
| InsightGenerator.Truncate | llm/insight_generator.py:383 | `headline[:180]` is a prefix of at most 180 characters, and the whole headline when it is shorter |
| InsightGenerator.RiskOf | llm/insight_generator.py:363-381 | the label is LOW, MEDIUM or HIGH |
| InsightGenerator.ContainsAny | llm/insight_generator.py:378-380 | the `any(...)` loop finds a keyword exactly when the text mentions one |
| InsightGenerator.MentionsAnyAppend | llm/insight_generator.py:377-380 | a keyword found in a text is still found when more text is appended |
| InsightGenerator.RiskMonotone | llm/insight_generator.py:377-381 | appending text to the Markdown never lowers its risk label |
| InsightGenerator.ExtractHeadlineAndRisk | llm/insight_generator.py:353-383 | the headline is the truncated specified headline of the kept lines; the label is HIGH exactly when a high word occurs in the lower-cased text, MEDIUM exactly when only a medium word does, LOW otherwise |

## Where the code and its documentation differ

The module docstring (`llm/sql_guard.py:1-15`) lists the policies, and the
test runner (`llm/sql_guard_test.py:30-81`) names the cases it expects to pass
or be refused. The model follows the code in each case below.

- The docstring says the guard validates and normalises the SQL
  (`llm/sql_guard.py:3`). `validate_sql` normalises only for its checks. It
  returns the fence-stripped, trimmed statement, without its trailing `;`,
  after the limit step (`ValidateAccepted`: `out == EnsureLimit(p,
  Cleaned(text))`).
- The case `block_dml_delete` (`llm/sql_guard_test.py:69-73`) is refused, but
  not by the DDL/DML keyword check of `llm/sql_guard.py:12`: the SELECT check
  comes first, so any statement that starts with `delete` is refused as not a
  SELECT (`ValidateDeleteIsNotASelect`). In the same way a SELECT holding
  both JOIN and a block word is refused for the JOIN (`StatementJoinFirst`).
- The docstring promises a LIMIT inserted when there is none
  (`llm/sql_guard.py:13`), and the code caps it at 5000. `_ensure_limit`
  tests for " limit " in the normal form and reads only the first
  `limit <digits>`, so an accepted query can carry a first limit above the
  maximum:
  - a first limit within the maximum leaves the query unchanged, whatever
    later limits it holds (`EnsureLimitKeeps`);
  - a first limit of more than 4300 digits makes `int()` raise, so the query
    passes unclamped (`EnsureLimitTooManyDigits`);
  - a limit right after a parenthesis, as in
    `select a from mart_daily_insight where x in (limit 9999)`, is not seen
    by the " limit " test: ` LIMIT 1000` is appended and the 9999 stays.
  The same example shows that `_ensure_limit`, and with it the whole guard,
  is not idempotent. A second pass finds " limit ", reads the first limit
  9999 and rewrites both limits to `LIMIT 5000`
  (`EnsureLimitNotIdempotent`, `SecondPassClamps`).
- The docstring allows only the allowed tables (`llm/sql_guard.py:10`), and
  the case `block_implicit_join_comma` (`llm/sql_guard_test.py:63-67`) expects
  `from a, b` to be refused. `_extract_table` reads only the first
  `from <token>`, and the token `[a-zA-Z0-9_.]+` ends at the comma, so a
  comma join passes the table check when `a` is allowed. `ExtractTable`
  states what the code does.
- The case `block_comment` (`llm/sql_guard_test.py:51-55`) expects
  `SELECT * FROM mart.daily_campaign_kpi -- comment` to be refused. No check
  looks at `--`, so the code accepts it, and the ` LIMIT 1000` it appends
  ends up inside the comment (`ValidateAccepted` with
  `EnsureLimitAppends`).

## Left out

- The rest of `llm/insight_generator.py` is not part of this model: reading
  KPI files, `_date_minus`, percentage changes, prompt building, the call to
  the language model, and writing reports. It is file, clock and network I/O.
- The other scripts, the Streamlit app and the validators are not part of
  this model.
- Letters, digits, word characters and case are ASCII only. This covers `\w`,
  `\b`, `\d`, `[a-zA-Z...]`, `lower()` and `IGNORECASE`, while whitespace is
  the exact `str.isspace` set. Python lowers and matches non-ASCII letters
  and digits too, so text with such characters next to SQL keywords may be
  classified differently. For the risk keywords the answer is the same: they
  are Hangul, which has no case, or `anomaly`, and no non-ASCII character
  lowers to one of its letters.
- Characters are Unicode scalar values. Python strings can also hold lone
  surrogates.
- The text of each `SQLGuardError` is left out. A rejection carries a
  `Reason` instead: the offending table for TableNotAllowed, and the listed
  tokens for TooManyUnknownColumns.
- `MaxStrDigits` is CPython's default digit limit for `int()` (3.11, and
  3.10.7 on). A process that changes it, through `PYTHONINTMAXSTRDIGITS` or
  `sys.set_int_max_str_digits`, or an older Python without the limit, is not
  modelled.
- `SqlGuard.HasBlockedWord`: a block word that starts or ends with a
  non-word character would make `\b` next to it mean the opposite; the model
  stands for `\bword\b` only under `WordBoundedPolicy`, which the shipped
  policy satisfies.
- `InsightGenerator.RiskOf`: the label is a string (`"LOW"`, `"MEDIUM"`,
  `"HIGH"`), as in the source, not an enumeration.
- FirstLimitRewritten: stated only for text whose lower-case form is already
  its normal form. That covers the second pass in the non-idempotence
  example. For other text, the first limit of the normal form is not tied to
  a position of the raw text.
