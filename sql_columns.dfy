/** The column-token heuristic of llm/sql_guard.py: `_extract_selected_columns`
    (llm/sql_guard.py:192-225) and the count of tokens that look like columns
    outside the allowlist (llm/sql_guard.py:271-302). */
module SqlColumns {
  import opened PyText
  import opened SqlPatterns

  predicate Distinct(s: seq<string>) {
    forall i, j :: 0 <= i < j < |s| ==> s[i] != s[j]
  }

  /** The elements of a list, `set(s)` */
  function Elems(s: seq<string>): set<string> {
    set x | x in s
  }

  /** A list without repeats has as many elements as its set. */
  lemma {:induction false} DistinctCard(s: seq<string>)
    requires Distinct(s)
    ensures |Elems(s)| == |s|
  {
    if s != [] {
      var p := s[..|s| - 1];
      var x := s[|s| - 1];
      DistinctCard(p);
      assert Elems(s) == Elems(p) + {x};
      assert x !in Elems(p);
    }
  }

  // ---------------------------------------------------------------------
  // `_extract_selected_columns`
  // ---------------------------------------------------------------------

  /** The deduplication loop `for c in cols: if c not in uniq: uniq.append(c)`,
      written over prefixes of cols. */
  function Dedup(s: seq<string>): seq<string> {
    if s == [] then []
    else
      var d := Dedup(s[..|s| - 1]);
      if s[|s| - 1] in d then d else d + [s[|s| - 1]]
  }

  /** Deduplication keeps every element once and adds nothing. */
  lemma {:induction false} DedupElems(s: seq<string>)
    ensures Distinct(Dedup(s))
    ensures forall x :: x in Dedup(s) <==> x in s
  {
    if s != [] {
      var p := s[..|s| - 1];
      DedupElems(p);
      assert forall x :: x in s <==> x in p || x == s[|s| - 1];
    }
  }

  lemma DedupSnoc(s: seq<string>, j: nat)
    requires j < |s|
    ensures Dedup(s[..j + 1])
            == if s[j] in Dedup(s[..j]) then Dedup(s[..j]) else Dedup(s[..j]) + [s[j]]
  {
    assert s[..j + 1][..j] == s[..j];
  }

  /** A list without repeats is left as it is. */
  lemma {:induction false} DedupDistinct(s: seq<string>)
    requires Distinct(s)
    ensures Dedup(s) == s
  {
    if s != [] {
      DedupDistinct(s[..|s| - 1]);
      assert s[|s| - 1] !in s[..|s| - 1];
      assert s[..|s| - 1] + [s[|s| - 1]] == s;
    }
  }

  /** `[p.strip() for p in select_part.split(",")]` */
  function StripAll(pieces: seq<string>): (r: seq<string>)
    ensures |r| == |pieces|
  {
    seq(|pieces|, k requires 0 <= k < |pieces| => Strip(pieces[k]))
  }

  /** The tokens of one part: `AS alias` removed, stripped, then every
      identifier. */
  function PartTokens(part: string): seq<string> {
    Identifiers(Strip(RemoveAliases(part)))
  }

  /** `cols` after the extend loop has seen the given parts. */
  function Tokens(parts: seq<string>): seq<string> {
    if parts == [] then [] else Tokens(parts[..|parts| - 1]) + PartTokens(parts[|parts| - 1])
  }

  /** Every token is a whole identifier. */
  lemma {:induction false} TokensIdentifiers(parts: seq<string>)
    ensures forall t :: t in Tokens(parts) ==> IsIdentifier(t)
  {
    if parts != [] {
      TokensIdentifiers(parts[..|parts| - 1]);
    }
  }

  /** The tokens are those of the parts, together. */
  lemma {:induction false} TokensElems(parts: seq<string>)
    ensures forall t :: t in Tokens(parts) <==> exists i :: 0 <= i < |parts| && t in PartTokens(parts[i])
  {
    if parts != [] {
      var q := parts[..|parts| - 1];
      TokensElems(q);
      forall t | t in Tokens(parts) ensures exists i :: 0 <= i < |parts| && t in PartTokens(parts[i]) {
        if t in Tokens(q) {
          var i :| 0 <= i < |q| && t in PartTokens(q[i]);
          assert parts[i] == q[i];
        }
      }
      forall t | (exists i :: 0 <= i < |parts| && t in PartTokens(parts[i])) ensures t in Tokens(parts) {
        var i :| 0 <= i < |parts| && t in PartTokens(parts[i]);
        if i < |parts| - 1 {
          assert q[i] == parts[i];
        }
      }
    }
  }

  lemma TokensSnoc(parts: seq<string>, i: nat)
    requires i < |parts|
    ensures Tokens(parts[..i + 1]) == Tokens(parts[..i]) + PartTokens(parts[i])
  {
    assert parts[..i + 1][..i] == parts[..i];
  }

  /** `select_part == "*" or select_part.startswith("* ")` */
  predicate IsWildcard(selectPart: string) {
    selectPart == "*" || StartsWith(selectPart, "* ")
  }

  /** What `_extract_selected_columns` returns: None when there is no
      select-from match or the projection is a wildcard, else the distinct
      identifier tokens of the parts in order of first appearance. */
  function SelectedColumns(norm: string): (r: Option<seq<string>>)
    ensures r.Some? ==> Distinct(r.value) && forall t :: t in r.value ==> IsIdentifier(t)
  {
    var m := SelectList(norm);
    if m.None? then None
    else
      var selectPart := Strip(m.value);
      if IsWildcard(selectPart) then None
      else
        var tokens := Tokens(StripAll(Split(selectPart, ',')));
        DedupElems(tokens);
        TokensIdentifiers(StripAll(Split(selectPart, ',')));
        Some(Dedup(tokens))
  }

  /** No column list comes out of a wildcard projection or of text without a
      select-from match; otherwise the tokens are exactly those of the parts. */
  lemma SelectedColumnsCases(norm: string)
    ensures SelectedColumns(norm).None?
            <==> SelectList(norm).None? || IsWildcard(Strip(SelectList(norm).value))
    ensures SelectedColumns(norm).Some? ==>
              forall t :: t in SelectedColumns(norm).value
                <==> t in Tokens(StripAll(Split(Strip(SelectList(norm).value), ',')))
  {
    var m := SelectList(norm);
    if m.Some? && !IsWildcard(Strip(m.value)) {
      DedupElems(Tokens(StripAll(Split(Strip(m.value), ','))));
    }
  }

  /** `_extract_selected_columns`: the select-list regex and the wildcard
      test, then the two loops in CollectColumns. */
  method ExtractSelectedColumns(norm: string) returns (r: Option<seq<string>>)
    ensures r == SelectedColumns(norm)
  {
    var m := SelectList(norm);
    if m.None? {
      return None;
    }
    var selectPart := Strip(m.value);
    if selectPart == "*" || StartsWith(selectPart, "* ") {
      return None;
    }
    var parts := StripAll(Split(selectPart, ','));
    var uniq := CollectColumns(parts);
    return Some(uniq);
  }

  /** The loops of `_extract_selected_columns`: `cols.extend(inner)` for every
      part, then the first occurrence of every token. */
  method CollectColumns(parts: seq<string>) returns (uniq: seq<string>)
    ensures uniq == Dedup(Tokens(parts))
    ensures Distinct(uniq)
    ensures forall t :: t in uniq <==> exists i :: 0 <= i < |parts| && t in PartTokens(parts[i])
  {
    var cols: seq<string> := [];
    var i := 0;
    while i < |parts|
      invariant 0 <= i <= |parts|
      invariant cols == Tokens(parts[..i])
    {
      var inner := PartTokens(parts[i]);
      TokensSnoc(parts, i);
      cols := cols + inner;
      i := i + 1;
    }
    assert parts[..|parts|] == parts;
    uniq := [];
    var j := 0;
    while j < |cols|
      invariant 0 <= j <= |cols|
      invariant uniq == Dedup(cols[..j])
    {
      DedupSnoc(cols, j);
      if cols[j] !in uniq {
        uniq := uniq + [cols[j]];
      }
      j := j + 1;
    }
    assert cols[..|cols|] == cols;
    DedupElems(cols);
    TokensElems(parts);
  }

  // ---------------------------------------------------------------------
  // Suspicious tokens (llm/sql_guard.py:281-302)
  // ---------------------------------------------------------------------

  /** Function names and CASE keywords the heuristic skips. */
  const FunctionWords: set<string> :=
    {"sum", "avg", "min", "max", "count", "distinct", "case", "when", "then", "else", "end"}

  /** Clause keywords the heuristic skips. */
  const ClauseWords: set<string> :=
    {"select", "from", "where", "between", "and", "or", "order", "by", "limit", "asc", "desc"}

  /** A token that counts against the query: not a skipped keyword, not the
      last dotted segment of the table name, not an allowed column. */
  predicate IsSuspicious(token: string, table: string, allowed: set<string>) {
    token !in FunctionWords && token !in ClauseWords
    && token != LastPiece(table, '.') && token !in allowed
  }

  /** `suspicious` after the loop has seen the given tokens. */
  function Suspicious(tokens: seq<string>, table: string, allowed: set<string>): (r: seq<string>)
  {
    if tokens == [] then []
    else
      var rest := Suspicious(tokens[..|tokens| - 1], table, allowed);
      var t := tokens[|tokens| - 1];
      if IsSuspicious(t, table, allowed) then rest + [t] else rest
  }

  /** The suspicious list holds exactly the suspicious tokens, each once when
      the tokens are distinct, so its length is the number of distinct
      suspicious tokens. */
  lemma {:induction false} SuspiciousElems(tokens: seq<string>, table: string, allowed: set<string>)
    ensures forall t :: t in Suspicious(tokens, table, allowed)
                        <==> t in tokens && IsSuspicious(t, table, allowed)
    ensures Distinct(tokens) ==> Distinct(Suspicious(tokens, table, allowed))
  {
    if tokens != [] {
      var p := tokens[..|tokens| - 1];
      SuspiciousElems(p, table, allowed);
      assert forall t :: t in tokens <==> t in p || t == tokens[|tokens| - 1];
    }
  }

  lemma SuspiciousCount(tokens: seq<string>, table: string, allowed: set<string>)
    requires Distinct(tokens)
    ensures |Suspicious(tokens, table, allowed)|
            == |set t | t in tokens && IsSuspicious(t, table, allowed)|
  {
    var s := Suspicious(tokens, table, allowed);
    SuspiciousElems(tokens, table, allowed);
    DistinctCard(s);
    assert Elems(s) == set t | t in tokens && IsSuspicious(t, table, allowed);
  }

  // ---------------------------------------------------------------------
  // The rejection message: `sorted(set(suspicious))[:10]`
  // ---------------------------------------------------------------------

  /** Python's `<` on str: lexicographic by code point. */
  predicate StrLess(a: string, b: string)
    decreases |a|
  {
    if a == [] then b != []
    else if b == [] then false
    else if a[0] != b[0] then a[0] < b[0]
    else StrLess(a[1..], b[1..])
  }

  predicate StrLe(a: string, b: string) {
    a == b || StrLess(a, b)
  }

  /** Of two different strings one is the smaller. */
  lemma {:induction false} StrLessTotal(a: string, b: string)
    requires a != b
    ensures StrLess(a, b) || StrLess(b, a)
    decreases |a|
  {
    if a != [] && b != [] && a[0] == b[0] {
      assert a == [a[0]] + a[1..] && b == [b[0]] + b[1..];
      StrLessTotal(a[1..], b[1..]);
    }
  }

  predicate Sorted(s: seq<string>) {
    forall i :: 0 <= i < |s| - 1 ==> StrLe(s[i], s[i + 1])
  }

  function Insert(x: string, s: seq<string>): (r: seq<string>)
    requires Sorted(s)
    ensures Sorted(r)
    ensures multiset(r) == multiset(s) + multiset{x}
    ensures r != [] && (r[0] == x || (s != [] && r[0] == s[0]))
  {
    if s == [] then [x]
    else if StrLe(x, s[0]) then [x] + s
    else
      StrLessTotal(x, s[0]);
      assert s == [s[0]] + s[1..];
      [s[0]] + Insert(x, s[1..])
  }

  /** `sorted(s)` */
  function SortStrings(s: seq<string>): (r: seq<string>)
    ensures Sorted(r)
    ensures multiset(r) == multiset(s)
  {
    if s == [] then []
    else
      assert s == s[..|s| - 1] + [s[|s| - 1]];
      Insert(s[|s| - 1], SortStrings(s[..|s| - 1]))
  }

  /** `sorted(set(suspicious))[:10]` */
  function Report(suspicious: seq<string>): seq<string> {
    var u := SortStrings(Dedup(suspicious));
    u[..if |u| < 10 then |u| else 10]
  }

  /** The report is sorted, without repeats, lists at most ten tokens and
      lists all of them up to ten; every suspicious token left out comes
      after every listed one. */
  lemma ReportShape(suspicious: seq<string>)
    ensures Sorted(Report(suspicious)) && Distinct(Report(suspicious))
    ensures |Report(suspicious)| == if |Elems(suspicious)| < 10 then |Elems(suspicious)| else 10
    ensures forall t :: t in Report(suspicious) ==> t in suspicious
    ensures forall t, x :: t in Report(suspicious) && x in suspicious && x !in Report(suspicious)
                           ==> StrLess(t, x)
  {
    var d := Dedup(suspicious);
    var u := SortStrings(d);
    var r := Report(suspicious);
    DedupElems(suspicious);
    DistinctCard(d);
    assert Elems(d) == Elems(suspicious);
    assert |u| == |multiset(u)| == |multiset(d)| == |d|;
    SameCountDistinct(d, u);
    forall t | t in r ensures t in suspicious {
      assert t in u;
      assert t in multiset(u);
      assert t in multiset(d);
    }
    ReportSmallest(suspicious, d, u);
  }

  lemma ReportSmallest(suspicious: seq<string>, d: seq<string>, u: seq<string>)
    requires d == Dedup(suspicious) && u == SortStrings(d) && Distinct(u)
    requires forall x :: x in d <==> x in suspicious
    ensures forall t, x :: t in Report(suspicious) && x in suspicious && x !in Report(suspicious)
                           ==> StrLess(t, x)
  {
    var r := Report(suspicious);
    assert r == u[..|r|];
    forall t, x | t in r && x in suspicious && x !in r
      ensures StrLess(t, x)
    {
      assert x in multiset(d);
      assert x in u;
      var i :| 0 <= i < |r| && r[i] == t;
      var j :| 0 <= j < |u| && u[j] == x;
      assert j >= |r|;
      SortedLe(u, i, j);
    }
  }

  /** A permutation of a list without repeats has no repeats. */
  lemma SameCountDistinct(d: seq<string>, u: seq<string>)
    requires Distinct(d) && multiset(u) == multiset(d)
    ensures Distinct(u)
  {
    forall i, j | 0 <= i < j < |u|
      ensures u[i] != u[j]
    {
      AtMostOnce(d, u[i]);
      if u[i] == u[j] {
        TwiceCounted(u, i, j);
      }
    }
  }

  lemma {:induction false} AtMostOnce(d: seq<string>, x: string)
    requires Distinct(d)
    ensures multiset(d)[x] <= 1
  {
    if d != [] {
      var p := d[..|d| - 1];
      assert d == p + [d[|d| - 1]];
      AtMostOnce(p, x);
      if x == d[|d| - 1] {
        assert x !in p;
      }
    }
  }

  lemma TwiceCounted(u: seq<string>, i: nat, j: nat)
    requires i < j < |u| && u[i] == u[j]
    ensures multiset(u)[u[i]] >= 2
  {
    assert u == u[..j] + u[j..];
    assert u[i] in u[..j] && u[j] in u[j..];
  }

  /** The string order is transitive. */
  lemma {:induction false} StrLessTrans(a: string, b: string, c: string)
    requires StrLess(a, b) && StrLess(b, c)
    ensures StrLess(a, c)
    decreases |a|
  {
    if a != [] && a[0] == b[0] && b[0] == c[0] {
      StrLessTrans(a[1..], b[1..], c[1..]);
    }
  }

  /** In a sorted list, every element is at most every later one. */
  lemma {:induction false} SortedLe(s: seq<string>, i: nat, j: nat)
    requires Sorted(s) && i <= j < |s|
    ensures StrLe(s[i], s[j])
    decreases j - i
  {
    if i < j {
      SortedLe(s, i + 1, j);
      if s[i] != s[i + 1] && s[i + 1] != s[j] {
        StrLessTrans(s[i], s[i + 1], s[j]);
      }
    }
  }
}
