/** The two text helpers of the daily insight generator: the date stamp used
    in report file names, and the rule-based extraction of a headline and a
    risk label from the Markdown the language model wrote. */
module InsightGenerator {
  import opened PyText

  // ---------------------------------------------------------------------
  // Date stamp
  // ---------------------------------------------------------------------

  /** `date_str.replace("-", "")`: "YYYY-MM-DD" becomes "YYYYMMDD". */
  function Yyyymmdd(date: string): string {
    RemoveAll(date, "-")
  }

  /** Reference definition: the characters of s other than c, in order. */
  function Without(s: string, c: char): string {
    if s == [] then []
    else (if s[0] == c then [] else [s[0]]) + Without(s[1..], c)
  }

  /** Without keeps exactly the characters other than c. */
  lemma {:induction false} WithoutChars(s: string, c: char)
    ensures forall x :: x in Without(s, c) <==> x in s && x != c
  {
    if s != [] {
      WithoutChars(s[1..], c);
      assert forall x :: x in s <==> x == s[0] || x in s[1..];
    }
  }

  lemma {:induction false} WithoutAppend(a: string, b: string, c: char)
    ensures Without(a + b, c) == Without(a, c) + Without(b, c)
  {
    if a != [] {
      var head := if a[0] == c then [] else [a[0]];
      assert (a + b)[0] == a[0] && (a + b)[1..] == a[1..] + b;
      WithoutAppend(a[1..], b, c);
      calc {
        Without(a + b, c);
        head + Without(a[1..] + b, c);
        head + (Without(a[1..], c) + Without(b, c));
        (head + Without(a[1..], c)) + Without(b, c);
      }
    } else {
      assert a + b == b;
    }
  }

  lemma {:induction false} WithoutAbsent(s: string, c: char)
    requires c !in s
    ensures Without(s, c) == s
  {
    if s != [] {
      WithoutAbsent(s[1..], c);
    }
  }

  /** Removing the one-character pattern "-" drops exactly the '-'
      characters and keeps every other character in order. */
  lemma {:induction false} YyyymmddIsWithout(date: string)
    ensures Yyyymmdd(date) == Without(date, '-')
  {
    if date != [] {
      assert StartsWith(date, "-") <==> date[0] == '-' by {
        assert date[0..1] == [date[0]];
      }
      YyyymmddIsWithout(date[1..]);
    }
  }

  /** The stamp holds no '-', and holds every other character of the date. */
  lemma YyyymmddChars(date: string)
    ensures '-' !in Yyyymmdd(date)
    ensures forall x :: x != '-' ==> (x in Yyyymmdd(date) <==> x in date)
  {
    YyyymmddIsWithout(date);
    WithoutChars(date, '-');
  }

  /** Dropping c from a c-free part, then c, then the rest. */
  lemma WithoutSeparator(x: string, c: char, y: string)
    requires c !in x
    ensures Without(x + [c] + y, c) == x + Without(y, c)
  {
    calc {
      Without(x + [c] + y, c);
      { WithoutAppend(x + [c], y, c); }
      Without(x + [c], c) + Without(y, c);
      { WithoutEndingSeparator(x, c); }
      x + Without(y, c);
    }
  }

  lemma WithoutEndingSeparator(x: string, c: char)
    requires c !in x
    ensures Without(x + [c], c) == x
  {
    WithoutAppend(x, [c], c);
    WithoutAbsent(x, c);
    assert [c][1..] == [];
    assert Without([c], c) == [];
  }

  /** An ISO date "Y-M-D" whose parts hold no '-' becomes "YMD". */
  lemma YyyymmddIsoDate(y: string, m: string, d: string)
    requires '-' !in y && '-' !in m && '-' !in d
    ensures Yyyymmdd(y + "-" + m + "-" + d) == y + m + d
  {
    var date := y + "-" + m + "-" + d;
    assert date == y + ['-'] + (m + ['-'] + d);
    YyyymmddIsWithout(date);
    WithoutSeparator(y, '-', m + ['-'] + d);
    WithoutSeparator(m, '-', d);
    WithoutAbsent(d, '-');
  }

  // ---------------------------------------------------------------------
  // Lines of the Markdown
  // ---------------------------------------------------------------------

  /** The line boundaries of `str.splitlines`. */
  const LineBreaks: string := "\n\r\U{0B}\U{0C}\U{1C}\U{1D}\U{1E}\U{85}\U{2028}\U{2029}"

  predicate IsLineBreak(c: char) {
    c in LineBreaks
  }

  predicate NoLineBreak(s: string) {
    forall k :: 0 <= k < |s| ==> !IsLineBreak(s[k])
  }

  /** The end of the first line of s: its first line break, or |s|. */
  function LineEnd(s: string): (e: nat)
    ensures e <= |s|
    ensures forall k :: 0 <= k < e ==> !IsLineBreak(s[k])
    ensures e == |s| || IsLineBreak(s[e])
  {
    if s == [] || IsLineBreak(s[0]) then 0 else 1 + LineEnd(s[1..])
  }

  /** The end of the line boundary at e: "\r\n" is one boundary of two
      characters, any other break one of one character. */
  function BreakEnd(s: string, e: nat): (next: nat)
    requires e < |s| && IsLineBreak(s[e])
    ensures e < next <= |s| && next <= e + 2
    ensures forall k :: e <= k < next ==> IsLineBreak(s[k])
  {
    if s[e] == '\r' && e + 1 < |s| && s[e + 1] == '\n' then e + 2 else e + 1
  }

  /** `s.splitlines()`: "\r\n" counts as one boundary, and a boundary at the
      very end opens no further (empty) line. */
  function SplitLines(s: string): seq<string>
    decreases |s|
  {
    if s == [] then []
    else
      var e := LineEnd(s);
      if e == |s| then [s]
      else
        var next := BreakEnd(s, e);
        [s[..e]] + SplitLines(s[next..])
  }

  /** No line holds a line break. */
  lemma {:induction false} SplitLinesNoBreak(s: string)
    ensures forall k :: 0 <= k < |SplitLines(s)| ==> NoLineBreak(SplitLines(s)[k])
    decreases |s|
  {
    if s != [] {
      var e := LineEnd(s);
      if e < |s| {
        var next := BreakEnd(s, e);
        SplitLinesNoBreak(s[next..]);
        assert SplitLines(s) == [s[..e]] + SplitLines(s[next..]);
      }
    }
  }

  /** Reference definition: the text with its line-break characters removed. */
  function Unbroken(s: string): (r: string) {
    if s == [] then [] else (if IsLineBreak(s[0]) then [] else [s[0]]) + Unbroken(s[1..])
  }

  function Concat(pieces: seq<string>): string {
    if pieces == [] then [] else pieces[0] + Concat(pieces[1..])
  }

  lemma {:induction false} UnbrokenAppend(a: string, b: string)
    ensures Unbroken(a + b) == Unbroken(a) + Unbroken(b)
  {
    if a != [] {
      var head := if IsLineBreak(a[0]) then [] else [a[0]];
      assert (a + b)[0] == a[0] && (a + b)[1..] == a[1..] + b;
      UnbrokenAppend(a[1..], b);
      calc {
        Unbroken(a + b);
        head + Unbroken(a[1..] + b);
        head + (Unbroken(a[1..]) + Unbroken(b));
        (head + Unbroken(a[1..])) + Unbroken(b);
      }
    } else {
      assert a + b == b;
    }
  }

  lemma {:induction false} UnbrokenKeeps(s: string)
    requires NoLineBreak(s)
    ensures Unbroken(s) == s
  {
    if s != [] {
      UnbrokenKeeps(s[1..]);
    }
  }

  lemma UnbrokenDrops(s: string)
    requires forall k :: 0 <= k < |s| ==> IsLineBreak(s[k])
    requires |s| <= 2
    ensures Unbroken(s) == []
  {
    if |s| == 1 {
      assert Unbroken(s) == Unbroken(s[1..]) && s[1..] == [];
    } else if |s| == 2 {
      assert Unbroken(s) == Unbroken(s[1..]) && |s[1..]| == 1 && s[1..][0] == s[1];
      assert Unbroken(s[1..]) == Unbroken(s[1..][1..]) && s[1..][1..] == [];
    }
  }

  lemma ConcatCons(x: string, xs: seq<string>)
    ensures Concat([x] + xs) == x + Concat(xs)
  {
    assert ([x] + xs)[1..] == xs;
  }

  lemma UnbrokenThree(a: string, b: string, c: string)
    ensures Unbroken(a + b + c) == Unbroken(a) + Unbroken(b) + Unbroken(c)
  {
    UnbrokenAppend(a + b, c);
    UnbrokenAppend(a, b);
  }

  /** Removing the breaks from a line, its boundary and the rest leaves the
      line followed by the rest without breaks. */
  lemma UnbrokenLine(line: string, boundary: string, rest: string)
    requires NoLineBreak(line)
    requires |boundary| <= 2 && forall k :: 0 <= k < |boundary| ==> IsLineBreak(boundary[k])
    ensures Unbroken(line + boundary + rest) == line + Unbroken(rest)
  {
    calc {
      Unbroken(line + boundary + rest);
      { UnbrokenThree(line, boundary, rest); }
      Unbroken(line) + Unbroken(boundary) + Unbroken(rest);
      { UnbrokenKeeps(line); UnbrokenDrops(boundary); }
      line + [] + Unbroken(rest);
    }
  }

  /** The lines of a text hold all of its characters except the line
      breaks, in order. */
  lemma {:induction false} SplitLinesContent(s: string)
    ensures Concat(SplitLines(s)) == Unbroken(s)
    decreases |s|
  {
    if s != [] {
      var e := LineEnd(s);
      if e == |s| {
        assert NoLineBreak(s);
        UnbrokenKeeps(s);
        ConcatCons(s, []);
      } else {
        var next := BreakEnd(s, e);
        SplitLinesContent(s[next..]);
        ConcatCons(s[..e], SplitLines(s[next..]));
        SliceSplit(s, e, next);
        assert NoLineBreak(s[..e]);
        UnbrokenLine(s[..e], s[e..next], s[next..]);
      }
    }
  }

  /** `[ln.strip() for ln in pieces if ln.strip()]` */
  function KeptLines(pieces: seq<string>): (r: seq<string>)
    ensures |r| <= |pieces|
  {
    if pieces == [] then []
    else
      var t := Strip(pieces[0]);
      (if t == [] then [] else [t]) + KeptLines(pieces[1..])
  }

  /** The stripped, non-blank lines of the Markdown. */
  function NonEmptyLines(md: string): seq<string> {
    KeptLines(SplitLines(md))
  }

  /** A line as the headline search sees it: non-blank, without
      surrounding whitespace, and without a line break. */
  predicate CleanLine(line: string) {
    line != [] && !IsSpace(line[0]) && !IsSpace(line[|line| - 1]) && NoLineBreak(line)
  }

  /** Stripping a line without breaks gives a line without breaks. */
  lemma StrippedLine(x: string)
    requires NoLineBreak(x)
    ensures NoLineBreak(Strip(x))
  {
    forall k | 0 <= k < |Strip(x)| ensures !IsLineBreak(Strip(x)[k]) {
      StripCharAt(x, k);
    }
  }

  /** Every kept line is clean. */
  lemma {:induction false} KeptLinesShape(pieces: seq<string>)
    requires forall k :: 0 <= k < |pieces| ==> NoLineBreak(pieces[k])
    ensures forall k :: 0 <= k < |KeptLines(pieces)| ==> CleanLine(KeptLines(pieces)[k])
  {
    if pieces != [] {
      var rest := KeptLines(pieces[1..]);
      KeptLinesShape(pieces[1..]);
      var t := Strip(pieces[0]);
      if t != [] {
        StrippedClean(pieces[0]);
        CleanCons(t, rest);
        assert KeptLines(pieces) == [t] + rest;
      } else {
        assert KeptLines(pieces) == rest;
      }
    }
  }

  /** A line without breaks that is not blank is clean once stripped. */
  lemma StrippedClean(x: string)
    requires NoLineBreak(x) && Strip(x) != []
    ensures CleanLine(Strip(x))
  {
    StrippedLine(x);
  }

  lemma CleanCons(t: string, rest: seq<string>)
    requires CleanLine(t)
    requires forall k :: 0 <= k < |rest| ==> CleanLine(rest[k])
    ensures forall k :: 0 <= k < |[t] + rest| ==> CleanLine(([t] + rest)[k])
  {
    forall k | 0 <= k < |[t] + rest| ensures CleanLine(([t] + rest)[k]) {
      if k == 0 {
        assert ([t] + rest)[k] == t;
      } else {
        assert ([t] + rest)[k] == rest[k - 1];
      }
    }
  }

  /** The lines the headline search reads are the clean lines of the text. */
  lemma NonEmptyLinesShape(md: string)
    ensures forall k :: 0 <= k < |NonEmptyLines(md)| ==> CleanLine(NonEmptyLines(md)[k])
  {
    SplitLinesNoBreak(md);
    KeptLinesShape(SplitLines(md));
  }

  // ---------------------------------------------------------------------
  // Headline
  // ---------------------------------------------------------------------

  const SummaryHeading: string := "## 1) 오늘 요약"
  const Bullet: string := "-"
  const DefaultHeadline: string := "Daily KPI Insight"
  /** Lines after the heading that are searched for the first bullet. */
  const BulletWindow: nat := 7
  const MaxHeadline: nat := 180

  /** The first line in [lo, hi) that starts with pat. */
  function FindStart(lines: seq<string>, pat: string, lo: nat, hi: nat): (r: Option<nat>)
    requires hi <= |lines|
    ensures r.Some? ==> lo <= r.value < hi && StartsWith(lines[r.value], pat)
    ensures r.Some? ==> forall k :: lo <= k < r.value ==> !StartsWith(lines[k], pat)
    ensures r.None? ==> forall k :: lo <= k < hi ==> !StartsWith(lines[k], pat)
    decreases hi - lo
  {
    if lo >= hi then None
    else if StartsWith(lines[lo], pat) then Some(lo)
    else FindStart(lines, pat, lo + 1, hi)
  }

  /** The first match is the one FindStart returns. */
  lemma FindStartFirst(lines: seq<string>, pat: string, lo: nat, hi: nat, i: nat)
    requires lo <= i < hi <= |lines| && StartsWith(lines[i], pat)
    requires forall k :: lo <= k < i ==> !StartsWith(lines[k], pat)
    ensures FindStart(lines, pat, lo, hi) == Some(i)
  {
  }

  /** Without a match in the range, FindStart finds nothing. */
  lemma FindStartNone(lines: seq<string>, pat: string, lo: nat, hi: nat)
    requires hi <= |lines|
    requires forall k :: lo <= k < hi ==> !StartsWith(lines[k], pat)
    ensures FindStart(lines, pat, lo, hi) == None
  {
  }

  /** `line.lstrip("-")` */
  function DropDashes(line: string): string {
    if line != [] && line[0] == '-' then DropDashes(line[1..]) else line
  }

  /** `lstrip("-")` keeps a suffix of the line. */
  lemma {:induction false} DropDashesSuffix(line: string)
    ensures |DropDashes(line)| <= |line|
    ensures DropDashes(line) == line[|line| - |DropDashes(line)|..]
  {
    if line != [] && line[0] == '-' {
      DropDashesSuffix(line[1..]);
      var r := DropDashes(line[1..]);
      assert line[1..][|line| - 1 - |r|..] == line[|line| - |r|..];
    }
  }

  /** `lstrip("-")` drops the leading run of dashes and nothing else: every
      dropped character is a dash, and the kept part does not start with
      one. */
  lemma {:induction false} DropDashesShape(line: string)
    ensures |DropDashes(line)| <= |line|
    ensures forall k :: 0 <= k < |line| - |DropDashes(line)| ==> line[k] == '-'
    ensures DropDashes(line) == [] || DropDashes(line)[0] != '-'
  {
    if line != [] && line[0] == '-' {
      DropDashesShape(line[1..]);
      var r := DropDashes(line[1..]);
      assert DropDashes(line) == r;
      forall k | 0 <= k < |line| - |r| ensures line[k] == '-' {
        if k > 0 {
          assert line[k] == line[1..][k - 1];
        }
      }
    }
  }

  /** The headline before truncation: the first bullet among the seven lines
      that follow the first summary heading, else the default. */
  function HeadlineOf(lines: seq<string>): string {
    var i := FindStart(lines, SummaryHeading, 0, |lines|);
    if i.None? then DefaultHeadline
    else
      var j := FindStart(lines, Bullet, i.value + 1, Min(i.value + 1 + BulletWindow, |lines|));
      if j.None? then DefaultHeadline
      else Strip(DropDashes(lines[j.value]))
  }

  /** `headline[:180]` */
  function Truncate(h: string): (r: string)
    ensures |r| <= MaxHeadline && |r| <= |h| && r == h[..|r|]
    ensures |h| <= MaxHeadline ==> r == h
  {
    h[..Min(MaxHeadline, |h|)]
  }

  /** Line i is the first summary heading. */
  predicate FirstHeadingAt(lines: seq<string>, i: nat) {
    i < |lines| && StartsWith(lines[i], SummaryHeading)
    && forall k :: 0 <= k < i ==> !StartsWith(lines[k], SummaryHeading)
  }

  /** When line i is the first summary heading and line j the first bullet
      among the seven lines after it, the headline is that bullet without
      its leading dashes and surrounding whitespace. */
  lemma HeadlineFound(lines: seq<string>, i: nat, j: nat)
    requires FirstHeadingAt(lines, i)
    requires i < j < i + 1 + BulletWindow && j < |lines| && StartsWith(lines[j], Bullet)
    requires forall k :: i < k < j ==> !StartsWith(lines[k], Bullet)
    ensures HeadlineOf(lines) == Strip(DropDashes(lines[j]))
  {
    FindStartFirst(lines, SummaryHeading, 0, |lines|, i);
    FindStartFirst(lines, Bullet, i + 1, Min(i + 1 + BulletWindow, |lines|), j);
  }

  /** The headline is the default when there is no summary heading, or when
      none of the seven lines after the first one is a bullet. */
  lemma HeadlineDefault(lines: seq<string>)
    requires (forall k :: 0 <= k < |lines| ==> !StartsWith(lines[k], SummaryHeading))
             || exists i: nat :: FirstHeadingAt(lines, i)
                  && forall k :: i < k < Min(i + 1 + BulletWindow, |lines|) ==> !StartsWith(lines[k], Bullet)
    ensures HeadlineOf(lines) == DefaultHeadline
  {
    var first := FindStart(lines, SummaryHeading, 0, |lines|);
    if first.Some? {
      var i: nat :| FirstHeadingAt(lines, i)
               && forall k :: i < k < Min(i + 1 + BulletWindow, |lines|) ==> !StartsWith(lines[k], Bullet);
      FindStartFirst(lines, SummaryHeading, 0, |lines|, i);
    }
  }

  /** Only the first summary heading and the seven lines after it matter:
      lines appended after that window leave the headline unchanged. */
  lemma HeadlineIgnoresLaterLines(lines: seq<string>, more: seq<string>, i: nat)
    requires FirstHeadingAt(lines, i) && i + 1 + BulletWindow <= |lines|
    ensures HeadlineOf(lines + more) == HeadlineOf(lines)
  {
    var all := lines + more;
    FindStartFirst(all, SummaryHeading, 0, |all|, i);
    FindStartFirst(lines, SummaryHeading, 0, |lines|, i);
    FindStartAgree(lines, all, Bullet, i + 1, i + 1 + BulletWindow);
  }

  /** The search for a pattern only looks at the lines in its range. */
  lemma {:induction false} FindStartAgree(a: seq<string>, b: seq<string>, pat: string, lo: nat, hi: nat)
    requires hi <= |a| && hi <= |b|
    requires forall k :: lo <= k < hi ==> a[k] == b[k]
    ensures FindStart(a, pat, lo, hi) == FindStart(b, pat, lo, hi)
    decreases hi - lo
  {
    if lo < hi {
      FindStartAgree(a, b, pat, lo + 1, hi);
    }
  }

  // ---------------------------------------------------------------------
  // Risk label
  // ---------------------------------------------------------------------

  const Low: string := "LOW"
  const Medium: string := "MEDIUM"
  const High: string := "HIGH"
  const MediumWords: seq<string> := ["급락", "장애", "오류", "폭증", "실패율", "anomaly", "이상"]
  const HighWords: seq<string> := ["중단", "결제 불가", "치명", "대규모", "심각"]

  /** `any(k in text for k in words)` */
  predicate MentionsAny(text: string, words: seq<string>) {
    exists k :: 0 <= k < |words| && Contains(text, words[k])
  }

  /** The label the rules give: MEDIUM for a medium word, overwritten by
      HIGH for a high word, LOW otherwise. */
  function RiskOf(md: string): (r: string)
    ensures r == Low || r == Medium || r == High
  {
    var text := LowerStr(md);
    var afterMedium := if MentionsAny(text, MediumWords) then Medium else Low;
    if MentionsAny(text, HighWords) then High else afterMedium
  }

  /** The order of the labels. */
  function Rank(level: string): nat {
    if level == High then 2 else if level == Medium then 1 else 0
  }

  /** A keyword of the text is still a keyword after more text is appended. */
  lemma MentionsAnyAppend(a: string, b: string, words: seq<string>)
    requires MentionsAny(LowerStr(a), words)
    ensures MentionsAny(LowerStr(a + b), words)
  {
    var k :| 0 <= k < |words| && Contains(LowerStr(a), words[k]);
    LowerStrAppend(a, b);
    ContainsPrefix(LowerStr(a), LowerStr(b), words[k]);
  }

  /** Appending text to the Markdown never lowers its risk label. */
  lemma RiskMonotone(a: string, b: string)
    ensures Rank(RiskOf(a)) <= Rank(RiskOf(a + b))
  {
    if MentionsAny(LowerStr(a), HighWords) {
      MentionsAnyAppend(a, b, HighWords);
    } else if MentionsAny(LowerStr(a), MediumWords) {
      MentionsAnyAppend(a, b, MediumWords);
    }
  }

  /** The loop behind `any(...)`, stopping at the first keyword found. */
  method ContainsAny(text: string, words: seq<string>) returns (found: bool)
    ensures found == MentionsAny(text, words)
  {
    found := false;
    var k := 0;
    while k < |words| && !found
      invariant 0 <= k <= |words|
      invariant found ==> MentionsAny(text, words)
      invariant !found ==> forall t :: 0 <= t < k ==> !Contains(text, words[t])
    {
      found := Contains(text, words[k]);
      k := k + 1;
    }
  }

  /** The nested search for the headline: the first summary heading, then
      the first bullet among the seven lines after it. */
  method ScanHeadline(lines: seq<string>) returns (headline: string)
    ensures headline == HeadlineOf(lines)
  {
    headline := DefaultHeadline;
    var i := 0;
    while i < |lines|
      invariant 0 <= i <= |lines|
      invariant forall k :: 0 <= k < i ==> !StartsWith(lines[k], SummaryHeading)
      invariant headline == DefaultHeadline
    {
      if StartsWith(lines[i], SummaryHeading) {
        FindStartFirst(lines, SummaryHeading, 0, |lines|, i);
        var hi := Min(i + 1 + BulletWindow, |lines|);
        var j := i + 1;
        while j < hi
          invariant i + 1 <= j <= hi
          invariant forall k :: i + 1 <= k < j ==> !StartsWith(lines[k], Bullet)
          invariant headline == DefaultHeadline
        {
          if StartsWith(lines[j], Bullet) {
            FindStartFirst(lines, Bullet, i + 1, hi, j);
            headline := Strip(DropDashes(lines[j]));
            break;
          }
          j := j + 1;
        }
        if j == hi {
          FindStartNone(lines, Bullet, i + 1, hi);
        }
        break;
      }
      i := i + 1;
    }
    if i == |lines| {
      FindStartNone(lines, SummaryHeading, 0, |lines|);
    }
  }

  /** `extract_headline_and_risk`: the headline, cut to 180 characters, and
      the risk label of the lower-cased Markdown. */
  method ExtractHeadlineAndRisk(md: string) returns (headline: string, risk: string)
    ensures headline == Truncate(HeadlineOf(NonEmptyLines(md)))
    ensures risk == RiskOf(md)
    ensures risk == High <==> MentionsAny(LowerStr(md), HighWords)
    ensures risk == Medium <==> MentionsAny(LowerStr(md), MediumWords) && !MentionsAny(LowerStr(md), HighWords)
    ensures risk == Low <==> !MentionsAny(LowerStr(md), MediumWords) && !MentionsAny(LowerStr(md), HighWords)
  {
    risk := Low;
    var lines := NonEmptyLines(md);
    headline := ScanHeadline(lines);

    var text := LowerStr(md);
    var medium := ContainsAny(text, MediumWords);
    if medium {
      risk := Medium;
    }
    var high := ContainsAny(text, HighWords);
    if high {
      risk := High;
    }
    headline := headline[..Min(MaxHeadline, |headline|)];
  }
}
