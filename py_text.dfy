/** The Python `str` built-ins that the SQL guard and the insight generator
    rely on (`strip`, `lower`, `in`, `find`, `replace`, `split`, `int`, `str`),
    plus the leftmost-position search that `re.search` performs.

    Characters are Dafny `char`s (Unicode scalar values). Whitespace is the
    exact set that `str.isspace` and the regular-expression class `\s` accept;
    letters, digits, word characters and case are ASCII only. */
module PyText {

  datatype Option<T> = None | Some(value: T)

  /** `c.isspace()`, which is also what `\s` matches in a `str` pattern. */
  predicate IsSpace(c: char) {
    ('\t' <= c <= '\r') || ('\U{1C}' <= c <= ' ') || c == '\U{85}' || c == '\U{A0}'
    || c == '\U{1680}' || ('\U{2000}' <= c <= '\U{200A}') || c == '\U{2028}'
    || c == '\U{2029}' || c == '\U{202F}' || c == '\U{205F}' || c == '\U{3000}'
  }

  predicate IsDigit(c: char) { '0' <= c <= '9' }

  predicate IsUpper(c: char) { 'A' <= c <= 'Z' }

  predicate IsLetter(c: char) { IsUpper(c) || 'a' <= c <= 'z' }

  /** `\w` (ASCII): letters, digits and underscore. */
  predicate IsWordChar(c: char) { IsLetter(c) || IsDigit(c) || c == '_' }

  /** `c.lower()` on ASCII letters; every other character is its own lower case. */
  function Lower(c: char): (r: char)
    ensures !IsUpper(r)
    ensures IsUpper(c) || r == c
    ensures IsWordChar(r) == IsWordChar(c) && IsSpace(r) == IsSpace(c) && IsDigit(r) == IsDigit(c)
  {
    if IsUpper(c) then (c as int - 'A' as int + 'a' as int) as char else c
  }

  function LowerStr(s: string): (r: string)
    ensures |r| == |s|
    ensures forall i :: 0 <= i < |s| ==> r[i] == Lower(s[i])
  {
    seq(|s|, i requires 0 <= i < |s| => Lower(s[i]))
  }

  lemma LowerStrAppend(a: string, b: string)
    ensures LowerStr(a + b) == LowerStr(a) + LowerStr(b)
  {
  }

  /** `s.lower()` leaves a string without upper-case letters as it is. */
  lemma LowerStrNoUpper(s: string)
    requires forall k :: 0 <= k < |s| ==> !IsUpper(s[k])
    ensures LowerStr(s) == s
  {
  }

  lemma LowerStrSlice(s: string, i: nat, j: nat)
    requires i <= j <= |s|
    ensures LowerStr(s[i..j]) == LowerStr(s)[i..j]
  {
  }

  /** `min(a, b)` */
  function Min(a: int, b: int): (r: int)
    ensures r <= a && r <= b && (r == a || r == b)
  {
    if a <= b then a else b
  }

  /** The leftmost position in [lo, hi) satisfying P: the order in which
      `re.search` and `str.find` try start positions. */
  function FirstIndex(P: nat -> bool, lo: nat, hi: nat): (r: Option<nat>)
    ensures r.Some? ==> lo <= r.value < hi && P(r.value)
    ensures r.Some? ==> forall j :: lo <= j < r.value ==> !P(j)
    ensures r.None? ==> forall j :: lo <= j < hi ==> !P(j)
    decreases hi - lo
  {
    if lo >= hi then None
    else if P(lo) then Some(lo)
    else FirstIndex(P, lo + 1, hi)
  }

  /** The end of the run of P-characters that starts at k. */
  function SpanEnd(s: string, k: nat, P: char -> bool): (r: nat)
    requires k <= |s|
    ensures k <= r <= |s|
    ensures forall j :: k <= j < r ==> P(s[j])
    ensures r == |s| || !P(s[r])
    decreases |s| - k
  {
    if k < |s| && P(s[k]) then SpanEnd(s, k + 1, P) else k
  }

  /** The start of the run of P-characters that ends the string. */
  function TrailStart(s: string, P: char -> bool): (r: nat)
    ensures r <= |s|
    ensures forall j :: r <= j < |s| ==> P(s[j])
    ensures r == 0 || !P(s[r - 1])
  {
    if s != [] && P(s[|s| - 1]) then TrailStart(s[..|s| - 1], P) else |s|
  }

  predicate AllSpace(s: string) {
    forall j :: 0 <= j < |s| ==> IsSpace(s[j])
  }

  /** `s.lstrip()` */
  function LStrip(s: string): (r: string)
    ensures |r| <= |s| && r == s[|s| - |r|..]
    ensures AllSpace(s[..|s| - |r|])
    ensures r == [] || !IsSpace(r[0])
    ensures s != [] && IsSpace(s[0]) ==> |r| < |s|
  {
    s[SpanEnd(s, 0, IsSpace)..]
  }

  /** `s.rstrip()` */
  function RStrip(s: string): (r: string)
    ensures |r| <= |s| && r == s[..|r|]
    ensures AllSpace(s[|r|..])
    ensures r == [] || !IsSpace(r[|r| - 1])
  {
    s[..TrailStart(s, IsSpace)]
  }

  lemma RStripNotEmpty(s: string)
    requires !AllSpace(s)
    ensures RStrip(s) != []
  {
  }

  /** Where `s.strip()` starts: after the leading whitespace. */
  function StripStart(s: string): nat {
    |s| - |LStrip(s)|
  }

  /** `s.strip()`: the slice of s left after removing leading and trailing
      whitespace. */
  function Strip(s: string): (r: string)
    ensures StripStart(s) + |r| <= |s| && r == s[StripStart(s)..StripStart(s) + |r|]
    ensures AllSpace(s[..StripStart(s)]) && AllSpace(s[StripStart(s) + |r|..])
    ensures r == [] || (!IsSpace(r[0]) && !IsSpace(r[|r| - 1]))
  {
    var l := LStrip(s);
    var r := RStrip(l);
    var i := |s| - |l|;
    assert r == s[i..i + |r|];
    assert s[i + |r|..] == l[|r|..];
    r
  }

  /** Concatenation is associative. */
  lemma AppendAssoc(x: string, y: string, z: string)
    ensures x + (y + z) == (x + y) + z
  {
  }

  /** A non-empty slice is its first character followed by the rest. */
  lemma SliceCons(s: string, i: nat, j: nat)
    requires i < j <= |s|
    ensures s[i..j] == [s[i]] + s[i + 1..j]
  {
  }

  /** A string is the concatenation of its three slices at i and j. */
  lemma SliceSplit(s: string, i: nat, j: nat)
    requires i <= j <= |s|
    ensures s == s[..i] + s[i..j] + s[j..]
  {
  }

  /** The k-th character of the stripped string. */
  lemma StripCharAt(s: string, k: nat)
    requires k < |Strip(s)|
    ensures StripStart(s) + k < |s| && Strip(s)[k] == s[StripStart(s) + k]
  {
  }

  /** Whitespace-free strings with whitespace-free ends are left alone by strip. */
  lemma StripTrimmed(s: string)
    requires s == [] || (!IsSpace(s[0]) && !IsSpace(s[|s| - 1]))
    ensures Strip(s) == s
  {
    if s != [] {
      assert SpanEnd(s, 0, IsSpace) == 0;
      assert TrailStart(s, IsSpace) == |s|;
    }
  }

  /** Strip is idempotent. */
  lemma StripStrip(s: string)
    ensures Strip(Strip(s)) == Strip(s)
  {
    StripTrimmed(Strip(s));
  }

  /** `Strip(s) == ""` exactly when every character of s is whitespace. */
  lemma StripEmpty(s: string)
    ensures Strip(s) == [] <==> AllSpace(s)
  {
    var r := Strip(s);
    var i := StripStart(s);
    if r == [] {
      forall j | 0 <= j < |s| ensures IsSpace(s[j]) {
        assert s[..i][j] == s[j];
      }
    } else {
      assert r[0] == s[i];
    }
  }

  /** pat occurs in s at position i. */
  predicate OccursAt(s: string, pat: string, i: nat) {
    i + |pat| <= |s| && s[i..i + |pat|] == pat
  }

  /** `s.find(pat, k)`, as an Option. */
  function FindFrom(s: string, pat: string, k: nat): (r: Option<nat>)
    ensures r.Some? ==> k <= r.value && OccursAt(s, pat, r.value)
    ensures r.Some? ==> forall j :: k <= j < r.value ==> !OccursAt(s, pat, j)
    ensures r.None? ==> forall j :: k <= j ==> !OccursAt(s, pat, j)
  {
    var P := (i: nat) => OccursAt(s, pat, i);
    assert forall j: nat :: P(j) == OccursAt(s, pat, j);
    FirstIndex(P, k, |s| + 1)
  }

  /** The first occurrence at or after k is what `find` returns. */
  lemma FindFromFirst(s: string, pat: string, k: nat, i: nat)
    requires k <= i && OccursAt(s, pat, i)
    requires forall j :: k <= j < i ==> !OccursAt(s, pat, j)
    ensures FindFrom(s, pat, k) == Some(i)
  {
  }

  /** `pat in s` */
  predicate Contains(s: string, pat: string) {
    FindFrom(s, pat, 0).Some?
  }

  lemma ContainsIff(s: string, pat: string)
    ensures Contains(s, pat) <==> exists i :: OccursAt(s, pat, i)
  {
  }

  /** What a string contains, it still contains after more is appended. */
  lemma ContainsPrefix(s: string, t: string, pat: string)
    requires Contains(s, pat)
    ensures Contains(s + t, pat)
  {
    var i := FindFrom(s, pat, 0).value;
    assert (s + t)[i..i + |pat|] == s[i..i + |pat|];
    assert OccursAt(s + t, pat, i);
  }

  /** `s.startswith(pat)` */
  predicate StartsWith(s: string, pat: string) {
    OccursAt(s, pat, 0)
  }

  /** Two patterns with different first characters cannot both start a
      string. */
  lemma StartsWithExclusive(s: string, a: string, b: string)
    requires StartsWith(s, a) && 0 < |a| && 0 < |b| && a[0] != b[0]
    ensures !StartsWith(s, b)
  {
    assert s[0] == s[..|a|][0] == a[0];
  }

  /** An occurrence inside a slice is an occurrence in the whole string. */
  lemma OccursInSlice(s: string, pat: string, a: nat, b: nat, j: nat)
    requires a <= b <= |s|
    requires OccursAt(s[a..b], pat, j)
    ensures OccursAt(s, pat, a + j) && a + j + |pat| <= b
  {
    assert j + |pat| <= b - a;
    forall t | 0 <= t < |pat| ensures s[a + j + t] == pat[t] {
      assert s[a..b][j..j + |pat|][t] == pat[t];
    }
    assert s[a + j..a + j + |pat|] == pat;
  }

  /** Stripping cannot create an occurrence of a pattern. */
  lemma StripAbsent(s: string, pat: string)
    requires forall i :: !OccursAt(s, pat, i)
    ensures !Contains(Strip(s), pat)
  {
    var t := Strip(s);
    var a := StripStart(s);
    forall i | OccursAt(t, pat, i) ensures false {
      OccursInSlice(s, pat, a, a + |t|, i);
    }
  }

  /** `s.replace(pat, "")`: occurrences are removed left to right without
      overlapping, as Python does. */
  function RemoveAll(s: string, pat: string): (r: string)
    requires pat != []
    ensures |r| <= |s|
    ensures forall c :: c in r ==> c in s
  {
    if s == [] then []
    else if StartsWith(s, pat) then RemoveAll(s[|pat|..], pat)
    else [s[0]] + RemoveAll(s[1..], pat)
  }

  /** Removing a pattern that does not occur changes nothing. */
  lemma {:induction false} RemoveAllAbsent(s: string, pat: string)
    requires pat != []
    requires forall i :: !OccursAt(s, pat, i)
    ensures RemoveAll(s, pat) == s
  {
    if s != [] {
      assert !OccursAt(s, pat, 0);
      forall i ensures !OccursAt(s[1..], pat, i) {
        if OccursAt(s[1..], pat, i) {
          assert s[1..] == s[1..|s|];
          OccursInSlice(s, pat, 1, |s|, i);
        }
      }
      RemoveAllAbsent(s[1..], pat);
    }
  }

  /** `s.split(sep)` for a one-character separator: n separators give n + 1
      pieces, none of which holds the separator. */
  function Split(s: string, sep: char): (r: seq<string>)
    ensures |r| >= 1
    ensures forall k :: 0 <= k < |r| ==> sep !in r[k]
    ensures |r| == 1 <==> sep !in s
    ensures |r| == 1 ==> r[0] == s
  {
    if s == [] then [[]]
    else
      var rest := Split(s[1..], sep);
      if s[0] == sep then [[]] + rest
      else [[s[0]] + rest[0]] + rest[1..]
  }

  /** `sep.join(pieces)` */
  function Join(pieces: seq<string>, sep: char): string
    requires |pieces| >= 1
  {
    if |pieces| == 1 then pieces[0] else pieces[0] + [sep] + Join(pieces[1..], sep)
  }

  /** Joining the pieces of a split with the same separator gives the string back. */
  lemma {:induction false} SplitJoin(s: string, sep: char)
    ensures Join(Split(s, sep), sep) == s
  {
    if s != [] {
      var rest := Split(s[1..], sep);
      SplitJoin(s[1..], sep);
      if s[0] != sep {
        if |rest| > 1 {
          assert ([[s[0]] + rest[0]] + rest[1..])[1..] == rest[1..];
        }
      } else {
        assert ([[]] + rest)[1..] == rest;
      }
    }
  }

  /** The last piece of a split: `s.split(sep)[-1]`. */
  function LastPiece(s: string, sep: char): (r: string)
    ensures sep !in r
  {
    var pieces := Split(s, sep);
    pieces[|pieces| - 1]
  }

  /** The last piece is the part of s after its last separator (all of s when
      there is none). */
  lemma {:induction false} LastPieceSuffix(s: string, sep: char)
    ensures |LastPiece(s, sep)| <= |s|
    ensures LastPiece(s, sep) == s[|s| - |LastPiece(s, sep)|..]
    ensures |LastPiece(s, sep)| == |s| || s[|s| - |LastPiece(s, sep)| - 1] == sep
  {
    if s != [] {
      LastPieceStep(s, sep);
      if LastPiece(s, sep) != s {
        LastPieceSuffix(s[1..], sep);
        var t := LastPiece(s[1..], sep);
        assert s[1..][|s| - 1 - |t|..] == s[|s| - |t|..];
        if |t| < |s| - 1 {
          assert s[1..][|s| - 1 - |t| - 1] == sep;
        } else {
          assert t == s[1..];
        }
      }
    }
  }

  /** One step of the last piece: either s holds no separator and is its own
      last piece, or the last piece is that of s[1..]. */
  lemma LastPieceStep(s: string, sep: char)
    requires s != []
    ensures (sep !in s && LastPiece(s, sep) == s)
         || (sep in s && LastPiece(s, sep) == LastPiece(s[1..], sep))
  {
    var rest := Split(s[1..], sep);
    if s[0] == sep {
      assert Split(s, sep) == [[]] + rest;
    } else if |rest| == 1 {
      assert Split(s, sep) == [[s[0]] + rest[0]];
      assert s == [s[0]] + s[1..];
    } else {
      assert Split(s, sep) == [[s[0]] + rest[0]] + rest[1..];
    }
  }

  function DigitValue(c: char): nat
    requires IsDigit(c)
  {
    c as int - '0' as int
  }

  predicate AllDigits(s: string) {
    forall j :: 0 <= j < |s| ==> IsDigit(s[j])
  }

  /** `int(ds)` for a string of ASCII decimal digits. */
  function DigitsValue(ds: string): nat
    requires AllDigits(ds)
  {
    if ds == [] then 0 else 10 * DigitsValue(ds[..|ds| - 1]) + DigitValue(ds[|ds| - 1])
  }

  /** `str(n)` for a natural number. */
  function Decimal(n: nat): (r: string)
    ensures r != [] && AllDigits(r)
  {
    if n < 10 then [('0' as int + n) as char] else Decimal(n / 10) + [('0' as int + n % 10) as char]
  }

  /** `int(str(n)) == n`. */
  lemma {:induction false} DecimalRoundTrip(n: nat)
    ensures DigitsValue(Decimal(n)) == n
  {
    if n >= 10 {
      var d := Decimal(n);
      assert d[..|d| - 1] == Decimal(n / 10);
      DecimalRoundTrip(n / 10);
    }
  }
}
