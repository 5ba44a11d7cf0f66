/**
 * String primitives of the JavaScript runtime that the plugins rely on:
 * `trim`, `startsWith`, `indexOf`, `split`/`join` on one separator,
 * the `\s` character class, ASCII lower-casing and decimal numerals.
 * Strings are sequences of characters; UTF-16 surrogate pairs are not modelled.
 */
module Text {

  /** The JavaScript `\s` class, which is also the set of characters `trim` removes. */
  predicate IsSpace(c: char) {
    c == ' ' || ('\t' <= c <= '\r') || ('\U{00A0}' <= c && c in WideSpaces)
  }

  /** The characters of `\s` from U+00A0 up. */
  const WideSpaces: set<char> :=
    {'\U{00A0}', '\U{1680}', '\U{2000}', '\U{2001}', '\U{2002}', '\U{2003}', '\U{2004}', '\U{2005}',
     '\U{2006}', '\U{2007}', '\U{2008}', '\U{2009}', '\U{200A}', '\U{2028}', '\U{2029}', '\U{202F}',
     '\U{205F}', '\U{3000}', '\U{FEFF}'}

  predicate IsDigit(c: char) { '0' <= c <= '9' }

  predicate IsAsciiLetter(c: char) { 'a' <= c <= 'z' || 'A' <= c <= 'Z' }

  /** `[A-Za-z0-9_]`, the word characters of a regular expression without the `u` flag. */
  predicate IsWordChar(c: char) { IsAsciiLetter(c) || IsDigit(c) || c == '_' }

  function ToLowerAscii(c: char): (r: char)
    ensures 'A' <= c <= 'Z' ==> r != c && 'a' <= r <= 'z'
    ensures !('A' <= c <= 'Z') ==> r == c
  {
    if 'A' <= c <= 'Z' then (c as int + 32) as char else c
  }

  predicate StartsWith(s: string, prefix: string) {
    |prefix| <= |s| && s[..|prefix|] == prefix
  }

  lemma StartsWithConcat(prefix: string, t: string)
    ensures StartsWith(prefix + t, prefix)
  {
    assert (prefix + t)[..|prefix|] == prefix;
  }

  predicate AllSpace(s: string) {
    forall i :: 0 <= i < |s| ==> IsSpace(s[i])
  }

  /** `s.trimStart()`: drop leading white space. */
  function TrimStart(s: string): string {
    if s != "" && IsSpace(s[0]) then TrimStart(s[1..]) else s
  }

  /** `s.trimEnd()`: drop trailing white space. */
  function TrimEnd(s: string): string {
    if s != "" && IsSpace(s[|s| - 1]) then TrimEnd(s[..|s| - 1]) else s
  }

  /** `s.trim()`: the middle part of `s` with no white space at either end. */
  function Trim(s: string): string {
    TrimEnd(TrimStart(s))
  }

  /** `trimStart` keeps a suffix, drops only white space, and stops at a non-space character. */
  lemma {:induction false} TrimStartSpec(s: string)
    ensures var r := TrimStart(s);
      |r| <= |s| && r == s[|s| - |r|..] && AllSpace(s[..|s| - |r|]) && (r == "" || !IsSpace(r[0]))
  {
    if s != "" && IsSpace(s[0]) {
      TrimStartSpec(s[1..]);
      var r := TrimStart(s[1..]);
      assert s[..|s| - |r|] == [s[0]] + s[1..][..|s| - 1 - |r|];
    }
  }

  /** `trimEnd` keeps a prefix, drops only white space, and stops at a non-space character. */
  lemma {:induction false} TrimEndSpec(s: string)
    ensures var r := TrimEnd(s);
      |r| <= |s| && r == s[..|r|] && AllSpace(s[|r|..]) && (r == "" || !IsSpace(r[|r| - 1]))
  {
    if s != "" && IsSpace(s[|s| - 1]) {
      TrimEndSpec(s[..|s| - 1]);
      var r := TrimEnd(s[..|s| - 1]);
      assert s[|r|..] == s[..|s| - 1][|r|..] + [s[|s| - 1]];
    }
  }

  /** A trimmed string is no longer than the original and has no white space at either end. */
  lemma TrimEnds(s: string)
    ensures var r := Trim(s); |r| <= |s| && (r == "" || (!IsSpace(r[0]) && !IsSpace(r[|r| - 1])))
  {
    var t := TrimStart(s);
    TrimStartSpec(s);
    TrimEndSpec(t);
    var r := TrimEnd(t);
    if r != "" {
      assert r[0] == t[0];
    }
  }

  /** What `trim` keeps is one contiguous part of the string. */
  lemma TrimIsInfix(s: string)
    ensures |TrimStart(s)| <= |s|
    ensures var r := Trim(s); var a := |s| - |TrimStart(s)|;
      a + |r| <= |s| && r == s[a..a + |r|]
  {
    var t := TrimStart(s);
    TrimStartSpec(s);
    TrimEndSpec(t);
    var r := TrimEnd(t);
    var a := |s| - |t|;
    assert t == s[a..];
    assert r == t[..|r|];
    forall i | 0 <= i < |r| ensures r[i] == s[a + i] {
      assert r[i] == t[i];
    }
  }

  /** A string with no white space at either end is its own trim. */
  lemma TrimUnpadded(s: string)
    requires s == "" || (!IsSpace(s[0]) && !IsSpace(s[|s| - 1]))
    ensures Trim(s) == s
  {
    assert TrimStart(s) == s;
  }

  /** White space appended at the end is trimmed away. */
  lemma {:induction false} TrimAppendSpace(s: string, c: char)
    requires IsSpace(c)
    ensures Trim(s + [c]) == Trim(s)
  {
    var u := s + [c];
    if s == "" {
      assert TrimStart(u) == TrimStart(u[1..]);
      assert u[1..] == "";
    } else if IsSpace(s[0]) {
      assert u[1..] == s[1..] + [c];
      TrimAppendSpace(s[1..], c);
    } else {
      assert TrimStart(u) == u;
      assert TrimStart(s) == s;
      assert u[..|u| - 1] == s;
    }
  }

  predicate OccursAt(s: string, pat: string, k: nat) {
    k + |pat| <= |s| && s[k..k + |pat|] == pat
  }

  /** The characters of an occurrence are those of the pattern. */
  lemma OccursAtChar(s: string, pat: string, k: nat, j: nat)
    requires OccursAt(s, pat, k) && j < |pat|
    ensures s[k + j] == pat[j]
  {
    assert s[k..k + |pat|][j] == s[k + j];
  }

  /** `s.indexOf(pat, from)`: the first occurrence at or after `from`, or -1. */
  function IndexOf(s: string, pat: string, from: nat): (r: int)
    requires pat != ""
    ensures r == -1 || (from <= r && OccursAt(s, pat, r))
    decreases |s| - from
  {
    if from + |pat| > |s| then -1
    else if OccursAt(s, pat, from) then from
    else IndexOf(s, pat, from + 1)
  }

  /** The occurrence found is the first one at or after `from`; -1 means there is none. */
  lemma {:induction false} IndexOfSpec(s: string, pat: string, from: nat)
    requires pat != ""
    ensures var r := IndexOf(s, pat, from);
      && (r >= 0 ==> forall k :: from <= k < r ==> !OccursAt(s, pat, k))
      && (r == -1 <==> forall k :: from <= k ==> !OccursAt(s, pat, k))
    decreases |s| - from
  {
    if from + |pat| <= |s| && !OccursAt(s, pat, from) {
      IndexOfSpec(s, pat, from + 1);
    }
  }

  predicate Contains(s: string, pat: string) {
    exists k: nat | k <= |s| :: OccursAt(s, pat, k)
  }

  lemma ContainsIndexOf(s: string, pat: string)
    requires pat != ""
    ensures Contains(s, pat) <==> IndexOf(s, pat, 0) >= 0
  {
    IndexOfSpec(s, pat, 0);
    if IndexOf(s, pat, 0) >= 0 {
      var k: nat := IndexOf(s, pat, 0);
      assert OccursAt(s, pat, k);
    }
  }

  /** What a slice contains, the whole contains. */
  lemma ContainsInSlice(s: string, a: nat, b: nat, pat: string)
    requires a <= b <= |s| && Contains(s[a..b], pat)
    ensures Contains(s, pat)
  {
    var k: nat :| k <= |s[a..b]| && OccursAt(s[a..b], pat, k);
    assert k + |pat| <= b - a;
    forall i | 0 <= i < |pat| ensures s[a + k + i] == pat[i] {
      OccursAtChar(s[a..b], pat, k, i);
    }
    assert OccursAt(s, pat, a + k);
  }

  /** The first index at or after `from` holding `c`, or `|s|` when there is none. */
  function FindChar(s: string, c: char, from: nat): (r: nat)
    requires from <= |s|
    ensures from <= r <= |s|
    ensures r < |s| ==> s[r] == c
    decreases |s| - from
  {
    if from == |s| || s[from] == c then from else FindChar(s, c, from + 1)
  }

  /** No `c` is skipped: the characters before the one found differ from `c`. */
  lemma {:induction false} FindCharSpec(s: string, c: char, from: nat)
    requires from <= |s|
    ensures forall k :: from <= k < FindChar(s, c, from) ==> s[k] != c
    decreases |s| - from
  {
    if from < |s| && s[from] != c {
      FindCharSpec(s, c, from + 1);
    }
  }

  /** The first index at or after `from` holding `a` or `b`, or `|s|` when there is none. */
  function FindEither(s: string, a: char, b: char, from: nat): (r: nat)
    requires from <= |s|
    ensures from <= r <= |s|
    ensures r < |s| ==> s[r] == a || s[r] == b
    decreases |s| - from
  {
    if from == |s| || s[from] == a || s[from] == b then from else FindEither(s, a, b, from + 1)
  }

  /** Neither character is skipped. */
  lemma {:induction false} FindEitherSpec(s: string, a: char, b: char, from: nat)
    requires from <= |s|
    ensures forall k :: from <= k < FindEither(s, a, b, from) ==> s[k] != a && s[k] != b
    decreases |s| - from
  {
    if from < |s| && s[from] != a && s[from] != b {
      FindEitherSpec(s, a, b, from + 1);
    }
  }

  /** An `a` or `b` at `k` with neither before it, from `from` on, is the one found. */
  lemma {:induction false} FindEitherAt(s: string, a: char, b: char, from: nat, k: nat)
    requires from <= k < |s| && (s[k] == a || s[k] == b)
    requires forall j :: from <= j < k ==> s[j] != a && s[j] != b
    ensures FindEither(s, a, b, from) == k
    decreases k - from
  {
    if from < k { FindEitherAt(s, a, b, from + 1, k); }
  }

  /** `s.split(sep)` for a one-character separator. */
  function Split(s: string, sep: char): (r: seq<string>)
    ensures |r| >= 1
    decreases |s|
  {
    var k := FindChar(s, sep, 0);
    if k == |s| then [s] else [s[..k]] + Split(s[k + 1..], sep)
  }

  /** No part of a split holds the separator. */
  lemma {:induction false} SplitPartsFree(s: string, sep: char)
    ensures forall i :: 0 <= i < |Split(s, sep)| ==> sep !in Split(s, sep)[i]
    decreases |s|
  {
    var k := FindChar(s, sep, 0);
    FindCharSpec(s, sep, 0);
    if k < |s| {
      SplitPartsFree(s[k + 1..], sep);
      assert forall j :: 0 <= j < k ==> s[..k][j] != sep;
    }
  }

  /** `parts.join(sep)`. */
  function Join(parts: seq<string>, sep: string): string {
    if |parts| == 0 then ""
    else if |parts| == 1 then parts[0]
    else parts[0] + sep + Join(parts[1..], sep)
  }

  /** Splitting a joined list gives the list back when no part holds the separator. */
  lemma {:induction false} SplitJoin(parts: seq<string>, sep: char)
    requires |parts| >= 1
    requires forall i :: 0 <= i < |parts| ==> sep !in parts[i]
    ensures Split(Join(parts, [sep]), sep) == parts
  {
    var s := Join(parts, [sep]);
    if |parts| == 1 {
      assert forall j :: 0 <= j < |s| ==> s[j] != sep;
      FindCharAt(s, sep, 0, |s|);
    } else {
      var p := parts[0];
      var rest := Join(parts[1..], [sep]);
      assert s == p + [sep] + rest;
      assert forall j :: 0 <= j < |p| ==> s[j] != sep;
      FindCharAt(s, sep, 0, |p|);
      assert s[..|p|] == p;
      assert s[|p| + 1..] == rest;
      SplitJoin(parts[1..], sep);
    }
  }

  /** Appending a part before the final empty part of a join. */
  lemma {:induction false} JoinSnoc(ls: seq<string>, x: string, sep: string)
    ensures Join(ls + [x] + [""], sep) == Join(ls + [""], sep) + x + sep
  {
    if ls == [] {
      assert [x] + [""] == [x, ""];
    } else {
      JoinSnoc(ls[1..], x, sep);
      assert (ls + [x] + [""])[1..] == ls[1..] + [x] + [""];
      assert (ls + [""])[1..] == ls[1..] + [""];
    }
  }

  /** Joining with a final empty part adds one separator. */
  lemma {:induction false} JoinAppendEmpty(ls: seq<string>, sep: string)
    requires ls != []
    ensures Join(ls + [""], sep) == Join(ls, sep) + sep
  {
    if |ls| > 1 {
      assert (ls + [""])[1..] == ls[1..] + [""];
      JoinAppendEmpty(ls[1..], sep);
    }
  }

  /** A character in neither the parts nor the separator is not in their join. */
  lemma {:induction false} JoinAvoids(parts: seq<string>, sep: string, c: char)
    requires c !in sep && forall i :: 0 <= i < |parts| ==> c !in parts[i]
    ensures c !in Join(parts, sep)
  {
    if |parts| > 1 {
      JoinAvoids(parts[1..], sep, c);
    }
  }

  lemma FindCharAt(s: string, c: char, from: nat, k: nat)
    requires from <= k <= |s| && (k < |s| ==> s[k] == c)
    requires forall j :: from <= j < k ==> s[j] != c
    ensures FindChar(s, c, from) == k
    decreases k - from
  {
    if from < k { FindCharAt(s, c, from + 1, k); }
  }

  /** Joining the parts of a split gives the string back. */
  lemma {:induction false} JoinSplit(s: string, sep: char)
    ensures Join(Split(s, sep), [sep]) == s
    decreases |s|
  {
    var k := FindChar(s, sep, 0);
    if k < |s| {
      JoinSplit(s[k + 1..], sep);
      assert s == s[..k] + [sep] + s[k + 1..];
    }
  }

  function DigitChar(d: nat): (c: char)
    requires d < 10
    ensures IsDigit(c)
  {
    ('0' as int + d) as char
  }

  /** The decimal numeral of `n`, as JavaScript prints a non-negative integer. */
  function Decimal(n: nat): (r: string)
    ensures |r| >= 1
  {
    if n < 10 then [DigitChar(n)] else Decimal(n / 10) + [DigitChar(n % 10)]
  }

  predicate AllDigits(s: string) {
    forall i :: 0 <= i < |s| ==> IsDigit(s[i])
  }

  /** A numeral is made of digits only. */
  lemma {:induction false} DecimalDigits(n: nat)
    ensures AllDigits(Decimal(n))
  {
    if n >= 10 {
      DecimalDigits(n / 10);
    }
  }

  /** The value of a string of decimal digits. */
  function DecimalValue(s: string): nat
    requires AllDigits(s)
  {
    if s == "" then 0
    else
      assert IsDigit(s[|s| - 1]);
      DecimalValue(s[..|s| - 1]) * 10 + (s[|s| - 1] as int - '0' as int)
  }

  /** Reading back a printed numeral gives the number: printing is injective. */
  lemma {:induction false} DecimalRoundTrip(n: nat)
    ensures AllDigits(Decimal(n)) && DecimalValue(Decimal(n)) == n
  {
    DecimalDigits(n);
    var r := Decimal(n);
    if n >= 10 {
      DecimalRoundTrip(n / 10);
      assert r[..|r| - 1] == Decimal(n / 10);
    }
  }

  lemma DecimalInjective(m: nat, n: nat)
    requires Decimal(m) == Decimal(n)
    ensures m == n
  {
    DecimalRoundTrip(m);
    DecimalRoundTrip(n);
  }
  /** The first index at or after `i` whose character is not white space, or `|r|`. */
  function SpaceRunEnd(r: string, i: nat): (e: nat)
    requires i <= |r|
    ensures i <= e <= |r|
    ensures e < |r| ==> !IsSpace(r[e])
    decreases |r| - i
  {
    if i == |r| || !IsSpace(r[i]) then i else SpaceRunEnd(r, i + 1)
  }

  /** Everything skipped is white space. */
  lemma {:induction false} SpaceRunEndSpec(r: string, i: nat)
    requires i <= |r|
    ensures forall j :: i <= j < SpaceRunEnd(r, i) ==> IsSpace(r[j])
    decreases |r| - i
  {
    if i < |r| && IsSpace(r[i]) {
      SpaceRunEndSpec(r, i + 1);
    }
  }

  /** The first index at or after `i` whose character is not a decimal digit, or `|r|`. */
  function DigitRunEnd(r: string, i: nat): (e: nat)
    requires i <= |r|
    ensures i <= e <= |r|
    ensures e < |r| ==> !IsDigit(r[e])
    decreases |r| - i
  {
    if i == |r| || !IsDigit(r[i]) then i else DigitRunEnd(r, i + 1)
  }

  /** Everything skipped is a digit. */
  lemma {:induction false} DigitRunEndSpec(r: string, i: nat)
    requires i <= |r|
    ensures AllDigits(r[i..DigitRunEnd(r, i)])
    decreases |r| - i
  {
    if i < |r| && IsDigit(r[i]) {
      DigitRunEndSpec(r, i + 1);
      assert r[i..DigitRunEnd(r, i)] == [r[i]] + r[i + 1..DigitRunEnd(r, i + 1)];
    }
  }

  /** A run of digits followed by a non-digit, or the end, ends there. */
  lemma {:induction false} DigitRunEndAt(r: string, i: nat, k: nat)
    requires i <= k <= |r| && (k == |r| || !IsDigit(r[k]))
    requires AllDigits(r[i..k])
    ensures DigitRunEnd(r, i) == k
    decreases k - i
  {
    if i < k {
      assert IsDigit(r[i..k][0]);
      assert r[i + 1..k] == r[i..k][1..];
      DigitRunEndAt(r, i + 1, k);
    }
  }

  /** The first index at or after `i` whose character is not a word character, or `|r|`. */
  function WordRunEnd(r: string, i: nat): (e: nat)
    requires i <= |r|
    ensures i <= e <= |r|
    ensures e < |r| ==> !IsWordChar(r[e])
    decreases |r| - i
  {
    if i == |r| || !IsWordChar(r[i]) then i else WordRunEnd(r, i + 1)
  }

  /** Everything skipped is a word character. */
  lemma {:induction false} WordRunEndSpec(r: string, i: nat)
    requires i <= |r|
    ensures forall j :: i <= j < WordRunEnd(r, i) ==> IsWordChar(r[j])
    decreases |r| - i
  {
    if i < |r| && IsWordChar(r[i]) {
      WordRunEndSpec(r, i + 1);
    }
  }

  lemma SpaceRunEndAt(r: string, i: nat, k: nat)
    requires i <= k < |r| && !IsSpace(r[k])
    requires forall j :: i <= j < k ==> IsSpace(r[j])
    ensures SpaceRunEnd(r, i) == k
    decreases k - i
  {
    if i < k { SpaceRunEndAt(r, i + 1, k); }
  }

  lemma WordRunEndAt(r: string, i: nat, k: nat)
    requires i <= k < |r| && !IsWordChar(r[k])
    requires forall j :: i <= j < k ==> IsWordChar(r[j])
    ensures WordRunEnd(r, i) == k
    decreases k - i
  {
    if i < k { WordRunEndAt(r, i + 1, k); }
  }

  predicate SpaceFree(s: string) {
    forall i :: 0 <= i < |s| ==> !IsSpace(s[i])
  }

  /** The first white-space index at or after `from`, or `|s|`. */
  function FirstSpace(s: string, from: nat): (r: nat)
    requires from <= |s|
    ensures from <= r <= |s|
    ensures r < |s| ==> IsSpace(s[r])
    decreases |s| - from
  {
    if from == |s| || IsSpace(s[from]) then from else FirstSpace(s, from + 1)
  }

  /** Everything before the space found is not white space. */
  lemma {:induction false} FirstSpaceSpec(s: string, from: nat)
    requires from <= |s|
    ensures forall k :: from <= k < FirstSpace(s, from) ==> !IsSpace(s[k])
    decreases |s| - from
  {
    if from < |s| && !IsSpace(s[from]) {
      FirstSpaceSpec(s, from + 1);
    }
  }

  /**
   * `s.split(/\s+/)`: the pieces between maximal white-space runs; a leading or
   * trailing run gives an empty first or last piece, and `""` gives `[""]`.
   */
  function WsSplit(s: string): (r: seq<string>)
    ensures |r| >= 1
    decreases |s|
  {
    var k := FirstSpace(s, 0);
    if k == |s| then [s] else [s[..k]] + WsSplit(s[SpaceRunEnd(s, k)..])
  }

  /** No piece of a white-space split holds white space. */
  lemma {:induction false} WsSplitSpaceFree(s: string)
    ensures forall i :: 0 <= i < |WsSplit(s)| ==> SpaceFree(WsSplit(s)[i])
    decreases |s|
  {
    var k := FirstSpace(s, 0);
    FirstSpaceSpec(s, 0);
    if k < |s| {
      WsSplitSpaceFree(s[SpaceRunEnd(s, k)..]);
      assert SpaceFree(s[..k]);
    }
  }

  /** Every piece of a white-space split occurs in the text split. */
  lemma {:induction false} WsSplitContains(s: string, w: string)
    requires w in WsSplit(s)
    ensures Contains(s, w)
    decreases |s|
  {
    var k := FirstSpace(s, 0);
    if w == s[..k] {
      assert OccursAt(s, w, 0);
    } else {
      var m := SpaceRunEnd(s, k);
      WsSplitContains(s[m..], w);
      assert s[m..] == s[m..|s|];
      ContainsInSlice(s, m, |s|, w);
    }
  }

  /** Splitting words joined by single spaces gives the words back. */
  lemma {:induction false} WsSplitJoin(words: seq<string>)
    requires |words| >= 1
    requires forall i :: 0 <= i < |words| ==> words[i] != "" && SpaceFree(words[i])
    ensures WsSplit(Join(words, " ")) == words
  {
    var s := Join(words, " ");
    var w := words[0];
    if |words| == 1 {
      assert FirstSpace(s, 0) == |s| by { FirstSpaceAt(s, 0, |s|); }
    } else {
      var rest := Join(words[1..], " ");
      assert s == w + " " + rest;
      assert s[..|w|] == w;
      FirstSpaceAt(s, 0, |w|);
      assert words[1][0] == rest[0] by { JoinHead(words[1..], " "); }
      SpaceRunEndAt(s, |w|, |w| + 1);
      assert s[|w| + 1..] == rest;
      WsSplitJoin(words[1..]);
    }
  }

  lemma FirstSpaceAt(s: string, from: nat, k: nat)
    requires from <= k <= |s|
    requires k < |s| ==> IsSpace(s[k])
    requires forall j :: from <= j < k ==> !IsSpace(s[j])
    ensures FirstSpace(s, from) == k
    decreases k - from
  {
    if from < k { FirstSpaceAt(s, from + 1, k); }
  }

  /** A join starts with its first part. */
  lemma JoinHead(parts: seq<string>, sep: string)
    requires |parts| >= 1
    ensures |Join(parts, sep)| >= |parts[0]|
    ensures Join(parts, sep)[..|parts[0]|] == parts[0]
  {
    if |parts| > 1 {
      assert Join(parts, sep) == parts[0] + (sep + Join(parts[1..], sep));
    }
  }
  /** The first index at or after `i` whose character is not a plain space, or `|s|`. */
  function SkipPlainSpaces(s: string, i: nat): (j: nat)
    requires i <= |s|
    ensures i <= j <= |s|
    ensures j < |s| ==> s[j] != ' '
    decreases |s| - i
  {
    if i == |s| || s[i] != ' ' then i else SkipPlainSpaces(s, i + 1)
  }

  /** Everything skipped is a plain space. */
  lemma {:induction false} SkipPlainSpacesSpec(s: string, i: nat)
    requires i <= |s|
    ensures forall k :: i <= k < SkipPlainSpaces(s, i) ==> s[k] == ' '
    decreases |s| - i
  {
    if i < |s| && s[i] == ' ' {
      SkipPlainSpacesSpec(s, i + 1);
    }
  }


  lemma SkipPlainSpacesAt(s: string, i: nat, j: nat)
    requires i <= j <= |s| && (j < |s| ==> s[j] != ' ')
    requires forall k :: i <= k < j ==> s[k] == ' '
    ensures SkipPlainSpaces(s, i) == j
    decreases j - i
  {
    if i < j { SkipPlainSpacesAt(s, i + 1, j); }
  }
}
