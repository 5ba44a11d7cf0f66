/**
 * The `key=value` argument tokenizer shared by the hidden and the tip plugins
 * (`parseParams`, written out twice in the source with identical text).
 *
 * The unquoted-value boundary, which the source finds with the regular
 * expression `\s+([a-zA-Z_][a-zA-Z0-9_]*)=`, is modelled as an explicit scan
 * (`ParamStartAt`) and proved equal to the regular expression's own reading
 * (`PatternAt`).
 */
module Params {
  import opened Text
  import opened Wrappers

  predicate IsIdentStart(c: char) { IsAsciiLetter(c) || c == '_' }

  /**
   * The regular expression `\s+[A-Za-z_][A-Za-z0-9_]*=` matches `r` starting at `p`:
   * a non-empty white-space run `r[p..k]`, an identifier `r[k..m]`, then `=`.
   */
  ghost predicate PatternAt(r: string, p: nat) {
    exists k: nat, m: nat :: PatternSplit(r, p, k, m)
  }

  /** The match at `p` with the identifier starting at `k` and `=` at `m`. */
  predicate PatternSplit(r: string, p: nat, k: nat, m: nat) {
    p < k < m < |r|
    && (forall j :: p <= j < k ==> IsSpace(r[j]))
    && IsIdentStart(r[k])
    && (forall j :: k < j < m ==> IsWordChar(r[j]))
    && r[m] == '='
  }

  /**
   * The scan that replaces the regular expression: at a white-space character,
   * skip the whole white-space run, read a maximal identifier, and look for `=`.
   * Backtracking cannot help the regular expression: a shorter white-space run
   * leaves white space where the identifier must start, and a shorter identifier
   * leaves a word character where `=` must be.
   */
  predicate ParamStartAt(r: string, p: nat) {
    p < |r| && IsSpace(r[p]) &&
    var k := SpaceRunEnd(r, p);
    k < |r| && IsIdentStart(r[k]) &&
    var m := WordRunEnd(r, k + 1);
    m < |r| && r[m] == '='
  }

  lemma ParamStartAtIsPattern(r: string, p: nat)
    ensures ParamStartAt(r, p) <==> PatternAt(r, p)
  {
    if ParamStartAt(r, p) {
      ParamStartIsPattern(r, p);
    }
    if PatternAt(r, p) {
      PatternIsParamStart(r, p);
    }
  }

  lemma ParamStartIsPattern(r: string, p: nat)
    requires ParamStartAt(r, p)
    ensures PatternAt(r, p)
  {
    var k := SpaceRunEnd(r, p);
    var m := WordRunEnd(r, k + 1);
    SpaceRunEndSpec(r, p);
    WordRunEndSpec(r, k + 1);
    assert PatternSplit(r, p, k, m);
  }

  lemma PatternIsParamStart(r: string, p: nat)
    requires PatternAt(r, p)
    ensures ParamStartAt(r, p)
  {
    var k: nat, m: nat :| PatternSplit(r, p, k, m);
    SpaceRunEndAt(r, p, k);
    WordRunEndAt(r, k + 1, m);
  }

  /** `r.match(/\s+([a-zA-Z_][a-zA-Z0-9_]*)=/)?.index`, searching from `from`: the leftmost match. */
  function NextParamStart(r: string, from: nat): (res: Option<nat>)
    requires from <= |r|
    ensures res.Some? ==> from <= res.value < |r| && ParamStartAt(r, res.value)
    decreases |r| - from
  {
    if from == |r| then None
    else if ParamStartAt(r, from) then Some(from)
    else NextParamStart(r, from + 1)
  }

  /** No boundary is skipped: the one found is the first, and `None` means there is none. */
  lemma {:induction false} NextParamStartSpec(r: string, from: nat)
    requires from <= |r|
    ensures var res := NextParamStart(r, from);
      && (res.Some? ==> forall q :: from <= q < res.value ==> !ParamStartAt(r, q))
      && (res.None? ==> forall q :: from <= q < |r| ==> !ParamStartAt(r, q))
    decreases |r| - from
  {
    if from < |r| && !ParamStartAt(r, from) {
      NextParamStartSpec(r, from + 1);
    }
  }

  /** The scan finds exactly the leftmost match of the regular expression. */
  lemma NextParamStartIsLeftmostMatch(r: string, from: nat)
    requires from <= |r|
    ensures var res := NextParamStart(r, from);
      && (res.Some? ==> PatternAt(r, res.value) && forall q :: from <= q < res.value ==> !PatternAt(r, q))
      && (res.None? ==> forall q :: from <= q < |r| ==> !PatternAt(r, q))
  {
    NextParamStartSpec(r, from);
    forall q | from <= q < |r| ensures ParamStartAt(r, q) <==> PatternAt(r, q) {
      ParamStartAtIsPattern(r, q);
    }
  }

  /** A match found inside a slice of `r` is a match of `r` too. */
  lemma PatternInSlice(r: string, a: nat, b: nat, q: nat)
    requires a <= b <= |r|
    requires PatternAt(r[a..b], q)
    ensures PatternAt(r, a + q)
  {
    var t := r[a..b];
    var k: nat, m: nat :| PatternSplit(t, q, k, m);
    assert forall j :: a + q <= j < a + k ==> IsSpace(r[j]) by {
      forall j | a + q <= j < a + k ensures IsSpace(r[j]) { assert r[j] == t[j - a]; }
    }
    assert forall j :: a + k < j < a + m ==> IsWordChar(r[j]) by {
      forall j | a + k < j < a + m ensures IsWordChar(r[j]) { assert r[j] == t[j - a]; }
    }
    assert r[a + k] == t[k] && r[a + m] == t[m];
    assert PatternSplit(r, a + q, a + k, a + m);
  }

  /** The end of a parameter name: the first `=` or plain space at or after `j`, or `|s|`. */
  function NameEnd(s: string, j: nat): (k: nat)
    requires j <= |s|
  {
    FindEither(s, '=', ' ', j)
  }

  ghost predicate NoPatternIn(t: string) {
    forall q :: 0 <= q < |t| ==> !PatternAt(t, q)
  }

  /**
   * The value that starts at `v` (just after `=`) and the index where scanning
   * resumes. A quoted value runs to the next `"`, which is consumed if present;
   * an unquoted value runs to the next `<space><name>=` or to the end, and is trimmed.
   */
  function ReadValue(s: string, v: nat): (res: (string, nat))
    requires v <= |s|
    ensures v <= res.1 <= |s|
    ensures v < |s| && s[v] == '"' ==> v < res.1
  {
    if v < |s| && s[v] == '"' then
      var close := FindChar(s, '"', v + 1);
      (s[v + 1..close], if close < |s| then close + 1 else |s|)
    else
      var rest := s[v..];
      match NextParamStart(rest, 0)
      case Some(p) => (Trim(rest[..p]), v + p)
      case None => (Trim(rest), |s|)
  }

  /**
   * A quoted value holds no `"`; an unquoted value has no white space at either
   * end and never contains `<space><name>=`, the start of a further parameter.
   */
  lemma ReadValueShape(s: string, v: nat)
    requires v <= |s|
    ensures var (value, next) := ReadValue(s, v);
      if v < |s| && s[v] == '"' then
        '"' !in value && (next < |s| ==> s[next - 1] == '"')
      else
        (value == "" || (!IsSpace(value[0]) && !IsSpace(value[|value| - 1])))
        && NoPatternIn(value)
  {
    if v < |s| && s[v] == '"' {
      var close := FindChar(s, '"', v + 1);
      var value := s[v + 1..close];
      FindCharSpec(s, '"', v + 1);
      forall i | 0 <= i < |value| ensures value[i] != '"' {
        assert value[i] == s[v + 1 + i];
      }
    } else {
      var rest := s[v..];
      NextParamStartIsLeftmostMatch(rest, 0);
      match NextParamStart(rest, 0)
      case Some(p) =>
        TrimEnds(rest[..p]);
        TrimmedHasNoPattern(rest, p);
      case None =>
        TrimEnds(rest);
        TrimmedHasNoPattern(rest, |rest|);
        assert rest[..|rest|] == rest;
    }
  }

  lemma TrimmedHasNoPattern(rest: string, p: nat)
    requires p <= |rest|
    requires forall q :: 0 <= q < p ==> !PatternAt(rest, q)
    ensures NoPatternIn(Trim(rest[..p]))
  {
    var u := rest[..p];
    var t := Trim(u);
    TrimIsInfix(u);
    var a := |u| - |TrimStart(u)|;
    assert t == rest[a..a + |t|];
    forall q | 0 <= q < |t| ensures !PatternAt(t, q) {
      NoPatternInPrefixSlice(rest, p, a, a + |t|, q);
    }
  }

  /** A slice of the match-free prefix `rest[..p]` holds no match either. */
  lemma NoPatternInPrefixSlice(rest: string, p: nat, a: nat, b: nat, q: nat)
    requires a <= b <= p <= |rest| && q < b - a
    requires forall q :: 0 <= q < p ==> !PatternAt(rest, q)
    ensures !PatternAt(rest[a..b], q)
  {
    if PatternAt(rest[a..b], q) {
      PatternInSlice(rest, a, b, q);
    }
  }

  /** One name/value pair read by the tokenizer and the index where scanning resumes. */
  datatype Entry = Entry(name: string, value: string, next: nat)

  /**
   * One turn of the outer loop of `parseParams` at index `i`: `None` when the
   * loop stops there (end of input, or a name not followed by `=`).
   */
  function Step(s: string, i: nat): (e: Option<Entry>)
    ensures e.Some? ==> i < e.value.next <= |s|
  {
    if i >= |s| then None
    else
      var j := SkipPlainSpaces(s, i);
      if j >= |s| then None
      else
        var k := NameEnd(s, j);
        if k >= |s| || s[k] != '=' then None
        else
          var read := ReadValue(s, k + 1);
          Some(Entry(Trim(s[j..k]), read.0, read.1))
  }

  /**
   * How the text from `i` splits for one turn: plain spaces up to `j`, a name
   * holding neither `=` nor a plain space up to `k`, and `=` at `k`.
   */
  ghost predicate TurnSplit(s: string, i: nat, j: nat, k: nat) {
    && i <= j <= k < |s|
    && (forall m :: i <= m < j ==> s[m] == ' ')
    && (forall m :: j <= m < k ==> s[m] != '=' && s[m] != ' ')
    && s[k] == '='
  }

  /** The split of a turn, where there is one, is where the loop finds it. */
  lemma TurnSplitFound(s: string, i: nat, j: nat, k: nat)
    requires TurnSplit(s, i, j, k)
    ensures SkipPlainSpaces(s, i) == j && NameEnd(s, j) == k
  {
    SkipPlainSpacesAt(s, i, j);
    FindEitherAt(s, '=', ' ', j, k);
  }

  /**
   * A turn reads an entry exactly when the text from `i` splits that way; the
   * entry's name is the name trimmed, and its value and resumption index are
   * those read after the `=`.
   */
  lemma StepSpec(s: string, i: nat)
    ensures Step(s, i).Some? <==> exists j: nat, k: nat :: TurnSplit(s, i, j, k)
    ensures forall j: nat, k: nat :: TurnSplit(s, i, j, k) ==>
      Step(s, i) == Some(Entry(Trim(s[j..k]), ReadValue(s, k + 1).0, ReadValue(s, k + 1).1))
  {
    forall j: nat, k: nat | TurnSplit(s, i, j, k)
      ensures Step(s, i) == Some(Entry(Trim(s[j..k]), ReadValue(s, k + 1).0, ReadValue(s, k + 1).1))
    {
      TurnSplitFound(s, i, j, k);
    }
    if Step(s, i).Some? {
      var j := SkipPlainSpaces(s, i);
      SkipPlainSpacesSpec(s, i);
      FindEitherSpec(s, '=', ' ', j);
      assert TurnSplit(s, i, j, NameEnd(s, j));
    }
  }

  /** Record an entry: a name that is empty after trimming is dropped, a repeated name overwritten. */
  function Record(acc: map<string, string>, e: Entry): map<string, string> {
    if e.name != "" then acc[e.name := e.value] else acc
  }

  /** The outer loop of `parseParams` from index `i`, with the entries found so far in `acc`. */
  function ParseFrom(s: string, i: nat, acc: map<string, string>): map<string, string>
    decreases |s| - i
  {
    match Step(s, i)
    case None => acc
    case Some(e) => ParseFrom(s, e.next, Record(acc, e))
  }

  /** A turn of the loop that reaches `=` at `k` records the entry read there. */
  lemma TurnRecords(s: string, i: nat, j: nat, k: nat, acc: map<string, string>)
    requires i < |s| && j == SkipPlainSpaces(s, i) && j < |s|
    requires k == NameEnd(s, j) && k < |s| && s[k] == '='
    ensures var read := ReadValue(s, k + 1);
      ParseFrom(s, i, acc) == ParseFrom(s, read.1, Record(acc, Entry(Trim(s[j..k]), read.0, read.1)))
  {
  }

  /** A turn of the loop that finds no name followed by `=` ends the parse. */
  lemma TurnStops(s: string, i: nat, j: nat, k: nat, acc: map<string, string>)
    requires i < |s| && j == SkipPlainSpaces(s, i)
    requires j >= |s| || (k == NameEnd(s, j) && (k >= |s| || s[k] != '='))
    ensures ParseFrom(s, i, acc) == acc
  {
  }

  /** `parseParams(s)` as a value: the map the tokenizer builds. */
  function ParamMap(s: string): map<string, string> {
    ParseFrom(s, 0, map[])
  }

  /** The value part of one turn of `parseParams`, read character by character when quoted. */
  method ReadParamValue(s: string, v: nat) returns (value: string, next: nat)
    requires v <= |s|
    ensures (value, next) == ReadValue(s, v)
  {
    value := "";
    next := v;
    if next < |s| && s[next] == '"' {
      next := next + 1;
      ghost var close := FindChar(s, '"', next);
      while next < |s| && s[next] != '"'
        invariant v + 1 <= next <= |s|
        invariant FindChar(s, '"', next) == close
        invariant value == s[v + 1..next]
        decreases |s| - next
      {
        value := value + [s[next]];
        next := next + 1;
      }
      if next < |s| {
        next := next + 1;
      }
    } else {
      var remaining := s[next..];
      var nextParam := NextParamStart(remaining, 0);
      if nextParam.Some? {
        value := Trim(remaining[..nextParam.value]);
        next := next + nextParam.value;
      } else {
        value := Trim(remaining);
        next := |s|;
      }
    }
  }

  /** The loop of `parseParams` that skips plain spaces before a name. */
  method SkipSpaces(s: string, i: nat) returns (j: nat)
    requires i <= |s|
    ensures j == SkipPlainSpaces(s, i)
  {
    j := i;
    while j < |s| && s[j] == ' '
      invariant i <= j <= |s|
      invariant SkipPlainSpaces(s, j) == SkipPlainSpaces(s, i)
      decreases |s| - j
    {
      j := j + 1;
    }
  }

  /** The loop of `parseParams` that collects a name up to `=` or a plain space. */
  method ReadName(s: string, j: nat) returns (name: string, k: nat)
    requires j <= |s|
    ensures k == NameEnd(s, j) && name == s[j..k]
  {
    name := "";
    k := j;
    while k < |s| && s[k] != '=' && s[k] != ' '
      invariant j <= k <= |s|
      invariant NameEnd(s, k) == NameEnd(s, j)
      invariant name == s[j..k]
      decreases |s| - k
    {
      name := name + [s[k]];
      k := k + 1;
    }
  }

  /**
   * `parseParams`: skip plain spaces, read a name up to `=` or a space, stop at
   * the first name not followed by `=`, read a quoted or unquoted value, and
   * record it under the trimmed name unless that is empty (a later entry
   * overwrites an earlier one).
   */
  method ParseParams(s: string) returns (parsed: map<string, string>)
    ensures parsed == ParamMap(s)
  {
    ghost var target := ParamMap(s);
    parsed := map[];
    var i := 0;
    while i < |s|
      invariant i <= |s|
      invariant ParseFrom(s, i, parsed) == target
      decreases |s| - i
    {
      ghost var i0 := i;
      i := SkipSpaces(s, i);
      if i >= |s| {
        TurnStops(s, i0, i, i, parsed);
        break;
      }
      ghost var j0 := i;
      var name;
      name, i := ReadName(s, i);
      if i >= |s| || s[i] != '=' {
        TurnStops(s, i0, j0, i, parsed);
        break;
      }
      i := i + 1;

      ghost var v := i;
      var value;
      value, i := ReadParamValue(s, i);
      TurnRecords(s, i0, j0, v - 1, parsed);

      if Trim(name) != "" {
        parsed := parsed[Trim(name) := value];
      }
    }
  }

  /** Every recorded name is non-empty and carries no white space at either end. */
  lemma {:induction false} ParamNamesTrimmed(s: string, i: nat, acc: map<string, string>)
    requires forall key :: key in acc ==> key != "" && !IsSpace(key[0]) && !IsSpace(key[|key| - 1])
    ensures forall key :: key in ParseFrom(s, i, acc) ==>
      key != "" && !IsSpace(key[0]) && !IsSpace(key[|key| - 1])
    decreases |s| - i
  {
    match Step(s, i)
    case None =>
    case Some(e) =>
      var j := SkipPlainSpaces(s, i);
      TrimEnds(s[j..NameEnd(s, j)]);
      ParamNamesTrimmed(s, e.next, Record(acc, e));
  }

  lemma ParamMapNamesTrimmed(s: string)
    ensures forall key :: key in ParamMap(s) ==>
      key != "" && !IsSpace(key[0]) && !IsSpace(key[|key| - 1])
  {
    ParamNamesTrimmed(s, 0, map[]);
  }

  /** Scanning only adds or overwrites entries: every name already found survives. */
  lemma {:induction false} ParseFromKeepsKeys(s: string, i: nat, acc: map<string, string>)
    ensures acc.Keys <= ParseFrom(s, i, acc).Keys
    decreases |s| - i
  {
    match Step(s, i)
    case None =>
    case Some(e) => ParseFromKeepsKeys(s, e.next, Record(acc, e));
  }

  /** `param || default`: an absent or empty value gives the default. */
  function ParamOr(params: map<string, string>, key: string, default: string): (r: string)
    ensures key in params && params[key] != "" ==> r == params[key]
    ensures !(key in params && params[key] != "") ==> r == default
  {
    if key in params && params[key] != "" then params[key] else default
  }
}
