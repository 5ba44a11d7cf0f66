/**
 * The tag scanner of `virtualizeMermaid`: `isTagStartAt` and `isTagEndAt`
 * look at one position of the HTML text, and `findMatchingTagEnd` walks
 * forward with a nesting depth until the end tag that balances the start tag.
 */
module MermaidTags {
  import opened Text

  /** The characters `isTagStartAt` accepts right after the tag name. */
  predicate EndsStartName(c: char) {
    c == ' ' || c == '>' || c == '\n' || c == '\t' || c == '\r' || c == '/'
  }

  /** The characters `isTagEndAt` accepts right after the tag name: no `/`. */
  predicate EndsEndName(c: char) {
    c == ' ' || c == '>' || c == '\n' || c == '\t' || c == '\r'
  }

  /**
   * `html[i]?.toLowerCase() === c`: there is a character at `i` and, with
   * ASCII letters lower-cased, it is `c`.
   */
  predicate LetterAt(html: string, i: int, c: char) {
    0 <= i < |html| && c == ToLowerAscii(html[i])
  }

  /**
   * The loop over the tag name from its `j`-th character: each character of
   * the text, lower-cased, must equal the name's.
   */
  function NameMatchesFrom(html: string, p: nat, name: string, j: nat): bool
    requires j <= |name|
    decreases |name| - j
  {
    j == |name| || (LetterAt(html, p + j, name[j]) && NameMatchesFrom(html, p, name, j + 1))
  }

  /** The characters of `name` from its `j`-th on are written from `p + j` on, in any letter case. */
  predicate NameFrom(html: string, p: nat, name: string, j: nat) {
    forall k :: j <= k < |name| ==> LetterAt(html, p + k, name[k])
  }

  /** `name` is written at `p`, in any letter case. */
  predicate NameAt(html: string, p: nat, name: string) {
    NameFrom(html, p, name, 0)
  }

  lemma {:induction false} NameMatchesFromSpec(html: string, p: nat, name: string, j: nat)
    requires j <= |name|
    ensures NameMatchesFrom(html, p, name, j) <==> NameFrom(html, p, name, j)
    decreases |name| - j
  {
    if j < |name| {
      NameMatchesFromSpec(html, p, name, j + 1);
    }
  }

  /** `isTagStartAt(html, i, name)`. */
  predicate IsTagStartAt(html: string, i: nat, name: string) {
    && i < |html| && html[i] == '<'
    && NameMatchesFrom(html, i + 1, name, 0)
    && i + 1 + |name| < |html| && EndsStartName(html[i + 1 + |name|])
  }

  /** `isTagEndAt(html, i, name)`. */
  predicate IsTagEndAt(html: string, i: nat, name: string) {
    && i + 1 < |html| && html[i] == '<' && html[i + 1] == '/'
    && NameMatchesFrom(html, i + 2, name, 0)
    && i + 2 + |name| < |html| && EndsEndName(html[i + 2 + |name|])
  }

  /**
   * A start tag is `<`, the name in any case, then a space, tab, line
   * break, `>` or `/`.
   */
  lemma TagStartIff(html: string, i: nat, name: string)
    ensures IsTagStartAt(html, i, name)
      <==> && i + 1 + |name| < |html| && html[i] == '<' && NameAt(html, i + 1, name)
           && EndsStartName(html[i + 1 + |name|])
  {
    NameMatchesFromSpec(html, i + 1, name, 0);
  }

  /** An end tag is `</`, the name in any case, then a space, tab, line break or `>`, but not `/`. */
  lemma TagEndIff(html: string, i: nat, name: string)
    ensures IsTagEndAt(html, i, name)
      <==> && i + 2 + |name| < |html| && html[i] == '<' && html[i + 1] == '/' && NameAt(html, i + 2, name)
           && EndsEndName(html[i + 2 + |name|]) && html[i + 2 + |name|] != '/'
  {
    NameMatchesFromSpec(html, i + 2, name, 0);
  }

  /** A start tag whose next `>` follows a `/`, as in `<p/>`. */
  predicate SelfClosing(html: string, i: nat) {
    var c := IndexOf(html, ">", i);
    c > 0 && html[c - 1] == '/'
  }

  /** How the position `i` changes the nesting depth. */
  function Delta(html: string, i: nat, name: string): int {
    if IsTagStartAt(html, i, name) then (if SelfClosing(html, i) then 0 else 1)
    else if IsTagEndAt(html, i, name) then -1
    else 0
  }

  /** The depth after the positions `s` up to `e`, exclusive. */
  function DepthBefore(html: string, s: nat, e: nat, name: string): int
    decreases e
  {
    if e <= s then 0 else DepthBefore(html, s, e - 1, name) + Delta(html, e - 1, name)
  }

  /** The end tag at `e` brings the depth counted from `s` back to 0. */
  predicate ClosesAt(html: string, s: nat, e: nat, name: string) {
    && s <= e < |html|
    && !IsTagStartAt(html, e, name) && IsTagEndAt(html, e, name)
    && DepthBefore(html, s, e, name) == 1
  }

  /** What `findMatchingTagEnd` returns for the end tag at `e`: just past its `>`, or -1. */
  function PastGt(html: string, e: nat): (r: int)
    ensures r == -1 || (e < r <= |html| && html[r - 1] == '>')
  {
    var g := IndexOf(html, ">", e);
    if g == -1 then -1
    else
      OccursAtChar(html, ">", g, 0);
      g + 1
  }

  /**
   * The scan of `findMatchingTagEnd` from position `i` at depth `depth`:
   * the index just past the `>` of the balancing end tag, or -1.
   */
  function ScanEnd(html: string, i: nat, depth: int, name: string): int
    decreases |html| - i
  {
    if i >= |html| then -1
    else if IsTagStartAt(html, i, name) then
      ScanEnd(html, i + 1, depth + (if SelfClosing(html, i) then 0 else 1), name)
    else if IsTagEndAt(html, i, name) then
      if depth - 1 == 0 then PastGt(html, i) else ScanEnd(html, i + 1, depth - 1, name)
    else ScanEnd(html, i + 1, depth, name)
  }

  /** The scan returns -1 or an index past a `>` that comes after `i`. */
  lemma {:induction false} ScanEndBounds(html: string, i: nat, depth: int, name: string)
    ensures var r := ScanEnd(html, i, depth, name);
      r == -1 || (i < r <= |html| && html[r - 1] == '>')
    decreases |html| - i
  {
    if i < |html| {
      if IsTagStartAt(html, i, name) {
        ScanEndBounds(html, i + 1, depth + (if SelfClosing(html, i) then 0 else 1), name);
      } else if IsTagEndAt(html, i, name) {
        if depth - 1 != 0 {
          ScanEndBounds(html, i + 1, depth - 1, name);
        }
      } else {
        ScanEndBounds(html, i + 1, depth, name);
      }
    }
  }

  /**
   * The scan stops at the first end tag that brings the depth counted from
   * `s` back to 0, and returns the index past that tag's `>`.
   */
  lemma {:induction false} ScanEndFindsClose(html: string, s: nat, i: nat, depth: int, e: nat, name: string)
    requires s <= i <= e && ClosesAt(html, s, e, name)
    requires forall e' :: i <= e' < e ==> !ClosesAt(html, s, e', name)
    requires depth == DepthBefore(html, s, i, name)
    ensures ScanEnd(html, i, depth, name) == PastGt(html, e)
    decreases e - i
  {
    if i < e {
      assert !ClosesAt(html, s, i, name);
      ScanEndFindsClose(html, s, i + 1, depth + Delta(html, i, name), e, name);
    }
  }

  /** Without such an end tag the scan returns -1. */
  lemma {:induction false} ScanEndNoClose(html: string, s: nat, i: nat, depth: int, name: string)
    requires s <= i
    requires forall e :: i <= e < |html| ==> !ClosesAt(html, s, e, name)
    requires depth == DepthBefore(html, s, i, name)
    ensures ScanEnd(html, i, depth, name) == -1
    decreases |html| - i
  {
    if i < |html| {
      assert !ClosesAt(html, s, i, name);
      ScanEndNoClose(html, s, i + 1, depth + Delta(html, i, name), name);
    }
  }

  /** `findMatchingTagEnd(html, startPos, name)`. */
  method FindMatchingTagEnd(html: string, startPos: nat, name: string) returns (r: int)
    ensures r == ScanEnd(html, startPos, 0, name)
    ensures r == -1 || (startPos < r <= |html| && html[r - 1] == '>')
  {
    ghost var target := ScanEnd(html, startPos, 0, name);
    var depth := 0;
    var i := startPos;
    while i < |html|
      invariant startPos <= i
      invariant ScanEnd(html, i, depth, name) == target
      decreases |html| - i
    {
      if IsTagStartAt(html, i, name) {
        var closePos := IndexOf(html, ">", i);
        if closePos != -1 && closePos > 0 && html[closePos - 1] == '/' {
          i := i + 1;
          continue;
        }
        depth := depth + 1;
        i := i + 1;
        continue;
      }
      if IsTagEndAt(html, i, name) {
        depth := depth - 1;
        if depth == 0 {
          var endGt := IndexOf(html, ">", i);
          ScanEndBounds(html, startPos, 0, name);
          return if endGt == -1 then -1 else endGt + 1;
        }
      }
      i := i + 1;
    }
    ScanEndBounds(html, startPos, 0, name);
    return -1;
  }
}
