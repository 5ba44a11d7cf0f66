/**
 * The `:::folding` block rule: a collapsible `<details>` panel.
 *
 * ```
 * :::folding open #f60 Title line
 * body lines ...
 * :::
 * ```
 *
 * The rule finds the closing `:::` with a nesting counter (every other
 * `:::name` line opens a nested block), reads `open` and a hex colour from
 * the words after `folding`, removes the opening line's indentation from every
 * inner line, takes the first inner line as the title and renders the rest.
 */
module Folding {
  import opened Text
  import opened Wrappers
  import opened Host
  import opened Html
  import opened Container

  const Tag: string := "folding"
  const DefaultTitle: string := "折叠框"

  /* ---------- Finding the closing line ---------- */

  /** A change of the nesting counter. */
  type LevelChange = d: int | -1 <= d <= 1

  /** How a trimmed non-blank line moves the nesting counter: `:::name` opens, `:::` closes. */
  function Delta(t: string): LevelChange {
    if StartsWith(t, Marker) && |t| > |Marker| then 1
    else if t == Marker then -1
    else 0
  }

  /** The counter change of a non-blank line (blank lines are skipped before it is asked). */
  function LineDelta(l: Line): LevelChange {
    Delta(Trim(l.Text()))
  }

  /*
   * The scan and the lemmas that characterise it take the counting rule as a
   * parameter `delta`; the folding rule uses `LineDelta`. What the lemmas say
   * holds for any rule that moves the counter by at most one per line.
   */

  /**
   * The scan from line `i` with the counter at `level`: the line where the
   * counter returns to 0, or `None` when a non-blank line is indented less than
   * `indent` or `endLine` is reached first.
   */
  function CloseFrom(lines: seq<Line>, i: nat, endLine: nat, indent: nat, level: nat, delta: Line -> LevelChange): (r: Option<nat>)
    requires endLine <= |lines| && level >= 1
    ensures r.Some? ==> i <= r.value < endLine
    decreases endLine - i
  {
    if i >= endLine then None
    else if lines[i].IsEmpty() then CloseFrom(lines, i + 1, endLine, indent, level, delta)
    else if lines[i].shift < indent then None
    else
      var next := level + delta(lines[i]);
      if next == 0 then Some(i) else CloseFrom(lines, i + 1, endLine, indent, next, delta)
  }

  /** The closing line of the block opened at `startLine`, the counter starting at 1. */
  function FoldingClose(lines: seq<Line>, startLine: nat, endLine: nat): (r: Option<nat>)
    requires startLine < endLine <= |lines|
    ensures r.Some? ==> startLine < r.value < endLine
  {
    CloseFrom(lines, startLine + 1, endLine, lines[startLine].shift, 1, LineDelta)
  }

  /** The counter after lines `lo .. hi - 1`, starting from 1; blank lines leave it alone. */
  function Level(lines: seq<Line>, lo: nat, hi: nat, delta: Line -> LevelChange): int
    requires lo <= hi <= |lines|
    decreases hi
  {
    if hi == lo then 1
    else Level(lines, lo, hi - 1, delta) + (if lines[hi - 1].IsEmpty() then 0 else delta(lines[hi - 1]))
  }

  /** Line `j` keeps the block open: it is blank, or indented enough with the counter still positive after it. */
  ghost predicate KeepsOpen(lines: seq<Line>, lo: nat, j: nat, indent: nat, delta: Line -> LevelChange)
    requires lo <= j < |lines|
  {
    lines[j].IsEmpty() || (lines[j].shift >= indent && Level(lines, lo, j + 1, delta) >= 1)
  }

  /** Every line in `lo .. hi - 1` keeps the block open. */
  ghost predicate StaysOpen(lines: seq<Line>, lo: nat, hi: nat, indent: nat, delta: Line -> LevelChange)
    requires lo <= hi <= |lines|
  {
    forall j :: lo <= j < hi ==> KeepsOpen(lines, lo, j, indent, delta)
  }

  /** Line `c` is non-blank, indented enough, and brings the counter to 0. */
  ghost predicate ClosesAt(lines: seq<Line>, lo: nat, c: nat, endLine: nat, indent: nat, delta: Line -> LevelChange)
    requires endLine <= |lines|
  {
    lo <= c < endLine && !lines[c].IsEmpty() && lines[c].shift >= indent
    && Level(lines, lo, c + 1, delta) == 0
  }

  /**
   * Line `c` closes the folding block opened at `startLine`: every line before
   * it keeps the block open and `c` brings the counter to 0.
   */
  ghost predicate ClosesBlock(lines: seq<Line>, startLine: nat, endLine: nat, c: nat)
    requires startLine < endLine <= |lines|
  {
    var lo := startLine + 1; var indent := lines[startLine].shift;
    lo <= c < endLine && StaysOpen(lines, lo, c, indent, LineDelta) && ClosesAt(lines, lo, c, endLine, indent, LineDelta)
  }

  /**
   * The scan stops exactly at the first line where the counter returns to 0,
   * provided no earlier non-blank line is indented less than the opening line.
   */
  lemma FoldingCloseIsFirstZero(lines: seq<Line>, startLine: nat, endLine: nat, c: nat)
    requires startLine < endLine <= |lines|
    ensures FoldingClose(lines, startLine, endLine) == Some(c) <==> ClosesBlock(lines, startLine, endLine, c)
  {
    var lo := startLine + 1;
    var indent := lines[startLine].shift;
    assert Level(lines, lo, lo, LineDelta) == 1;
    CloseFromSound(lines, lo, lo, endLine, indent, LineDelta);
    if ClosesBlock(lines, startLine, endLine, c) {
      CloseFromComplete(lines, lo, lo, endLine, indent, c, LineDelta);
    }
  }

  lemma {:induction false} CloseFromSound(lines: seq<Line>, lo: nat, i: nat, endLine: nat, indent: nat, delta: Line -> LevelChange)
    requires lo <= i <= endLine <= |lines|
    requires Level(lines, lo, i, delta) >= 1 && StaysOpen(lines, lo, i, indent, delta)
    ensures var r := CloseFrom(lines, i, endLine, indent, Level(lines, lo, i, delta), delta);
      r.Some? ==>
        (i <= r.value < endLine && StaysOpen(lines, lo, r.value, indent, delta)
         && ClosesAt(lines, lo, r.value, endLine, indent, delta))
    decreases endLine - i
  {
    if i < endLine {
      var l := lines[i];
      var level := Level(lines, lo, i, delta);
      var next := if l.IsEmpty() then level else level + delta(l);
      assert Level(lines, lo, i + 1, delta) == next;
      if l.IsEmpty() || (l.shift >= indent && next != 0) {
        assert KeepsOpen(lines, lo, i, indent, delta);
        assert StaysOpen(lines, lo, i + 1, indent, delta);
        CloseFromSound(lines, lo, i + 1, endLine, indent, delta);
      } else if l.shift >= indent {
        assert ClosesAt(lines, lo, i, endLine, indent, delta);
      }
    }
  }

  lemma {:induction false} CloseFromComplete(lines: seq<Line>, lo: nat, i: nat, endLine: nat, indent: nat, c: nat, delta: Line -> LevelChange)
    requires lo <= i <= c < endLine <= |lines|
    requires Level(lines, lo, i, delta) >= 1
    requires StaysOpen(lines, lo, c, indent, delta) && ClosesAt(lines, lo, c, endLine, indent, delta)
    ensures CloseFrom(lines, i, endLine, indent, Level(lines, lo, i, delta), delta) == Some(c)
    decreases c - i
  {
    var l := lines[i];
    var level := Level(lines, lo, i, delta);
    assert Level(lines, lo, i + 1, delta) == if l.IsEmpty() then level else level + delta(l);
    if i < c {
      assert KeepsOpen(lines, lo, i, indent, delta);
      CloseFromComplete(lines, lo, i + 1, endLine, indent, c, delta);
    }
  }

  /** The `while` loop of the rule: walk the lines after `startLine` with the nesting counter. */
  method ScanClose(lines: seq<Line>, startLine: nat, endLine: nat) returns (found: bool, closeLine: nat)
    requires startLine < endLine <= |lines|
    ensures found <==> FoldingClose(lines, startLine, endLine).Some?
    ensures found ==> closeLine == FoldingClose(lines, startLine, endLine).value
  {
    var startIndent := lines[startLine].shift;
    var nextLine := startLine + 1;
    var nestingLevel := 1;
    found := false;
    ghost var close := FoldingClose(lines, startLine, endLine);
    while nextLine < endLine
      invariant nestingLevel >= 1
      invariant CloseFrom(lines, nextLine, endLine, startIndent, nestingLevel, LineDelta) == close
      decreases endLine - nextLine
    {
      if lines[nextLine].IsEmpty() {
        nextLine := nextLine + 1;
        continue;
      }
      if lines[nextLine].shift < startIndent {
        break;
      }
      var lineText := Trim(lines[nextLine].Text());
      assert LineDelta(lines[nextLine]) == Delta(lineText);
      if StartsWith(lineText, Marker) && |lineText| > |Marker| {
        nestingLevel := nestingLevel + 1;
      } else if lineText == Marker {
        nestingLevel := nestingLevel - 1;
        if nestingLevel == 0 {
          found := true;
          break;
        }
      }
      nextLine := nextLine + 1;
    }
    closeLine := nextLine;
  }

  /* ---------- The words after `folding` ---------- */

  predicate IsHexDigit(c: char) { IsDigit(c) || 'a' <= c <= 'f' || 'A' <= c <= 'F' }

  /**
   * `/^#([0-9A-Fa-f]{3}|[0-9A-Fa-f]{6})$/`: the three- and six-digit hex forms
   * of CSS Color Module Level 4 section 5.2.
   */
  predicate IsHexColor(w: string) {
    (|w| == 4 || |w| == 7) && w[0] == '#' && forall i :: 1 <= i < |w| ==> IsHexDigit(w[i])
  }

  /** `params.slice(startTag.length).trim().split(/\s+/)`. */
  function OptionWords(params: string): seq<string>
    requires StartsWith(params, Tag)
  {
    WsSplit(Trim(params[|Tag|..]))
  }

  /** The colour the `forEach` leaves behind: the last word that is a hex colour, or `""`. */
  function LastHexColor(words: seq<string>): string {
    if words == [] then ""
    else if IsHexColor(words[|words| - 1]) then words[|words| - 1]
    else LastHexColor(words[..|words| - 1])
  }

  /**
   * The colour is a word of the list that is a hex colour and no later word is
   * one; with no hex word at all it is empty.
   */
  lemma {:induction false} LastHexColorIsLast(words: seq<string>)
    ensures var c := LastHexColor(words);
      (c == "" && forall i :: 0 <= i < |words| ==> !IsHexColor(words[i]))
      || (exists k :: 0 <= k < |words| && words[k] == c && IsHexColor(c)
            && forall i :: k < i < |words| ==> !IsHexColor(words[i]))
  {
    if words != [] {
      var n := |words| - 1;
      if !IsHexColor(words[n]) {
        var init := words[..n];
        LastHexColorIsLast(init);
        assert forall i :: 0 <= i < n ==> words[i] == init[i];
      }
    }
  }

  /** The `forEach` over the words: `open` sets the flag, a hex colour replaces the colour. */
  method ReadOptions(words: seq<string>) returns (isOpen: bool, color: string)
    ensures isOpen <==> "open" in words
    ensures color == LastHexColor(words)
  {
    isOpen := false;
    color := "";
    for i := 0 to |words|
      invariant isOpen <==> "open" in words[..i]
      invariant color == LastHexColor(words[..i])
    {
      var part := words[i];
      if part == "open" {
        isOpen := true;
      } else if part != "" && IsHexColor(part) {
        color := part;
      }
      assert words[..i + 1][..i] == words[..i];
    }
    assert words[..|words|] == words;
  }

  /* ---------- Inner lines, title and body ---------- */

  /** `Math.min(lineIndent, startIndent)` leading spaces removed from the full line. */
  function StripBase(raw: string, base: nat): string {
    var lead := SkipPlainSpaces(raw, 0);
    raw[if lead < base then lead else base..]
  }

  /**
   * Exactly `min(leading spaces, base)` characters, all spaces, are removed: the
   * relative indentation beyond `base` survives and no line loses more than its own
   * leading spaces.
   */
  lemma StripBaseRemovesBase(raw: string, base: nat)
    ensures var r := StripBase(raw, base); var lead := SkipPlainSpaces(raw, 0);
      var k := if lead < base then lead else base;
      |r| == |raw| - k && raw == raw[..k] + r
      && (forall i :: 0 <= i < k ==> raw[i] == ' ')
      && SkipPlainSpaces(r, 0) == lead - k
  {
    var lead := SkipPlainSpaces(raw, 0);
    var k := if lead < base then lead else base;
    var r := raw[k..];
    assert raw == raw[..k] + r;
    SkipPlainSpacesSpec(raw, 0);
    SkipPlainSpacesShift(raw, k, lead);
  }

  /** Dropping `k` leading spaces of a run of `lead` leaves a run of `lead - k`. */
  lemma SkipPlainSpacesShift(s: string, k: nat, lead: nat)
    requires lead == SkipPlainSpaces(s, 0) && k <= lead
    ensures SkipPlainSpaces(s[k..], 0) == lead - k
  {
    var r := s[k..];
    SkipPlainSpacesSpec(s, 0);
    forall i | 0 <= i < lead - k ensures r[i] == ' ' {
      assert r[i] == s[k + i];
    }
    if lead < |s| {
      assert r[lead - k] == s[lead];
    }
    SkipPlainSpacesAt(r, 0, lead - k);
  }

  /** The inner lines `lo .. hi - 1` with the base indentation removed. */
  function StrippedLines(lines: seq<Line>, lo: nat, hi: nat, base: nat): (r: seq<string>)
    requires lo <= hi <= |lines|
    ensures |r| == hi - lo
    decreases hi
  {
    if hi == lo then [] else StrippedLines(lines, lo, hi - 1, base) + [StripBase(lines[hi - 1].raw, base)]
  }

  /** The accumulated `content`: every stripped inner line followed by `\n`. */
  function Content(lines: seq<Line>, lo: nat, hi: nat, base: nat): string
    requires lo <= hi <= |lines|
    decreases hi
  {
    if hi == lo then "" else Content(lines, lo, hi - 1, base) + StripBase(lines[hi - 1].raw, base) + "\n"
  }

  /** The `for` loop that builds `content`, counting each line's leading spaces with a `while` loop. */
  method ExtractContent(lines: seq<Line>, lo: nat, hi: nat, base: nat) returns (content: string)
    requires lo <= hi <= |lines|
    ensures content == Content(lines, lo, hi, base)
  {
    content := "";
    for i := lo to hi
      invariant content == Content(lines, lo, i, base)
    {
      var fullLine := lines[i].raw;
      var lineIndent := 0;
      while lineIndent < |fullLine| && fullLine[lineIndent] == ' '
        invariant lineIndent <= |fullLine|
        invariant SkipPlainSpaces(fullLine, lineIndent) == SkipPlainSpaces(fullLine, 0)
        decreases |fullLine| - lineIndent
      {
        lineIndent := lineIndent + 1;
      }
      var indentToRemove := if lineIndent < base then lineIndent else base;
      content := content + fullLine[indentToRemove..] + "\n";
    }
  }

  /** `lines[0]?.trim() || "折叠框"` on `content.split("\n")`. */
  function Title(content: string): string {
    var first := Trim(Split(content, '\n')[0]);
    if first != "" then first else DefaultTitle
  }

  /** `lines.slice(1).join("\n").trim()`. */
  function Body(content: string): string {
    Trim(Join(Split(content, '\n')[1..], "\n"))
  }

  /** The content is the stripped lines joined by `\n`, with a final `\n`. */
  lemma {:induction false} ContentIsJoin(lines: seq<Line>, lo: nat, hi: nat, base: nat)
    requires lo <= hi <= |lines|
    ensures Content(lines, lo, hi, base) == Join(StrippedLines(lines, lo, hi, base) + [""], "\n")
    decreases hi
  {
    if hi > lo {
      ContentIsJoin(lines, lo, hi - 1, base);
      var ls := StrippedLines(lines, lo, hi - 1, base);
      var x := StripBase(lines[hi - 1].raw, base);
      JoinSnoc(ls, x, "\n");
      assert StrippedLines(lines, lo, hi, base) + [""] == ls + [x] + [""];
    }
  }

  /**
   * The title is the first stripped inner line, trimmed, or `折叠框` when that is
   * empty or there is no inner line; the body is the remaining lines joined by
   * `\n` and trimmed.
   */
  lemma TitleAndBody(lines: seq<Line>, lo: nat, hi: nat, base: nat)
    requires lo <= hi <= |lines| && SplitLines(lines)
    ensures var ls := StrippedLines(lines, lo, hi, base);
      var content := Content(lines, lo, hi, base);
      && Title(content) == (if ls != [] && Trim(ls[0]) != "" then Trim(ls[0]) else DefaultTitle)
      && Body(content) == (if ls == [] then "" else Trim(Join(ls[1..], "\n")))
  {
    var ls := StrippedLines(lines, lo, hi, base);
    StrippedLinesHaveNoNewline(lines, lo, hi, base);
    ContentIsJoin(lines, lo, hi, base);
    SplitJoin(ls + [""], '\n');
    var parts := ls + [""];
    if ls != [] {
      assert parts[0] == ls[0];
      assert parts[1..] == ls[1..] + [""];
      if |ls| > 1 {
        JoinAppendEmpty(ls[1..], "\n");
        TrimAppendSpace(Join(ls[1..], "\n"), '\n');
      }
    }
  }

  lemma {:induction false} StrippedLinesHaveNoNewline(lines: seq<Line>, lo: nat, hi: nat, base: nat)
    requires lo <= hi <= |lines| && SplitLines(lines)
    ensures forall i :: 0 <= i < hi - lo ==> '\n' !in StrippedLines(lines, lo, hi, base)[i]
    decreases hi
  {
    if hi > lo {
      StrippedLinesHaveNoNewline(lines, lo, hi - 1, base);
      var raw := lines[hi - 1].raw;
      StripBaseRemovesBase(raw, base);
    }
  }

  /* ---------- The HTML ---------- */

  /** The `ontoggle` handler around the colour: paint the summary when opened, clear it when closed and not hovered. */
  const ToggleHead: string :=
    "var s=this.querySelector(" + "'summary');" + "if(this.open){" + "s.style.backgroundColor='"
  const ToggleTail: string :=
    "'}else{setTimeout(" + "function(){" + "if(!s.matches(':hover')){" + "s.style.backgroundColor=''" + "}},10)}"
  /** The `onmouseout` handler: clear the summary's background unless the panel is open. */
  const MouseOutScript: string :=
    "if(!this.parentElement" + ".open){" + "this.style" + ".backgroundColor=''}"

  function ToggleScript(color: string): string {
    ToggleHead + color + ToggleTail
  }

  /** The `<details>` start tag: class, then `open`, then the colour's style and toggle handler. */
  function DetailsTag(isOpen: bool, color: string): StartTag {
    StartTag("details", [DetailsClass(color)] + OpenAttrs(isOpen) + ColorAttrs(color))
  }

  function DetailsClass(color: string): Attr {
    Attr("class", "folding-tag" + (if color != "" then " custom-color" else ""))
  }

  function OpenAttrs(isOpen: bool): seq<Attr> {
    if isOpen then [Attr("open", "")] else []
  }

  function ColorAttrs(color: string): seq<Attr> {
    if color != "" then [Attr("style", "border-color: " + color + ";"), Attr("ontoggle", ToggleScript(color))] else []
  }

  /** The `<summary>` start tag: a background only for an open panel with a colour, hover handlers for any colour. */
  function SummaryTag(isOpen: bool, color: string): StartTag {
    StartTag("summary", SummaryStyle(isOpen, color) + HoverAttrs(color))
  }

  function SummaryStyle(isOpen: bool, color: string): seq<Attr> {
    if color != "" && isOpen then [Attr("style", "background-color: " + color + ";")] else []
  }

  function HoverAttrs(color: string): seq<Attr> {
    if color != "" then
      [Attr("onmouseover", "this.style.backgroundColor='" + color + "'"),
       Attr("onmouseout", MouseOutScript)]
    else []
  }

  /** The panel: the two start tags, the escaped title, and the rendered body. */
  function FoldingHtml(title: string, isOpen: bool, color: string, rendered: string, md: Renderer): string {
    RenderStartTag(DetailsTag(isOpen, color)) + PanelInside(title, isOpen, color, rendered, md)
  }

  /** Everything after the `<details>` tag. */
  function PanelInside(title: string, isOpen: bool, color: string, rendered: string, md: Renderer): string {
    "\n  " + RenderStartTag(SummaryTag(isOpen, color)) + " " + md.escapeHtml(title) + " </summary>\n"
    + "  <div class=\"content\">\n" + rendered + "\n  </div>\n</details>"
  }

  /**
   * What the `<details>` tag says: ` open=""` iff the panel is open; the
   * `custom-color` class, the border style and the toggle handler iff a colour
   * was given.
   */
  lemma DetailsTagAttrs(isOpen: bool, color: string)
    ensures var d := DetailsTag(isOpen, color).attrs;
      && AttrValue(d, "class") == Some("folding-tag" + if color != "" then " custom-color" else "")
      && AttrValue(d, "open") == (if isOpen then Some("") else None)
      && AttrValue(d, "style") == (if color != "" then Some("border-color: " + color + ";") else None)
      && (AttrValue(d, "ontoggle").Some? <==> color != "")
  {
    var a, b, c := [DetailsClass(color)], OpenAttrs(isOpen), ColorAttrs(color);
    AttrValue3(a, b, c, "class");
    AttrValue3(a, b, c, "open");
    AttrValue3(a, b, c, "style");
    AttrValue3(a, b, c, "ontoggle");
    AttrValueAbsent(b, "class");
    AttrValueAbsent(c, "class");
    AttrValueAbsent(c, "open");
    AttrValueAbsent(b, "style");
    AttrValueAbsent(b, "ontoggle");
  }

  /**
   * What the `<summary>` tag says: a background style iff a colour was given
   * and the panel is open; hover handlers iff a colour was given.
   */
  lemma SummaryTagAttrs(isOpen: bool, color: string)
    ensures var s := SummaryTag(isOpen, color).attrs;
      && AttrValue(s, "style") == (if color != "" && isOpen then Some("background-color: " + color + ";") else None)
      && (AttrValue(s, "onmouseover").Some? <==> color != "")
  {
    var a, b := SummaryStyle(isOpen, color), HoverAttrs(color);
    AttrValueAppend(a, b, "style");
    AttrValueAppend(a, b, "onmouseover");
    AttrValueAbsent(b, "style");
  }

  /** The output starts with the `<details>` tag, which reads back exactly, attribute by attribute. */
  lemma FoldingHtmlStartTag(title: string, isOpen: bool, color: string, rendered: string, md: Renderer)
    requires color == "" || IsHexColor(color)
    ensures var r := ReadStartTag(FoldingHtml(title, isOpen, color, rendered, md));
      r.Some? && r.value.0 == DetailsTag(isOpen, color)
  {
    DetailsTagWellFormed(isOpen, color);
    ReadRenderStartTag(DetailsTag(isOpen, color), PanelInside(title, isOpen, color, rendered, md));
  }

  /** With a hex colour (or none) the `<details>` tag renders unambiguously. */
  lemma DetailsTagWellFormed(isOpen: bool, color: string)
    requires color == "" || IsHexColor(color)
    ensures WellFormedTag(DetailsTag(isOpen, color))
  {
    ClassAttrWellFormed(color);
    assert WellFormedAttrs(OpenAttrs(isOpen));
    ColorAttrsWellFormed(color);
    WellFormedAttrsAppend([DetailsClass(color)], OpenAttrs(isOpen));
    WellFormedAttrsAppend([DetailsClass(color)] + OpenAttrs(isOpen), ColorAttrs(color));
  }

  lemma ClassAttrWellFormed(color: string)
    ensures WellFormedAttrs([DetailsClass(color)])
  {
    assert '"' !in "folding-tag" && '"' !in " custom-color";
  }

  lemma ColorAttrsWellFormed(color: string)
    requires color == "" || IsHexColor(color)
    ensures WellFormedAttrs(ColorAttrs(color))
  {
    if color != "" {
      HexColorHasNoQuote(color);
      ToggleScriptHasNoQuote(color);
      var c := ColorAttrs(color);
      assert WellFormedAttr(c[0]);
      assert WellFormedAttr(c[1]);
    }
  }

  lemma ToggleScriptHasNoQuote(color: string)
    requires '"' !in color
    ensures '"' !in ToggleScript(color)
  {
    ToggleHasNoQuote();
  }

  /** The toggle handler's text contains no double quote, so it can sit inside a quoted attribute. */
  lemma ToggleHasNoQuote()
    ensures '"' !in ToggleHead && '"' !in ToggleTail
  {
    ToggleHeadHasNoQuote();
  }

  lemma ToggleHeadHasNoQuote()
    ensures '"' !in ToggleHead
  {
  }

  lemma HexColorHasNoQuote(color: string)
    requires color == "" || IsHexColor(color)
    ensures '"' !in color
  {
    if color != "" {
      forall i | 0 <= i < |color| ensures color[i] != '"' {
        if i > 0 { assert IsHexDigit(color[i]); }
      }
    }
  }

  /* ---------- The rule ---------- */

  /**
   * The `html_block` token's text for the block from `startLine` to
   * `closeLine`: the options read from `params`, the title and body taken from
   * the inner lines with the opening line's indentation removed.
   */
  function PanelHtml(lines: seq<Line>, startLine: nat, closeLine: nat, params: string, md: Renderer): string
    requires startLine < closeLine <= |lines| && StartsWith(params, Tag)
  {
    var words := OptionWords(params);
    var content := Content(lines, startLine + 1, closeLine, lines[startLine].shift);
    FoldingHtml(Title(content), "open" in words, LastHexColor(words), md.render(Body(content)), md)
  }

  /** The `html_block` token for the block, mapped to the opening line through the closing line. */
  function PanelToken(lines: seq<Line>, startLine: nat, closeLine: nat, params: string, md: Renderer): Token
    requires startLine < closeLine < |lines| && StartsWith(params, Tag)
  {
    Token("html_block", "", 0, PanelHtml(lines, startLine, closeLine, params, md), Some((startLine, closeLine + 1)), Marker)
  }

  /** The body of the rule after the match: read the options, collect the inner lines, render the panel. */
  method BuildPanel(lines: seq<Line>, startLine: nat, closeLine: nat, params: string, md: Renderer) returns (html: string)
    requires startLine < closeLine <= |lines| && StartsWith(params, Tag)
    ensures html == PanelHtml(lines, startLine, closeLine, params, md)
  {
    var isOpen, color := ReadOptions(OptionWords(params));
    var content := ExtractContent(lines, startLine + 1, closeLine, lines[startLine].shift);
    var title := Title(content);
    var bodyContent := Body(content);
    var renderedContent := md.render(bodyContent);
    html := FoldingHtml(title, isOpen, color, renderedContent, md);
  }

  /** The token the rule pushes, with the panel as its content. */
  method BuildToken(lines: seq<Line>, startLine: nat, closeLine: nat, params: string, md: Renderer) returns (token: Token)
    requires startLine < closeLine < |lines| && StartsWith(params, Tag)
    ensures token == PanelToken(lines, startLine, closeLine, params, md)
  {
    var finalHtml := BuildPanel(lines, startLine, closeLine, params, md);
    token := Token("html_block", "", 0, finalHtml, Some((startLine, closeLine + 1)), Marker);
  }

  /**
   * `foldingBlockRule`: decline unless the line opens a folding block and the
   * closing line is found; in silent mode only report the match; otherwise emit
   * the panel's token and continue after the closing line. A declined or silent
   * call changes nothing.
   */
  method FoldingBlockRule(state: BlockState, startLine: nat, endLine: nat, silent: bool, md: Renderer)
    returns (ok: bool)
    requires startLine < endLine <= |state.lines|
    modifies state
    ensures var opener := OpenerParams(state.lines[startLine], Tag);
      var close := FoldingClose(state.lines, startLine, endLine);
      && (ok <==> opener.Some? && close.Some?)
      && (ok && !silent ==>
            && state.tokens == old(state.tokens) + [PanelToken(state.lines, startLine, close.value, opener.value, md)]
            && state.line == close.value + 1)
      && (!ok || silent ==> state.tokens == old(state.tokens) && state.line == old(state.line))
  {
    ok := false;
    var opener := OpenerParams(state.lines[startLine], Tag);
    if opener.Some? {
      var params := opener.value;
      var found, closeLine := ScanClose(state.lines, startLine, endLine);
      if found {
        ok := true;
        if !silent {
          var token := BuildToken(state.lines, startLine, closeLine, params, md);
          state.Push(token);
          state.line := closeLine + 1;
        }
      }
    }
  }

  /* ---------- Properties of the rule ---------- */

  /** No closing line is found exactly when no line closes the block. */
  lemma FoldingCloseMissing(lines: seq<Line>, startLine: nat, endLine: nat)
    requires startLine < endLine <= |lines|
    ensures FoldingClose(lines, startLine, endLine).None? <==> forall c :: !ClosesBlock(lines, startLine, endLine, c)
  {
    match FoldingClose(lines, startLine, endLine)
    case None =>
      forall c ensures !ClosesBlock(lines, startLine, endLine, c) {
        FoldingCloseIsFirstZero(lines, startLine, endLine, c);
      }
    case Some(c) => FoldingCloseIsFirstZero(lines, startLine, endLine, c);
  }

  /**
   * The emitted panel: its `<details>` tag reads back with ` open=""` iff the
   * word `open` was given and with a border style iff some word is a hex colour,
   * the colour being the last such word.
   */
  lemma FoldingPanelOptions(lines: seq<Line>, startLine: nat, closeLine: nat, params: string, md: Renderer)
    requires startLine < closeLine <= |lines| && StartsWith(params, Tag)
    ensures var words := OptionWords(params);
      var r := ReadStartTag(PanelHtml(lines, startLine, closeLine, params, md));
      && r.Some?
      && (AttrValue(r.value.0.attrs, "open").Some? <==> "open" in words)
      && (AttrValue(r.value.0.attrs, "style").Some? <==> exists w :: w in words && IsHexColor(w))
      && (AttrValue(r.value.0.attrs, "style").Some? ==>
            AttrValue(r.value.0.attrs, "style").value == "border-color: " + LastHexColor(words) + ";")
  {
    var words := OptionWords(params);
    var color := LastHexColor(words);
    LastHexColorIsLast(words);
    var content := Content(lines, startLine + 1, closeLine, lines[startLine].shift);
    FoldingHtmlStartTag(Title(content), "open" in words, color, md.render(Body(content)), md);
    DetailsTagAttrs("open" in words, color);
    if exists w :: w in words && IsHexColor(w) {
      var w :| w in words && IsHexColor(w);
      assert w != "";
    }
  }
}
