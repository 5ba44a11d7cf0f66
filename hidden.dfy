/**
 * The `hidden` plugin: content behind a button that reveals it.
 *
 * ```
 * :::hidden display="Show answer" bg=#eee color=red
 * block body ...
 * :::
 *
 * text {hide display=Spoiler}inline body{/hide} text
 * ```
 *
 * The block rule closes at the first `:::` line (no nesting), renders the
 * trimmed inner text and wraps it in a `hide-block` panel; the inline rule
 * reads `{hide params}content{/hide}` with a regular expression and wraps the
 * inline rendering in a `hide-inline` span. Both take `display`, `bg` and
 * `color` from the `key=value` parameters.
 */
module Hidden {
  import opened Text
  import opened Wrappers
  import opened Host
  import opened Html
  import opened Container
  import opened Params

  const Tag: string := "hidden"
  const BlockDisplay: string := "查看隐藏内容"
  const InlineDisplay: string := "查看"

  /* ---------- Finding the closing line ---------- */

  /**
   * The scan from line `i`: the first non-blank line that `isClose` accepts, or
   * `None` when a non-blank line is indented less than `indent` or `endLine` is
   * reached first. The rule's test is `IsCloser`; the lemmas hold for any test.
   */
  function FirstCloser(lines: seq<Line>, i: nat, endLine: nat, indent: nat, isClose: Line -> bool): (r: Option<nat>)
    requires endLine <= |lines|
    ensures r.Some? ==> i <= r.value < endLine
    decreases endLine - i
  {
    if i >= endLine then None
    else if lines[i].IsEmpty() then FirstCloser(lines, i + 1, endLine, indent, isClose)
    else if lines[i].shift < indent then None
    else if isClose(lines[i]) then Some(i)
    else FirstCloser(lines, i + 1, endLine, indent, isClose)
  }

  /** A closing line: exactly `:::` once trimmed. */
  predicate IsCloser(l: Line) {
    Trim(l.Text()) == Marker
  }

  /** The closing line of the block opened at `startLine`. */
  function HiddenClose(lines: seq<Line>, startLine: nat, endLine: nat): (r: Option<nat>)
    requires startLine < endLine <= |lines|
    ensures r.Some? ==> startLine < r.value < endLine
  {
    FirstCloser(lines, startLine + 1, endLine, lines[startLine].shift, IsCloser)
  }

  /** A line the scan walks past: blank, or indented enough and not a closing line. */
  predicate PassesOver(l: Line, indent: nat, isClose: Line -> bool) {
    l.IsEmpty() || (l.shift >= indent && !isClose(l))
  }

  /** Line `c` is a closing line at or after `i` and every line before it is walked past. */
  ghost predicate StopsAt(lines: seq<Line>, i: nat, endLine: nat, indent: nat, isClose: Line -> bool, c: nat)
    requires endLine <= |lines|
  {
    i <= c < endLine && !lines[c].IsEmpty() && lines[c].shift >= indent && isClose(lines[c])
    && forall j :: i <= j < c ==> PassesOver(lines[j], indent, isClose)
  }

  lemma {:induction false} FirstCloserIsFirst(lines: seq<Line>, i: nat, endLine: nat, indent: nat, isClose: Line -> bool, c: nat)
    requires endLine <= |lines|
    ensures FirstCloser(lines, i, endLine, indent, isClose) == Some(c) <==> StopsAt(lines, i, endLine, indent, isClose, c)
    decreases endLine - i
  {
    if i < endLine && PassesOver(lines[i], indent, isClose) {
      FirstCloserIsFirst(lines, i + 1, endLine, indent, isClose, c);
      if StopsAt(lines, i, endLine, indent, isClose, c) {
        assert c != i;
        assert StopsAt(lines, i + 1, endLine, indent, isClose, c);
      }
    }
  }

  /**
   * Line `c` closes the hidden block opened at `startLine`: it is the first
   * `:::` line after it, and no non-blank line before it is indented less than
   * the opening line.
   */
  ghost predicate ClosesHidden(lines: seq<Line>, startLine: nat, endLine: nat, c: nat)
    requires startLine < endLine <= |lines|
  {
    StopsAt(lines, startLine + 1, endLine, lines[startLine].shift, IsCloser, c)
  }

  lemma HiddenCloseIsFirstCloser(lines: seq<Line>, startLine: nat, endLine: nat, c: nat)
    requires startLine < endLine <= |lines|
    ensures HiddenClose(lines, startLine, endLine) == Some(c) <==> ClosesHidden(lines, startLine, endLine, c)
  {
    FirstCloserIsFirst(lines, startLine + 1, endLine, lines[startLine].shift, IsCloser, c);
  }

  /** No closing line is found exactly when no line closes the block. */
  lemma HiddenCloseMissing(lines: seq<Line>, startLine: nat, endLine: nat)
    requires startLine < endLine <= |lines|
    ensures HiddenClose(lines, startLine, endLine).None? <==> forall c :: !ClosesHidden(lines, startLine, endLine, c)
  {
    match HiddenClose(lines, startLine, endLine)
    case None =>
      forall c ensures !ClosesHidden(lines, startLine, endLine, c) {
        HiddenCloseIsFirstCloser(lines, startLine, endLine, c);
      }
    case Some(c) => HiddenCloseIsFirstCloser(lines, startLine, endLine, c);
  }

  /** The `while` loop of the block rule: stop at the first `:::` line. */
  method ScanHiddenClose(lines: seq<Line>, startLine: nat, endLine: nat) returns (found: bool, closeLine: nat)
    requires startLine < endLine <= |lines|
    ensures found <==> HiddenClose(lines, startLine, endLine).Some?
    ensures found ==> closeLine == HiddenClose(lines, startLine, endLine).value
  {
    var startIndent := lines[startLine].shift;
    var nextLine := startLine + 1;
    found := false;
    ghost var close := HiddenClose(lines, startLine, endLine);
    while nextLine < endLine
      invariant FirstCloser(lines, nextLine, endLine, startIndent, IsCloser) == close
      decreases endLine - nextLine
    {
      if lines[nextLine].IsEmpty() {
        nextLine := nextLine + 1;
        continue;
      }
      if lines[nextLine].shift < startIndent {
        break;
      }
      var lineText := Trim(lines[nextLine].Text());
      if lineText == Marker {
        found := true;
        break;
      }
      nextLine := nextLine + 1;
    }
    closeLine := nextLine;
  }

  /* ---------- The inner text ---------- */

  /** The inner lines `lo .. hi - 1` without their indentation. */
  function Texts(lines: seq<Line>, lo: nat, hi: nat): (r: seq<string>)
    requires lo <= hi <= |lines|
    ensures |r| == hi - lo
    decreases hi
  {
    if hi == lo then [] else Texts(lines, lo, hi - 1) + [lines[hi - 1].Text()]
  }

  /** The accumulated `content`: every inner line's text followed by `\n`. */
  function Collected(lines: seq<Line>, lo: nat, hi: nat): string
    requires lo <= hi <= |lines|
    decreases hi
  {
    if hi == lo then "" else Collected(lines, lo, hi - 1) + lines[hi - 1].Text() + "\n"
  }

  /** The `for` loop that builds `content`. */
  method CollectContent(lines: seq<Line>, lo: nat, hi: nat) returns (content: string)
    requires lo <= hi <= |lines|
    ensures content == Collected(lines, lo, hi)
  {
    content := "";
    for i := lo to hi
      invariant content == Collected(lines, lo, i)
    {
      var lineContent := lines[i].Text();
      content := content + lineContent + "\n";
    }
  }

  /** The content is the inner texts joined by `\n`, with a final `\n`. */
  lemma {:induction false} CollectedIsJoin(lines: seq<Line>, lo: nat, hi: nat)
    requires lo <= hi <= |lines|
    ensures Collected(lines, lo, hi) == Join(Texts(lines, lo, hi) + [""], "\n")
    decreases hi
  {
    if hi > lo {
      CollectedIsJoin(lines, lo, hi - 1);
      var ts := Texts(lines, lo, hi - 1);
      var x := lines[hi - 1].Text();
      calc {
        Collected(lines, lo, hi);
        Collected(lines, lo, hi - 1) + x + "\n";
        Join(ts + [""], "\n") + x + "\n";
        { JoinSnoc(ts, x, "\n"); }
        Join(ts + [x] + [""], "\n");
        { assert Texts(lines, lo, hi) == ts + [x]; }
        Join(Texts(lines, lo, hi) + [""], "\n");
      }
    }
  }

  lemma {:induction false} TextsHaveNoNewline(lines: seq<Line>, lo: nat, hi: nat)
    requires lo <= hi <= |lines| && SplitLines(lines)
    ensures forall i :: 0 <= i < hi - lo ==> '\n' !in Texts(lines, lo, hi)[i]
    decreases hi
  {
    if hi > lo {
      TextsHaveNoNewline(lines, lo, hi - 1);
      var l := lines[hi - 1];
      assert '\n' !in l.raw;
      if l.shift <= |l.raw| {
        forall k | 0 <= k < |l.Text()| ensures l.Text()[k] != '\n' {
          assert l.Text()[k] == l.raw[l.shift + k];
        }
      }
    }
  }

  /**
   * The content splits at `\n` back into the inner lines (and a final empty
   * part), and the rendered body is the inner lines joined by `\n`, trimmed.
   */
  lemma HiddenBody(lines: seq<Line>, lo: nat, hi: nat)
    requires lo <= hi <= |lines| && SplitLines(lines)
    ensures Split(Collected(lines, lo, hi), '\n') == Texts(lines, lo, hi) + [""]
    ensures Trim(Collected(lines, lo, hi)) == Trim(Join(Texts(lines, lo, hi), "\n"))
  {
    var ts := Texts(lines, lo, hi);
    CollectedIsJoin(lines, lo, hi);
    TextsHaveNoNewline(lines, lo, hi);
    SplitJoin(ts + [""], '\n');
    if ts != [] {
      JoinAppendEmpty(ts, "\n");
      TrimAppendSpace(Join(ts, "\n"), '\n');
    }
  }

  /* ---------- The button ---------- */

  /** The style declarations: the background, then the text colour, each only when given. */
  function Styles(bg: string, color: string): seq<string> {
    (if bg != "" then ["background-color: " + bg] else [])
    + (if color != "" then ["color: " + color] else [])
  }

  /** ` style="..."` with the declarations joined by `;`, present only when a colour is given. */
  function StyleAttrs(bg: string, color: string): seq<Attr> {
    if bg != "" || color != "" then [Attr("style", Join(Styles(bg, color), ";"))] else []
  }

  /** The click handlers: hide the button, show the next element as a block or inline. */
  const BlockReveal: string :=
    "this.style.display=" + "'none';this.nextElement" + "Sibling.style.display=" + "'block'"
  const InlineReveal: string :=
    "this.style.display=" + "'none';this.nextElement" + "Sibling.style.display=" + "'inline'"

  /** `<button type="button" class="hide-button" [style] onclick="...">`. */
  function ButtonTag(bg: string, color: string, handler: string): StartTag {
    StartTag("button", [Attr("type", "button"), Attr("class", "hide-button")] + StyleAttrs(bg, color) + [Attr("onclick", handler)])
  }

  /**
   * The style attribute splits at `;` back into the declarations when the
   * colours hold no `;`; it holds a background declaration iff `bg` is given
   * and a colour declaration iff `color` is given.
   */
  lemma StylesSplit(bg: string, color: string)
    requires bg != "" || color != ""
    requires ';' !in bg && ';' !in color
    ensures Split(Join(Styles(bg, color), ";"), ';') == Styles(bg, color)
    ensures ("background-color: " + bg in Styles(bg, color)) <==> bg != ""
    ensures ("color: " + color in Styles(bg, color)) <==> color != ""
  {
    var s := Styles(bg, color);
    assert ';' !in "background-color: " && ';' !in "color: ";
    forall i | 0 <= i < |s| ensures ';' !in s[i] {
    }
    SplitJoin(s, ';');
    if bg == "" {
      assert s == ["color: " + color];
      assert ("background-color: " + bg)[0] == 'b';
    }
    if color == "" {
      assert s == ["background-color: " + bg];
      assert ("color: " + color)[..2] == "co";
      assert ("background-color: " + bg)[..2] == "ba";
    }
  }

  /** What the button says: its type and class, the style iff a colour is given, and the handler. */
  lemma ButtonAttrs(bg: string, color: string, handler: string)
    ensures var a := ButtonTag(bg, color, handler).attrs;
      && AttrValue(a, "class") == Some("hide-button")
      && AttrValue(a, "style") == (if bg != "" || color != "" then Some(Join(Styles(bg, color), ";")) else None)
      && AttrValue(a, "onclick") == Some(handler)
  {
    var a, b, c := [Attr("type", "button"), Attr("class", "hide-button")], StyleAttrs(bg, color), [Attr("onclick", handler)];
    AttrValue3(a, b, c, "class");
    AttrValue3(a, b, c, "style");
    AttrValue3(a, b, c, "onclick");
    AttrValueAbsent(a, "style");
    AttrValueAbsent(a, "onclick");
    AttrValueAbsent(b, "onclick");
  }

  lemma RevealsHaveNoQuote()
    ensures '"' !in BlockReveal && '"' !in InlineReveal
  {
  }

  /** With colours free of `"` the button renders unambiguously. */
  lemma ButtonWellFormed(bg: string, color: string, handler: string)
    requires '"' !in bg && '"' !in color && '"' !in handler
    ensures WellFormedTag(ButtonTag(bg, color, handler))
  {
    var a, b, c := [Attr("type", "button"), Attr("class", "hide-button")], StyleAttrs(bg, color), [Attr("onclick", handler)];
    FixedAttrsWellFormed();
    StyleAttrsWellFormed(bg, color);
    assert WellFormedAttrs(c) by {
      assert WellFormedAttr(c[0]);
    }
    WellFormedAttrsAppend(a, b);
    WellFormedAttrsAppend(a + b, c);
    assert WellFormedTag(ButtonTag(bg, color, handler)) by {
      assert ' ' !in "button" && '>' !in "button";
    }
  }

  lemma FixedAttrsWellFormed()
    ensures WellFormedAttrs([Attr("type", "button"), Attr("class", "hide-button")])
  {
    var a := [Attr("type", "button"), Attr("class", "hide-button")];
    assert WellFormedAttr(a[0]);
    assert WellFormedAttr(a[1]);
  }

  lemma StyleAttrsWellFormed(bg: string, color: string)
    requires '"' !in bg && '"' !in color
    ensures WellFormedAttrs(StyleAttrs(bg, color))
  {
    var s := Styles(bg, color);
    assert '"' !in "background-color: " && '"' !in "color: ";
    forall i | 0 <= i < |s| ensures '"' !in s[i] {
    }
    JoinAvoids(s, ";", '"');
  }

  /* ---------- The HTML ---------- */

  const BlockOpen: string := "<div class=\"hide-block\">"
  const BlockMiddle: string := "\n    </button><div class=\"hide-content\" style=\"display: none;\">\n"
  const BlockEnd: string := "\n</div></div>"
  const InlineOpen: string := "<span class=\"hide-inline\">"
  const InlineMiddle: string := "  </button><span class=\"hide-content\" style=\"display: none;\">"
  const InlineEnd: string := "</span></span>"

  /** What follows the block button: the escaped label, then the hidden rendered body. */
  function BlockRest(display: string, rendered: string, md: Renderer): string {
    md.escapeHtml(display) + BlockMiddle + rendered + BlockEnd
  }

  /** What follows the inline button: the escaped label, then the hidden inline rendering. */
  function InlineRest(display: string, rendered: string, md: Renderer): string {
    md.escapeHtml(display) + InlineMiddle + rendered + InlineEnd
  }

  /** The block panel: a `hide-block` div holding the button and the hidden body. */
  function BlockHtml(display: string, bg: string, color: string, rendered: string, md: Renderer): string {
    BlockOpen + RenderStartTag(ButtonTag(bg, color, BlockReveal)) + BlockRest(display, rendered, md)
  }

  /** The inline span: a `hide-inline` span holding the button and the hidden inline rendering. */
  function InlineHtml(display: string, bg: string, color: string, rendered: string, md: Renderer): string {
    InlineOpen + RenderStartTag(ButtonTag(bg, color, InlineReveal)) + InlineRest(display, rendered, md)
  }

  /** After the opening `<div>`, the block panel's button reads back exactly, followed by the label and body. */
  lemma BlockHtmlButton(display: string, bg: string, color: string, rendered: string, md: Renderer)
    requires '"' !in bg && '"' !in color
    ensures var h := BlockHtml(display, bg, color, rendered, md);
      && StartsWith(h, BlockOpen)
      && ReadStartTag(h[|BlockOpen|..]) == Some((ButtonTag(bg, color, BlockReveal), BlockRest(display, rendered, md)))
  {
    RevealsHaveNoQuote();
    ButtonWellFormed(bg, color, BlockReveal);
    ReadTagAfter(BlockOpen, ButtonTag(bg, color, BlockReveal), BlockRest(display, rendered, md));
  }

  /** After the opening `<span>`, the inline span's button reads back exactly, followed by the label and body. */
  lemma InlineHtmlButton(display: string, bg: string, color: string, rendered: string, md: Renderer)
    requires '"' !in bg && '"' !in color
    ensures var h := InlineHtml(display, bg, color, rendered, md);
      && StartsWith(h, InlineOpen)
      && ReadStartTag(h[|InlineOpen|..]) == Some((ButtonTag(bg, color, InlineReveal), InlineRest(display, rendered, md)))
  {
    RevealsHaveNoQuote();
    ButtonWellFormed(bg, color, InlineReveal);
    ReadTagAfter(InlineOpen, ButtonTag(bg, color, InlineReveal), InlineRest(display, rendered, md));
  }

  /* ---------- The block rule ---------- */

  /** The panel for the block opened at `startLine` and closed at `closeLine`. */
  function PanelHtml(lines: seq<Line>, startLine: nat, closeLine: nat, params: string, md: Renderer): string
    requires startLine < closeLine <= |lines| && StartsWith(params, Tag)
  {
    var opts := ParamMap(Trim(params[|Tag|..]));
    BlockHtml(ParamOr(opts, "display", BlockDisplay), ParamOr(opts, "bg", ""), ParamOr(opts, "color", ""),
              md.render(Trim(Collected(lines, startLine + 1, closeLine))), md)
  }

  function PanelToken(lines: seq<Line>, startLine: nat, closeLine: nat, params: string, md: Renderer): Token
    requires startLine < closeLine < |lines| && StartsWith(params, Tag)
  {
    Token("html_block", "", 0, PanelHtml(lines, startLine, closeLine, params, md), Some((startLine, closeLine + 1)), Marker)
  }

  /** The panel from the parsed parameters and the collected lines. */
  lemma PanelHtmlFrom(lines: seq<Line>, startLine: nat, closeLine: nat, params: string, md: Renderer,
                      parsed: map<string, string>, content: string)
    requires startLine < closeLine < |lines| && StartsWith(params, Tag)
    requires parsed == ParamMap(Trim(params[|Tag|..])) && content == Collected(lines, startLine + 1, closeLine)
    ensures PanelHtml(lines, startLine, closeLine, params, md)
      == BlockHtml(ParamOr(parsed, "display", BlockDisplay), ParamOr(parsed, "bg", ""), ParamOr(parsed, "color", ""),
                   md.render(Trim(content)), md)
  {
  }

  /** The body of the block rule after the match: parameters, content, label, colours, rendering. */
  method BuildPanel(lines: seq<Line>, startLine: nat, closeLine: nat, params: string, md: Renderer) returns (token: Token)
    requires startLine < closeLine < |lines| && StartsWith(params, Tag)
    ensures token == PanelToken(lines, startLine, closeLine, params, md)
  {
    var paramsParts := Trim(params[|Tag|..]);
    var parsedParams := ParseParams(paramsParts);
    var content := CollectContent(lines, startLine + 1, closeLine);
    var hiddenContent := Trim(content);
    var displayText := ParamOr(parsedParams, "display", BlockDisplay);
    var bgColor := ParamOr(parsedParams, "bg", "");
    var textColor := ParamOr(parsedParams, "color", "");
    var renderedContent := md.render(hiddenContent);
    var finalHtml := BlockHtml(displayText, bgColor, textColor, renderedContent, md);
    PanelHtmlFrom(lines, startLine, closeLine, params, md, parsedParams, content);
    var lineMap: (nat, nat) := (startLine, closeLine + 1);
    token := Token("html_block", "", 0, finalHtml, Some(lineMap), Marker);
  }

  /**
   * `hiddenBlockRule`: decline unless the line opens a hidden block and a
   * closing `:::` is found; in silent mode only report the match; otherwise
   * emit the panel and continue after the closing line. A declined or silent
   * call changes nothing.
   */
  method HiddenBlockRule(state: BlockState, startLine: nat, endLine: nat, silent: bool, md: Renderer)
    returns (ok: bool)
    requires startLine < endLine <= |state.lines|
    modifies state
    ensures var opener := OpenerParams(state.lines[startLine], Tag);
      var close := HiddenClose(state.lines, startLine, endLine);
      && (ok <==> opener.Some? && close.Some?)
      && (ok && !silent ==>
            && state.tokens == old(state.tokens) + [PanelToken(state.lines, startLine, close.value, opener.value, md)]
            && state.line == close.value + 1)
      && (!ok || silent ==> state.tokens == old(state.tokens) && state.line == old(state.line))
  {
    ok := false;
    var opener := OpenerParams(state.lines[startLine], Tag);
    if opener.Some? {
      var found, closeLine := ScanHiddenClose(state.lines, startLine, endLine);
      if found {
        ok := true;
        if !silent {
          var token := BuildPanel(state.lines, startLine, closeLine, opener.value, md);
          state.Push(token);
          state.line := closeLine + 1;
        }
      }
    }
  }

  /**
   * The emitted panel's button: it reads back with a style iff `bg` or `color`
   * was given, the style's declarations being exactly the given colours, and
   * the label is the escaped `display` parameter or its default.
   */
  lemma PanelButton(lines: seq<Line>, startLine: nat, closeLine: nat, params: string, md: Renderer)
    requires startLine < closeLine <= |lines| && StartsWith(params, Tag)
    requires var opts := ParamMap(Trim(params[|Tag|..]));
      '"' !in ParamOr(opts, "bg", "") && '"' !in ParamOr(opts, "color", "")
    ensures var opts := ParamMap(Trim(params[|Tag|..]));
      var bg, color := ParamOr(opts, "bg", ""), ParamOr(opts, "color", "");
      var h := PanelHtml(lines, startLine, closeLine, params, md);
      && StartsWith(h, BlockOpen)
      && var r := ReadStartTag(h[|BlockOpen|..]);
      && r.Some?
      && (AttrValue(r.value.0.attrs, "style").Some? <==> bg != "" || color != "")
      && (AttrValue(r.value.0.attrs, "style").Some? ==> AttrValue(r.value.0.attrs, "style").value == Join(Styles(bg, color), ";"))
      && StartsWith(r.value.1, md.escapeHtml(ParamOr(opts, "display", BlockDisplay)) + BlockMiddle)
  {
    var opts := ParamMap(Trim(params[|Tag|..]));
    var display, bg, color := ParamOr(opts, "display", BlockDisplay), ParamOr(opts, "bg", ""), ParamOr(opts, "color", "");
    var rendered := md.render(Trim(Collected(lines, startLine + 1, closeLine)));
    BlockHtmlButton(display, bg, color, rendered, md);
    ButtonAttrs(bg, color, BlockReveal);
    StartsWithConcat(md.escapeHtml(display) + BlockMiddle, rendered + BlockEnd);
  }

  /* ---------- The inline rule ---------- */

  const HideOpen: string := "{hide"
  const HideClose: string := "{/hide}"

  /** `{hide` followed by white space at `p`: where a match of the pattern can begin. */
  predicate HideStartAt(fc: string, p: nat) {
    OccursAt(fc, HideOpen, p) && p + 5 < |fc| && IsSpace(fc[p + 5])
  }

  function FirstHideStart(fc: string, from: nat): (r: Option<nat>)
    ensures r.Some? ==> from <= r.value && HideStartAt(fc, r.value)
    decreases |fc| - from
  {
    if from >= |fc| then None
    else if HideStartAt(fc, from) then Some(from)
    else FirstHideStart(fc, from + 1)
  }

  lemma {:induction false} FirstHideStartSpec(fc: string, from: nat)
    ensures var r := FirstHideStart(fc, from);
      && (r.Some? ==> forall q :: from <= q < r.value ==> !HideStartAt(fc, q))
      && (r.None? ==> forall q :: from <= q ==> !HideStartAt(fc, q))
    decreases |fc| - from
  {
    if from < |fc| && !HideStartAt(fc, from) {
      FirstHideStartSpec(fc, from + 1);
    }
  }

  /**
   * `/\{hide\s+(.*?)\}(.*?)\{\/hide\}/s` matches `fc` with `{hide` at `p`, the
   * white-space run `fc[p + 5..w]`, the first group `fc[w..c]`, `}` at `c`, the
   * second group `fc[c + 1..e]` and `{/hide}` at `e`.
   */
  ghost predicate HideRegexAt(fc: string, p: nat, w: nat, c: nat, e: nat) {
    p + 5 < w <= c < e && OccursAt(fc, HideClose, e) && OccursAt(fc, HideOpen, p)
    && (forall j :: p + 5 <= j < w ==> IsSpace(fc[j]))
    && fc[c] == '}'
  }

  /**
   * The match a backtracking engine returns: the leftmost start; there, the
   * longest white-space run (greedy `\s+`); then the nearest `}` and the nearest
   * `{/hide}` (lazy `.*?`).
   */
  ghost predicate PreferredHide(fc: string, p: nat, w: nat, c: nat, e: nat) {
    && HideRegexAt(fc, p, w, c, e)
    && (forall p': nat, w': nat, c': nat, e': nat :: HideRegexAt(fc, p', w', c', e') ==> p <= p')
    && (forall w': nat, c': nat, e': nat :: HideRegexAt(fc, p, w', c', e') ==> w' <= w)
    && (forall c': nat, e': nat :: HideRegexAt(fc, p, w, c', e') ==> c <= c')
    && (forall e': nat :: HideRegexAt(fc, p, w, c, e') ==> e <= e')
  }

  /** `fullContent.match(...)`: the two groups, or `None`. */
  function HideMatch(fc: string): Option<(string, string)> {
    match FirstHideStart(fc, 0)
    case None => None
    case Some(p) =>
      var w := SpaceRunEnd(fc, p + 5);
      var c := FindChar(fc, '}', w);
      if c == |fc| then None
      else
        var e := IndexOf(fc, HideClose, c + 1);
        if e < 0 then None else Some((fc[w..c], fc[c + 1..e]))
  }

  /** Every match begins with `{hide` and white space. */
  lemma HideRegexStarts(fc: string, p: nat, w: nat, c: nat, e: nat)
    requires HideRegexAt(fc, p, w, c, e)
    ensures HideStartAt(fc, p)
  {
  }

  /** Any match starts at or after the first `{hide` + white space, and its `}` lies past that start's white-space run. */
  lemma MatchAfterFirstStart(fc: string, p: nat, p': nat, w': nat, c': nat, e': nat)
    requires FirstHideStart(fc, 0) == Some(p) && HideRegexAt(fc, p', w', c', e')
    ensures p <= p' && SpaceRunEnd(fc, p + 5) <= c'
  {
    FirstHideStartSpec(fc, 0);
    HideRegexStarts(fc, p', w', c', e');
    SpaceRunEndSpec(fc, p + 5);
    if c' < SpaceRunEnd(fc, p + 5) {
      assert false;
    }
  }

  /** Past the white-space run, the nearest `}` and the nearest `{/hide}` after it exist whenever any match exists. */
  lemma MatchHasClose(fc: string, w: nat, c': nat, e': nat)
    requires w <= c' < e' && OccursAt(fc, HideClose, e') && fc[c'] == '}'
    ensures FindChar(fc, '}', w) <= c'
    ensures IndexOf(fc, HideClose, FindChar(fc, '}', w) + 1) >= 0
    ensures IndexOf(fc, HideClose, FindChar(fc, '}', w) + 1) <= e'
  {
    FindCharSpec(fc, '}', w);
    var c := FindChar(fc, '}', w);
    IndexOfSpec(fc, HideClose, c + 1);
  }

  /** The groups of `HideMatch` come from the preferred match. */
  lemma HideMatchPreferred(fc: string, p: nat, w: nat, c: nat, e: int)
    requires FirstHideStart(fc, 0) == Some(p) && HideMatch(fc).Some?
    requires p + 5 <= |fc| && w == SpaceRunEnd(fc, p + 5)
    requires c == FindChar(fc, '}', w) && c < |fc| && e == IndexOf(fc, HideClose, c + 1)
    ensures w <= c < e && PreferredHide(fc, p, w, c, e) && HideMatch(fc).value == (fc[w..c], fc[c + 1..e])
  {
    SpaceRunEndSpec(fc, p + 5);
    assert HideRegexAt(fc, p, w, c, e);
    HideLeftmost(fc, p);
    HideGreedySpace(fc, p, w);
    HideLazyClose(fc, p, w, c);
  }

  /** No match starts before the first `{hide`. */
  lemma HideLeftmost(fc: string, p: nat)
    requires FirstHideStart(fc, 0) == Some(p)
    ensures forall p': nat, w': nat, c': nat, e': nat :: HideRegexAt(fc, p', w', c', e') ==> p <= p'
  {
    forall p': nat, w': nat, c': nat, e': nat | HideRegexAt(fc, p', w', c', e') ensures p <= p' {
      MatchAfterFirstStart(fc, p, p', w', c', e');
    }
  }

  /** No match at `p` has a longer white-space run. */
  lemma HideGreedySpace(fc: string, p: nat, w: nat)
    requires p + 5 <= |fc| && w == SpaceRunEnd(fc, p + 5)
    ensures forall w': nat, c': nat, e': nat :: HideRegexAt(fc, p, w', c', e') ==> w' <= w
  {
    forall w': nat, c': nat, e': nat | HideRegexAt(fc, p, w', c', e') ensures w' <= w {
      if w' > w {
        assert false;
      }
    }
  }

  /** No match at `p` and `w` closes the parameters earlier, or the block earlier. */
  lemma HideLazyClose(fc: string, p: nat, w: nat, c: nat)
    requires w <= |fc| && c == FindChar(fc, '}', w)
    ensures forall c': nat, e': nat :: HideRegexAt(fc, p, w, c', e') ==> c <= c'
    ensures forall e': nat :: HideRegexAt(fc, p, w, c, e') ==> IndexOf(fc, HideClose, c + 1) <= e'
  {
    forall c': nat, e': nat | HideRegexAt(fc, p, w, c', e') ensures c <= c' {
      MatchHasClose(fc, w, c', e');
    }
    forall e': nat | HideRegexAt(fc, p, w, c, e') ensures IndexOf(fc, HideClose, c + 1) <= e' {
      MatchHasClose(fc, w, c, e');
    }
  }

  /** The groups `HideMatch` returns are those of the regular expression's match, and `None` means no match. */
  lemma HideMatchIsRegexMatch(fc: string)
    ensures HideMatch(fc).Some? ==> exists p: nat, w: nat, c: nat, e: nat ::
      PreferredHide(fc, p, w, c, e) && HideMatch(fc).value == (fc[w..c], fc[c + 1..e])
    ensures HideMatch(fc).None? ==> forall p: nat, w: nat, c: nat, e: nat :: !HideRegexAt(fc, p, w, c, e)
  {
    match FirstHideStart(fc, 0)
    case None => NoStartNoMatch(fc);
    case Some(p) =>
      if HideMatch(fc).Some? {
        var w := SpaceRunEnd(fc, p + 5);
        var c := FindChar(fc, '}', w);
        HideMatchPreferred(fc, p, w, c, IndexOf(fc, HideClose, c + 1));
      } else {
        NoCloseNoMatch(fc, p);
      }
  }

  /** Without `{hide` and white space there is no match. */
  lemma NoStartNoMatch(fc: string)
    requires FirstHideStart(fc, 0).None?
    ensures forall p: nat, w: nat, c: nat, e: nat :: !HideRegexAt(fc, p, w, c, e)
  {
    FirstHideStartSpec(fc, 0);
    forall p: nat, w: nat, c: nat, e: nat | HideRegexAt(fc, p, w, c, e) ensures false {
      HideRegexStarts(fc, p, w, c, e);
    }
  }

  /** Without a `}` and then `{/hide}` after the first start there is no match at all. */
  lemma NoCloseNoMatch(fc: string, p: nat)
    requires FirstHideStart(fc, 0) == Some(p) && HideMatch(fc).None?
    ensures forall p': nat, w': nat, c': nat, e': nat :: !HideRegexAt(fc, p', w', c', e')
  {
    forall p': nat, w': nat, c': nat, e': nat | HideRegexAt(fc, p', w', c', e') ensures false {
      MatchAfterFirstStart(fc, p, p', w', c', e');
      MatchHasClose(fc, SpaceRunEnd(fc, p + 5), c', e');
    }
  }

  /** The inline span for `{hide params}content{/hide}`. */
  function InlineSpan(params: string, content: string, md: Renderer): string {
    var opts := ParamMap(params);
    InlineHtml(ParamOr(opts, "display", InlineDisplay), ParamOr(opts, "bg", ""), ParamOr(opts, "color", ""),
               md.renderInline(Trim(content)), md)
  }

  /** `src.indexOf("{/hide}", start + 5)` when `{hide` is at `start`, otherwise -1. */
  function HideEnd(src: string, start: nat): (r: int)
    ensures r >= 0 ==> start + |HideOpen| <= r && OccursAt(src, HideClose, r)
  {
    if OccursAt(src, HideOpen, start) then IndexOf(src, HideClose, start + 5) else -1
  }

  /** The part of the rule after `{/hide}` is found: parameters, label, colours, rendering. */
  method BuildSpan(paramsStr: string, content: string, md: Renderer) returns (html: string)
    ensures html == InlineSpan(paramsStr, content, md)
  {
    var parsedParams := ParseParams(paramsStr);
    var displayText := ParamOr(parsedParams, "display", InlineDisplay);
    var bgColor := ParamOr(parsedParams, "bg", "");
    var textColor := ParamOr(parsedParams, "color", "");
    var renderedContent := md.renderInline(Trim(content));
    html := InlineHtml(displayText, bgColor, textColor, renderedContent, md);
  }

  /** The rule's opening test, a `{` followed by `hide`, is `{hide` at `start`. */
  lemma HideOpenTest(src: string, start: nat)
    ensures (start < |src| && src[start] == '{' && start + 5 <= |src| && src[start + 1..start + 5] == "hide")
      <==> OccursAt(src, HideOpen, start)
  {
    if start + 5 <= |src| {
      assert src[start..start + 5] == [src[start]] + src[start + 1..start + 5];
    }
  }

  /** The groups of the pattern in the text from `start` up to and including `{/hide}`. */
  function HideGroups(src: string, start: nat): Option<(string, string)> {
    var endPos := HideEnd(src, start);
    if endPos >= 0 then HideMatch(src[start..endPos + |HideClose|]) else None
  }

  /**
   * The tests of the inline rule on the text alone: whether it accepts at
   * `start`, and when it emits, the span and the position after `{/hide}`.
   */
  method MatchHide(src: string, start: nat, silent: bool, md: Renderer) returns (ok: bool, html: string, next: nat)
    ensures ok <==> HideEnd(src, start) >= 0 && (silent || HideGroups(src, start).Some?)
    ensures ok && !silent ==>
      var g := HideGroups(src, start).value;
      html == InlineSpan(g.0, g.1, md) && next == HideEnd(src, start) + |HideClose|
  {
    ok, html, next := false, "", 0;
    HideOpenTest(src, start);
    if start < |src| && src[start] == '{' && start + 5 <= |src| && src[start + 1..start + 5] == "hide" {
      var endPos := IndexOf(src, HideClose, start + 5);
      assert HideEnd(src, start) == endPos;
      if endPos != -1 {
        if silent {
          ok := true;
        } else {
          var fullContent := src[start..endPos + |HideClose|];
          var contentMatch := HideMatch(fullContent);
          assert HideGroups(src, start) == contentMatch;
          if contentMatch.Some? {
            html := BuildSpan(contentMatch.value.0, contentMatch.value.1, md);
            next := endPos + |HideClose|;
            ok := true;
          }
        }
      }
    }
  }

  /**
   * `hiddenInlineRule`: at `{hide`, find `{/hide}`; in silent mode report a
   * match at once; otherwise decline unless the pattern matches the text up to
   * and including `{/hide}`, emit the span and move past `{/hide}`. A declined
   * or silent call changes nothing.
   */
  method HiddenInlineRule(state: InlineState, silent: bool, md: Renderer) returns (ok: bool)
    modifies state
    ensures var start := old(state.pos);
      && (ok <==> HideEnd(state.src, start) >= 0 && (silent || HideGroups(state.src, start).Some?))
      && (ok && !silent ==>
            var g := HideGroups(state.src, start).value;
            && state.tokens == old(state.tokens) + [Token("html_inline", "", 0, InlineSpan(g.0, g.1, md), None, "")]
            && state.pos == HideEnd(state.src, start) + |HideClose|)
      && (!ok || silent ==> state.tokens == old(state.tokens) && state.pos == old(state.pos))
  {
    var html, next;
    ok, html, next := MatchHide(state.src, state.pos, silent, md);
    if ok && !silent {
      state.Push(Token("html_inline", "", 0, html, None, ""));
      state.pos := next;
    }
  }

  /**
   * In silent mode the rule answers yes before the pattern is tried, so it
   * accepts text that the full rule then declines: `{hide}{/hide}` has no white
   * space after `{hide`.
   */
  lemma SilentAcceptsUnmatched()
    ensures var src := "{hide}{/hide}";
      HideEnd(src, 0) == 6 && HideMatch(src[..6 + |HideClose|]).None?
  {
    var src := "{hide}{/hide}";
    assert HideEnd(src, 0) == 6 by {
      assert src[..5] == HideOpen;
      assert !OccursAt(src, HideClose, 5) by {
        assert src[5] == '}' && HideClose[0] == '{';
      }
      assert src[6..] == HideClose;
    }
    assert src[..6 + |HideClose|] == src;
    assert FirstHideStart(src, 0).None? by {
      forall k: nat | k < |src| ensures !IsSpace(src[k]) {
        assert src[k] in "{hide}/";
      }
    }
  }
}
