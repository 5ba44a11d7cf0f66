/**
 * The `tip` plugin: a word with a tooltip.
 *
 * ```
 * see {tip text=word content="what it means" position=bottom theme=info}{/tip} here
 *
 * {tip text=word content=shown on click trigger=click}{/tip}
 * ```
 *
 * Unlike the other directives, `{tip` must be followed by a space or `}`, so
 * `{tips` is not a tip. The inline rule reads the parameters between
 * `{tip` and `}{/tip}` with a regular expression; the block rule takes a
 * paragraph that starts with `{tip` and whose closing line has nothing after
 * `{/tip}`. Both emit the same HTML: a wrapper span holding the underlined
 * text and a hidden tooltip span whose `data-*` attributes carry the raw
 * parameters for the runtime (module `TipEvents`).
 */
module Tip {
  import opened Text
  import opened Wrappers
  import opened Host
  import opened Html
  import opened Params

  const Open: string := "{tip"
  const Close: string := "{/tip}"
  /** The end of the pattern: the `}` of the opening tag right before `{/tip}`. */
  const BraceClose: string := "}{/tip}"

  /* ---------- The parameters and their defaults ---------- */

  datatype TipFields = TipFields(text: string, content: string, position: string, theme: string,
                                 trigger: string, delay: string)

  const DefaultText: string := "提示文本"
  const DefaultContent: string := "这里是提示内容"

  /** Each parameter, or its default when absent or empty. */
  function FieldsOf(params: map<string, string>): TipFields {
    TipFields(ParamOr(params, "text", DefaultText), ParamOr(params, "content", DefaultContent),
              ParamOr(params, "position", "top"), ParamOr(params, "theme", "dark"),
              ParamOr(params, "trigger", "hover"), ParamOr(params, "delay", "0"))
  }

  /** `params[key]` is present and non-empty, so `params[key] || d` is `params[key]`. */
  predicate Given(params: map<string, string>, key: string) {
    key in params && params[key] != ""
  }

  /**
   * Every field is non-empty; a field is the given value when that value is
   * non-empty, and otherwise `提示文本`, `这里是提示内容`, `top`, `dark`,
   * `hover` or `0`.
   */
  lemma FieldsDefaults(params: map<string, string>)
    ensures var f := FieldsOf(params);
      && f.text != "" && f.content != "" && f.position != "" && f.theme != "" && f.trigger != "" && f.delay != ""
      && (Given(params, "text") ==> f.text == params["text"])
      && (Given(params, "content") ==> f.content == params["content"])
      && (Given(params, "position") ==> f.position == params["position"])
      && (Given(params, "theme") ==> f.theme == params["theme"])
      && (Given(params, "trigger") ==> f.trigger == params["trigger"])
      && (Given(params, "delay") ==> f.delay == params["delay"])
      && (!Given(params, "text") ==> f.text == DefaultText)
      && (!Given(params, "content") ==> f.content == DefaultContent)
      && (!Given(params, "position") ==> f.position == "top")
      && (!Given(params, "theme") ==> f.theme == "dark")
      && (!Given(params, "trigger") ==> f.trigger == "hover")
      && (!Given(params, "delay") ==> f.delay == "0")
  {
  }

  /* ---------- Classes and styles ---------- */

  /** `anzhiyu-tip`, the theme and position classes when set, and `tip-click` in click mode. */
  function ClassList(f: TipFields): seq<string> {
    ["anzhiyu-tip"]
    + (if f.theme != "" then ["tip-" + f.theme] else [])
    + (if f.position != "" then ["tip-" + f.position] else [])
    + (if f.trigger == "click" then ["tip-click"] else [])
  }

  /**
   * With the defaults filled in, the class list is exactly `anzhiyu-tip`, the
   * theme class and the position class, plus `tip-click` iff the trigger is
   * `click`. A theme or position named `click` also yields a `tip-click` class.
   */
  lemma ClassListShape(params: map<string, string>)
    ensures var f := FieldsOf(params);
      && ClassList(f) == ["anzhiyu-tip", "tip-" + f.theme, "tip-" + f.position] + (if f.trigger == "click" then ["tip-click"] else [])
      && ("tip-click" in ClassList(f) <==> f.trigger == "click" || f.theme == "click" || f.position == "click")
  {
    FieldsDefaults(params);
    var f := FieldsOf(params);
    ClassPrefix(f.theme);
    ClassPrefix(f.position);
    assert "tip-click" != "anzhiyu-tip" by {
      assert "tip-click"[0] != "anzhiyu-tip"[0];
    }
  }

  /** `tip-` followed by a name is `tip-click` exactly for the name `click`. */
  lemma ClassPrefix(name: string)
    ensures "tip-" + name == "tip-click" <==> name == "click"
  {
    if "tip-" + name == "tip-click" {
      assert ("tip-" + name)[4..] == name;
      assert "tip-click"[4..] == "click";
    }
  }

  lemma ClassAttrSplits(f: TipFields)
    requires SpaceFree(f.theme) && SpaceFree(f.position)
    ensures Split(Join(ClassList(f), " "), ' ') == ClassList(f)
  {
    var c := ClassList(f);
    assert ' ' !in "anzhiyu-tip" && ' ' !in "tip-" && ' ' !in "tip-click";
    forall i | 0 <= i < |c| ensures ' ' !in c[i] {
    }
    assert [' '] == " ";
    SplitJoin(c, ' ');
  }

  const PosTop: string :=
    "bottom: 100%; left: 50%; " + "transform: translateX(-50" + "%) translateY(-8px);"
  const PosBottom: string :=
    "top: 100%; left: 50%; tra" + "nsform: translateX(-50%) " + "translateY(8px);"
  const PosLeft: string :=
    "right: 100%; top: 50%; tr" + "ansform: translateY(-50%)" + " translateX(-8px);"
  const PosRight: string :=
    "left: 100%; top: 50%; tra" + "nsform: translateY(-50%) " + "translateX(8px);"

  /** The tooltip's placement: a table of the four sides, any other name placed on top. */
  function PositionStyle(position: string): string {
    if position == "top" then PosTop
    else if position == "bottom" then PosBottom
    else if position == "left" then PosLeft
    else if position == "right" then PosRight
    else PosTop
  }

  const ThemeDark: string :=
    "background: #333; color: " + "#fff;"
  const ThemeLight: string :=
    "background: #fff; color: " + "#333; border: 1px solid #" + "ddd;"
  const ThemeInfo: string :=
    "background: #3498db; colo" + "r: #fff;"
  const ThemeWarning: string :=
    "background: #f39c12; colo" + "r: #fff;"
  const ThemeError: string :=
    "background: #e74c3c; colo" + "r: #fff;"
  const ThemeSuccess: string :=
    "background: #27ae60; colo" + "r: #fff;"

  /** The tooltip's colours: a table of six themes, any other name coloured as `dark`. */
  function ThemeStyle(theme: string): string {
    if theme == "dark" then ThemeDark
    else if theme == "light" then ThemeLight
    else if theme == "info" then ThemeInfo
    else if theme == "warning" then ThemeWarning
    else if theme == "error" then ThemeError
    else if theme == "success" then ThemeSuccess
    else ThemeDark
  }

  predicate KnownPosition(position: string) {
    position == "top" || position == "bottom" || position == "left" || position == "right"
  }

  predicate KnownTheme(theme: string) {
    theme == "dark" || theme == "light" || theme == "info" || theme == "warning" || theme == "error" || theme == "success"
  }

  /**
   * An unknown position or theme falls back to the `top` or `dark` entry,
   * while the class list still names the value as given.
   */
  lemma StyleFallback(f: TipFields)
    ensures !KnownPosition(f.position) ==> PositionStyle(f.position) == PositionStyle("top")
    ensures !KnownTheme(f.theme) ==> ThemeStyle(f.theme) == ThemeStyle("dark")
    ensures f.theme != "" && f.position != "" ==> "tip-" + f.theme in ClassList(f) && "tip-" + f.position in ClassList(f)
  {
    if f.theme != "" && f.position != "" {
      assert ClassList(f)[1] == "tip-" + f.theme;
      assert ClassList(f)[2] == "tip-" + f.position;
    }
  }

  const WrapperStyle: string :=
    "position: relative; displ" + "ay: inline-block; cursor:" + " poi" + "nter;"
  const TextStyle: string :=
    "border-bottom: 1px dashed" + " currentColor; text-decor" + "ation: none;"
  const TooltipHead: string :=
    "position: absolute; "
  const TooltipTail: string := TailBox + TailText + TailHidden + TailShadow
  const TailBox: string :=
    " padding: 8px 12px; borde" + "r-radius: 6px; font-size:" + " 13px; line-height: 1.5; "
  const TailText: string :=
    "max-width: 300px; width: " + "max-content; text-align: " + "center; white-space: pre-"
  const TailHidden: string :=
    "wrap; z-index: 1000; visi" + "bility: hidden; opacity: " + "0; transition: opacity 0."
  const TailShadow: string :=
    "2s, visibility 0.2s; poin" + "ter-events: none; box-sha" + "dow: 0 2px 8px rgba(0,0,0" + ",0.15);"

  /** The tooltip's inline style: absolute, placed and coloured from the tables, hidden. */
  function TooltipStyle(f: TipFields): string {
    TooltipHead + PositionStyle(f.position) + " " + ThemeStyle(f.theme) + TooltipTail
  }

  /* ---------- The HTML ---------- */

  function WrapperTag(tipId: string): StartTag {
    StartTag("span", [Attr("class", "anzhiyu-tip-wrapper"), Attr("data-tip-id", tipId), Attr("style", WrapperStyle)])
  }

  const TextTag: StartTag := StartTag("span", [Attr("class", "anzhiyu-tip-text"), Attr("style", TextStyle)])

  /** The head of the tooltip's attributes: class and the raw parameters. */
  function DataAttrs(f: TipFields, md: Renderer): seq<Attr> {
    [Attr("class", Join(ClassList(f), " ")), Attr("data-content", md.escapeHtml(f.content)),
     Attr("data-position", f.position), Attr("data-theme", f.theme),
     Attr("data-trigger", f.trigger), Attr("data-delay", f.delay)]
  }

  /** The tail of the tooltip's attributes: hidden at first, then the style. */
  function StateAttrs(f: TipFields): seq<Attr> {
    [Attr("data-visible", "false"), Attr("role", "tooltip"), Attr("aria-hidden", "true"),
     Attr("style", TooltipStyle(f))]
  }

  function TooltipTag(f: TipFields, md: Renderer): StartTag {
    StartTag("span", DataAttrs(f, md) + StateAttrs(f))
  }

  const SpanEnd: string := "</span>"

  /** The tooltip span with the escaped content, then the wrapper's end tag. */
  function TooltipPart(f: TipFields, md: Renderer): string {
    RenderStartTag(TooltipTag(f, md)) + (md.escapeHtml(f.content) + SpanEnd + SpanEnd)
  }

  /** The text span with the escaped text, then the tooltip part. */
  function TextPart(f: TipFields, md: Renderer): string {
    RenderStartTag(TextTag) + (md.escapeHtml(f.text) + SpanEnd + TooltipPart(f, md))
  }

  /** `generateTipHtml`, with the generated id as a parameter. */
  function TipHtml(params: map<string, string>, tipId: string, md: Renderer): string {
    RenderStartTag(WrapperTag(tipId)) + TextPart(FieldsOf(params), md)
  }

  /**
   * `tip-<now in decimal>-<suffix>`, where the suffix stands for characters 2 to
   * 9 of a random number written in base 36.
   */
  function TipId(now: nat, suffix: string): string {
    "tip-" + Decimal(now) + "-" + suffix
  }

  /** Two ids from different times differ, whatever the suffixes: the decimal time is delimited by `-`. */
  lemma TipIdInjective(n1: nat, s1: string, n2: nat, s2: string)
    requires '-' !in s1 && '-' !in s2
    requires TipId(n1, s1) == TipId(n2, s2)
    ensures n1 == n2 && s1 == s2
  {
    TipIdParts(n1, s1);
    TipIdParts(n2, s2);
    assert Decimal(n1) == Decimal(n2);
    DecimalInjective(n1, n2);
  }

  /** Split on `-`, an id gives back its three parts. */
  lemma TipIdParts(n: nat, suffix: string)
    requires '-' !in suffix
    ensures Split(TipId(n, suffix), '-') == ["tip", Decimal(n), suffix]
  {
    var parts := ["tip", Decimal(n), suffix];
    DecimalDigits(n);
    assert '-' !in Decimal(n) by {
      forall i | 0 <= i < |Decimal(n)| ensures Decimal(n)[i] != '-' {
        assert IsDigit(Decimal(n)[i]);
      }
    }
    assert '-' !in "tip";
    forall i | 0 <= i < |parts| ensures '-' !in parts[i] {
    }
    SplitJoin(parts, '-');
    calc {
      Join(parts, "-");
      "tip" + "-" + Join(parts[1..], "-");
      { assert parts[1..][1..] == [suffix]; }
      "tip" + "-" + (Decimal(n) + "-" + suffix);
      TipId(n, suffix);
    }
  }

  /* ---------- Reading the HTML back ---------- */

  lemma StylesHaveNoQuote()
    ensures '"' !in WrapperStyle && '"' !in TextStyle && '"' !in TooltipHead && '"' !in TooltipTail
  {
    WrapperStyleHasNoQuote();
    TextStyleHasNoQuote();
    TailBoxHasNoQuote();
    TailTextHasNoQuote();
    TailHiddenHasNoQuote();
    TailShadowHasNoQuote();
  }

  lemma PositionsHaveNoQuote(position: string)
    ensures '"' !in PositionStyle(position)
  {
    PosTopHasNoQuote();
    PosBottomHasNoQuote();
    PosLeftHasNoQuote();
    PosRightHasNoQuote();
  }

  lemma ThemesHaveNoQuote(theme: string)
    ensures '"' !in ThemeStyle(theme)
  {
    ThemeDarkHasNoQuote();
    ThemeLightHasNoQuote();
    ThemeInfoHasNoQuote();
    ThemeWarningHasNoQuote();
    ThemeErrorHasNoQuote();
    ThemeSuccessHasNoQuote();
  }

  lemma WrapperStyleHasNoQuote()
    ensures '"' !in WrapperStyle
  {
  }

  lemma TextStyleHasNoQuote()
    ensures '"' !in TextStyle
  {
  }

  lemma TailBoxHasNoQuote()
    ensures '"' !in TailBox
  {
  }

  lemma TailTextHasNoQuote()
    ensures '"' !in TailText
  {
  }

  lemma TailHiddenHasNoQuote()
    ensures '"' !in TailHidden
  {
  }

  lemma TailShadowHasNoQuote()
    ensures '"' !in TailShadow
  {
  }

  lemma PosTopHasNoQuote()
    ensures '"' !in PosTop
  {
  }

  lemma PosBottomHasNoQuote()
    ensures '"' !in PosBottom
  {
  }

  lemma PosLeftHasNoQuote()
    ensures '"' !in PosLeft
  {
  }

  lemma PosRightHasNoQuote()
    ensures '"' !in PosRight
  {
  }

  lemma ThemeDarkHasNoQuote()
    ensures '"' !in ThemeDark
  {
  }

  lemma ThemeLightHasNoQuote()
    ensures '"' !in ThemeLight
  {
  }

  lemma ThemeInfoHasNoQuote()
    ensures '"' !in ThemeInfo
  {
  }

  lemma ThemeWarningHasNoQuote()
    ensures '"' !in ThemeWarning
  {
  }

  lemma ThemeErrorHasNoQuote()
    ensures '"' !in ThemeError
  {
  }

  lemma ThemeSuccessHasNoQuote()
    ensures '"' !in ThemeSuccess
  {
  }

  lemma TooltipStyleHasNoQuote(f: TipFields)
    ensures '"' !in TooltipStyle(f)
  {
    StylesHaveNoQuote();
    PositionsHaveNoQuote(f.position);
    ThemesHaveNoQuote(f.theme);
  }

  /** The raw values written into attributes hold no `"`. */
  predicate QuoteFree(f: TipFields, md: Renderer) {
    '"' !in f.position && '"' !in f.theme && '"' !in f.trigger && '"' !in f.delay
    && '"' !in md.escapeHtml(f.content)
  }

  lemma ClassAttrHasNoQuote(f: TipFields)
    requires '"' !in f.position && '"' !in f.theme
    ensures '"' !in Join(ClassList(f), " ")
  {
    var c := ClassList(f);
    assert '"' !in "anzhiyu-tip" && '"' !in "tip-" && '"' !in "tip-click";
    forall i | 0 <= i < |c| ensures '"' !in c[i] {
    }
    JoinAvoids(c, " ", '"');
  }

  lemma TooltipTagWellFormed(f: TipFields, md: Renderer)
    requires QuoteFree(f, md)
    ensures WellFormedTag(TooltipTag(f, md))
  {
    DataAttrsWellFormed(f, md);
    StateAttrsWellFormed(f);
    WellFormedAttrsAppend(DataAttrs(f, md), StateAttrs(f));
  }

  lemma DataAttrsWellFormed(f: TipFields, md: Renderer)
    requires QuoteFree(f, md)
    ensures WellFormedAttrs(DataAttrs(f, md))
  {
    ClassAttrHasNoQuote(f);
    AttrNamesWellFormed();
  }

  lemma StateAttrsWellFormed(f: TipFields)
    ensures WellFormedAttrs(StateAttrs(f))
  {
    TooltipStyleHasNoQuote(f);
    AttrNamesWellFormed();
    assert '"' !in "false" && '"' !in "tooltip" && '"' !in "true";
  }

  /** A name that can head an attribute. */
  predicate GoodName(n: string) {
    n != "" && ' ' !in n && '=' !in n && '"' !in n && '>' !in n
  }

  lemma AttrNamesWellFormed()
    ensures GoodName("class")
    ensures GoodName("data-content")
    ensures GoodName("data-position")
    ensures GoodName("data-theme")
    ensures GoodName("data-trigger")
    ensures GoodName("data-delay")
    ensures GoodName("data-visible")
    ensures GoodName("role")
    ensures GoodName("aria-hidden")
    ensures GoodName("style")
    ensures GoodName("data-tip-id")
  {
    ClassNameGood();
    DataContentNameGood();
    DataPositionNameGood();
    DataThemeNameGood();
    DataTriggerNameGood();
    DataDelayNameGood();
    DataVisibleNameGood();
    RoleNameGood();
    AriaHiddenNameGood();
    StyleNameGood();
    DataTipIdNameGood();
  }

  lemma ClassNameGood()
    ensures GoodName("class")
  {
  }

  lemma DataContentNameGood()
    ensures GoodName("data-content")
  {
  }

  lemma DataPositionNameGood()
    ensures GoodName("data-position")
  {
  }

  lemma DataThemeNameGood()
    ensures GoodName("data-theme")
  {
  }

  lemma DataTriggerNameGood()
    ensures GoodName("data-trigger")
  {
  }

  lemma DataDelayNameGood()
    ensures GoodName("data-delay")
  {
  }

  lemma DataVisibleNameGood()
    ensures GoodName("data-visible")
  {
  }

  lemma RoleNameGood()
    ensures GoodName("role")
  {
  }

  lemma AriaHiddenNameGood()
    ensures GoodName("aria-hidden")
  {
  }

  lemma StyleNameGood()
    ensures GoodName("style")
  {
  }

  lemma DataTipIdNameGood()
    ensures GoodName("data-tip-id")
  {
  }

  lemma OuterTagsWellFormed(tipId: string)
    requires '"' !in tipId
    ensures WellFormedTag(WrapperTag(tipId)) && WellFormedTag(TextTag)
  {
    WrapperTagWellFormed(tipId);
    TextTagWellFormed();
  }

  lemma WrapperTagWellFormed(tipId: string)
    requires '"' !in tipId
    ensures WellFormedTag(WrapperTag(tipId))
  {
    WrapperStyleHasNoQuote();
    ClassNameGood();
    DataTipIdNameGood();
    StyleNameGood();
    assert '"' !in "anzhiyu-tip-wrapper";
  }

  lemma TextTagWellFormed()
    ensures WellFormedTag(TextTag)
  {
    TextStyleHasNoQuote();
    ClassNameGood();
    StyleNameGood();
    assert '"' !in "anzhiyu-tip-text";
  }

  /**
   * The HTML reads back as the wrapper tag, then the text tag followed by the
   * escaped text and `</span>`, then the tooltip tag followed by the escaped
   * content and two `</span>`: the three tags nest as written.
   */
  lemma TipHtmlReads(params: map<string, string>, tipId: string, md: Renderer)
    requires '"' !in tipId && QuoteFree(FieldsOf(params), md)
    ensures var f := FieldsOf(params);
      && ReadStartTag(TipHtml(params, tipId, md)) == Some((WrapperTag(tipId), TextPart(f, md)))
      && ReadStartTag(TextPart(f, md)) == Some((TextTag, md.escapeHtml(f.text) + SpanEnd + TooltipPart(f, md)))
      && ReadStartTag(TooltipPart(f, md)) == Some((TooltipTag(f, md), md.escapeHtml(f.content) + SpanEnd + SpanEnd))
  {
    var f := FieldsOf(params);
    OuterTagsWellFormed(tipId);
    TooltipTagWellFormed(f, md);
    ReadRenderStartTag(WrapperTag(tipId), TextPart(f, md));
    ReadRenderStartTag(TextTag, md.escapeHtml(f.text) + SpanEnd + TooltipPart(f, md));
    ReadRenderStartTag(TooltipTag(f, md), md.escapeHtml(f.content) + SpanEnd + SpanEnd);
  }

  /**
   * What the tooltip tag tells the runtime: the raw position, theme, trigger
   * and delay, the escaped content, and that it starts hidden.
   */
  lemma TooltipAttrs(f: TipFields, md: Renderer)
    ensures var a := TooltipTag(f, md).attrs;
      && AttrValue(a, "class") == Some(Join(ClassList(f), " "))
      && AttrValue(a, "data-content") == Some(md.escapeHtml(f.content))
      && AttrValue(a, "data-position") == Some(f.position)
      && AttrValue(a, "data-theme") == Some(f.theme)
      && AttrValue(a, "data-trigger") == Some(f.trigger)
      && AttrValue(a, "data-delay") == Some(f.delay)
      && AttrValue(a, "data-visible") == Some("false")
      && AttrValue(a, "aria-hidden") == Some("true")
      && AttrValue(a, "style") == Some(TooltipStyle(f))
  {
    var d, s := DataAttrs(f, md), StateAttrs(f);
    DataAttrAt(f, md, "class", 0);
    DataAttrAt(f, md, "data-content", 1);
    DataAttrAt(f, md, "data-position", 2);
    DataAttrAt(f, md, "data-theme", 3);
    DataAttrAt(f, md, "data-trigger", 4);
    DataAttrAt(f, md, "data-delay", 5);
    DataAttrsLack(f, md);
  }

  lemma DataAttrAt(f: TipFields, md: Renderer, name: string, k: nat)
    requires k < 6 && DataAttrs(f, md)[k].name == name
    ensures AttrValue(DataAttrs(f, md) + StateAttrs(f), name) == Some(DataAttrs(f, md)[k].value)
  {
    var d := DataAttrs(f, md);
    AttrValueAt(d, name, k);
    AttrValueAppend(d, StateAttrs(f), name);
  }

  lemma DataAttrsLack(f: TipFields, md: Renderer)
    ensures var d, s := DataAttrs(f, md), StateAttrs(f);
      && AttrValue(d + s, "data-visible") == Some("false")
      && AttrValue(d + s, "aria-hidden") == Some("true")
      && AttrValue(d + s, "style") == Some(TooltipStyle(f))
  {
    var d, s := DataAttrs(f, md), StateAttrs(f);
    AttrValueAbsent(d, "data-visible");
    AttrValueAbsent(d, "aria-hidden");
    AttrValueAbsent(d, "style");
    AttrValueAppend(d, s, "data-visible");
    AttrValueAppend(d, s, "aria-hidden");
    AttrValueAppend(d, s, "style");
    AttrValueAt(s, "data-visible", 0);
    AttrValueAt(s, "aria-hidden", 2);
    AttrValueAt(s, "style", 3);
  }

  /* ---------- The pattern `\{tip\s*(.*?)\}\{\/tip\}` ---------- */

  /**
   * The pattern matches `fc` with `{tip` at `p`, the white-space run
   * `fc[p + 4..w]`, the group `fc[w..c]` and `}{/tip}` at `c`.
   */
  ghost predicate TipRegexAt(fc: string, p: nat, w: nat, c: nat) {
    p + 4 <= w <= c && OccursAt(fc, Open, p) && OccursAt(fc, BraceClose, c)
    && forall j :: p + 4 <= j < w ==> IsSpace(fc[j])
  }

  /** The match a backtracking engine returns: leftmost start, longest `\s*`, shortest group. */
  ghost predicate PreferredTip(fc: string, p: nat, w: nat, c: nat) {
    && TipRegexAt(fc, p, w, c)
    && (forall p': nat, w': nat, c': nat :: TipRegexAt(fc, p', w', c') ==> p <= p')
    && (forall w': nat, c': nat :: TipRegexAt(fc, p, w', c') ==> w' <= w)
    && (forall c': nat :: TipRegexAt(fc, p, w, c') ==> c <= c')
  }

  /** `fullContent.match(...)`: the parameter group, or `None`. */
  function TipMatch(fc: string): Option<string> {
    var p := IndexOf(fc, Open, 0);
    if p < 0 then None
    else
      var w := SpaceRunEnd(fc, p + 4);
      var c := IndexOf(fc, BraceClose, w);
      if c < 0 then None else Some(fc[w..c])
  }

  /** Every match lies after the first `{tip`'s white-space run. */
  lemma MatchAfterFirstOpen(fc: string, p': nat, w': nat, c': nat)
    requires TipRegexAt(fc, p', w', c')
    ensures var p := IndexOf(fc, Open, 0);
      p >= 0 && p <= p' && SpaceRunEnd(fc, p + 4) <= c'
  {
    IndexOfSpec(fc, Open, 0);
    var p := IndexOf(fc, Open, 0);
    var w := SpaceRunEnd(fc, p + 4);
    SpaceRunEndSpec(fc, p + 4);
    OccursAtChar(fc, BraceClose, c', 0);
    if p' > p && p' < p + 4 {
      OccursAtChar(fc, Open, p, p' - p);
      OccursAtChar(fc, Open, p', 0);
      assert false;
    }
    if c' < w {
      assert false;
    }
  }

  lemma TipMatchPreferred(fc: string)
    requires TipMatch(fc).Some?
    ensures var p := IndexOf(fc, Open, 0);
      var w := SpaceRunEnd(fc, p + 4);
      var c := IndexOf(fc, BraceClose, w);
      p >= 0 && c >= 0 && PreferredTip(fc, p, w, c) && TipMatch(fc).value == fc[w..c]
  {
    var p := IndexOf(fc, Open, 0);
    var w := SpaceRunEnd(fc, p + 4);
    var c := IndexOf(fc, BraceClose, w);
    SpaceRunEndSpec(fc, p + 4);
    IndexOfSpec(fc, BraceClose, w);
    assert TipRegexAt(fc, p, w, c);
    forall p': nat, w': nat, c': nat | TipRegexAt(fc, p', w', c') ensures p <= p' {
      MatchAfterFirstOpen(fc, p', w', c');
    }
    forall w': nat, c': nat | TipRegexAt(fc, p, w', c') ensures w' <= w {
      if w' > w {
        assert false;
      }
    }
    forall c': nat | TipRegexAt(fc, p, w, c') ensures c <= c' {
      MatchAfterFirstOpen(fc, p, w, c');
    }
  }

  lemma NoTipMatch(fc: string)
    requires TipMatch(fc).None?
    ensures forall p: nat, w: nat, c: nat :: !TipRegexAt(fc, p, w, c)
  {
    forall p: nat, w: nat, c: nat | TipRegexAt(fc, p, w, c) ensures false {
      MatchAfterFirstOpen(fc, p, w, c);
      var p0 := IndexOf(fc, Open, 0);
      IndexOfSpec(fc, BraceClose, SpaceRunEnd(fc, p0 + 4));
    }
  }

  /** The group `TipMatch` returns is that of the pattern's match, and `None` means no match. */
  lemma TipMatchIsRegexMatch(fc: string)
    ensures TipMatch(fc).Some? ==> exists p: nat, w: nat, c: nat :: PreferredTip(fc, p, w, c) && TipMatch(fc).value == fc[w..c]
    ensures TipMatch(fc).None? ==> forall p: nat, w: nat, c: nat :: !TipRegexAt(fc, p, w, c)
  {
    if TipMatch(fc).Some? {
      TipMatchPreferred(fc);
    } else {
      NoTipMatch(fc);
    }
  }

  /* ---------- The inline rule ---------- */

  predicate GuardChar(c: char) { c == ' ' || c == '}' }

  /** `{tip` at `start` followed by a space or `}`. */
  predicate InlineOpensAt(src: string, start: nat) {
    OccursAt(src, Open, start) && start + 4 < |src| && GuardChar(src[start + 4])
  }

  /** `src.indexOf("{/tip}", start + 4)` once the opening test passed, otherwise -1. */
  function TipEnd(src: string, start: nat): (r: int)
    ensures r >= 0 ==> start + 4 <= r && OccursAt(src, Close, r)
  {
    if InlineOpensAt(src, start) then IndexOf(src, Close, start + 4) else -1
  }

  /**
   * Cut at the first `{/tip}`, the pattern matches exactly when the character
   * before `{/tip}` is `}`: a tip has no body, and its parameters run from the
   * end of the white space after `{tip` to that `}`.
   */
  lemma TipMatchInRule(src: string, start: nat, e: nat)
    requires OccursAt(src, Open, start) && e == IndexOf(src, Close, start + 4)
    ensures e >= start + 4 && e >= 1 && e + |Close| <= |src|
    ensures var fc := src[start..e + |Close|];
      && (TipMatch(fc).Some? <==> src[e - 1] == '}')
      && (TipMatch(fc).Some? ==> TipMatch(fc).value == fc[SpaceRunEnd(fc, 4)..|fc| - |BraceClose|])
  {
    IndexOfSpec(src, Close, start + 4);
    MatchImpliesBrace(src, start, e);
    if src[e - 1] == '}' {
      BraceImpliesMatch(src, start, e);
    }
  }

  /** When the cut-off text starts with `{tip`, the pattern's group runs from the white space after it. */
  lemma TipMatchAtStart(fc: string)
    requires OccursAt(fc, Open, 0)
    ensures var w := SpaceRunEnd(fc, 4);
      var c := IndexOf(fc, BraceClose, w);
      TipMatch(fc) == if c < 0 then None else Some(fc[w..c])
  {
    assert IndexOf(fc, Open, 0) == 0;
  }

  lemma MatchImpliesBrace(src: string, start: nat, e: nat)
    requires OccursAt(src, Open, start) && start + 4 <= e && OccursAt(src, Close, e)
    requires forall k :: start + 4 <= k < e ==> !OccursAt(src, Close, k)
    ensures TipMatch(src[start..e + |Close|]).Some? ==> src[e - 1] == '}'
  {
    var fc := src[start..e + |Close|];
    OpenAtSliceStart(src, start, e + |Close|);
    TipMatchAtStart(fc);
    var w := SpaceRunEnd(fc, 4);
    var c := IndexOf(fc, BraceClose, w);
    if c >= 0 {
      IndexOfSpec(fc, BraceClose, w);
      SpaceRunEndSpec(fc, 4);
      CloseInSlice(src, start, e, c);
    }
  }

  lemma BraceImpliesMatch(src: string, start: nat, e: nat)
    requires OccursAt(src, Open, start) && start + 4 <= e && OccursAt(src, Close, e)
    requires forall k :: start + 4 <= k < e ==> !OccursAt(src, Close, k)
    requires src[e - 1] == '}'
    ensures var fc := src[start..e + |Close|];
      SpaceRunEnd(fc, 4) <= |fc| - |BraceClose| && TipMatch(fc) == Some(fc[SpaceRunEnd(fc, 4)..|fc| - |BraceClose|])
  {
    var fc := src[start..e + |Close|];
    OpenAtSliceStart(src, start, e + |Close|);
    TipMatchAtStart(fc);
    BraceBeforeClose(src, start, e);
  }

  /** The cut-off text starts with `{tip`, so that is where the pattern's search for it stops. */
  lemma OpenAtSliceStart(src: string, start: nat, hi: nat)
    requires OccursAt(src, Open, start) && start + 4 <= hi <= |src|
    ensures OccursAt(src[start..hi], Open, 0)
  {
    assert src[start..hi][..4] == src[start..start + 4];
  }

  /** With a `}` right before the first `{/tip}`, the pattern ends at that `}`. */
  lemma BraceBeforeClose(src: string, start: nat, e: nat)
    requires OccursAt(src, Open, start) && start + 4 <= e && OccursAt(src, Close, e)
    requires forall k :: start + 4 <= k < e ==> !OccursAt(src, Close, k)
    requires src[e - 1] == '}'
    ensures var fc := src[start..e + |Close|];
      var w := SpaceRunEnd(fc, 4);
      e - 1 - start >= w && IndexOf(fc, BraceClose, w) == e - 1 - start
  {
    var fc := src[start..e + |Close|];
    var c0 := e - 1 - start;
    OccursAtChar(src, Open, start, 3);
    assert OccursAt(fc, BraceClose, c0) by {
      assert fc[c0..c0 + 7] == [src[e - 1]] + src[e..e + 6];
    }
    var w := SpaceRunEnd(fc, 4);
    SpaceRunEndSpec(fc, 4);
    if c0 < w {
      assert false;
    }
    IndexOfSpec(fc, BraceClose, w);
    if IndexOf(fc, BraceClose, w) != c0 {
      CloseInSlice(src, start, e, IndexOf(fc, BraceClose, w));
    }
  }

  /** An end of the pattern inside the cut-off text is the `}` right before the first `{/tip}`. */
  lemma CloseInSlice(src: string, start: nat, e: nat, c: nat)
    requires OccursAt(src, Open, start) && start + 4 <= e && OccursAt(src, Close, e)
    requires forall k :: start + 4 <= k < e ==> !OccursAt(src, Close, k)
    requires 4 <= c && OccursAt(src[start..e + |Close|], BraceClose, c)
    ensures start + c + 1 == e && src[e - 1] == '}'
  {
    var fc := src[start..e + |Close|];
    assert fc[c..c + 7] == BraceClose;
    assert fc[c + 1..c + 7] == BraceClose[1..] == Close;
    assert fc[c + 1..c + 7] == src[start + c + 1..start + c + 7];
    assert OccursAt(src, Close, start + c + 1);
    assert fc[c] == src[start + c];
  }

  /** The part of the rule after the match: parameters, fields, HTML. */
  method BuildTip(paramsStr: string, tipId: string, md: Renderer) returns (html: string)
    ensures html == TipHtml(ParamMap(paramsStr), tipId, md)
  {
    var parsedParams := ParseParams(paramsStr);
    html := TipHtml(parsedParams, tipId, md);
  }

  /** The rule's opening test, a `{` followed by `tip` and a space or `}`, is `InlineOpensAt`. */
  lemma TipOpenTest(src: string, start: nat)
    ensures (start < |src| && src[start] == '{' && start + 4 <= |src| && src[start + 1..start + 4] == "tip"
             && start + 4 < |src| && GuardChar(src[start + 4]))
      <==> InlineOpensAt(src, start)
  {
    if start + 4 <= |src| {
      assert src[start..start + 4] == [src[start]] + src[start + 1..start + 4];
    }
  }

  /** The parameter group when the inline rule's pattern matches. */
  function TipGroup(src: string, start: nat): Option<string> {
    var e := TipEnd(src, start);
    if e >= 0 then TipMatch(src[start..e + |Close|]) else None
  }

  /** `tipRule` on the text alone: whether it accepts at `start`, and the HTML and position after `{/tip}`. */
  method MatchTip(src: string, start: nat, silent: bool, tipId: string, md: Renderer) returns (ok: bool, html: string, next: nat)
    ensures ok <==> TipEnd(src, start) >= 0 && (silent || TipGroup(src, start).Some?)
    ensures ok && !silent ==>
      html == TipHtml(ParamMap(TipGroup(src, start).value), tipId, md) && next == TipEnd(src, start) + |Close|
  {
    ok, html, next := false, "", 0;
    TipOpenTest(src, start);
    if start < |src| && src[start] == '{' && start + 4 <= |src| && src[start + 1..start + 4] == "tip" {
      if start + 4 < |src| && GuardChar(src[start + 4]) {
        var endPos := IndexOf(src, Close, start + 4);
        assert TipEnd(src, start) == endPos;
        if endPos != -1 {
          if silent {
            ok := true;
          } else {
            var fullContent := src[start..endPos + |Close|];
            var contentMatch := TipMatch(fullContent);
            assert TipGroup(src, start) == contentMatch;
            if contentMatch.Some? {
              html := BuildTip(contentMatch.value, tipId, md);
              next := endPos + |Close|;
              ok := true;
            }
          }
        }
      }
    }
  }

  /**
   * `tipRule`: at `{tip` followed by a space or `}`, find `{/tip}`; in silent
   * mode report a match at once; otherwise decline unless the pattern matches,
   * emit the tip and move past `{/tip}`. A declined or silent call changes nothing.
   */
  method TipInlineRule(state: InlineState, silent: bool, tipId: string, md: Renderer) returns (ok: bool)
    modifies state
    ensures var start := old(state.pos);
      && (ok <==> TipEnd(state.src, start) >= 0 && (silent || TipGroup(state.src, start).Some?))
      && (ok && !silent ==>
            && state.tokens == old(state.tokens) + [Token("html_inline", "", 0, TipHtml(ParamMap(TipGroup(state.src, start).value), tipId, md), None, "")]
            && state.pos == TipEnd(state.src, start) + |Close|)
      && (!ok || silent ==> state.tokens == old(state.tokens) && state.pos == old(state.pos))
  {
    var html, next;
    ok, html, next := MatchTip(state.src, state.pos, silent, tipId, md);
    if ok && !silent {
      state.Push(Token("html_inline", "", 0, html, None, ""));
      state.pos := next;
    }
  }

  /** `{tips}` is not a tip, where `{hides` would pass the hidden plugin's prefix test. */
  lemma LongerWordRejected()
    ensures !InlineOpensAt("{tips}{/tip}", 0)
  {
    assert "{tips}{/tip}"[4] == 's';
  }

  /**
   * Silent mode answers yes before the pattern is tried: `{tip {/tip}` is
   * accepted in silent mode and declined otherwise, as no `}` precedes `{/tip}`.
   */
  lemma SilentAcceptsBody()
    ensures var src := "{tip {/tip}";
      TipEnd(src, 0) == 5 && TipGroup(src, 0).None?
  {
    var src := "{tip {/tip}";
    assert src[..4] == Open;
    assert InlineOpensAt(src, 0);
    assert !OccursAt(src, Close, 4) by {
      assert src[4] == ' ';
    }
    assert src[5..] == Close;
    assert TipEnd(src, 0) == 5;
    TipMatchInRule(src, 0, 5);
    assert src[..5 + |Close|] == src;
  }

  /* ---------- The block rule ---------- */

  /** The opening line: non-blank, and its trimmed text starts with `{tip` followed, if anything, by a space or `}`. */
  predicate BlockOpener(l: Line) {
    !l.IsEmpty() && var t := Trim(l.Text()); StartsWith(t, Open) && (|t| > 4 ==> GuardChar(t[4]))
  }

  /** A line whose text contains `{/tip}`. */
  predicate HasClose(l: Line) {
    Contains(l.Text(), Close)
  }

  /** The first line from `i` on, before `endLine`, that satisfies `p`. */
  function FirstWhere(lines: seq<Line>, i: nat, endLine: nat, p: Line -> bool): (r: Option<nat>)
    requires endLine <= |lines|
    ensures r.Some? ==> i <= r.value < endLine && p(lines[r.value])
    decreases endLine - i
  {
    if i >= endLine then None
    else if p(lines[i]) then Some(i)
    else FirstWhere(lines, i + 1, endLine, p)
  }

  ghost predicate FirstWhereAt(lines: seq<Line>, i: nat, endLine: nat, p: Line -> bool, c: nat)
    requires endLine <= |lines|
  {
    i <= c < endLine && p(lines[c]) && forall j :: i <= j < c ==> !p(lines[j])
  }

  lemma {:induction false} FirstWhereIsFirst(lines: seq<Line>, i: nat, endLine: nat, p: Line -> bool, c: nat)
    requires endLine <= |lines|
    ensures FirstWhere(lines, i, endLine, p) == Some(c) <==> FirstWhereAt(lines, i, endLine, p, c)
    decreases endLine - i
  {
    if i < endLine && !p(lines[i]) {
      FirstWhereIsFirst(lines, i + 1, endLine, p, c);
      if FirstWhereAt(lines, i, endLine, p, c) {
        assert c != i;
        assert FirstWhereAt(lines, i + 1, endLine, p, c);
      }
    }
  }

  /** The first line from `i` on whose text contains `{/tip}`. */
  function FirstWithClose(lines: seq<Line>, i: nat, endLine: nat): (r: Option<nat>)
    requires endLine <= |lines|
    ensures r.Some? ==> i <= r.value < endLine && HasClose(lines[r.value])
  {
    FirstWhere(lines, i, endLine, HasClose)
  }

  /** Line `c` is the first from `i` on, before `endLine`, that contains `{/tip}`. */
  ghost predicate FirstCloseAt(lines: seq<Line>, i: nat, endLine: nat, c: nat)
    requires endLine <= |lines|
  {
    i <= c < endLine && HasClose(lines[c]) && forall j :: i <= j < c ==> !HasClose(lines[j])
  }

  lemma FirstWithCloseIsFirst(lines: seq<Line>, i: nat, endLine: nat, c: nat)
    requires endLine <= |lines|
    ensures FirstWithClose(lines, i, endLine) == Some(c) <==> FirstCloseAt(lines, i, endLine, c)
  {
    FirstWhereIsFirst(lines, i, endLine, HasClose, c);
  }

  /** The text after the first `{/tip}` of a line, trimmed. */
  function AfterClose(t: string): string
    requires Contains(t, Close)
  {
    ContainsIndexOf(t, Close);
    Trim(t[IndexOf(t, Close, 0) + |Close|..])
  }

  /** `src.slice(bMarks[lo] + tShift[lo], eMarks[hi])`: the opening line's text, then the whole following lines. */
  function BlockSource(lines: seq<Line>, lo: nat, hi: nat): string
    requires lo <= hi < |lines|
    decreases hi
  {
    if hi == lo then lines[lo].Text() else BlockSource(lines, lo, hi - 1) + "\n" + lines[hi].raw
  }

  /** The block the rule takes: the opening line, the closing line, and nothing after `{/tip}`. */
  function TipBlockClose(lines: seq<Line>, startLine: nat, endLine: nat): (r: Option<nat>)
    requires startLine < endLine <= |lines|
    ensures r.Some? ==> startLine <= r.value < endLine
  {
    if !BlockOpener(lines[startLine]) then None
    else
      match FirstWithClose(lines, startLine, endLine)
      case None => None
      case Some(c) => if AfterClose(lines[c].Text()) == "" then Some(c) else None
  }

  /** The `for` loop: the first line, from the opening one on, that contains `{/tip}`. */
  method ScanTipClose(lines: seq<Line>, startLine: nat, endLine: nat) returns (found: bool, closeLine: nat)
    requires startLine <= endLine <= |lines|
    ensures found <==> FirstWithClose(lines, startLine, endLine).Some?
    ensures found ==> closeLine == FirstWithClose(lines, startLine, endLine).value
  {
    found := false;
    var nextLine := startLine;
    while nextLine < endLine
      invariant startLine <= nextLine <= endLine
      invariant FirstWithClose(lines, nextLine, endLine) == FirstWithClose(lines, startLine, endLine)
      decreases endLine - nextLine
    {
      var currentLine := lines[nextLine].Text();
      if Contains(currentLine, Close) {
        found := true;
        break;
      }
      nextLine := nextLine + 1;
    }
    closeLine := nextLine;
  }

  /** The opening tests of the block rule on the first line. */
  method OpensBlock(l: Line) returns (ok: bool)
    ensures ok <==> BlockOpener(l)
  {
    ok := false;
    if !l.IsEmpty() {
      var trimmedLine := Trim(l.Text());
      if StartsWith(trimmedLine, Open) {
        ok := true;
        if |trimmedLine| > 4 {
          var nextChar := trimmedLine[4];
          if !GuardChar(nextChar) {
            ok := false;
          }
        }
      }
    }
  }

  /** The HTML of the block from `startLine` to `closeLine`, when the pattern matches its text. */
  function BlockGroup(lines: seq<Line>, startLine: nat, closeLine: nat): Option<string>
    requires startLine <= closeLine < |lines|
  {
    TipMatch(BlockSource(lines, startLine, closeLine))
  }

  /** `tipBlockRule` on the lines alone: whether it accepts, and the HTML and closing line. */
  method MatchTipBlock(lines: seq<Line>, startLine: nat, endLine: nat, silent: bool, tipId: string, md: Renderer)
    returns (ok: bool, html: string, closeLine: nat)
    requires startLine < endLine <= |lines|
    ensures var close := TipBlockClose(lines, startLine, endLine);
      && (ok <==> close.Some? && (silent || BlockGroup(lines, startLine, close.value).Some?))
      && (ok ==> closeLine == close.value)
      && (ok && !silent ==> html == TipHtml(ParamMap(BlockGroup(lines, startLine, closeLine).value), tipId, md))
  {
    ok, html, closeLine := false, "", 0;
    var opens := OpensBlock(lines[startLine]);
    if opens {
      var foundEnd, nextLine := ScanTipClose(lines, startLine, endLine);
      if foundEnd {
        var currentLine := lines[nextLine].Text();
        ContainsIndexOf(currentLine, Close);
        var closeIndex := IndexOf(currentLine, Close, 0);
        var afterClose := Trim(currentLine[closeIndex + |Close|..]);
        assert afterClose == AfterClose(lines[nextLine].Text());
        if |afterClose| == 0 {
          closeLine := nextLine;
          if silent {
            ok := true;
          } else {
            var fullContent := BlockSource(lines, startLine, nextLine);
            var contentMatch := TipMatch(fullContent);
            if contentMatch.Some? {
              html := BuildTip(contentMatch.value, tipId, md);
              ok := true;
            }
          }
        }
      }
    }
  }

  /**
   * `tipBlockRule`: decline unless the first line opens a tip, a line from it
   * on contains `{/tip}` with nothing but white space after it; in silent mode
   * only report that; otherwise decline unless the pattern matches the text
   * from the opening line to the end of the closing line, emit the tip and
   * continue after the closing line. A declined or silent call changes nothing.
   */
  method TipBlockRule(state: BlockState, startLine: nat, endLine: nat, silent: bool, tipId: string, md: Renderer)
    returns (ok: bool)
    requires startLine < endLine <= |state.lines|
    modifies state
    ensures var close := TipBlockClose(state.lines, startLine, endLine);
      var m := if close.Some? then BlockGroup(state.lines, startLine, close.value) else None;
      && (ok <==> close.Some? && (silent || m.Some?))
      && (ok && !silent ==>
            && state.tokens == old(state.tokens) + [Token("html_block", "", 0, TipHtml(ParamMap(m.value), tipId, md), None, "")]
            && state.line == close.value + 1)
      && (!ok || silent ==> state.tokens == old(state.tokens) && state.line == old(state.line))
  {
    var html, closeLine;
    ok, html, closeLine := MatchTipBlock(state.lines, startLine, endLine, silent, tipId, md);
    if ok && !silent {
      state.Push(Token("html_block", "", 0, html, None, ""));
      state.line := closeLine + 1;
    }
  }

  /** A tip written on one line is closed on that line. */
  lemma OneLineBlock(lines: seq<Line>, startLine: nat, endLine: nat)
    requires startLine < endLine <= |lines| && BlockOpener(lines[startLine])
    requires HasClose(lines[startLine]) && AfterClose(lines[startLine].Text()) == ""
    ensures TipBlockClose(lines, startLine, endLine) == Some(startLine)
  {
  }

  /** Text after `{/tip}` on the closing line hands the paragraph to the inline rule: the block rule declines. */
  lemma TrailingTextDeclines(lines: seq<Line>, startLine: nat, endLine: nat, c: nat)
    requires startLine < endLine <= |lines|
    requires FirstWithClose(lines, startLine, endLine) == Some(c) && AfterClose(lines[c].Text()) != ""
    ensures TipBlockClose(lines, startLine, endLine).None?
  {
  }
}
