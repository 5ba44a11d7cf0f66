# Directive engine, Mermaid virtualiser, version ordering and article filters

A Dafny model of the text-processing core of the murphy-app-frontend blog
front end. It has four parts.

- **Three markdown-it plugins.**
  - `:::folding` builds a collapsible `<details>` panel with a nesting counter.
  - `:::hidden` and `{hide …}…{/hide}` put content behind a reveal button.
  - `{tip …}{/tip}` builds a word with a tooltip.
  - The plugins share the `key=value` tokenizer `parseParams` and the tooltip runtime `initTipEvents`.
- **`virtualizeMermaidBlocks`.** It replaces rendered Mermaid diagrams in an article's HTML with light placeholders. It keeps an index map from placeholder ids back to the original slices.
- **`compareVersions`.** The numeric ordering of release strings, such as `v1.2.3-abc-dirty`.
- **The article category filters** of the home page and the archive page.

Each plugin rule is modelled against an explicit markdown-it context (module `Host`).

- A block rule sees a sequence of lines. Each line has its raw text (`src.slice(bMarks, eMarks)`) and its indentation (`tShift`).
- An inline rule sees the source string and a position.
- `BlockState` and `InlineState` are classes. The rules push tokens onto them and move `line` or `pos`.
- Every rule is proved to do one of two things:
  - decline, with the state unchanged;
  - push exactly one token and move `line` or `pos` to a stated place.
- `md.render`, `md.renderInline` and `md.utils.escapeHtml` are arbitrary functions passed in with the `Renderer` datatype.

The generated HTML is stated through the `Html` module. A start tag rendered by a plugin is read back attribute by attribute, so the contracts can say which attributes are present and what they hold.

`parseParams` appears twice in the source. The hidden plugin has a top-level copy and the tip plugin a nested one, and the two texts are identical. It is modelled once, in module `Params`. Its unquoted-value boundary is the regular expression `\s+([a-zA-Z_][a-zA-Z0-9_]*)=`. The model replaces it with an explicit scan and proves the scan finds the same leftmost match.

Every other regular expression of the core is modelled as an operational function. A declarative predicate beside it states which match a backtracking engine prefers, and a lemma proves the two agree. These are:
- the hide pattern;
- the tip pattern;
- the Mermaid start-tag pattern.

The loops of the source are methods with invariants, each proved equal to a specification function. These are:
- the line scans;
- the content accumulation;
- `parseParams`;
- `findMatchingTagEnd`;
- the `virtualizeMermaidBlocks` loop;
- the `initTipEvents` `forEach`.

Behaviour the proofs bring out (as written in the source, and modelled that way):

- The `:::folding`, `:::hidden` and `{hide` tests are prefix tests, so `:::foldingX` opens a folding block.
- Only `{tip` checks the character after its name (`Tip.LongerWordRejected`).
- In silent mode both inline rules accept before trying their pattern. A text that the non-silent rule then declines is still reported as a match. Two such texts are `{hide}{/hide}` (`Hidden.SilentAcceptsUnmatched`) and `{tip {/tip}` (`Tip.SilentAcceptsBody`).
- A `theme` or `position` named `click` also yields the `tip-click` class (`Tip.ClassListShape`).

## Model

| member | source | states |
|---|---|---|
| Container.OpenerParams | src/components/MarkdownEditor/plugins/markdown-it-folding-plugin.ts:14-35 | the opening-line test returns the trimmed text after `:::` only when it starts with the directive's name |
| Container.OpenerAcceptsLongerName | src/components/MarkdownEditor/plugins/markdown-it-folding-plugin.ts:32-35 | the name test is a prefix test: `:::` + name + any further letters is accepted, with those letters kept in the parameters |
| Folding.FoldingClose | src/components/MarkdownEditor/plugins/markdown-it-folding-plugin.ts:40-79 | a closing line, when found, lies strictly after the opening line and before `endLine` |
| Folding.FoldingCloseIsFirstZero | src/components/MarkdownEditor/plugins/markdown-it-folding-plugin.ts:40-79 | the scan stops at line `c` iff every earlier line is blank or indented enough with the counter (starting at 1, +1 for `:::name`, -1 for `:::`) still positive, and `c` brings the counter to 0 |
| Folding.FoldingCloseMissing | src/components/MarkdownEditor/plugins/markdown-it-folding-plugin.ts:45-83 | no closing line is found iff no line closes the block (indentation drop or `endLine` reached first) |
| Folding.ScanClose | src/components/MarkdownEditor/plugins/markdown-it-folding-plugin.ts:41-79 | the `while` loop with its nesting counter finds exactly the closing line of the specification |
| Folding.LastHexColorIsLast | src/components/MarkdownEditor/plugins/markdown-it-folding-plugin.ts:94-101 | the colour is empty when no word is `#RGB`/`#RRGGBB`, otherwise it is such a word and no later word is one (the last valid colour wins) |
| Folding.ReadOptions | src/components/MarkdownEditor/plugins/markdown-it-folding-plugin.ts:90-101 | the `forEach` sets the open flag iff `open` is among the words, and leaves the last hex colour |
| Folding.StripBaseRemovesBase | src/components/MarkdownEditor/plugins/markdown-it-folding-plugin.ts:112-120 | exactly `min(leading spaces, startIndent)` characters, all spaces, are removed; the rest of the line, including deeper indentation, is kept |
| Folding.ExtractContent | src/components/MarkdownEditor/plugins/markdown-it-folding-plugin.ts:105-123 | the `for` loop (with its inner space-counting `while`) builds the stripped inner lines, each followed by `\n` |
| Folding.ContentIsJoin | src/components/MarkdownEditor/plugins/markdown-it-folding-plugin.ts:105-123 | the accumulated content is the stripped lines joined by `\n` with a final `\n` |
| Folding.TitleAndBody | src/components/MarkdownEditor/plugins/markdown-it-folding-plugin.ts:125-129 | the title is the first stripped line trimmed, or `折叠框` when it is empty or missing; the body is the remaining lines joined by `\n` and trimmed |
| Folding.DetailsTagAttrs | src/components/MarkdownEditor/plugins/markdown-it-folding-plugin.ts:135-157 | `<details>` carries ` open=""` iff the panel is open, and the `custom-color` class, the border style and the toggle handler iff a colour was given |
| Folding.SummaryTagAttrs | src/components/MarkdownEditor/plugins/markdown-it-folding-plugin.ts:142-158 | `<summary>` has a background style iff a colour was given and the panel is open, and hover handlers iff a colour was given |
| Folding.FoldingHtmlStartTag | src/components/MarkdownEditor/plugins/markdown-it-folding-plugin.ts:157-162 | with a hex colour or none, the panel starts with a `<details>` tag that reads back exactly |
| Folding.FoldingPanelOptions | src/components/MarkdownEditor/plugins/markdown-it-folding-plugin.ts:90-157 | in the emitted panel, `open` is present iff the word `open` was given, and the border style is present iff some word is a hex colour, with the last such colour |
| Folding.BuildPanel | src/components/MarkdownEditor/plugins/markdown-it-folding-plugin.ts:89-162 | the panel built from the options, title and rendered body equals the specification `PanelHtml` |
| Folding.BuildToken | src/components/MarkdownEditor/plugins/markdown-it-folding-plugin.ts:164-167 | the token is an `html_block` with the panel as content, `map = [startLine, closeLine + 1]` and markup `:::` |
| Folding.FoldingBlockRule | src/components/MarkdownEditor/plugins/markdown-it-folding-plugin.ts:4-171 | accepts iff the opener test passes and a closing line exists; a non-silent accept pushes the panel token and sets `line` to the closing line + 1; a declined or silent call changes nothing |
| Params.ParamStartAtIsPattern | src/components/MarkdownEditor/plugins/markdown-it-hidden-plugin.ts:41 | the explicit scan accepts position `p` iff the regular expression `\s+[A-Za-z_][A-Za-z0-9_]*=` matches at `p` |
| Params.NextParamStart | src/components/MarkdownEditor/plugins/markdown-it-hidden-plugin.ts:39-45 | a boundary found lies in the remainder and starts a `<space><name>=` |
| Params.NextParamStartIsLeftmostMatch | src/components/MarkdownEditor/plugins/markdown-it-hidden-plugin.ts:39-50 | the scan returns the leftmost match of the regular expression, and `None` iff there is none |
| Params.ReadValueShape | src/components/MarkdownEditor/plugins/markdown-it-hidden-plugin.ts:28-51 | a quoted value holds no `"`; an unquoted value is trimmed and never contains the start of a further parameter; scanning resumes inside the string |
| Params.StepSpec | src/components/MarkdownEditor/plugins/markdown-it-hidden-plugin.ts:10-51 | a turn reads an entry iff the text from its start is plain spaces, then a name holding no `=` and no plain space, then `=`; the entry's name is that name trimmed, and its value is the one read after `=` |
| Params.ReadParamValue | src/components/MarkdownEditor/plugins/markdown-it-hidden-plugin.ts:28-51 | the value loop (character by character when quoted) returns the value and resume index of `ReadValue` |
| Params.SkipSpaces | src/components/MarkdownEditor/plugins/markdown-it-hidden-plugin.ts:10 | the loop stops at the first character that is not a plain space |
| Params.ReadName | src/components/MarkdownEditor/plugins/markdown-it-hidden-plugin.ts:14-22 | the name is the text up to the first `=` or plain space |
| Params.ParseParams | src/components/MarkdownEditor/plugins/markdown-it-hidden-plugin.ts:4-59 | the nested loops build exactly the map `ParamMap(s)`: stop at a name without `=`, drop empty names, let later names overwrite |
| Params.ParamMapNamesTrimmed | src/components/MarkdownEditor/plugins/markdown-it-hidden-plugin.ts:53-55 | every recorded name is non-empty with no white space at either end |
| Params.ParseFromKeepsKeys | src/components/MarkdownEditor/plugins/markdown-it-hidden-plugin.ts:53-55 | scanning only adds or overwrites entries: a name once recorded stays |
| Hidden.HiddenClose | src/components/MarkdownEditor/plugins/markdown-it-hidden-plugin.ts:94-115 | a closing line, when found, lies strictly after the opening line and before `endLine` |
| Hidden.HiddenCloseIsFirstCloser | src/components/MarkdownEditor/plugins/markdown-it-hidden-plugin.ts:94-115 | the scan stops at `c` iff `c` is the first line trimmed to `:::` and no non-blank line before it is indented less than the opening line (no nesting) |
| Hidden.HiddenCloseMissing | src/components/MarkdownEditor/plugins/markdown-it-hidden-plugin.ts:96-119 | no closing line is found iff no line closes the block |
| Hidden.ScanHiddenClose | src/components/MarkdownEditor/plugins/markdown-it-hidden-plugin.ts:94-115 | the `while` loop finds exactly the specification's closing line |
| Hidden.CollectContent | src/components/MarkdownEditor/plugins/markdown-it-hidden-plugin.ts:130-136 | the `for` loop accumulates each inner line without its indentation, followed by `\n` |
| Hidden.HiddenBody | src/components/MarkdownEditor/plugins/markdown-it-hidden-plugin.ts:130-138 | the content splits at `\n` back into the inner lines, and the trimmed content is the inner lines joined by `\n`, trimmed |
| Hidden.StylesSplit | src/components/MarkdownEditor/plugins/markdown-it-hidden-plugin.ts:147-153 | the style splits at `;` back into its declarations, with `background-color` iff `bg` is given and `color` iff `color` is given, in that order |
| Hidden.ButtonAttrs | src/components/MarkdownEditor/plugins/markdown-it-hidden-plugin.ts:147-155 | the button has class `hide-button`, the style iff a colour is given, and the reveal handler |
| Hidden.BlockHtmlButton | src/components/MarkdownEditor/plugins/markdown-it-hidden-plugin.ts:155-158 | after `<div class="hide-block">` the button reads back exactly, followed by the escaped label and the hidden body |
| Hidden.InlineHtmlButton | src/components/MarkdownEditor/plugins/markdown-it-hidden-plugin.ts:223 | after `<span class="hide-inline">` the button reads back exactly, followed by the escaped label and the hidden inline rendering |
| Hidden.PanelButton | src/components/MarkdownEditor/plugins/markdown-it-hidden-plugin.ts:125-158 | the emitted block panel's button has a style iff `bg` or `color` is non-empty (exactly those declarations) and the escaped `display`, or `查看隐藏内容`, as its label |
| Hidden.BuildPanel | src/components/MarkdownEditor/plugins/markdown-it-hidden-plugin.ts:125-163 | the token built is the specification's `html_block` with `map = [startLine, closeLine + 1]` |
| Hidden.HiddenBlockRule | src/components/MarkdownEditor/plugins/markdown-it-hidden-plugin.ts:63-167 | accepts iff the opener test passes and a `:::` closes the block; a non-silent accept pushes the panel and sets `line` to the closing line + 1; otherwise nothing changes |
| Hidden.FirstHideStartSpec | src/components/MarkdownEditor/plugins/markdown-it-hidden-plugin.ts:196 | the search returns the first `{hide` followed by white space, and `None` iff there is none |
| Hidden.HideMatchPreferred | src/components/MarkdownEditor/plugins/markdown-it-hidden-plugin.ts:196-202 | the groups returned come from the backtracking engine's preferred match: leftmost start, greedy `\s+`, nearest `}`, nearest `{/hide}` |
| Hidden.HideMatchIsRegexMatch | src/components/MarkdownEditor/plugins/markdown-it-hidden-plugin.ts:196-199 | a result is the groups of a match of `\{hide\s+(.*?)\}(.*?)\{\/hide\}`, and `None` means no match exists |
| Hidden.NoCloseNoMatch | src/components/MarkdownEditor/plugins/markdown-it-hidden-plugin.ts:196-199 | without a `}` and then `{/hide}` after the first `{hide` there is no match anywhere |
| Hidden.HideEnd | src/components/MarkdownEditor/plugins/markdown-it-hidden-plugin.ts:174-186 | a found `{/hide}` lies at or after `start + 5` |
| Hidden.HideOpenTest | src/components/MarkdownEditor/plugins/markdown-it-hidden-plugin.ts:174-179 | the opening test is `{hide` at `start`, with no test of the next character |
| Hidden.BuildSpan | src/components/MarkdownEditor/plugins/markdown-it-hidden-plugin.ts:201-223 | the span is built from the parameters with the `查看` label default and the inline rendering of the trimmed content |
| Hidden.MatchHide | src/components/MarkdownEditor/plugins/markdown-it-hidden-plugin.ts:171-228 | accepts iff `{/hide}` follows and (silent or the pattern matches); then the span and the position after `{/hide}` |
| Hidden.HiddenInlineRule | src/components/MarkdownEditor/plugins/markdown-it-hidden-plugin.ts:170-230 | a non-silent accept pushes one `html_inline` token and sets `pos` to the index of `{/hide}` + 7; a declined or silent call changes nothing |
| Hidden.SilentAcceptsUnmatched | src/components/MarkdownEditor/plugins/markdown-it-hidden-plugin.ts:183-199 | `{hide}{/hide}` passes the silent test, but the pattern (which needs white space after `hide`) does not match it |
| Tip.FieldsDefaults | src/components/MarkdownEditor/plugins/markdown-it-tip-plugin.ts:159-164 | every field is non-empty; each of the six fields is the given parameter when that is non-empty, and otherwise its default `提示文本`, `这里是提示内容`, `top`, `dark`, `hover` or `0` |
| Tip.ClassListShape | src/components/MarkdownEditor/plugins/markdown-it-tip-plugin.ts:169-187 | the class list is `anzhiyu-tip`, `tip-<theme>`, `tip-<position>`, plus `tip-click` iff the trigger is `click`; `tip-click` appears iff trigger, theme or position is `click` |
| Tip.ClassAttrSplits | src/components/MarkdownEditor/plugins/markdown-it-tip-plugin.ts:187 | the class attribute splits at spaces back into the class list |
| Tip.StyleFallback | src/components/MarkdownEditor/plugins/markdown-it-tip-plugin.ts:189-210 | a position or theme that is not a table key (nor, as the Left out line says, an `Object.prototype` member) uses the `top` or `dark` entry, while the class list names it as given |
| Tip.TipIdInjective | src/components/MarkdownEditor/plugins/markdown-it-tip-plugin.ts:167 | ids `tip-<time>-<suffix>` with dash-free suffixes are equal only for equal time and suffix |
| Tip.TipIdParts | src/components/MarkdownEditor/plugins/markdown-it-tip-plugin.ts:167 | split at `-`, an id gives back `tip`, the decimal time and the suffix |
| Tip.TipHtmlReads | src/components/MarkdownEditor/plugins/markdown-it-tip-plugin.ts:213-219 | the HTML reads back as the wrapper tag, the text tag with the escaped text, and the tooltip tag with the escaped content, nested as written |
| Tip.TooltipAttrs | src/components/MarkdownEditor/plugins/markdown-it-tip-plugin.ts:219 | the tooltip carries the class list, the escaped content, the raw position, theme, trigger and delay, `data-visible="false"`, `aria-hidden="true"` and its style |
| Tip.TipMatchPreferred | src/components/MarkdownEditor/plugins/markdown-it-tip-plugin.ts:254 | the group returned is that of the preferred match of `\{tip\s*(.*?)\}\{\/tip\}`: first `{tip`, longest white space, shortest group |
| Tip.TipMatchIsRegexMatch | src/components/MarkdownEditor/plugins/markdown-it-tip-plugin.ts:254-257 | a result is the group of a match, and `None` means no match exists |
| Tip.TipEnd | src/components/MarkdownEditor/plugins/markdown-it-tip-plugin.ts:239-244 | a found `{/tip}` lies at or after `start + 4` |
| Tip.TipMatchInRule | src/components/MarkdownEditor/plugins/markdown-it-tip-plugin.ts:250-259 | cut at the first `{/tip}`, the pattern matches iff the character before it is `}` (a tip has no body), with the group from the white space after `{tip` to that `}` |
| Tip.TipOpenTest | src/components/MarkdownEditor/plugins/markdown-it-tip-plugin.ts:226-237 | the opening test is `{tip` followed by a space or `}` |
| Tip.BuildTip | src/components/MarkdownEditor/plugins/markdown-it-tip-plugin.ts:259-262 | the HTML is `generateTipHtml` of the parsed parameters |
| Tip.MatchTip | src/components/MarkdownEditor/plugins/markdown-it-tip-plugin.ts:222-267 | accepts iff the opening test passes, `{/tip}` follows, and (silent or the pattern matches); then the tip HTML and `endPos + 6` |
| Tip.TipInlineRule | src/components/MarkdownEditor/plugins/markdown-it-tip-plugin.ts:222-269 | a non-silent accept pushes one `html_inline` token and sets `pos` past `{/tip}`; a declined or silent call changes nothing |
| Tip.LongerWordRejected | src/components/MarkdownEditor/plugins/markdown-it-tip-plugin.ts:233-237 | `{tips}` is not an opening |
| Tip.SilentAcceptsBody | src/components/MarkdownEditor/plugins/markdown-it-tip-plugin.ts:241-257 | `{tip {/tip}` passes the silent test but not the pattern |
| Tip.FirstWithCloseIsFirst | src/components/MarkdownEditor/plugins/markdown-it-tip-plugin.ts:300-318 | the scan returns the first line, from the opening line itself, whose text contains `{/tip}` |
| Tip.TipBlockClose | src/components/MarkdownEditor/plugins/markdown-it-tip-plugin.ts:278-320 | a closing line, when found, lies at or after the opening line and before `endLine` |
| Tip.ScanTipClose | src/components/MarkdownEditor/plugins/markdown-it-tip-plugin.ts:297-318 | the `for` loop finds exactly the first line containing `{/tip}` |
| Tip.OpensBlock | src/components/MarkdownEditor/plugins/markdown-it-tip-plugin.ts:282-294 | the first-line tests accept iff the line is non-blank and its trimmed text starts with `{tip` followed, if anything, by a space or `}` |
| Tip.MatchTipBlock | src/components/MarkdownEditor/plugins/markdown-it-tip-plugin.ts:278-336 | accepts iff the block closes with nothing after `{/tip}` and (silent or the pattern matches the text up to the end of the closing line); then the tip HTML |
| Tip.TipBlockRule | src/components/MarkdownEditor/plugins/markdown-it-tip-plugin.ts:272-343 | a non-silent accept pushes one `html_block` token and sets `line` to the closing line + 1; a declined or silent call changes nothing |
| Tip.OneLineBlock | src/components/MarkdownEditor/plugins/markdown-it-tip-plugin.ts:300-318 | a tip written on one line with nothing after `{/tip}` closes on that line |
| Tip.TrailingTextDeclines | src/components/MarkdownEditor/plugins/markdown-it-tip-plugin.ts:305-315 | text after `{/tip}` on the closing line makes the block rule decline |
| TipEvents.ParseIntDecimal | src/components/MarkdownEditor/plugins/markdown-it-tip-plugin.ts:27 | `parseInt` reads a numeral back as its value, whatever non-digit text follows |
| TipEvents.ParseIntNegative | src/components/MarkdownEditor/plugins/markdown-it-tip-plugin.ts:27 | a minus sign negates the numeral |
| TipEvents.ParseIntSkipsSpace | src/components/MarkdownEditor/plugins/markdown-it-tip-plugin.ts:27 | leading white space is skipped |
| TipEvents.ParseIntWord | src/components/MarkdownEditor/plugins/markdown-it-tip-plugin.ts:27 | a value with no digit gives `NaN` |
| TipEvents.ToLong | src/components/MarkdownEditor/plugins/markdown-it-tip-plugin.ts:41-45 | `setTimeout`'s `long` argument: the delay modulo 2^32, between -2^31 and 2^31 - 1, unchanged inside that range |
| TipEvents.TimeoutOf | src/components/MarkdownEditor/plugins/markdown-it-tip-plugin.ts:41-45 | the show timer waits the delay when it is from 0 to 2^31 - 1, 0 for `NaN` or a delay from -2^31 to 0, and otherwise a wait below 2^31 congruent to the delay modulo 2^32 |
| TipEvents.LongDelaysWrap | src/components/MarkdownEditor/plugins/markdown-it-tip-plugin.ts:41-45 | a delay of 2^31 ms fires at once and one of 2^32 + 100 ms after 100 ms |
| TipEvents.DefaultMode | src/components/MarkdownEditor/plugins/markdown-it-tip-plugin.ts:26-27 | a tooltip without `data-trigger` or `data-delay` shows on hover with no delay |
| TipEvents.ModeOfRenderedTip | src/components/MarkdownEditor/plugins/markdown-it-tip-plugin.ts:26-27 | the runtime reads from a rendered tip the click mode iff `trigger=click` and the delay parsed from `delay`, defaults `hover` and `0`; for values without `"` this holds of the tooltip tag read back from the HTML |
| TipEvents.RunValid | src/components/MarkdownEditor/plugins/markdown-it-tip-plugin.ts:33-58 | along any sequence of events at most one of the timers `showTimer` and `hideTimer` refer to is pending, each with the delay it was armed with, and click mode arms no timer (overwritten timers are counted apart) |
| TipEvents.RepeatedEnterLeaks | src/components/MarkdownEditor/plugins/markdown-it-tip-plugin.ts:36-58 | after `mouseenter`, `mouseenter`, `mouseleave` one show timer is still running out of `showTimer`'s reach; if it fires after the hide timer, the tooltip ends up visible |
| TipEvents.HoverSettles | src/components/MarkdownEditor/plugins/markdown-it-tip-plugin.ts:36-58 | in hover mode, when `mouseenter` and `mouseleave` alternate, no timer is left running out of its variable's reach, and once the timers have fired the tooltip is visible iff the last of them was `mouseenter` |
| TipEvents.ClickToggles | src/components/MarkdownEditor/plugins/markdown-it-tip-plugin.ts:60-75 | in click mode a wrapper click toggles visibility and a second click restores the state |
| TipEvents.OutsideClickHides | src/components/MarkdownEditor/plugins/markdown-it-tip-plugin.ts:77-86 | a document click from outside the wrapper leaves the tooltip hidden; one from inside changes nothing |
| TipEvents.ModesIgnoreOtherEvents | src/components/MarkdownEditor/plugins/markdown-it-tip-plugin.ts:74-90 | hover events never move a click-mode tooltip and clicks never move a hover-mode one |
| TipEvents.PageClickEffect | src/components/MarkdownEditor/plugins/markdown-it-tip-plugin.ts:60-86 | a click on a click-mode wrapper toggles that tooltip only (propagation stopped); any other click hides every visible click-mode tooltip |
| TipDom.Tooltip.Reveal | src/components/MarkdownEditor/plugins/markdown-it-tip-plugin.ts:42-44 | visibility `visible`, opacity `1`, `data-visible="true"` |
| TipDom.Tooltip.Conceal | src/components/MarkdownEditor/plugins/markdown-it-tip-plugin.ts:54-56 | visibility `hidden`, opacity `0`, `data-visible="false"` |
| TipDom.TipController.MouseEnter | src/components/MarkdownEditor/plugins/markdown-it-tip-plugin.ts:36-46 | `showTooltip` clears the hide timer and re-arms the show timer, counting a still-pending one it overwrites as running on; the state moves as the state machine's `mouseenter` step |
| TipDom.TipController.MouseLeave | src/components/MarkdownEditor/plugins/markdown-it-tip-plugin.ts:48-58 | `hideTooltip` clears the show timer and re-arms the hide timer, counting a still-pending one it overwrites as running on; the state moves as the `mouseleave` step |
| TipDom.TipController.ShowTimerFires | src/components/MarkdownEditor/plugins/markdown-it-tip-plugin.ts:41-45 | the show timer's callback follows the state machine's step |
| TipDom.TipController.HideTimerFires | src/components/MarkdownEditor/plugins/markdown-it-tip-plugin.ts:53-57 | the hide timer's callback follows the state machine's step |
| TipDom.TipController.StrayShowFires | src/components/MarkdownEditor/plugins/markdown-it-tip-plugin.ts:41-45 | the callback of an overwritten show timer still reveals the tooltip, following the state machine's step |
| TipDom.TipController.StrayHideFires | src/components/MarkdownEditor/plugins/markdown-it-tip-plugin.ts:53-57 | the callback of an overwritten hide timer still conceals the tooltip, following the state machine's step |
| TipDom.TipController.WrapperClick | src/components/MarkdownEditor/plugins/markdown-it-tip-plugin.ts:60-72 | `toggleTooltip` follows the state machine's wrapper-click step |
| TipDom.TipController.DocumentClick | src/components/MarkdownEditor/plugins/markdown-it-tip-plugin.ts:77-86 | the document listener follows the state machine's document-click step |
| TipDom.Eligible | src/components/MarkdownEditor/plugins/markdown-it-tip-plugin.ts:18-24 | the wrappers that get a controller are wrappers of the container holding a tooltip |
| TipDom.MarkedNotEligible | src/components/MarkdownEditor/plugins/markdown-it-tip-plugin.ts:18-30 | once every wrapper is marked or has no tooltip, nothing is eligible |
| TipDom.Attach | src/components/MarkdownEditor/plugins/markdown-it-tip-plugin.ts:23-34 | the `forEach` body reads the mode, marks the wrapper and starts with no timer pending |
| TipDom.InitTipEvents | src/components/MarkdownEditor/plugins/markdown-it-tip-plugin.ts:15-92 | one fresh controller per unmarked wrapper with a tooltip, in order; those wrappers are marked, others untouched; a second call attaches nothing |
| MermaidTags.TagStartIff | src/utils/virtualizeMermaid.ts:22-42 | a start tag is `<`, the name in any letter case, then space, `>`, `\n`, `\t`, `\r` or `/` |
| MermaidTags.TagEndIff | src/utils/virtualizeMermaid.ts:50-69 | an end tag is `</`, the name in any letter case, then space, `>`, `\n`, `\t` or `\r`, not `/` |
| MermaidTags.ScanEndBounds | src/utils/virtualizeMermaid.ts:77-103 | the scan returns -1 or an index just past a `>` after the start |
| MermaidTags.ScanEndFindsClose | src/utils/virtualizeMermaid.ts:83-99 | the scan returns the position past the `>` of the first end tag that brings the depth back to 0 (self-closing start tags leave it unchanged) |
| MermaidTags.ScanEndNoClose | src/utils/virtualizeMermaid.ts:83-102 | without such an end tag the scan returns -1 |
| MermaidTags.FindMatchingTagEnd | src/utils/virtualizeMermaid.ts:77-103 | the depth-counting loop returns the scan's result: -1 or an index past a `>` after `startPos` |
| Mermaid.ClassAttrAtSpec | src/utils/virtualizeMermaid.ts:136 | the class-attribute reader accepts exactly `class=` after a word boundary, a quote, a quote-free value and the same quote |
| Mermaid.LastClassAttrSpec | src/utils/virtualizeMermaid.ts:136 | the greedy `[^>]*` picks the last complete class attribute before the tag's `>`, and `None` means there is none |
| Mermaid.TagNameSpec | src/utils/virtualizeMermaid.ts:136-140 | the tag name is `p` or `div`, lower-cased, and followed by a word boundary |
| Mermaid.StartTagAtSpec | src/utils/virtualizeMermaid.ts:136 | the start-tag reader succeeds wherever the pattern matches, and what it returns is a match of the pattern with the greedy class attribute |
| Mermaid.NextStartTagSpec | src/utils/virtualizeMermaid.ts:136-139 | `exec` from `lastIndex` returns the leftmost match, and `None` means none is left |
| Mermaid.BlocksChain | src/utils/virtualizeMermaid.ts:150-178 | the blocks lie in order inside the text and do not overlap, since scanning resumes at each block's end |
| Mermaid.BlockIdInjective | src/utils/virtualizeMermaid.ts:159 | the ids `mmd-<count>` of different blocks differ |
| Mermaid.InjectAttrsRoundTrip | src/utils/virtualizeMermaid.ts:105-108 | the attributes go in right before the final `>`, and removing them gives the tag back; a tag without a final `>` is unchanged |
| Mermaid.SpliceOriginals | src/utils/virtualizeMermaid.ts:159-181 | splicing each block's original slice back reproduces the text |
| Mermaid.IndexMapSpec | src/utils/virtualizeMermaid.ts:159-160 | the map holds `mmd-i ↦ [start, end)` for each block `i` and nothing else |
| Mermaid.NoMarkerNoBlocks | src/utils/virtualizeMermaid.ts:120-127 | a text without `md-editor-mermaid` holds no block |
| Mermaid.VirtualizeFastPath | src/utils/virtualizeMermaid.ts:118-127 | the early return gives what the full scan would give |
| Mermaid.BlocksAreMermaid | src/utils/virtualizeMermaid.ts:139-157 | every block is a pattern match whose class list contains exactly `md-editor-mermaid` and whose end tag was found |
| Mermaid.VirtualizeSpec | src/utils/virtualizeMermaid.ts:118-189 | `rawHtml` is the input, `count` equals the number of blocks and of map entries, ids map to the blocks' places, blocks are ordered Mermaid blocks, originals splice back, and no block means `virtualHtml == rawHtml` |
| Mermaid.VirtualizeMermaidBlocks | src/utils/virtualizeMermaid.ts:118-189 | the loop over `exec` with `lastIndex`, `lastPos` and `count` returns exactly `Virtualize(html)` |
| Versions.CompareVersions | src/utils/versionManager.ts:221-247 | the result is always -1, 0 or 1 |
| Versions.CompareFromSpec | src/utils/versionManager.ts:238-246 | 0 iff the components are equal with missing ones read as 0; otherwise the first differing component decides the sign |
| Versions.CompareVersionsSpec | src/utils/versionManager.ts:217-247 | the same for two version strings, on their components |
| Versions.CompareVersionsAntisymmetric | src/utils/versionManager.ts:217-247 | `compare(a, b) == -compare(b, a)` and `compare(a, a) == 0` |
| Versions.CompareVersionsTransitive | src/utils/versionManager.ts:217-247 | `a >= b` and `b >= c` give `a >= c` |
| Versions.ComparePadded | src/utils/versionManager.ts:239-240 | a trailing zero component changes nothing |
| Versions.MainVersionOfTriple | src/utils/versionManager.ts:227-230 | a string starting with `digits.digits.digits` and then a non-digit is cut to that triple |
| Versions.ComponentsOfTriple | src/utils/versionManager.ts:227-236 | such a string's components are the three decimal values |
| Versions.ComponentsStripV | src/utils/versionManager.ts:223-224 | one leading `v` is stripped |
| Versions.StripVPrefix | src/utils/versionManager.ts:223-224 | `v` + s compares as s |
| Versions.SuffixIgnored | src/utils/versionManager.ts:223-233 | `x.y.z` with any suffix equals `vx.y.z` with any other suffix |
| Versions.MissingComponentIsZero | src/utils/versionManager.ts:235-241 | `1.2` compares equal to `1.2.0` |
| ArticleFilter.AnyInSpec | src/utils/articleFilter.ts:28-30 | `some` is true iff one of the categories is named in the list |
| ArticleFilter.ExcludedSpec | src/utils/articleFilter.ts:11-45 | home exclusion iff some category is `项目展示`; archive exclusion iff some category is `项目展示` or `技术分享`; no categories means neither |
| ArticleFilter.ExcludedForHomeExcludedForArchive | src/utils/articleFilter.ts:11-45 | an article left out of the home page is left out of the archive |
| ArticleFilter.FilterSpec | src/utils/articleFilter.ts:53-64 | a filter keeps the accepted elements, read at increasing indexes, and an index is kept iff its element is accepted |
| ArticleFilter.FilterExcludedArticlesSpec | src/utils/articleFilter.ts:53-55 | the home list holds exactly the articles not excluded, in their order |
| ArticleFilter.FilterExcludedArticlesForArchiveSpec | src/utils/articleFilter.ts:62-64 | the archive list holds exactly the articles not excluded for the archive, in their order |
| ArticleFilter.FilterStricter | src/utils/articleFilter.ts:53-64 | filtering with a stricter test keeps a subsequence of the looser result |
| ArticleFilter.ArchiveWithinHome | src/utils/articleFilter.ts:11-64 | the archive list is the home list filtered again with the archive's test, hence a subsequence of it |
| ArticleFilter.FilterAfterLooser | src/utils/articleFilter.ts:53-64 | filtering with a stricter test after a looser one equals filtering with the stricter test alone |
| ArticleFilter.ArchiveOnlyDropsTechSharing | src/utils/articleFilter.ts:11-46 | an article the home page keeps but the archive drops has a 技术分享 category and no 项目展示 category |

## Left out

- The markdown-it internals are not modelled. These are `md.render`, `md.renderInline`, `md.utils.escapeHtml`, the token objects of `state.push`, and rule registration and priority (the `ruler.before` calls). The three functions are arbitrary function parameters, tokens are values, and registration is not modelled.
- `state.src`, `bMarks`, `eMarks` and `tShift` are not modelled themselves. A block rule sees each line as its raw text and indentation, with blank meaning nothing after the indentation. The tip block rule's multi-line source slice is the opening line's text followed by the later lines joined by `\n`. That holds at the top level only: inside a container such as a blockquote, `src.slice(bMarks[startLine] + tShift[startLine], eMarks[nextLine])` still holds the container markers (`> `) at the head of the later lines, which the joined line texts leave out.
- The random tip id (`Date.now()` and `Math.random()`) is a parameter. `Tip.TipId` states its format from a time and a suffix.
- `initTipEvents` keeps only the DOM state the listeners touch, and real time is not modelled. `querySelectorAll` and `querySelector` are replaced by a sequence of wrappers, each with at most one tooltip. `addEventListener` is the choice of which controller methods apply. A timer that `showTimer` or `hideTimer` refers to is a pending flag carrying its delay; timers those variables were overwritten on are a count per kind; each expiry is an explicit event, so the order in which timers fire is chosen by the event sequence rather than by their delays. Event propagation appears only in `TipEvents.PageClick`.
- TipDom.InitTipEvents: states the new state through predicates on fresh controllers (`Attached`, `MarkedUpTo`). The listeners registered on `document` for each click-mode tooltip are not counted or deduplicated.
- Tip.StyleFallback: the tables are plain object literals, so `positionStyles[position]` and `themeStyles[theme]` also find the members every object inherits from `Object.prototype`. A position or theme of `constructor`, `toString`, `valueOf`, `hasOwnProperty`, `__proto__` and the like puts that member's string form (such as `function Object() { [native code] }`) into the tooltip style. The model uses the `top` or `dark` entry for these names, as for any other name outside the tables.
- TipEvents.HoverSettles: stated for sequences in which `mouseenter` and `mouseleave` alternate, as a single mouse produces them. On other sequences a timer overwritten without `clearTimeout` keeps running, and the final visibility depends on which timer fires last (`TipEvents.RepeatedEnterLeaks`).
- TipEvents.TimeoutOf: takes the exact integer that `parseInt` reads. JavaScript's `parseInt` yields a double, which is rounded above 2^53 and is `Infinity` (converted to 0 by `setTimeout`) for numerals beyond about 1.8e308, so for such numerals the wait can differ.
- TipEvents.ModeOfRenderedTip: the read-back uses the attribute reader of this model, not the browser's HTML parser. The browser decodes character references in attribute values, so `trigger="&#99;lick"` gives click mode and `delay="&#53;00"` a delay of 500 at run time, while the model reads the raw text (hover mode and no delay). A `"` in `trigger` or `delay` ends the attribute early, because the source writes these attributes unescaped; the lemma then speaks only of the tooltip tag as built.
- The inline JavaScript in the `onclick`, `ontoggle`, `onmouseover` and `onmouseout` attributes is literal text. Its browser behaviour is not modelled.
- `console.log` and `console.warn` calls are not modelled.
- `String.prototype.replace` special patterns (`$&` and the like) in the inserted attributes are not interpreted. The ids never contain `$`.
- Letter case folding is ASCII only, in `isTagStartAt`, `isTagEndAt` and the `i` flag of the start-tag pattern. JavaScript's `toLowerCase` also folds non-ASCII letters.
- Versions.CompareVersions: reads a component as its decimal value when it is all digits and as 0 otherwise. JavaScript's `Number` also accepts exponents, hexadecimal, surrounding white space and a sign, and yields `Infinity` or a rounded value for very long numerals. `Number("-5")` is `-5` in the source.
- The rest of `versionManager.ts` is I/O and is not modelled: `fetch`, `localStorage`, `window.location.reload` and the session flag.
- `virtualizeMermaidBlocks`' falsy-input coercion (`html || ""`) has no counterpart, because a Dafny string is never `null` or `undefined`.
- An article is reduced to its title and its optional category list. The other fields of `Article` play no part in the filters.
- Params.ParseParams: the model has one copy of `parseParams`; the tip plugin's nested copy (markdown-it-tip-plugin.ts:96-152) has the same text and is covered by it.
- Text is a sequence of Unicode characters as Dafny reads them. JavaScript strings are UTF-16 code units, which differs only for characters outside the Basic Multilingual Plane.
