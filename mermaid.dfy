/**
 * `virtualizeMermaidBlocks`: every `<p>` or `<div>` whose class list holds
 * `md-editor-mermaid` is replaced, in the HTML that is put into the page, by
 * its start tag marked with a block id, a placeholder span and the end tag;
 * the blocks' places in the original text are returned under their ids so
 * that the diagrams can be put back later.
 */
module Mermaid {
  import opened Wrappers
  import opened Text
  import opened MermaidTags

  /** The class that marks a rendered Mermaid diagram. */
  const MermaidClass := "md-editor-mermaid"

  /** What stands in for the diagram until it is put back. */
  const Placeholder := "<span class=\"md-editor-mermaid-placeholder\">Mermaid 图表加载中...</span>"

  /* ---------- The start-tag pattern `<(p|div)\b[^>]*\bclass=(["'])([^"']*?)\2[^>]*>`, flags `gi` ---------- */

  predicate IsQuote(c: char) {
    c == '"' || c == '\''
  }

  /** The first quote at or after `from`, or `|html|` when there is none. */
  function FirstQuote(html: string, from: nat): (r: nat)
    requires from <= |html|
    ensures from <= r <= |html|
    ensures r < |html| ==> IsQuote(html[r])
    decreases |html| - from
  {
    if from == |html| || IsQuote(html[from]) then from else FirstQuote(html, from + 1)
  }

  lemma {:induction false} FirstQuoteSpec(html: string, from: nat)
    requires from <= |html|
    ensures forall j :: from <= j < FirstQuote(html, from) ==> !IsQuote(html[j])
    decreases |html| - from
  {
    if from < |html| && !IsQuote(html[from]) {
      FirstQuoteSpec(html, from + 1);
    }
  }

  /** The alternative `(p|div)` after the `<` at `p`, lower-cased; `""` when neither is written there. */
  function TagName(html: string, p: nat): (name: string)
    ensures name == "" || name == "p" || name == "div"
  {
    if NameAt(html, p + 1, "p") then "p"
    else if NameAt(html, p + 1, "div") then "div"
    else ""
  }

  /** A name found by `NameAt` lies inside the text. */
  lemma NameAtInside(html: string, p: nat, name: string)
    requires NameAt(html, p, name) && name != ""
    ensures p + |name| <= |html|
  {
    assert LetterAt(html, p + |name| - 1, name[|name| - 1]);
  }

  /** `\bclass=` and the opening quote at `k`, in any letter case. */
  predicate ClassOpensAt(html: string, k: nat) {
    && 0 < k && k + 6 < |html|
    && !IsWordChar(html[k - 1])
    && NameAt(html, k, "class=")
    && IsQuote(html[k + 6])
  }

  /**
   * The rest of the pattern from a `class=` at `k`: the lazy value runs to
   * the first quote, which must be the opening one, and the greedy
   * `[^>]*>` ends at the first `>` after it. The result is that quote's
   * index and that `>`'s index.
   */
  function ClassAttrAt(html: string, k: nat): (r: Option<(nat, nat)>)
    ensures r.Some? ==> k + 7 <= r.value.0 < r.value.1 < |html|
  {
    if !ClassOpensAt(html, k) then None
    else
      var c := FirstQuote(html, k + 7);
      if c == |html| || html[c] != html[k + 6] then None
      else
        var g := FindChar(html, '>', c + 1);
        if g == |html| then None else Some((c, g))
  }

  /**
   * The greedy `[^>]*` before `\bclass=`: the engine tries the longest run
   * first, so the `class=` taken is the last one, from `k` down to `lo`,
   * for which the rest of the pattern matches.
   */
  function LastClassAttr(html: string, lo: nat, k: nat): (r: Option<nat>)
    ensures r.Some? ==> lo <= r.value <= k && ClassAttrAt(html, r.value).Some?
    decreases k
  {
    if k < lo then None
    else if ClassAttrAt(html, k).Some? then Some(k)
    else if k == lo then None
    else LastClassAttr(html, lo, k - 1)
  }

  /**
   * One match of the start-tag pattern: `[start, end)` is `match[0]`,
   * `name` is `match[1]` lower-cased, `class=` is at `classAt` and the
   * value `match[3]` ends at the closing quote `quoteAt`.
   */
  datatype StartTag = StartTag(start: nat, end: nat, name: string, classAt: nat, quoteAt: nat)

  /** The match of the pattern that starts at `p`, if any. */
  function StartTagAt(html: string, p: nat): (r: Option<StartTag>)
    ensures r.Some? ==>
      && r.value.start == p && p < r.value.classAt
      && r.value.classAt + 7 <= r.value.quoteAt < r.value.end <= |html|
      && (r.value.name == "p" || r.value.name == "div")
  {
    if p >= |html| || html[p] != '<' then None
    else
      var name := TagName(html, p);
      if name == "" then None
      else
        NameAtInside(html, p + 1, name);
        var ne := p + 1 + |name|;
        if ne < |html| && IsWordChar(html[ne]) then None
        else
          match LastClassAttr(html, ne, FindChar(html, '>', ne))
          case None => None
          case Some(k) =>
            var cg := ClassAttrAt(html, k).value;
            Some(StartTag(p, cg.1 + 1, name, k, cg.0))
  }

  /** `startTagRegex.exec(html)` with `lastIndex == from`: the leftmost match at or after `from`. */
  function NextStartTag(html: string, from: nat): (r: Option<StartTag>)
    ensures r.Some? ==> from <= r.value.start && StartTagAt(html, r.value.start) == r
    decreases |html| - from
  {
    if from >= |html| then None
    else if StartTagAt(html, from).Some? then StartTagAt(html, from)
    else NextStartTag(html, from + 1)
  }

  /* ---------- The pattern, stated declaratively ---------- */

  /** A quote at `k + 6` is closed by the same quote at `c`, with no quote between, and a `>` at `g` follows with none between. */
  predicate ClassAttrMatches(html: string, k: nat, c: nat, g: nat) {
    && ClassOpensAt(html, k)
    && k + 7 <= c < g < |html|
    && html[c] == html[k + 6]
    && (forall j :: k + 7 <= j < c ==> !IsQuote(html[j]))
    && html[g] == '>'
    && (forall j :: c < j < g ==> html[j] != '>')
  }

  lemma FirstQuoteAt(html: string, from: nat, c: nat)
    requires from <= c < |html| && IsQuote(html[c])
    requires forall j :: from <= j < c ==> !IsQuote(html[j])
    ensures FirstQuote(html, from) == c
    decreases c - from
  {
    if from < c { FirstQuoteAt(html, from + 1, c); }
  }

  /**
   * The lazy class value and the trailing `[^>]*>` leave no choice: from a
   * `class=` at `k` there is at most one way to finish the match, and
   * `ClassAttrAt` finds it exactly when there is one.
   */
  lemma ClassAttrAtSpec(html: string, k: nat, c: nat, g: nat)
    ensures ClassAttrAt(html, k) == Some((c, g)) <==> ClassAttrMatches(html, k, c, g)
  {
    if ClassAttrAt(html, k) == Some((c, g)) {
      FirstQuoteSpec(html, k + 7);
      FindCharSpec(html, '>', c + 1);
    }
    if ClassAttrMatches(html, k, c, g) {
      FirstQuoteAt(html, k + 7, c);
      FindCharAt(html, '>', c + 1, g);
    }
  }

  /** `LastClassAttr` finds the last `class=` from `lo` to `k` that completes a match, and reports none only when there is none. */
  lemma {:induction false} LastClassAttrSpec(html: string, lo: nat, k: nat)
    ensures match LastClassAttr(html, lo, k)
      case Some(m) => forall j :: m < j <= k ==> ClassAttrAt(html, j).None?
      case None => forall j :: lo <= j <= k ==> ClassAttrAt(html, j).None?
    decreases k
  {
    if lo < k && ClassAttrAt(html, k).None? {
      LastClassAttrSpec(html, lo, k - 1);
    }
  }

  /**
   * The pattern matched at `p` with `class=` at `k`: `<`, `p` or `div` in
   * any case, a word boundary, a run without `>`, then a `class=` attribute
   * finished as `ClassAttrMatches` says.
   */
  predicate PatternAt(html: string, p: nat, name: string, k: nat) {
    && p < |html| && html[p] == '<'
    && (name == "p" || name == "div") && NameAt(html, p + 1, name)
    && p + 1 + |name| <= k
    && ClassAttrAt(html, k).Some?
    && !IsWordChar(html[p + 1 + |name|])
    && (forall j :: p + 1 + |name| <= j < k ==> html[j] != '>')
  }

  /** The tag name is the alternative written after the `<`: `p` and `div` cannot both be there. */
  lemma TagNameSpec(html: string, p: nat, name: string)
    requires (name == "p" || name == "div") && NameAt(html, p + 1, name)
    ensures TagName(html, p) == name
  {
    if name == "div" {
      assert name[0] == 'd' && LetterAt(html, p + 1 + 0, name[0]);
    }
  }

  /**
   * `StartTagAt` is the greedy match of the pattern at `p`: it finds a match
   * exactly when the pattern can match there, and it takes the last
   * `class=` the pattern allows, as backtracking from the longest `[^>]*`
   * does.
   */
  lemma StartTagAtSpec(html: string, p: nat, name: string, k: nat)
    ensures PatternAt(html, p, name, k) ==> StartTagAt(html, p).Some?
    ensures match StartTagAt(html, p)
      case Some(t) =>
        && PatternAt(html, p, t.name, t.classAt)
        && ClassAttrAt(html, t.classAt) == Some((t.quoteAt, t.end - 1))
        && (PatternAt(html, p, name, k) ==> name == t.name && k <= t.classAt)
      case None => true
  {
    if p < |html| && html[p] == '<' && TagName(html, p) != "" {
      var tn := TagName(html, p);
      NameAtInside(html, p + 1, tn);
      var ne := p + 1 + |tn|;
      var gt := FindChar(html, '>', ne);
      FindCharSpec(html, '>', ne);
      LastClassAttrSpec(html, ne, gt);
      if PatternAt(html, p, name, k) {
        TagNameSpec(html, p, name);
        assert k <= gt;
      }
    } else if PatternAt(html, p, name, k) {
      TagNameSpec(html, p, name);
    }
  }

  /** `exec` returns the leftmost match: no match starts between `from` and the one found, and none at all when there is none. */
  lemma {:induction false} NextStartTagSpec(html: string, from: nat)
    ensures match NextStartTag(html, from)
      case Some(t) => forall q :: from <= q < t.start ==> StartTagAt(html, q).None?
      case None => forall q :: from <= q ==> StartTagAt(html, q).None?
    decreases |html| - from
  {
    if from < |html| && StartTagAt(html, from).None? {
      NextStartTagSpec(html, from + 1);
    }
  }

  /** `match[3]`, the class value between the quotes. */
  function ClassValue(html: string, t: StartTag): string
    requires t.classAt + 7 <= t.quoteAt <= |html|
  {
    html[t.classAt + 7..t.quoteAt]
  }

  /** `classValue.split(/\s+/).includes("md-editor-mermaid")`: a whole class name, not a part of one. */
  predicate HasMermaidClass(classValue: string) {
    MermaidClass in WsSplit(classValue)
  }

  /* ---------- The blocks ---------- */

  /** A virtualised block: its place `[start, end)` in the text, its tag name and its start tag `match[0]`. */
  datatype Block = Block(start: nat, end: nat, name: string, startTag: string)

  /**
   * The blocks the scan finds from `from` on: a match without the class, or
   * whose end tag is not found, is passed over and the scan resumes after
   * the match; after a block it resumes at the block's end.
   */
  function Blocks(html: string, from: nat): seq<Block>
    decreases |html| - from
  {
    match NextStartTag(html, from)
    case None => []
    case Some(t) =>
      if !HasMermaidClass(ClassValue(html, t)) then Blocks(html, t.end)
      else
        var e := ScanEnd(html, t.start, 0, t.name);
        if e <= t.start then Blocks(html, t.end)
        else [Block(t.start, e, t.name, html[t.start..t.end])] + Blocks(html, e)
  }

  /** The blocks lie in order, each inside the text, none overlapping the next, none before `lo`. */
  predicate Chain(html: string, bs: seq<Block>, lo: nat)
    decreases |bs|
  {
    bs == [] || (lo <= bs[0].start < bs[0].end <= |html| && Chain(html, bs[1..], bs[0].end))
  }

  /** `blocks` is kept in order and without overlap. */
  lemma {:induction false} BlocksChain(html: string, from: nat)
    ensures Chain(html, Blocks(html, from), from)
    decreases |html| - from
  {
    match NextStartTag(html, from)
    case None =>
    case Some(t) =>
      var e := ScanEnd(html, t.start, 0, t.name);
      if !HasMermaidClass(ClassValue(html, t)) || e <= t.start {
        BlocksChain(html, t.end);
        ChainLower(html, Blocks(html, t.end), from, t.end);
      } else {
        ScanEndBounds(html, t.start, 0, t.name);
        BlocksChain(html, e);
      }
  }

  /** A chain from `hi` is a chain from any `lo` below it. */
  lemma ChainLower(html: string, bs: seq<Block>, lo: nat, hi: nat)
    requires lo <= hi && Chain(html, bs, hi)
    ensures Chain(html, bs, lo)
  {
  }

  /* ---------- The rewritten text ---------- */

  /** `"mmd-" + count`. */
  function BlockId(k: nat): string {
    "mmd-" + Decimal(k)
  }

  lemma BlockIdInjective(i: nat, j: nat)
    requires BlockId(i) == BlockId(j)
    ensures i == j
  {
    assert BlockId(i)[4..] == Decimal(i) && BlockId(j)[4..] == Decimal(j);
    DecimalInjective(i, j);
  }

  /** The attributes put into a block's start tag. */
  function VirtualAttrs(id: string): string {
    " data-mermaid-virtual=\"1\" data-mermaid-vid=\"" + id + "\" "
  }

  /** `startTag.replace(/>$/, attrs + ">")`. */
  function InjectAttrs(startTag: string, attrs: string): string {
    if startTag != [] && startTag[|startTag| - 1] == '>' then startTag[..|startTag| - 1] + attrs + ">"
    else startTag
  }

  /**
   * The attributes go in just before the final `>`, and taking them out
   * again gives the tag back; a tag without a final `>` is left as it is.
   */
  lemma InjectAttrsRoundTrip(startTag: string, attrs: string)
    ensures var r := InjectAttrs(startTag, attrs);
      if startTag != [] && startTag[|startTag| - 1] == '>' then
        && |r| == |startTag| + |attrs|
        && r[|startTag| - 1..|r| - 1] == attrs
        && r[..|startTag| - 1] + r[|r| - 1..] == startTag
      else r == startTag
  {
    var r := InjectAttrs(startTag, attrs);
    if startTag != [] && startTag[|startTag| - 1] == '>' {
      var n := |startTag| - 1;
      assert r[n..|r| - 1] == attrs;
      assert r[..n] + r[|r| - 1..] == startTag[..n] + [startTag[n]];
      assert startTag[..n] + [startTag[n]] == startTag;
    }
  }

  /** What a block becomes in `virtualHtml`. */
  function Replacement(b: Block, k: nat): string {
    InjectAttrs(b.startTag, VirtualAttrs(BlockId(k))) + Placeholder + "</" + b.name + ">"
  }

  /** The replacements of the blocks, numbered from `k`. */
  function Replacements(bs: seq<Block>, k: nat): (r: seq<string>)
    ensures |r| == |bs|
    decreases |bs|
  {
    if bs == [] then [] else [Replacement(bs[0], k)] + Replacements(bs[1..], k + 1)
  }

  /** The text from `lastPos` on with block `i` swapped for `pieces[i]` and the text between blocks kept. */
  function Splice(html: string, bs: seq<Block>, lastPos: nat, pieces: seq<string>): string
    requires lastPos <= |html| && Chain(html, bs, lastPos) && |pieces| == |bs|
    decreases |bs|
  {
    if bs == [] then html[lastPos..]
    else html[lastPos..bs[0].start] + pieces[0] + Splice(html, bs[1..], bs[0].end, pieces[1..])
  }

  /** The blocks' own text. */
  function Originals(html: string, bs: seq<Block>, lo: nat): (r: seq<string>)
    requires Chain(html, bs, lo)
    ensures |r| == |bs|
    decreases |bs|
  {
    if bs == [] then [] else [html[bs[0].start..bs[0].end]] + Originals(html, bs[1..], bs[0].end)
  }

  /**
   * Putting each block's original text back where its replacement stands
   * gives the text again: the indexes recorded for the blocks and the text
   * copied between them are exact.
   */
  lemma {:induction false} SpliceOriginals(html: string, bs: seq<Block>, lastPos: nat)
    requires lastPos <= |html| && Chain(html, bs, lastPos)
    ensures Splice(html, bs, lastPos, Originals(html, bs, lastPos)) == html[lastPos..]
    decreases |bs|
  {
    if bs != [] {
      var b := bs[0];
      SpliceOriginals(html, bs[1..], b.end);
      assert html[lastPos..b.start] + html[b.start..b.end] + html[b.end..] == html[lastPos..];
    }
  }

  /** `blocks`: block `i` under `mmd-i`. */
  datatype BlockIndex = BlockIndex(start: nat, end: nat)

  function IndexMap(bs: seq<Block>): map<string, BlockIndex>
    decreases |bs|
  {
    if bs == [] then map[]
    else
      var n := |bs| - 1;
      IndexMap(bs[..n])[BlockId(n) := BlockIndex(bs[n].start, bs[n].end)]
  }

  /** The ids are `mmd-0` to `mmd-(n-1)`, `mmd-i` holds the place of block `i`, and there are as many entries as blocks. */
  lemma {:induction false} IndexMapSpec(bs: seq<Block>)
    ensures forall i :: 0 <= i < |bs| ==> BlockId(i) in IndexMap(bs) && IndexMap(bs)[BlockId(i)] == BlockIndex(bs[i].start, bs[i].end)
    ensures forall id :: id in IndexMap(bs) ==> exists i :: 0 <= i < |bs| && id == BlockId(i)
    ensures |IndexMap(bs)| == |bs|
    decreases |bs|
  {
    if bs != [] {
      var n := |bs| - 1;
      var prev := bs[..n];
      IndexMapSpec(prev);
      if BlockId(n) in IndexMap(prev) {
        var i :| 0 <= i < n && BlockId(n) == BlockId(i);
        BlockIdInjective(n, i);
        assert false;
      }
      forall i | 0 <= i < n
        ensures BlockId(i) in IndexMap(bs) && IndexMap(bs)[BlockId(i)] == BlockIndex(bs[i].start, bs[i].end)
      {
        if BlockId(i) == BlockId(n) {
          BlockIdInjective(i, n);
        }
        assert prev[i] == bs[i];
      }
    }
  }

  /* ---------- `virtualizeMermaidBlocks` ---------- */

  datatype VirtualizeResult = VirtualizeResult(rawHtml: string, virtualHtml: string, blocks: map<string, BlockIndex>, count: nat)

  /** The result `virtualizeMermaidBlocks` returns. */
  function Virtualize(html: string): VirtualizeResult {
    if html == "" || !Contains(html, MermaidClass) then VirtualizeResult(html, html, map[], 0)
    else
      var bs := Blocks(html, 0);
      BlocksChain(html, 0);
      VirtualizeResult(html, Splice(html, bs, 0, Replacements(bs, 0)), IndexMap(bs), |bs|)
  }

  /** A text without the class name anywhere holds no block. */
  lemma {:induction false} NoMarkerNoBlocks(html: string, from: nat)
    requires !Contains(html, MermaidClass)
    ensures Blocks(html, from) == []
    decreases |html| - from
  {
    match NextStartTag(html, from)
    case None =>
    case Some(t) =>
      if HasMermaidClass(ClassValue(html, t)) {
        WsSplitContains(ClassValue(html, t), MermaidClass);
        ContainsInSlice(html, t.classAt + 7, t.quoteAt, MermaidClass);
        assert false;
      }
      NoMarkerNoBlocks(html, t.end);
  }

  /**
   * The early return for a text without `md-editor-mermaid` gives what the
   * scan would give: the check only saves work.
   */
  lemma VirtualizeFastPath(html: string)
    ensures Chain(html, Blocks(html, 0), 0)
    ensures var bs := Blocks(html, 0);
      Virtualize(html) == VirtualizeResult(html, Splice(html, bs, 0, Replacements(bs, 0)), IndexMap(bs), |bs|)
  {
    BlocksChain(html, 0);
    if html == "" || !Contains(html, MermaidClass) {
      NoMarkerNoBlocks(html, 0);
    }
  }

  /** A block is a match of the start-tag pattern whose class list holds the class and whose end tag was found. */
  predicate IsMermaidBlock(html: string, b: Block) {
    match StartTagAt(html, b.start)
    case None => false
    case Some(t) =>
      && t.name == b.name
      && b.startTag == html[t.start..t.end]
      && HasMermaidClass(ClassValue(html, t))
      && b.start < b.end
      && b.end == ScanEnd(html, b.start, 0, b.name)
  }

  /** Every block of `bs` is a Mermaid block of the text. */
  predicate AllMermaid(html: string, bs: seq<Block>) {
    forall i :: 0 <= i < |bs| ==> IsMermaidBlock(html, bs[i])
  }

  lemma AllCons<T>(P: T -> bool, b: T, rest: seq<T>)
    requires P(b) && forall i :: 0 <= i < |rest| ==> P(rest[i])
    ensures forall i :: 0 <= i < |[b] + rest| ==> P(([b] + rest)[i])
  {
    var bs := [b] + rest;
    assert forall i :: 1 <= i < |bs| ==> bs[i] == rest[i - 1];
  }

  /** The scan only takes Mermaid blocks. */
  lemma {:induction false} BlocksAreMermaid(html: string, from: nat)
    ensures AllMermaid(html, Blocks(html, from))
    decreases |html| - from
  {
    match NextStartTag(html, from)
    case None =>
    case Some(t) =>
      var e := ScanEnd(html, t.start, 0, t.name);
      BlocksAt(html, from, t, e);
      if !HasMermaidClass(ClassValue(html, t)) || e <= t.start {
        BlocksAreMermaid(html, t.end);
      } else {
        BlocksAreMermaid(html, e);
        var b := Block(t.start, e, t.name, html[t.start..t.end]);
        assert IsMermaidBlock(html, b);
        AllCons(x => IsMermaidBlock(html, x), b, Blocks(html, e));
      }
  }

  /**
   * What `virtualizeMermaidBlocks` returns: the text it was given, one id
   * `mmd-i` per block holding the block's place in that text, and a
   * rewritten text from which the blocks can be put back; without a block
   * the text is returned as it is.
   */
  lemma VirtualizeSpec(html: string)
    ensures var r := Virtualize(html); var bs := Blocks(html, 0);
      && r.rawHtml == html
      && r.count == |bs| == |r.blocks|
      && (forall i :: 0 <= i < |bs| ==> BlockId(i) in r.blocks && r.blocks[BlockId(i)] == BlockIndex(bs[i].start, bs[i].end))
      && (forall id :: id in r.blocks ==> exists i :: 0 <= i < |bs| && id == BlockId(i))
      && AllMermaid(html, bs)
      && Chain(html, bs, 0)
      && Splice(html, bs, 0, Originals(html, bs, 0)) == html
      && (r.count == 0 ==> r.virtualHtml == html)
  {
    VirtualizeFastPath(html);
    var bs := Blocks(html, 0);
    IndexMapSpec(bs);
    BlocksAreMermaid(html, 0);
    SpliceOriginals(html, bs, 0);
  }

  /** One step of `Blocks` at a match `t` whose end is `e`. */
  lemma BlocksAt(html: string, from: nat, t: StartTag, e: int)
    requires NextStartTag(html, from) == Some(t) && e == ScanEnd(html, t.start, 0, t.name)
    ensures Blocks(html, from) ==
      if !HasMermaidClass(ClassValue(html, t)) || e <= t.start then Blocks(html, t.end)
      else [Block(t.start, e, t.name, html[t.start..t.end])] + Blocks(html, e)
  {
  }

  /**
   * The state of the loop of `virtualizeMermaidBlocks` after the blocks
   * `done`: the scan resumes at `lastIndex`, the text before `lastPos` has
   * been rewritten into `virtualHtml`, and rewriting the rest gives the
   * result.
   */
  ghost predicate Progress(html: string, lastIndex: nat, lastPos: nat, done: seq<Block>, count: nat,
                           blocks: map<string, BlockIndex>, virtualHtml: string)
  {
    && lastPos <= lastIndex <= |html|
    && Chain(html, Blocks(html, 0), 0)
    && Blocks(html, 0) == done + Blocks(html, lastIndex)
    && Chain(html, Blocks(html, lastIndex), lastPos)
    && count == |done| && blocks == IndexMap(done)
    && virtualHtml + Splice(html, Blocks(html, lastIndex), lastPos, Replacements(Blocks(html, lastIndex), count))
       == Splice(html, Blocks(html, 0), 0, Replacements(Blocks(html, 0), 0))
  }

  lemma ProgressStart(html: string)
    ensures Progress(html, 0, 0, [], 0, map[], "")
  {
    BlocksChain(html, 0);
  }

  /** A match passed over: the scan resumes after it and nothing else changes. */
  lemma ProgressSkip(html: string, lastIndex: nat, lastPos: nat, done: seq<Block>, count: nat,
                     blocks: map<string, BlockIndex>, virtualHtml: string, t: StartTag, e: int)
    requires Progress(html, lastIndex, lastPos, done, count, blocks, virtualHtml)
    requires NextStartTag(html, lastIndex) == Some(t) && e == ScanEnd(html, t.start, 0, t.name)
    requires !HasMermaidClass(ClassValue(html, t)) || e <= t.start
    ensures Progress(html, t.end, lastPos, done, count, blocks, virtualHtml)
  {
    BlocksAt(html, lastIndex, t, e);
    BlocksChain(html, t.end);
    ChainLower(html, Blocks(html, t.end), lastPos, t.end);
  }

  /** A block taken: the text up to it and its replacement are written out and it is recorded as `mmd-count`. */
  lemma ProgressTake(html: string, lastIndex: nat, lastPos: nat, done: seq<Block>, count: nat,
                     blocks: map<string, BlockIndex>, virtualHtml: string, t: StartTag, e: nat)
    requires Progress(html, lastIndex, lastPos, done, count, blocks, virtualHtml)
    requires NextStartTag(html, lastIndex) == Some(t) && e == ScanEnd(html, t.start, 0, t.name)
    requires HasMermaidClass(ClassValue(html, t)) && t.start < e
    ensures var b := Block(t.start, e, t.name, html[t.start..t.end]);
      && lastPos <= t.start <= |html|
      && Progress(html, e, e, done + [b], count + 1, blocks[BlockId(count) := BlockIndex(t.start, e)],
                  virtualHtml + html[lastPos..t.start] + Replacement(b, count))
  {
    var b := Block(t.start, e, t.name, html[t.start..t.end]);
    var rest := Blocks(html, e);
    BlocksAt(html, lastIndex, t, e);
    var cur := Blocks(html, lastIndex);
    assert cur == [b] + rest;
    IndexMapSnoc(done, b);
    var all := Blocks(html, 0);
    SpliceAdvance(html, cur, b, rest, lastPos, count, virtualHtml, Splice(html, all, 0, Replacements(all, 0)));
    SnocShift(all, done, b, rest);
  }

  lemma SnocShift<T>(all: seq<T>, done: seq<T>, b: T, rest: seq<T>)
    requires all == done + ([b] + rest)
    ensures all == (done + [b]) + rest
  {
  }

  /** Writing out the text up to the next block and its replacement keeps the rewritten text on course. */
  lemma SpliceAdvance(html: string, cur: seq<Block>, b: Block, rest: seq<Block>, lastPos: nat, count: nat,
                      virtualHtml: string, goal: string)
    requires cur == [b] + rest && lastPos <= |html| && Chain(html, cur, lastPos)
    requires virtualHtml + Splice(html, cur, lastPos, Replacements(cur, count)) == goal
    ensures lastPos <= b.start < b.end <= |html| && Chain(html, rest, b.end)
    ensures virtualHtml + html[lastPos..b.start] + Replacement(b, count)
              + Splice(html, rest, b.end, Replacements(rest, count + 1)) == goal
  {
    ChainHead(html, b, rest, lastPos);
    SpliceStep(html, b, rest, lastPos, count);
  }

  lemma ChainHead(html: string, b: Block, rest: seq<Block>, lo: nat)
    requires Chain(html, [b] + rest, lo)
    ensures lo <= b.start < b.end <= |html| && Chain(html, rest, b.end)
  {
    assert ([b] + rest)[1..] == rest;
  }

  lemma IndexMapSnoc(done: seq<Block>, b: Block)
    ensures IndexMap(done + [b]) == IndexMap(done)[BlockId(|done|) := BlockIndex(b.start, b.end)]
  {
    assert (done + [b])[..|done|] == done;
  }

  /** The text up to a block, the block's replacement, then the rest. */
  lemma SpliceStep(html: string, b: Block, rest: seq<Block>, lastPos: nat, k: nat)
    requires lastPos <= |html| && Chain(html, [b] + rest, lastPos)
    ensures Splice(html, [b] + rest, lastPos, Replacements([b] + rest, k))
      == html[lastPos..b.start] + Replacement(b, k) + Splice(html, rest, b.end, Replacements(rest, k + 1))
  {
    var bs := [b] + rest;
    assert bs[1..] == rest;
  }

  /** No match left: the rest of the text is copied and every block has been found. */
  lemma ProgressEnd(html: string, lastIndex: nat, lastPos: nat, done: seq<Block>, count: nat,
                    blocks: map<string, BlockIndex>, virtualHtml: string)
    requires Progress(html, lastIndex, lastPos, done, count, blocks, virtualHtml)
    requires NextStartTag(html, lastIndex) == None
    ensures done == Blocks(html, 0)
    ensures virtualHtml + html[lastPos..] == Splice(html, Blocks(html, 0), 0, Replacements(Blocks(html, 0), 0))
  {
  }

  /**
   * `virtualizeMermaidBlocks(html)`: the loop over the matches of the
   * start-tag pattern, with `lastIndex`, `lastPos`, `count`, `blocks` and
   * `virtualHtml` updated as it goes.
   */
  method VirtualizeMermaidBlocks(html: string) returns (r: VirtualizeResult)
    ensures r == Virtualize(html)
  {
    var rawHtml := html;
    if rawHtml == "" || !Contains(rawHtml, MermaidClass) {
      return VirtualizeResult(rawHtml, rawHtml, map[], 0);
    }
    var blocks: map<string, BlockIndex> := map[];
    var virtualHtml := "";
    var lastPos: nat := 0;
    var count: nat := 0;
    var lastIndex: nat := 0;
    ghost var done: seq<Block> := [];
    ProgressStart(html);
    var m := NextStartTag(rawHtml, lastIndex);
    while m.Some?
      invariant m == NextStartTag(html, lastIndex)
      invariant Progress(html, lastIndex, lastPos, done, count, blocks, virtualHtml)
      decreases |html| - lastIndex
    {
      var t := m.value;
      var tagName := t.name;
      var classValue := rawHtml[t.classAt + 7..t.quoteAt];
      var startPos := t.start;
      var endPos := FindMatchingTagEnd(rawHtml, startPos, tagName);
      if !(MermaidClass in WsSplit(classValue)) || endPos <= startPos {
        ProgressSkip(html, lastIndex, lastPos, done, count, blocks, virtualHtml, t, endPos);
        lastIndex := t.end;
      } else {
        ProgressTake(html, lastIndex, lastPos, done, count, blocks, virtualHtml, t, endPos);
        ghost var b := Block(startPos, endPos, tagName, rawHtml[t.start..t.end]);
        virtualHtml := virtualHtml + rawHtml[lastPos..startPos];
        var id := BlockId(count);
        blocks := blocks[id := BlockIndex(startPos, endPos)];
        var injected := InjectAttrs(rawHtml[t.start..t.end], VirtualAttrs(id));
        virtualHtml := virtualHtml + (injected + Placeholder + "</" + tagName + ">");
        done := done + [b];
        count := count + 1;
        lastPos := endPos;
        lastIndex := endPos;
      }
      m := NextStartTag(rawHtml, lastIndex);
    }
    ProgressEnd(html, lastIndex, lastPos, done, count, blocks, virtualHtml);
    virtualHtml := virtualHtml + rawHtml[lastPos..];
    return VirtualizeResult(rawHtml, virtualHtml, blocks, count);
  }
}
