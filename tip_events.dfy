/**
 * The tooltip runtime that `initTipEvents` attaches to rendered tips.
 *
 * Each wrapper not yet marked `data-tip-initialized` that holds a tooltip gets
 * a controller. In hover mode `mouseenter` arms a show timer of the tooltip's
 * `data-delay` and cancels a pending hide, and `mouseleave` arms a 100 ms hide
 * timer and cancels a pending show. Arming a timer overwrites the variable
 * that held the previous one of its kind without clearing it, so a second
 * `mouseenter` before any `mouseleave` leaves the first show timer running,
 * out of reach of later cancels (and likewise for `mouseleave`). In click mode a click on the wrapper
 * toggles the tooltip and stops there, and any click that reaches the
 * document hides a visible tooltip.
 *
 * Time is not modelled: a timer is a pending flag carrying its delay, and its
 * expiry is an explicit event. `Step` is the state machine on values; the
 * `TipController` class holds the same state in place and its methods are
 * proved to follow `Step`.
 */
module TipEvents {
  import opened Wrappers
  import opened Text
  import opened Html
  import Host
  import Tip

  /* ---------- `parseInt(s, 10)` ---------- */

  /** The index after the optional sign that follows the leading white space. */
  function SignEnd(s: string): (j: nat)
    ensures j <= |s|
  {
    var i := SpaceRunEnd(s, 0);
    if i < |s| && (s[i] == '-' || s[i] == '+') then i + 1 else i
  }

  /**
   * `parseInt(s, 10)`: skip white space, read an optional sign and the longest
   * run of decimal digits; with no digit the result is `NaN`, here `None`.
   */
  function ParseInt(s: string): Option<int> {
    var i := SpaceRunEnd(s, 0);
    var j := SignEnd(s);
    var k := DigitRunEnd(s, j);
    DigitRunEndSpec(s, j);
    if k == j then None
    else
      var v: int := DecimalValue(s[j..k]);
      if i < |s| && s[i] == '-' then Some(-v) else Some(v)
  }

  /** A numeral reads back as its value, whatever non-digit text follows it (`"300ms"` is 300). */
  lemma ParseIntDecimal(n: nat, tail: string)
    requires tail == [] || !IsDigit(tail[0])
    ensures ParseInt(Decimal(n) + tail) == Some(n)
  {
    var s := Decimal(n) + tail;
    var d := Decimal(n);
    DecimalRoundTrip(n);
    assert IsDigit(s[0]) by {
      assert s[0] == d[0];
    }
    SpaceRunEndAt(s, 0, 0);
    assert SignEnd(s) == 0;
    assert s[0..|d|] == d;
    DigitRunEndAt(s, 0, |d|);
  }

  /** A minus sign negates the numeral. */
  lemma ParseIntNegative(n: nat)
    ensures ParseInt("-" + Decimal(n)) == Some(-(n as int))
  {
    var s := "-" + Decimal(n);
    var d := Decimal(n);
    DecimalRoundTrip(n);
    SpaceRunEndAt(s, 0, 0);
    assert SignEnd(s) == 1;
    assert s[1..|s|] == d;
    DigitRunEndAt(s, 1, |s|);
  }

  /** Leading white space is skipped. */
  lemma ParseIntSkipsSpace(ws: string, t: string)
    requires AllSpace(ws) && (t == [] || !IsSpace(t[0]))
    ensures ParseInt(ws + t) == ParseInt(t)
  {
    SignEndShift(ws, t);
    var j := SignEnd(t);
    DigitRunEndShift(ws, t, j);
    var k := DigitRunEnd(t, j);
    assert (ws + t)[|ws| + j..|ws| + k] == t[j..k];
    SpaceRunEndAfter(t);
    assert |ws| < |ws + t| ==> (ws + t)[|ws|] == t[0];
  }

  /** The white space and the sign of `ws + t` end `|ws|` further on than those of `t`. */
  lemma SignEndShift(ws: string, t: string)
    requires AllSpace(ws) && (t == [] || !IsSpace(t[0]))
    ensures SpaceRunEnd(ws + t, 0) == |ws|
    ensures SignEnd(ws + t) == |ws| + SignEnd(t)
  {
    var s := ws + t;
    assert forall j :: 0 <= j < |ws| ==> IsSpace(s[j]);
    if t == [] {
      SpaceRunEndAll(s);
    } else {
      assert s[|ws|] == t[0];
      SpaceRunEndAt(s, 0, |ws|);
    }
    SpaceRunEndAfter(t);
  }

  lemma SpaceRunEndAll(s: string)
    requires forall j :: 0 <= j < |s| ==> IsSpace(s[j])
    ensures SpaceRunEnd(s, 0) == |s|
  {
    SpaceRunEndFrom(s, 0);
  }

  lemma {:induction false} SpaceRunEndFrom(s: string, i: nat)
    requires i <= |s| && forall j :: i <= j < |s| ==> IsSpace(s[j])
    ensures SpaceRunEnd(s, i) == |s|
    decreases |s| - i
  {
    if i < |s| {
      SpaceRunEndFrom(s, i + 1);
    }
  }

  /** `t` starts with a non-space, or is empty: its white-space run is empty. */
  lemma SpaceRunEndAfter(t: string)
    requires t == [] || !IsSpace(t[0])
    ensures SpaceRunEnd(t, 0) == 0
  {
  }

  lemma {:induction false} DigitRunEndShift(ws: string, t: string, j: nat)
    requires j <= |t|
    ensures DigitRunEnd(ws + t, |ws| + j) == |ws| + DigitRunEnd(t, j)
    decreases |t| - j
  {
    if j < |t| {
      assert (ws + t)[|ws| + j] == t[j];
      if IsDigit(t[j]) {
        DigitRunEndShift(ws, t, j + 1);
      }
    }
  }

  /** A value without any digit is `NaN`. */
  lemma ParseIntWord()
    ensures ParseInt("fast").None?
  {
    SpaceRunEndAt("fast", 0, 0);
    assert SignEnd("fast") == 0;
    assert DigitRunEnd("fast", 0) == 0 by {
      assert !IsDigit("fast"[0]);
    }
  }

  /* ---------- The mode read from the tooltip's attributes ---------- */

  /** How a tooltip reacts: to clicks or to hovering, and the show delay in milliseconds. */
  datatype Mode = Mode(click: bool, delay: nat)

  const HideDelay: nat := 100

  /** `dataset.x || d`: the attribute's value unless it is absent or empty. */
  function AttrOr(attr: Option<string>, d: string): string {
    if attr.Some? && attr.value != "" then attr.value else d
  }

  /**
   * The Web IDL conversion of a number to `long`: the integer taken modulo
   * 2^32 into the range from -2^31 to 2^31 - 1, as the Web IDL Standard's
   * ConvertToInt does for a `long` without `[Clamp]` or `[EnforceRange]`.
   */
  function ToLong(x: int): (r: int)
    ensures -0x8000_0000 <= r < 0x8000_0000
    ensures (x - r) % 0x1_0000_0000 == 0
    ensures -0x8000_0000 <= x < 0x8000_0000 ==> r == x
  {
    var m := x % 0x1_0000_0000;
    if m >= 0x8000_0000 then m - 0x1_0000_0000 else m
  }

  /**
   * `setTimeout` converts its `timeout` argument to a `long` (`NaN` becomes 0)
   * and then waits that many milliseconds, 0 when it is negative, as the HTML
   * Standard's timer initialisation steps say.
   */
  function TimeoutOf(delay: Option<int>): (ms: nat)
    ensures ms < 0x8000_0000
    ensures delay.Some? && 0 <= delay.value < 0x8000_0000 ==> ms == delay.value
    ensures delay.Some? && -0x8000_0000 <= delay.value <= 0 ==> ms == 0
    ensures delay.None? ==> ms == 0
    ensures delay.Some? && ms != 0 ==> (delay.value - ms) % 0x1_0000_0000 == 0
  {
    match delay
    case None => 0
    case Some(d) => var t := ToLong(d); if t > 0 then t else 0
  }

  /** A delay of 2^31 ms or more wraps around: 2^31 fires at once, 2^32 + 100 after 100 ms. */
  lemma LongDelaysWrap()
    ensures TimeoutOf(Some(0x8000_0000)) == 0
    ensures TimeoutOf(Some(0x1_0000_0000 + 100)) == 100
    ensures TimeoutOf(Some(0x1_0000_0000 - 1)) == 0
  {
  }

  /** `trigger === "click"` with the `hover` default, and the delay `parseInt(delay || "0", 10)`. */
  function ModeOf(trigger: Option<string>, delay: Option<string>): Mode {
    Mode(AttrOr(trigger, "hover") == "click", TimeoutOf(ParseInt(AttrOr(delay, "0"))))
  }

  /** A tooltip without `data-trigger` or `data-delay` shows on hover, at once. */
  lemma DefaultMode()
    ensures ModeOf(None, None) == Mode(false, 0)
    ensures ModeOf(Some(""), Some("")) == Mode(false, 0)
  {
    ParseIntDecimal(0, "");
    assert Decimal(0) + "" == "0";
  }

  /**
   * A rendered tip's runtime mode is the one its parameters asked for: click
   * mode exactly for `trigger=click`, and the delay parsed from `delay`
   * (0 when it is not given). This holds of the tooltip tag as built and, when
   * the values hold no `"`, of the tag read back from the rendered HTML.
   */
  lemma ModeOfRenderedTip(params: map<string, string>, md: Host.Renderer)
    ensures var f := Tip.FieldsOf(params);
      var a := Tip.TooltipTag(f, md).attrs;
      ModeOf(AttrValue(a, "data-trigger"), AttrValue(a, "data-delay")) == Mode(f.trigger == "click", TimeoutOf(ParseInt(f.delay)))
    ensures var f := Tip.FieldsOf(params);
      Tip.QuoteFree(f, md) ==>
        var read := ReadStartTag(Tip.TooltipPart(f, md));
        && read.Some?
        && ModeOf(AttrValue(read.value.0.attrs, "data-trigger"), AttrValue(read.value.0.attrs, "data-delay"))
           == Mode(f.trigger == "click", TimeoutOf(ParseInt(f.delay)))
    ensures !("delay" in params && params["delay"] != "") ==> Tip.FieldsOf(params).delay == "0"
    ensures !("trigger" in params && params["trigger"] != "") ==> Tip.FieldsOf(params).trigger == "hover"
  {
    var f := Tip.FieldsOf(params);
    Tip.TooltipAttrs(f, md);
    Tip.FieldsDefaults(params);
    if Tip.QuoteFree(f, md) {
      Tip.TooltipTagWellFormed(f, md);
      ReadRenderStartTag(Tip.TooltipTag(f, md), md.escapeHtml(f.content) + Tip.SpanEnd + Tip.SpanEnd);
    }
  }

  /* ---------- The state machine ---------- */

  /**
   * The tooltip's visibility; the timers `showTimer` and `hideTimer` refer
   * to while they are pending, each with its delay; and how many show and
   * hide timers are pending that those variables no longer refer to.
   */
  datatype TipState = TipState(shown: bool, showPending: Option<nat>, hidePending: Option<nat>,
                               strayShows: nat, strayHides: nat)

  datatype Event =
    | MouseEnter
    | MouseLeave
    | ShowTimerFires
    | HideTimerFires
    | StrayShowFires
    | StrayHideFires
    | WrapperClick
    | DocumentClick(inside: bool)

  /** How many timers a re-arming leaves running: one when the variable still referred to a pending one. */
  function Leaked(pending: Option<nat>): nat {
    if pending.Some? then 1 else 0
  }

  /** The effect of one event: the listeners present in the mode, and the timers' callbacks. */
  function Step(m: Mode, s: TipState, e: Event): TipState {
    match e
    case MouseEnter =>
      if m.click then s
      else s.(hidePending := None, showPending := Some(m.delay), strayShows := s.strayShows + Leaked(s.showPending))
    case MouseLeave =>
      if m.click then s
      else s.(showPending := None, hidePending := Some(HideDelay), strayHides := s.strayHides + Leaked(s.hidePending))
    case ShowTimerFires => if s.showPending.Some? then s.(shown := true, showPending := None) else s
    case HideTimerFires => if s.hidePending.Some? then s.(shown := false, hidePending := None) else s
    case StrayShowFires => if s.strayShows > 0 then s.(shown := true, strayShows := s.strayShows - 1) else s
    case StrayHideFires => if s.strayHides > 0 then s.(shown := false, strayHides := s.strayHides - 1) else s
    case WrapperClick => if m.click then s.(shown := !s.shown) else s
    case DocumentClick(inside) => if m.click && !inside && s.shown then s.(shown := false) else s
  }

  function Run(m: Mode, s: TipState, events: seq<Event>): TipState
    decreases |events|
  {
    if events == [] then s else Run(m, Step(m, s, events[0]), events[1..])
  }

  /**
   * At most one of the timers the variables refer to is pending, each with
   * the delay its arming used, and click mode arms no timer at all.
   */
  predicate Valid(m: Mode, s: TipState) {
    && !(s.showPending.Some? && s.hidePending.Some?)
    && (m.click ==> s.showPending.None? && s.hidePending.None? && s.strayShows == 0 && s.strayHides == 0)
    && (s.showPending.Some? ==> s.showPending.value == m.delay)
    && (s.hidePending.Some? ==> s.hidePending.value == HideDelay)
  }

  const Initial: TipState := TipState(false, None, None, 0, 0)

  lemma StepValid(m: Mode, s: TipState, e: Event)
    requires Valid(m, s)
    ensures Valid(m, Step(m, s, e))
  {
  }

  lemma {:induction false} RunValid(m: Mode, s: TipState, events: seq<Event>)
    requires Valid(m, s)
    ensures Valid(m, Run(m, s, events))
    decreases |events|
  {
    if events != [] {
      StepValid(m, s, events[0]);
      RunValid(m, Step(m, s, events[0]), events[1..]);
    }
  }

  /** A second `mouseenter` while the first show timer is pending leaves that timer running. */
  lemma RepeatedEnterLeaks(m: Mode)
    requires !m.click
    ensures var s := Run(m, Initial, [MouseEnter, MouseEnter, MouseLeave]);
      && s.strayShows == 1 && s.showPending.None? && s.hidePending == Some(HideDelay)
      && !Step(m, s, HideTimerFires).shown
      && Step(m, Step(m, s, HideTimerFires), StrayShowFires).shown
  {
    var s1 := Step(m, Initial, MouseEnter);
    var s2 := Step(m, s1, MouseEnter);
    assert s2.strayShows == 1;
    assert Run(m, Initial, [MouseEnter, MouseEnter, MouseLeave]) == Step(m, s2, MouseLeave) by {
      assert [MouseEnter, MouseEnter, MouseLeave][1..] == [MouseEnter, MouseLeave];
      assert [MouseEnter, MouseLeave][1..] == [MouseLeave];
      assert [MouseLeave][1..] == [];
    }
  }

  /** Where the tooltip ends up once the pending timer the variables refer to, if any, has fired. */
  function Outcome(s: TipState): bool {
    if s.showPending.Some? then true else if s.hidePending.Some? then false else s.shown
  }

  /** Let both timers the variables refer to run out. */
  function Settle(m: Mode, s: TipState): TipState {
    Step(m, Step(m, s, ShowTimerFires), HideTimerFires)
  }

  lemma SettleOutcome(m: Mode, s: TipState)
    requires Valid(m, s)
    ensures Settle(m, s).shown == Outcome(s)
    ensures Settle(m, s).showPending.None? && Settle(m, s).hidePending.None?
  {
  }

  /** The visibility a hover event asks for: `true` for `mouseenter`, `false` for `mouseleave`. */
  function NextHover(b: bool, e: Event): bool {
    if e == MouseEnter then true else if e == MouseLeave then false else b
  }

  /** The visibility the last `mouseenter` or `mouseleave` of `events` asks for, or `init` without one. */
  function LastHover(init: bool, events: seq<Event>): bool
    decreases |events|
  {
    if events == [] then init else LastHover(NextHover(init, events[0]), events[1..])
  }

  /**
   * `mouseenter` and `mouseleave` alternate in `events`, the last one before
   * them having been `mouseenter` (`Some(true)`), `mouseleave` (`Some(false)`)
   * or neither (`None`).
   */
  predicate Alternates(prev: Option<bool>, events: seq<Event>)
    decreases |events|
  {
    events == [] ||
    if events[0] == MouseEnter then prev != Some(true) && Alternates(Some(true), events[1..])
    else if events[0] == MouseLeave then prev != Some(false) && Alternates(Some(false), events[1..])
    else Alternates(prev, events[1..])
  }

  /** No timer is pending that the variables no longer refer to. */
  predicate NoStrays(s: TipState) {
    s.strayShows == 0 && s.strayHides == 0
  }

  /**
   * What the last hover event leaves armed: after `mouseenter` no hide timer,
   * after `mouseleave` no show timer, and before either no timer.
   */
  predicate Armed(prev: Option<bool>, s: TipState) {
    && (prev != Some(true) ==> s.showPending.None?)
    && (prev != Some(false) ==> s.hidePending.None?)
  }

  function NextPrev(prev: Option<bool>, e: Event): Option<bool> {
    if e == MouseEnter then Some(true) else if e == MouseLeave then Some(false) else prev
  }

  /** Without strays, one event moves the outcome as the hover event asks, and leaves no stray when hover events alternate. */
  lemma StepOutcome(m: Mode, s: TipState, prev: Option<bool>, e: Event)
    requires Valid(m, s) && !m.click && NoStrays(s) && Armed(prev, s)
    requires e == MouseEnter ==> prev != Some(true)
    requires e == MouseLeave ==> prev != Some(false)
    ensures var t := Step(m, s, e);
      NoStrays(t) && Armed(NextPrev(prev, e), t) && Outcome(t) == NextHover(Outcome(s), e)
  {
  }

  lemma {:induction false} RunOutcome(m: Mode, s: TipState, prev: Option<bool>, events: seq<Event>)
    requires Valid(m, s) && !m.click && NoStrays(s) && Armed(prev, s) && Alternates(prev, events)
    ensures NoStrays(Run(m, s, events))
    ensures Outcome(Run(m, s, events)) == LastHover(Outcome(s), events)
    decreases |events|
  {
    if events != [] {
      var e := events[0];
      StepOutcome(m, s, prev, e);
      StepValid(m, s, e);
      RunOutcome(m, Step(m, s, e), NextPrev(prev, e), events[1..]);
    }
  }

  /**
   * In hover mode, when `mouseenter` and `mouseleave` alternate, as they do
   * for a single mouse, no timer escapes its variable, and once the pending
   * timers have fired the tooltip is visible exactly when the last of them
   * was `mouseenter`: each of show and hide cancels the other's pending timer.
   * Clicks and timer expiries in between do not change that.
   */
  lemma HoverSettles(m: Mode, events: seq<Event>)
    requires !m.click && Alternates(None, events)
    ensures NoStrays(Run(m, Initial, events))
    ensures Settle(m, Run(m, Initial, events)).shown == LastHover(false, events)
  {
    RunValid(m, Initial, events);
    RunOutcome(m, Initial, None, events);
    SettleOutcome(m, Run(m, Initial, events));
  }

  /** In click mode a click on the wrapper toggles the tooltip, and a second click restores it. */
  lemma ClickToggles(m: Mode, s: TipState)
    requires m.click
    ensures Step(m, s, WrapperClick).shown == !s.shown
    ensures Step(m, Step(m, s, WrapperClick), WrapperClick) == s
  {
  }

  /** In click mode a click that reaches the document from outside the wrapper leaves the tooltip hidden. */
  lemma OutsideClickHides(m: Mode, s: TipState, inside: bool)
    requires m.click
    ensures !inside ==> !Step(m, s, DocumentClick(inside)).shown
    ensures inside ==> Step(m, s, DocumentClick(inside)) == s
  {
  }

  /** Hovering never moves a click-mode tooltip, and clicks never move a hover-mode one. */
  lemma ModesIgnoreOtherEvents(m: Mode, s: TipState, inside: bool)
    ensures m.click ==> Step(m, s, MouseEnter) == s && Step(m, s, MouseLeave) == s
    ensures !m.click ==> Step(m, s, WrapperClick) == s && Step(m, s, DocumentClick(inside)) == s
  {
  }

  /**
   * One click on the page. The wrapper's click listener stops propagation, so
   * a click on a click-mode wrapper toggles that tooltip only; any other
   * click reaches the document and every visible click-mode tooltip whose
   * wrapper does not contain the target closes.
   */
  function PageClick(modes: seq<Mode>, states: seq<TipState>, target: Option<nat>): (r: seq<TipState>)
    requires |modes| == |states|
    ensures |r| == |states|
  {
    if target.Some? && target.value < |modes| && modes[target.value].click then
      states[target.value := Step(modes[target.value], states[target.value], WrapperClick)]
    else
      seq(|states|, i requires 0 <= i < |states| => Step(modes[i], states[i], DocumentClick(target == Some(i))))
  }

  lemma PageClickEffect(modes: seq<Mode>, states: seq<TipState>, target: Option<nat>)
    requires |modes| == |states|
    ensures var r := PageClick(modes, states, target);
      if target.Some? && target.value < |modes| && modes[target.value].click then
        && r[target.value].shown == !states[target.value].shown
        && (forall i :: 0 <= i < |states| && i != target.value ==> r[i] == states[i])
      else
        forall i :: 0 <= i < |states| ==>
          r[i] == (if modes[i].click && states[i].shown then states[i].(shown := false) else states[i])
  {
    var r := PageClick(modes, states, target);
    if !(target.Some? && target.value < |modes| && modes[target.value].click) {
      forall i | 0 <= i < |states|
        ensures r[i] == (if modes[i].click && states[i].shown then states[i].(shown := false) else states[i])
      {
        assert r[i] == Step(modes[i], states[i], DocumentClick(target == Some(i)));
      }
    }
  }
}
