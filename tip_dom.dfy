module TipDom {
  import opened Wrappers
  import opened TipEvents

  /* ---------- The DOM objects ---------- */

  /**
   * The `.anzhiyu-tip` span: its inline `visibility` and `opacity`, its
   * `data-visible`, and the `data-trigger` and `data-delay` it was rendered with.
   */
  class Tooltip {
    var visibility: string
    var opacity: string
    var dataVisible: string
    const dataTrigger: Option<string>
    const dataDelay: Option<string>

    /** As rendered: hidden, transparent, `data-visible="false"`. */
    constructor (trigger: Option<string>, delay: Option<string>)
      ensures visibility == "hidden" && opacity == "0" && dataVisible == "false"
      ensures dataTrigger == trigger && dataDelay == delay
      ensures Consistent() && !Shown()
    {
      visibility, opacity, dataVisible := "hidden", "0", "false";
      dataTrigger, dataDelay := trigger, delay;
    }

    /** The three properties always change together. */
    predicate Consistent()
      reads this
    {
      || (visibility == "visible" && opacity == "1" && dataVisible == "true")
      || (visibility == "hidden" && opacity == "0" && dataVisible == "false")
    }

    /** `dataset.visible === "true"`. */
    predicate Shown()
      reads this
    {
      dataVisible == "true"
    }

    method Reveal()
      modifies this
      ensures visibility == "visible" && opacity == "1" && dataVisible == "true"
      ensures Consistent() && Shown()
    {
      visibility, opacity, dataVisible := "visible", "1", "true";
    }

    method Conceal()
      modifies this
      ensures visibility == "hidden" && opacity == "0" && dataVisible == "false"
      ensures Consistent() && !Shown()
    {
      visibility, opacity, dataVisible := "hidden", "0", "false";
    }
  }

  /** A `.anzhiyu-tip-wrapper` span: its first tooltip and its `data-tip-initialized` mark. */
  class TipWrapper {
    var initialized: bool
    const tooltip: Option<Tooltip>

    constructor (t: Option<Tooltip>)
      ensures !initialized && tooltip == t
    {
      initialized, tooltip := false, t;
    }
  }

  /**
   * The closure state `initTipEvents` keeps for one wrapper: its mode, the
   * timers `showTimer` and `hideTimer` refer to, and the count of pending
   * timers of each kind that those variables were overwritten on.
   */
  class TipController {
    const wrapper: TipWrapper
    const tooltip: Tooltip
    const mode: Mode
    var showPending: Option<nat>
    var hidePending: Option<nat>
    var strayShows: nat
    var strayHides: nat

    constructor (w: TipWrapper, t: Tooltip, m: Mode)
      ensures wrapper == w && tooltip == t && mode == m
      ensures showPending.None? && hidePending.None? && strayShows == 0 && strayHides == 0
      ensures State() == TipState(t.Shown(), None, None, 0, 0)
    {
      wrapper, tooltip, mode := w, t, m;
      showPending, hidePending := None, None;
      strayShows, strayHides := 0, 0;
    }

    function State(): TipState
      reads this, tooltip
    {
      TipState(tooltip.Shown(), showPending, hidePending, strayShows, strayHides)
    }

    /** As `initTipEvents` leaves it: the wrapper's tooltip, its mode, no timer pending. */
    predicate Started()
      reads this
    {
      && wrapper.tooltip == Some(tooltip) && mode == WrapperMode(wrapper)
      && showPending.None? && hidePending.None? && strayShows == 0 && strayHides == 0
    }

    predicate Ok()
      reads this, tooltip
    {
      tooltip.Consistent() && Valid(mode, State())
    }

    /**
     * `showTooltip`, the `mouseenter` listener of hover mode: clear the hide
     * timer, and arm a show timer in `showTimer`, leaving one it still
     * referred to running.
     */
    method MouseEnter()
      requires Ok()
      modifies this
      ensures Ok() && State() == Step(mode, old(State()), Event.MouseEnter)
    {
      if !mode.click {
        hidePending := None;
        if showPending.Some? {
          strayShows := strayShows + 1;
        }
        showPending := Some(mode.delay);
      }
    }

    /**
     * `hideTooltip`, the `mouseleave` listener of hover mode: clear the show
     * timer, and arm a 100 ms hide timer in `hideTimer`, leaving one it still
     * referred to running.
     */
    method MouseLeave()
      requires Ok()
      modifies this
      ensures Ok() && State() == Step(mode, old(State()), Event.MouseLeave)
    {
      if !mode.click {
        showPending := None;
        if hidePending.Some? {
          strayHides := strayHides + 1;
        }
        hidePending := Some(HideDelay);
      }
    }

    /** The show timer's callback. */
    method ShowTimerFires()
      requires Ok()
      modifies this, tooltip
      ensures Ok() && State() == Step(mode, old(State()), Event.ShowTimerFires)
    {
      if showPending.Some? {
        tooltip.Reveal();
        showPending := None;
      }
    }

    /** The hide timer's callback. */
    method HideTimerFires()
      requires Ok()
      modifies this, tooltip
      ensures Ok() && State() == Step(mode, old(State()), Event.HideTimerFires)
    {
      if hidePending.Some? {
        tooltip.Conceal();
        hidePending := None;
      }
    }

    /** The callback of a show timer `showTimer` no longer refers to. */
    method StrayShowFires()
      requires Ok()
      modifies this, tooltip
      ensures Ok() && State() == Step(mode, old(State()), Event.StrayShowFires)
    {
      if strayShows > 0 {
        tooltip.Reveal();
        strayShows := strayShows - 1;
      }
    }

    /** The callback of a hide timer `hideTimer` no longer refers to. */
    method StrayHideFires()
      requires Ok()
      modifies this, tooltip
      ensures Ok() && State() == Step(mode, old(State()), Event.StrayHideFires)
    {
      if strayHides > 0 {
        tooltip.Conceal();
        strayHides := strayHides - 1;
      }
    }

    /** `toggleTooltip`, the wrapper's `click` listener of click mode. */
    method WrapperClick()
      requires Ok()
      modifies tooltip
      ensures Ok() && State() == Step(mode, old(State()), Event.WrapperClick)
    {
      if mode.click {
        var isVisible := tooltip.dataVisible == "true";
        if isVisible {
          tooltip.Conceal();
        } else {
          tooltip.Reveal();
        }
      }
    }

    /** The document's `click` listener of click mode; `inside` is `wrapper.contains(e.target)`. */
    method DocumentClick(inside: bool)
      requires Ok()
      modifies tooltip
      ensures Ok() && State() == Step(mode, old(State()), Event.DocumentClick(inside))
    {
      if mode.click && !inside && tooltip.dataVisible == "true" {
        tooltip.Conceal();
      }
    }
  }

  /* ---------- `initTipEvents` ---------- */

  /** Each wrapper's `data-tip-initialized` mark. */
  function Marks(wrappers: seq<TipWrapper>): (r: seq<bool>)
    reads set w | w in wrappers
    ensures |r| == |wrappers|
    ensures forall i :: 0 <= i < |wrappers| ==> r[i] == wrappers[i].initialized
  {
    if wrappers == [] then [] else [wrappers[0].initialized] + Marks(wrappers[1..])
  }

  /** A wrapper the selector `.anzhiyu-tip-wrapper:not([data-tip-initialized])` returns and that holds a tooltip. */
  predicate Attachable(w: TipWrapper, marked: bool) {
    !marked && w.tooltip.Some?
  }

  /** The wrappers that get a controller, in document order, given the marks before the call. */
  function Eligible(wrappers: seq<TipWrapper>, marks: seq<bool>): (r: seq<TipWrapper>)
    requires |marks| == |wrappers|
    ensures forall w :: w in r ==> w in wrappers && w.tooltip.Some?
    decreases |wrappers|
  {
    if wrappers == [] then []
    else
      var n := |wrappers| - 1;
      Eligible(wrappers[..n], marks[..n]) + (if Attachable(wrappers[n], marks[n]) then [wrappers[n]] else [])
  }

  /** Once every wrapper is marked or has no tooltip, nothing is eligible: a second call attaches nothing. */
  lemma {:induction false} MarkedNotEligible(wrappers: seq<TipWrapper>, marks: seq<bool>)
    requires |marks| == |wrappers|
    requires forall i :: 0 <= i < |wrappers| ==> marks[i] || wrappers[i].tooltip.None?
    ensures Eligible(wrappers, marks) == []
    decreases |wrappers|
  {
    if wrappers != [] {
      var n := |wrappers| - 1;
      MarkedNotEligible(wrappers[..n], marks[..n]);
    }
  }

  /** The mode a wrapper's tooltip asks for. */
  function WrapperMode(w: TipWrapper): Mode
    requires w.tooltip.Some?
  {
    ModeOf(w.tooltip.value.dataTrigger, w.tooltip.value.dataDelay)
  }

  /**
   * The body of the `forEach` for a wrapper with a tooltip: read the mode,
   * mark the wrapper, and start the closure state. The listeners it adds are
   * the controller's methods for the mode.
   */
  method Attach(wrapper: TipWrapper) returns (c: TipController)
    requires wrapper.tooltip.Some?
    modifies wrapper
    ensures fresh(c) && c.wrapper == wrapper && c.Started()
    ensures c.wrapper.tooltip == Some(c.tooltip) && c.mode == WrapperMode(wrapper)
    ensures c.showPending.None? && c.hidePending.None?
    ensures wrapper.initialized
  {
    var tooltip := wrapper.tooltip.value;
    var trigger := AttrOr(tooltip.dataTrigger, "hover");
    var delay := ParseInt(AttrOr(tooltip.dataDelay, "0"));
    var m := Mode(trigger == "click", TimeoutOf(delay));
    wrapper.initialized := true;
    c := new TipController(wrapper, tooltip, m);
  }

  /** One controller per wrapper of `eligible`, in order, each as `Attach` leaves it. */
  predicate Attached(controllers: seq<TipController>, eligible: seq<TipWrapper>)
    reads set c | c in controllers
  {
    && |controllers| == |eligible|
    && forall k :: 0 <= k < |controllers| ==> controllers[k].wrapper == eligible[k] && controllers[k].Started()
  }

  /** Each wrapper is marked if it was before, or if it is among the first `n` and holds a tooltip. */
  predicate MarkedUpTo(wrappers: seq<TipWrapper>, marks: seq<bool>, n: nat)
    requires |marks| == |wrappers|
    reads set w | w in wrappers
  {
    forall i :: 0 <= i < |wrappers| ==> wrappers[i].initialized == (marks[i] || (i < n && wrappers[i].tooltip.Some?))
  }

  /** The loop state of `initTipEvents` after its first `n` wrappers. */
  predicate Visited(wrappers: seq<TipWrapper>, marks: seq<bool>, n: nat, chosen: seq<TipWrapper>, controllers: seq<TipController>)
    requires |marks| == |wrappers| && n <= |wrappers|
    reads set w | w in wrappers, set c | c in controllers
  {
    && MarkedUpTo(wrappers, marks, n)
    && chosen == Eligible(wrappers[..n], marks[..n])
    && Attached(controllers, chosen)
  }

  /** The eligible wrappers among the first `n + 1`. */
  lemma EligibleSnoc(wrappers: seq<TipWrapper>, marks: seq<bool>, n: nat)
    requires |marks| == |wrappers| && n < |wrappers|
    ensures Eligible(wrappers[..n + 1], marks[..n + 1])
      == Eligible(wrappers[..n], marks[..n]) + (if Attachable(wrappers[n], marks[n]) then [wrappers[n]] else [])
  {
    assert wrappers[..n + 1][..n] == wrappers[..n] && marks[..n + 1][..n] == marks[..n];
  }

  /** One turn of the `forEach`: the controller it starts, if any. */
  method Visit(wrappers: seq<TipWrapper>, ghost marks: seq<bool>, n: nat, ghost chosen: seq<TipWrapper>, controllers: seq<TipController>)
    returns (ghost chosen': seq<TipWrapper>, added: seq<TipController>)
    requires forall i, j :: 0 <= i < j < |wrappers| ==> wrappers[i] != wrappers[j]
    requires |marks| == |wrappers| && n < |wrappers|
    requires Visited(wrappers, marks, n, chosen, controllers)
    modifies wrappers[n]
    ensures Visited(wrappers, marks, n + 1, chosen', controllers + added)
    ensures forall k :: 0 <= k < |added| ==> fresh(added[k])
  {
    EligibleSnoc(wrappers, marks, n);
    var wrapper := wrappers[n];
    chosen', added := chosen, [];
    if !wrapper.initialized && wrapper.tooltip.Some? {
      var c := Attach(wrapper);
      added := [c];
      chosen' := chosen + [wrapper];
      assert Attached(controllers + added, chosen');
    }
    assert MarkedUpTo(wrappers, marks, n + 1);
  }

  /**
   * `initTipEvents`: for each unmarked wrapper with a tooltip, in document
   * order, read the mode from the tooltip, mark the wrapper and start with
   * no timer pending. Wrappers without a tooltip stay unmarked, and marked
   * ones are not touched.
   */
  method InitTipEvents(wrappers: seq<TipWrapper>) returns (controllers: seq<TipController>)
    requires forall i, j :: 0 <= i < j < |wrappers| ==> wrappers[i] != wrappers[j]
    modifies wrappers
    ensures Attached(controllers, Eligible(wrappers, old(Marks(wrappers))))
    ensures forall k :: 0 <= k < |controllers| ==> fresh(controllers[k])
    ensures MarkedUpTo(wrappers, old(Marks(wrappers)), |wrappers|)
    ensures Eligible(wrappers, Marks(wrappers)) == []
  {
    ghost var marks := Marks(wrappers);
    ghost var chosen: seq<TipWrapper> := [];
    controllers := [];
    for n := 0 to |wrappers|
      invariant Visited(wrappers, marks, n, chosen, controllers)
      invariant forall k :: 0 <= k < |controllers| ==> fresh(controllers[k])
    {
      var added;
      chosen, added := Visit(wrappers, marks, n, chosen, controllers);
      controllers := controllers + added;
    }
    assert wrappers[..|wrappers|] == wrappers && marks[..|wrappers|] == marks;
    MarkedNotEligible(wrappers, Marks(wrappers));
  }
}
