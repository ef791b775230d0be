/**
 * The playground's panel layout: the chat, preview and settings panels,
 * each visible, expanded and/or minimized; the screen size class the window
 * width falls in, which resets the layout; and the width class of a panel.
 */
module Panels {

  datatype PanelKey = Chat | Preview | Settings

  datatype ScreenSize = Mobile | Tablet | Desktop

  datatype PanelState = PanelState(visible: bool, expanded: bool, minimized: bool)

  datatype PanelStates = PanelStates(chat: PanelState, preview: PanelState, settings: PanelState) {

    /** `panelStates[panel]`. */
    function Get(k: PanelKey): PanelState {
      match k
      case Chat => chat
      case Preview => preview
      case Settings => settings
    }

    /** `{...prev, [panel]: s}`: the named panel replaced, the others kept. */
    function Set(k: PanelKey, s: PanelState): (r: PanelStates)
      ensures r.Get(k) == s
      ensures forall j :: j != k ==> r.Get(j) == Get(j)
    {
      match k
      case Chat => this.(chat := s)
      case Preview => this.(preview := s)
      case Settings => this.(settings := s)
    }
  }

  const Open := PanelState(true, false, false)
  const Closed := PanelState(true, false, true)

  /** The layout the hook starts with: every panel visible and neither expanded nor minimized. */
  const Initial := PanelStates(Open, Open, Open)

  /** Every panel is visible. */
  predicate AllVisible(ps: PanelStates) {
    forall k :: ps.Get(k).visible
  }

  // ---------------------------------------------------------------------
  // Breakpoints
  // ---------------------------------------------------------------------

  /** The screen size class of a window width. */
  function Classify(width: int): ScreenSize {
    if width < 768 then Mobile else if width < 1024 then Tablet else Desktop
  }

  /** The layout a resize sets for a screen size. */
  function LayoutFor(size: ScreenSize): PanelStates {
    match size
    case Mobile => PanelStates(Closed, Open, Closed)
    case Tablet => PanelStates(Open, Open, Closed)
    case Desktop => Initial
  }

  /**
   * After a resize: below 768 pixels chat and settings are minimized, below
   * 1024 settings alone, otherwise none; nothing is expanded, everything
   * visible, and the preview is never minimized.
   */
  lemma ResizeLayout(width: int, k: PanelKey)
    ensures var ps := LayoutFor(Classify(width));
      && ps.Get(k).visible && !ps.Get(k).expanded
      && (ps.Get(k).minimized <==> (k == Chat && width < 768) || (k == Settings && width < 1024))
      && !ps.Get(Preview).minimized
  {
  }

  // ---------------------------------------------------------------------
  // Transitions
  // ---------------------------------------------------------------------

  /** `togglePanel`. */
  function Toggle(ps: PanelStates, k: PanelKey): PanelStates {
    ps.Set(k, ps.Get(k).(minimized := !ps.Get(k).minimized))
  }

  /** `expandPanel`. */
  function Expand(ps: PanelStates, k: PanelKey): PanelStates {
    ps.Set(k, ps.Get(k).(expanded := true, minimized := false))
  }

  /** `minimizePanel`. */
  function Minimize(ps: PanelStates, k: PanelKey): PanelStates {
    ps.Set(k, ps.Get(k).(expanded := false, minimized := true))
  }

  /** `resetPanel`. */
  function Reset(ps: PanelStates, k: PanelKey): PanelStates {
    ps.Set(k, ps.Get(k).(expanded := false, minimized := false))
  }

  /** Toggling flips the named panel's `minimized` and nothing else; twice is no change. */
  lemma ToggleFlips(ps: PanelStates, k: PanelKey)
    ensures Toggle(ps, k).Get(k).minimized == !ps.Get(k).minimized
    ensures Toggle(ps, k).Get(k).visible == ps.Get(k).visible && Toggle(ps, k).Get(k).expanded == ps.Get(k).expanded
    ensures forall j :: j != k ==> Toggle(ps, k).Get(j) == ps.Get(j)
    ensures Toggle(Toggle(ps, k), k) == ps
  {
    var t := Toggle(Toggle(ps, k), k);
    assert forall j :: t.Get(j) == ps.Get(j);
  }

  /** Expanding, minimizing and resetting set the named panel's two flags, keep the rest, and are idempotent. */
  lemma SettersTouchOnePanel(ps: PanelStates, k: PanelKey)
    ensures Expand(ps, k).Get(k) == PanelState(ps.Get(k).visible, true, false)
    ensures Minimize(ps, k).Get(k) == PanelState(ps.Get(k).visible, false, true)
    ensures Reset(ps, k).Get(k) == PanelState(ps.Get(k).visible, false, false)
    ensures forall j :: j != k ==> Expand(ps, k).Get(j) == ps.Get(j) && Minimize(ps, k).Get(j) == ps.Get(j) && Reset(ps, k).Get(j) == ps.Get(j)
    ensures Expand(Expand(ps, k), k) == Expand(ps, k)
    ensures Minimize(Minimize(ps, k), k) == Minimize(ps, k)
    ensures Reset(Reset(ps, k), k) == Reset(ps, k)
  {
    var e := Expand(ps, k);
    assert forall j :: Expand(e, k).Get(j) == e.Get(j);
    var m := Minimize(ps, k);
    assert forall j :: Minimize(m, k).Get(j) == m.Get(j);
    var r := Reset(ps, k);
    assert forall j :: Reset(r, k).Get(j) == r.Get(j);
  }

  /** No transition and no resize hides a panel. */
  lemma VisibleStays(ps: PanelStates, k: PanelKey, size: ScreenSize)
    requires AllVisible(ps)
    ensures AllVisible(Toggle(ps, k)) && AllVisible(Expand(ps, k))
    ensures AllVisible(Minimize(ps, k)) && AllVisible(Reset(ps, k))
    ensures AllVisible(LayoutFor(size))
  {
    assert forall j :: LayoutFor(size).Get(j).visible;
  }

  /** A panel that is both expanded and minimized. */
  predicate Conflicted(s: PanelState) {
    s.expanded && s.minimized
  }

  /**
   * Expanding, minimizing and resetting never leave the panel both
   * expanded and minimized, but toggling an expanded panel does.
   */
  lemma OnlyToggleConflicts(ps: PanelStates, k: PanelKey)
    ensures !Conflicted(Expand(ps, k).Get(k)) && !Conflicted(Minimize(ps, k).Get(k)) && !Conflicted(Reset(ps, k).Get(k))
    ensures ps.Get(k).expanded && !ps.Get(k).minimized ==> Conflicted(Toggle(ps, k).Get(k))
  {
  }

  // ---------------------------------------------------------------------
  // Widths
  // ---------------------------------------------------------------------

  function Width(size: ScreenSize, ps: PanelStates, k: PanelKey): (r: string)
    ensures r != "w-auto"
  {
    var s := ps.Get(k);
    if size == Mobile then (if s.minimized then "w-0" else "w-full")
    else if s.minimized then "w-12"
    else if s.expanded then (if k == Preview then "w-full" else if size == Tablet then "w-1/2" else "w-2/5")
    else if k == Chat then (if size == Tablet then "w-80" else "w-96")
    else if k == Preview then "w-full"
    else if k == Settings then (if size == Tablet then "w-80" else "w-96")
    else "w-auto"
  }

  /**
   * Minimized wins over expanded: a panel toggled while expanded is shown
   * at the minimized width on every screen.
   */
  lemma MinimizedWidthWins(size: ScreenSize, ps: PanelStates, k: PanelKey)
    requires ps.Get(k).minimized
    ensures Width(size, ps, k) == Width(size, ps.Set(k, ps.Get(k).(expanded := false)), k)
    ensures Width(size, ps, k) == (if size == Mobile then "w-0" else "w-12")
  {
  }

  /** Whatever the layout, the preview is never narrower than full width unless it is minimized. */
  lemma PreviewFullWidth(size: ScreenSize, ps: PanelStates)
    requires !ps.Get(Preview).minimized
    ensures Width(size, ps, Preview) == "w-full"
  {
  }

  // ---------------------------------------------------------------------
  // The hook's state
  // ---------------------------------------------------------------------

  class PanelLayout {
    var screenSize: ScreenSize
    var panelStates: PanelStates

    ghost predicate Valid()
      reads this
    {
      AllVisible(panelStates)
    }

    constructor()
      ensures Valid() && screenSize == Desktop && panelStates == Initial
    {
      screenSize := Desktop;
      panelStates := Initial;
    }

    /** `handleResize`, run on mount and on every resize: the layout is reset for the new width. */
    method HandleResize(width: int)
      modifies this
      ensures Valid()
      ensures screenSize == Classify(width) && panelStates == LayoutFor(Classify(width))
    {
      if width < 768 {
        screenSize := Mobile;
        panelStates := PanelStates(Closed, Open, Closed);
      } else if width < 1024 {
        screenSize := Tablet;
        panelStates := PanelStates(Open, Open, Closed);
      } else {
        screenSize := Desktop;
        panelStates := Initial;
      }
      VisibleStays(panelStates, Chat, screenSize);
    }

    method TogglePanel(k: PanelKey)
      requires Valid()
      modifies this
      ensures Valid() && screenSize == old(screenSize) && panelStates == Toggle(old(panelStates), k)
    {
      VisibleStays(panelStates, k, screenSize);
      panelStates := Toggle(panelStates, k);
    }

    method ExpandPanel(k: PanelKey)
      requires Valid()
      modifies this
      ensures Valid() && screenSize == old(screenSize) && panelStates == Expand(old(panelStates), k)
    {
      VisibleStays(panelStates, k, screenSize);
      panelStates := Expand(panelStates, k);
    }

    method MinimizePanel(k: PanelKey)
      requires Valid()
      modifies this
      ensures Valid() && screenSize == old(screenSize) && panelStates == Minimize(old(panelStates), k)
    {
      VisibleStays(panelStates, k, screenSize);
      panelStates := Minimize(panelStates, k);
    }

    method ResetPanel(k: PanelKey)
      requires Valid()
      modifies this
      ensures Valid() && screenSize == old(screenSize) && panelStates == Reset(old(panelStates), k)
    {
      VisibleStays(panelStates, k, screenSize);
      panelStates := Reset(panelStates, k);
    }

    /** `getPanelWidth`. */
    function GetPanelWidth(k: PanelKey): (r: string)
      reads this
      ensures r != "w-auto"
      ensures panelStates.Get(k).minimized ==> r == (if screenSize == Mobile then "w-0" else "w-12")
    {
      Width(screenSize, panelStates, k)
    }
  }
}
