/**
 The mobile overlay menu as a state machine. The state is what the script
 reads and writes: the menu's `open` class, its `hidden` flag, the toggle
 button's `aria-expanded` attribute, the body's `overflow` style, the
 scroll position `lastY` remembered by the scroll listener, and how many
 deferred "hide if still closed" callbacks are waiting to run. Both the
 toggle button and the menu element are present: the listeners are only
 installed when they are.
 */
module MobileMenu {

  /** How far the page must scroll, in CSS pixels, before an open menu
      closes. */
  const ScrollCloseDistance := 10

  datatype Menu = Menu(
    open: bool,
    hidden: bool,
    ariaExpanded: string,
    bodyOverflow: string,
    lastY: int,
    pendingHides: nat)

  /** Where a click lands: on the toggle button, on one of the menu's nav
      links, elsewhere inside the menu, or outside both. */
  datatype ClickTarget = OnToggle | OnMenuLink | InsideMenu | Outside

  /** The events the menu reacts to. `HideTimerFires` is one deferred hide
      callback running; a key press carries the key's name. */
  datatype Event =
    | Click(target: ClickTarget)
    | KeyDown(key: string)
    | Scroll(scrollY: int)
    | HideTimerFires

  /** The menu as the page's markup presents it: closed, hidden, collapsed,
      with the page scroll position the script saw when it started. */
  function Initial(scrollY: int): (m: Menu)
    ensures !m.open && m.hidden && m.pendingHides == 0 && m.lastY == scrollY
  {
    Menu(false, true, "false", "", scrollY, 0)
  }

  /** Showing the menu: it becomes open and visible, the toggle reports
      itself expanded and the page behind stops scrolling. */
  function OpenMenu(m: Menu): (r: Menu)
    ensures r.open && !r.hidden
    ensures r.ariaExpanded == "true" && r.bodyOverflow == "hidden"
    ensures r.lastY == m.lastY && r.pendingHides == m.pendingHides
  {
    m.(open := true, hidden := false, ariaExpanded := "true", bodyOverflow := "hidden")
  }

  /** Starting to hide the menu: it stops being open, the toggle reports
      itself collapsed, page scrolling is restored, and one deferred hide is
      scheduled. The `hidden` flag is left for that deferred step. */
  function CloseMenu(m: Menu): (r: Menu)
    ensures !r.open && r.hidden == m.hidden
    ensures r.ariaExpanded == "false" && r.bodyOverflow == ""
    ensures r.lastY == m.lastY && r.pendingHides == m.pendingHides + 1
  {
    m.(open := false, ariaExpanded := "false", bodyOverflow := "", pendingHides := m.pendingHides + 1)
  }

  /** The toggle button's own click listener. */
  function ToggleClicked(m: Menu): (r: Menu)
    ensures r.open == !m.open
  {
    if m.open then CloseMenu(m) else OpenMenu(m)
  }

  /** The document-wide click listener, which sees every click after the
      element's own listeners. */
  function DocumentClicked(m: Menu, target: ClickTarget): (r: Menu)
    ensures !m.open ==> r == m
    ensures m.open && target == Outside ==> r == CloseMenu(m)
    ensures target != Outside ==> r == m
  {
    if !m.open then m
    else
      var clickedInside := target != Outside;
      if !clickedInside then CloseMenu(m) else m
  }

  /** The keydown listener: only Escape, and only while open, closes. */
  function KeyPressed(m: Menu, key: string): (r: Menu)
    ensures m.open && key == "Escape" ==> r == CloseMenu(m)
    ensures key != "Escape" ==> r == m
    ensures !m.open ==> r == m
  {
    if key == "Escape" && m.open then CloseMenu(m) else m
  }

  function Abs(x: int): nat { if x < 0 then -x else x }

  /** The scroll listener. While closed it ignores the event entirely,
      without even recording the position. While open it records the new
      position and closes when the page moved more than ten pixels since
      the last recorded position. */
  function Scrolled(m: Menu, y: int): (r: Menu)
    ensures !m.open ==> r == m
    ensures m.open ==> r.lastY == y
    ensures m.open ==> (r.open <==> Abs(y - m.lastY) <= ScrollCloseDistance)
    ensures m.open && Abs(y - m.lastY) > ScrollCloseDistance ==> r == CloseMenu(m.(lastY := y))
    ensures m.open && Abs(y - m.lastY) <= ScrollCloseDistance ==> r == m.(lastY := y)
  {
    if !m.open then m
    else
      var dy := Abs(y - m.lastY);
      var m1 := m.(lastY := y);
      if dy > ScrollCloseDistance then CloseMenu(m1) else m1
  }

  /** One deferred hide callback: it hides the menu only if the menu is
      still not open when it runs. With no callback waiting, nothing
      happens. */
  function HideTimerFired(m: Menu): (r: Menu)
    ensures m.pendingHides == 0 ==> r == m
    ensures m.pendingHides > 0 ==> r.pendingHides == m.pendingHides - 1
    ensures m.pendingHides > 0 ==> (r.hidden <==> m.hidden || !m.open)
    ensures r.open == m.open && r.ariaExpanded == m.ariaExpanded
    ensures r.bodyOverflow == m.bodyOverflow && r.lastY == m.lastY
  {
    if m.pendingHides == 0 then m
    else m.(pendingHides := m.pendingHides - 1, hidden := if !m.open then true else m.hidden)
  }

  /** A click runs the clicked element's listener, if it has one, and then
      the document's listener. */
  function Clicked(m: Menu, target: ClickTarget): (r: Menu)
    ensures target == OnToggle ==> r == ToggleClicked(m)
    ensures target == OnMenuLink ==> r == CloseMenu(m)
    ensures target == InsideMenu ==> r == m
    ensures target == Outside ==> r == DocumentClicked(m, Outside)
  {
    var m1 := match target
      case OnToggle => ToggleClicked(m)
      case OnMenuLink => CloseMenu(m)
      case _ => m;
    DocumentClicked(m1, target)
  }

  function Step(m: Menu, e: Event): Menu
  {
    match e
    case Click(t) => Clicked(m, t)
    case KeyDown(k) => KeyPressed(m, k)
    case Scroll(y) => Scrolled(m, y)
    case HideTimerFires => HideTimerFired(m)
  }

  function Run(m: Menu, events: seq<Event>): Menu
    decreases |events|
  {
    if events == [] then m else Run(Step(m, events[0]), events[1..])
  }

  /** The consistency every reachable state keeps: the menu is never open
      and hidden at once; `aria-expanded` and the body's overflow always
      agree with whether it is open; and a closed menu with no deferred hide
      left is hidden. */
  predicate Consistent(m: Menu) {
    && (m.open ==> !m.hidden && m.ariaExpanded == "true" && m.bodyOverflow == "hidden")
    && (!m.open ==> m.ariaExpanded == "false" && m.bodyOverflow == "")
    && (!m.open && m.pendingHides == 0 ==> m.hidden)
  }

  /** Clicking the toggle button opens a closed menu and closes an open
      one; the document listener that runs afterwards does not undo it. */
  lemma ToggleButtonFlips(m: Menu)
    ensures Clicked(m, OnToggle).open == !m.open
    ensures m.open ==> Clicked(m, OnToggle) == CloseMenu(m)
    ensures !m.open ==> Clicked(m, OnToggle) == OpenMenu(m)
  {
  }

  /** Tapping one of the menu's links always leaves it closed. */
  lemma MenuLinkCloses(m: Menu)
    ensures Clicked(m, OnMenuLink) == CloseMenu(m)
  {
  }

  /** A click outside closes an open menu; a click inside the menu that is
      not on a link changes nothing. */
  lemma OutsideAndInsideClicks(m: Menu)
    ensures m.open ==> Clicked(m, Outside) == CloseMenu(m)
    ensures Clicked(m, InsideMenu) == m
  {
  }

  /** While the menu is closed, outside clicks, key presses and scrolling
      change nothing at all, not even the remembered scroll position. */
  lemma ClosedMenuIgnoresCloseTriggers(m: Menu, e: Event)
    requires !m.open
    requires e.Click? ==> e.target == Outside || e.target == InsideMenu
    requires e.KeyDown? || e.Scroll? || e.Click?
    ensures Step(m, e) == m
  {
  }

  /** Every event keeps the state consistent. */
  lemma StepKeepsConsistent(m: Menu, e: Event)
    requires Consistent(m)
    ensures Consistent(Step(m, e))
  {
  }

  /** Every state reachable from the page's initial state is consistent. */
  lemma {:induction false} RunKeepsConsistent(m: Menu, events: seq<Event>)
    requires Consistent(m)
    ensures Consistent(Run(m, events))
    decreases |events|
  {
    if events != [] {
      StepKeepsConsistent(m, events[0]);
      RunKeepsConsistent(Step(m, events[0]), events[1..]);
    }
  }

  /** Once every deferred hide has run, a closed menu is hidden however the
      events were interleaved. */
  lemma {:induction false} ClosedAndSettledIsHidden(scrollY: int, events: seq<Event>)
    ensures var m := Run(Initial(scrollY), events);
      !m.open && m.pendingHides == 0 ==> m.hidden
  {
    RunKeepsConsistent(Initial(scrollY), events);
  }

  /** The remembered scroll position changes only on a scroll event that
      arrives while the menu is open. */
  lemma LastYOnlyMovesWhileOpen(m: Menu, e: Event)
    ensures Step(m, e).lastY != m.lastY ==> e.Scroll? && m.open && Step(m, e).lastY == e.scrollY
  {
  }

  /** Because the position is not recorded while the menu is closed, the
      first scroll after opening is measured from wherever the page was the
      last time the open menu saw a scroll (or from the page's start): a
      one-pixel scroll can close a freshly opened menu. */
  lemma StaleScrollOriginCloses()
    ensures Run(Initial(0), [Scroll(500), Click(OnToggle), Scroll(501)]).open == false
  {
    assert Run(Initial(0), [Scroll(500), Click(OnToggle), Scroll(501)])
        == Scrolled(Clicked(Scrolled(Initial(0), 500), OnToggle), 501);
  }
}
