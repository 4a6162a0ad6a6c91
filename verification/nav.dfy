/** The mobile navigation toggle: a trigger (the hamburger) and a panel
    (the nav links) that share an `active` marker, with `aria-expanded` on
    the trigger. */
module Nav {
  import opened Js

  /** The trigger's and the panel's `active` markers, and the trigger's
      `aria-expanded` attribute as stored. */
  datatype NavState = NavState(triggerActive: bool, panelActive: bool, ariaExpanded: string)

  /** Where a click lands, seen from the two nodes: on the trigger or inside
      it, on a link of the panel, elsewhere inside the panel, or outside
      both. */
  datatype Target = OnTrigger | OnPanelLink | InPanel | Outside

  /** Both markers agree and `aria-expanded` spells out their value. */
  predicate Consistent(s: NavState)
  {
    s.triggerActive == s.panelActive && s.ariaExpanded == BoolText(s.triggerActive)
  }

  const Closed := NavState(false, false, "false")

  /** One click, after every handler it reaches has run: the trigger's own
      handler toggles both markers and copies the trigger's into
      `aria-expanded`; a panel link's handler closes; the document's handler
      closes unless the click was on the trigger or inside the panel. */
  function Click(s: NavState, t: Target): (r: NavState)
    ensures t == OnTrigger ==> r.triggerActive == !s.triggerActive && r.panelActive == !s.panelActive
                               && r.ariaExpanded == BoolText(r.triggerActive)
    ensures t == OnPanelLink || t == Outside ==> !r.triggerActive && !r.panelActive && Consistent(r)
    ensures t == InPanel ==> r == s
  {
    match t
    case OnTrigger =>
      var toggled := !s.triggerActive;
      NavState(toggled, !s.panelActive, BoolText(toggled))
    case OnPanelLink => Closed
    case InPanel => s
    case Outside => Closed
  }

  /** Every click keeps the two markers and `aria-expanded` in step. */
  lemma ClickKeepsConsistent(s: NavState, t: Target)
    requires Consistent(s)
    ensures Consistent(Click(s, t))
  {
  }

  /** The clicks in order. */
  function Run(s: NavState, clicks: seq<Target>): NavState
    decreases |clicks|
  {
    if |clicks| == 0 then s else Run(Click(s, clicks[0]), clicks[1..])
  }

  /** From any state whose markers agree (the page starts with both off),
      any sequence of clicks leaves the markers equal, and after at least
      one click that reaches a handler, `aria-expanded` matches them. */
  lemma {:induction false} RunKeepsMarkersTogether(s: NavState, clicks: seq<Target>)
    requires s.triggerActive == s.panelActive
    ensures var r := Run(s, clicks);
            && r.triggerActive == r.panelActive
            && (s.ariaExpanded == BoolText(s.triggerActive) || (exists k :: 0 <= k < |clicks| && clicks[k] != InPanel)
                ==> r.ariaExpanded == BoolText(r.triggerActive))
    decreases |clicks|
  {
    if |clicks| > 0 {
      var next := Click(s, clicks[0]);
      RunKeepsMarkersTogether(next, clicks[1..]);
      if exists k :: 0 <= k < |clicks| && clicks[k] != InPanel {
        var k :| 0 <= k < |clicks| && clicks[k] != InPanel;
        if k > 0 {
          assert clicks[1..][k - 1] != InPanel;
        }
      }
    }
  }

  /** The markers agree only because they start equal: toggling them
      separately keeps any disagreement. */
  lemma ToggleKeepsDisagreement(s: NavState)
    requires s.triggerActive != s.panelActive
    ensures Click(s, OnTrigger).triggerActive != Click(s, OnTrigger).panelActive
  {
  }
}
