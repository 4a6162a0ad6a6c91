/** The lightbox: an overlay showing one visible gallery item at a time,
    stepped through with the previous and next controls or the arrow keys.
    The visible list is recomputed from the gallery on every operation, so
    every operation takes the gallery as it is at that moment. */
module Lightbox {
  import opened Js
  import opened Gallery

  /** The lightbox's `active` marker, the script's `currentIndex`, the
      body's `overflow` style, and the text of the image surface and the
      caption. */
  datatype State = State(open: bool, index: JsNum, overflow: string, imageText: string, caption: string)

  /** The state at page load: closed, `currentIndex` 0, the body's own
      overflow and the texts the markup starts with. */
  function Initial(overflow: string, imageText: string, caption: string): State
  {
    State(false, Num(0), overflow, imageText, caption)
  }

  function VisibleCount(gallery: seq<Item>): nat
  {
    |VisiblePositions(gallery)|
  }

  /** The lightbox is open on the gallery item at position `p`: its label
      text is on the image surface, its own caption attribute is the
      caption (never the label), and the page behind does not scroll. */
  predicate Shows(gallery: seq<Item>, st: State, p: nat)
    requires p < |gallery|
  {
    && st.open
    && st.overflow == "hidden"
    && st.imageText == OrEmpty(gallery[p].labelText)
    && st.caption == OrEmpty(gallery[p].caption)
  }

  /** `openLightbox(index)`. The index is stored before the bounds check,
      so even a rejected call overwrites it; a rejected call changes
      nothing else. An accepted call shows the visible item at `index`. */
  function Open(gallery: seq<Item>, st: State, index: JsNum): (r: State)
    ensures r.index == index
    ensures !(index.Num? && 0 <= index.n < VisibleCount(gallery)) ==> r == st.(index := index)
    ensures index.Num? && 0 <= index.n < VisibleCount(gallery) ==>
              Shows(gallery, r, VisiblePositions(gallery)[index.n])
  {
    var visible := VisiblePositions(gallery);
    match At(visible, index)
    case None => st.(index := index)
    case Some(p) =>
      var item := gallery[p];
      State(true, index, "hidden", OrEmpty(item.labelText), OrEmpty(item.caption))
  }

  /** `closeLightbox()`: clears the open marker and gives the body back its
      default overflow; the index and the texts stay. */
  function Close(st: State): (r: State)
    ensures !r.open && r.overflow == ""
    ensures r.index == st.index && r.imageText == st.imageText && r.caption == st.caption
  {
    st.(open := false, overflow := "")
  }

  /** `navigate(direction)` as written: the index moves by `direction`
      modulo the current number of visible items, with JavaScript's
      truncating `%`, and the result is opened. With no visible item the
      remainder is `NaN`, and opening `NaN` only stores it. */
  function Navigate(gallery: seq<Item>, st: State, direction: int): (r: State)
    ensures VisibleCount(gallery) == 0 ==> r == st.(index := NaN)
    ensures st.index.NaN? ==> r == st
  {
    var n := VisibleCount(gallery);
    Open(gallery, st, Rem(Add(Add(st.index, Num(direction)), Num(n)), n))
  }

  /** With at least one visible item and an index of -1 or more (any index
      the script can produce), one step either way lands inside the visible
      list and shows the item there. */
  lemma NavigateInRange(gallery: seq<Item>, st: State, direction: int)
    requires VisibleCount(gallery) > 0
    requires st.index.Num? && st.index.n >= -1
    requires direction == 1 || direction == -1
    ensures var r := Navigate(gallery, st, direction);
            && r.index.Num? && 0 <= r.index.n < VisibleCount(gallery)
            && Shows(gallery, r, VisiblePositions(gallery)[r.index.n])
  {
    var n := VisibleCount(gallery);
    var sum := st.index.n + direction + n;
    assert sum >= -1;
    if sum < 0 {
      assert n == 1;
    }
  }

  /** From an index inside the visible list, one step is the step modulo
      the number of visible items. */
  lemma NavigateIsModular(gallery: seq<Item>, st: State, direction: int)
    requires VisibleCount(gallery) > 0
    requires st.index.Num? && 0 <= st.index.n < VisibleCount(gallery)
    requires direction == 1 || direction == -1
    ensures Navigate(gallery, st, direction).index == Num((st.index.n + direction) % VisibleCount(gallery))
  {
    var n := VisibleCount(gallery);
    var k := st.index.n;
    var sum := k + direction + n;
    assert sum >= 0;
    assert Navigate(gallery, st, direction).index == Num(sum % n);
    if direction == 1 && k + 1 < n {
      ModMinusN(sum, n);
      ModSmall(k + 1, n);
    } else if direction == 1 {
      ModTwoN(n);
    } else if k > 0 {
      ModMinusN(sum, n);
      ModSmall(k - 1, n);
    } else {
      ModSmall(sum, n);
      ModNegOne(n);
    }
  }

  /** The step wraps at both ends: forward from the last visible item shows
      the first, backward from the first shows the last. */
  lemma NavigateWraps(gallery: seq<Item>, st: State)
    requires VisibleCount(gallery) > 0
    ensures st.index == Num(VisibleCount(gallery) - 1) ==> Navigate(gallery, st, 1).index == Num(0)
    ensures st.index == Num(0) ==> Navigate(gallery, st, -1).index == Num(VisibleCount(gallery) - 1)
  {
    var n := VisibleCount(gallery);
    if st.index == Num(n - 1) {
      NavigateIsModular(gallery, st, 1);
      ModTwoN(n);
    }
    if st.index == Num(0) {
      NavigateIsModular(gallery, st, -1);
      ModNegOne(n);
    }
  }

  /** From the -1 that `indexOf` leaves behind after a click on a hidden
      item, forward shows the first visible item, while backward shows the
      second to last one (the first, when only one is visible), not the
      last. */
  lemma NavigateFromStale(gallery: seq<Item>, st: State)
    requires VisibleCount(gallery) > 0 && st.index == Num(-1)
    ensures Navigate(gallery, st, 1).index == Num(0)
    ensures Navigate(gallery, st, -1).index == Num(if VisibleCount(gallery) >= 2 then VisibleCount(gallery) - 2 else 0)
  {
    var n := VisibleCount(gallery);
    ModTwoN(n);
    if n >= 2 {
      ModSmall(n - 2, n);
    }
  }

  /** A click on the gallery item at position `p`: its index in the visible
      list (or -1) is opened. A visible item is shown, and the index stored
      is the one that reads it back; a hidden item only leaves -1 behind. */
  function OnItemClick(gallery: seq<Item>, st: State, p: nat): (r: State)
    requires p < |gallery|
    ensures !gallery[p].hidden ==>
              && r.index.Num? && 0 <= r.index.n < VisibleCount(gallery)
              && VisiblePositions(gallery)[r.index.n] == p
              && Shows(gallery, r, p)
    ensures gallery[p].hidden ==> r == st.(index := Num(-1))
  {
    var visible := VisiblePositions(gallery);
    Open(gallery, st, Num(IndexOf(visible, p)))
  }

  /** The document's `keydown` handler. While closed every key is ignored;
      while open Escape closes, ArrowLeft and ArrowRight step backward and
      forward, and any other key changes nothing. */
  function OnKey(gallery: seq<Item>, st: State, key: string): (r: State)
    ensures !st.open ==> r == st
    ensures st.open && key == "Escape" ==> r == Close(st)
    ensures st.open && key == "ArrowLeft" ==> r == Navigate(gallery, st, -1)
    ensures st.open && key == "ArrowRight" ==> r == Navigate(gallery, st, 1)
    ensures st.open && key !in {"Escape", "ArrowLeft", "ArrowRight"} ==> r == st
  {
    if !st.open then st
    else
      var afterEscape := if key == "Escape" then Close(st) else st;
      var afterLeft := if key == "ArrowLeft" then Navigate(gallery, afterEscape, -1) else afterEscape;
      if key == "ArrowRight" then Navigate(gallery, afterLeft, 1) else afterLeft
  }

  /** What a click on the lightbox or one of its controls, or a key press,
      is to the lightbox. A click on a child of the overlay other than its
      controls reaches the overlay's handler with a different target. */
  datatype Event =
    | ItemClick(position: nat)
    | CloseClick
    | PrevClick
    | NextClick
    | OverlayClick(onOverlayItself: bool)
    | KeyDown(key: string)

  predicate EventFits(gallery: seq<Item>, e: Event)
  {
    e.ItemClick? ==> e.position < |gallery|
  }

  /** Page scrolling is suppressed exactly while the lightbox is open. */
  predicate ScrollLocksWithOpen(st: State)
  {
    st.overflow == (if st.open then "hidden" else "")
  }

  /** The lightbox's handlers, one event at a time. Starting from a body
      whose overflow is the default, scrolling stays suppressed exactly
      while the lightbox is open. */
  function Step(gallery: seq<Item>, st: State, e: Event): (r: State)
    requires EventFits(gallery, e)
    ensures ScrollLocksWithOpen(st) ==> ScrollLocksWithOpen(r)
  {
    match e
    case ItemClick(p) => OnItemClick(gallery, st, p)
    case CloseClick => Close(st)
    case PrevClick => Navigate(gallery, st, -1)
    case NextClick => Navigate(gallery, st, 1)
    case OverlayClick(onOverlay) => if onOverlay then Close(st) else st
    case KeyDown(key) => OnKey(gallery, st, key)
  }

  /** The indices the script can hold: `NaN`, or an integer no smaller than
      the -1 `indexOf` returns. */
  predicate IndexOk(st: State)
  {
    st.index.NaN? || st.index.n >= -1
  }

  /** Every handler keeps the index among those values, whatever the gallery
      looks like at the time (the filter may have changed it in between). */
  lemma StepKeepsIndexOk(gallery: seq<Item>, st: State, e: Event)
    requires EventFits(gallery, e) && IndexOk(st)
    ensures IndexOk(Step(gallery, st, e))
  {
    var n := VisibleCount(gallery);
    if n > 0 && st.index.Num? {
      match e
      case PrevClick => NavigateInRange(gallery, st, -1);
      case NextClick => NavigateInRange(gallery, st, 1);
      case KeyDown(key) =>
        if st.open && key == "ArrowLeft" {
          NavigateInRange(gallery, st, -1);
        } else if st.open && key == "ArrowRight" {
          NavigateInRange(gallery, st, 1);
        }
      case _ =>
    }
  }

  /** The lightbox's handlers over a run of events, the i-th event met with
      the gallery `events[i].0` as the filter has left it by then. */
  function Run(events: seq<(seq<Item>, Event)>, st: State): State
    requires forall k :: 0 <= k < |events| ==> EventFits(events[k].0, events[k].1)
    decreases |events|
  {
    if |events| == 0 then st
    else
      var (g, e) := events[|events| - 1];
      Step(g, Run(events[..|events| - 1], st), e)
  }

  /** At page load (`currentIndex` 0, closed, default overflow) both
      invariants hold, and every run of events from there keeps them:
      scrolling is suppressed exactly while the lightbox is open, and the
      index is `NaN` or an integer of -1 or more. */
  lemma {:induction false} RunFromLoadKeepsInvariants(events: seq<(seq<Item>, Event)>, imageText: string, caption: string)
    requires forall k :: 0 <= k < |events| ==> EventFits(events[k].0, events[k].1)
    ensures var r := Run(events, Initial("", imageText, caption));
            ScrollLocksWithOpen(r) && IndexOk(r)
    decreases |events|
  {
    if |events| > 0 {
      var prefix := events[..|events| - 1];
      var (g, e) := events[|events| - 1];
      assert forall k :: 0 <= k < |prefix| ==> prefix[k] == events[k];
      RunFromLoadKeepsInvariants(prefix, imageText, caption);
      StepKeepsIndexOk(g, Run(prefix, Initial("", imageText, caption)), e);
    }
  }

  /** `navigate` with the guard the empty case needs: with no visible item
      nothing at all changes. The index therefore never becomes `NaN`, and a
      step while an item is visible lands on it. */
  function NavigateGuarded(gallery: seq<Item>, st: State, direction: int): (r: State)
    ensures VisibleCount(gallery) == 0 ==> r == st
    ensures VisibleCount(gallery) > 0 ==> r == Navigate(gallery, st, direction)
    ensures st.index.Num? && st.index.n >= -1 && (direction == 1 || direction == -1) ==>
              (r.index.Num? && r.index.n >= -1
               && (VisibleCount(gallery) > 0 ==>
                     (0 <= r.index.n < VisibleCount(gallery)
                      && Shows(gallery, r, VisiblePositions(gallery)[r.index.n]))))
  {
    if VisibleCount(gallery) == 0 then st
    else
      if st.index.Num? && st.index.n >= -1 && (direction == 1 || direction == -1) then
        NavigateInRange(gallery, st, direction);
        Navigate(gallery, st, direction)
      else
        Navigate(gallery, st, direction)
  }

  /** Each step of a run carries its own direction, +1 or -1 (the next and
      previous controls and the arrow keys, in any order). */
  predicate UnitDirections(steps: seq<(seq<Item>, int)>)
  {
    forall k :: 0 <= k < |steps| ==> steps[k].1 == 1 || steps[k].1 == -1
  }

  /** With the guard the index never becomes `NaN`: it stays an integer of
      -1 or more across any number of steps, in either direction and over
      any galleries, so every step taken while an item is visible shows
      one. */
  lemma {:induction false} GuardedStepsAlwaysShow(steps: seq<(seq<Item>, int)>, st: State)
    requires st.index.Num? && st.index.n >= -1
    requires UnitDirections(steps)
    ensures var r := GuardedRun(steps, st);
            r.index.Num? && r.index.n >= -1
    ensures |steps| > 0 && VisibleCount(steps[|steps| - 1].0) > 0 ==>
              var g := steps[|steps| - 1].0;
              var r := GuardedRun(steps, st);
              0 <= r.index.n < VisibleCount(g)
              && Shows(g, r, VisiblePositions(g)[r.index.n])
    decreases |steps|
  {
    if |steps| > 0 {
      var prefix := steps[..|steps| - 1];
      var (g, direction) := steps[|steps| - 1];
      assert UnitDirections(prefix) by {
        forall k | 0 <= k < |prefix|
          ensures prefix[k].1 == 1 || prefix[k].1 == -1
        {
          assert prefix[k] == steps[k];
        }
      }
      GuardedStepsAlwaysShow(prefix, st);
      var mid := GuardedRun(prefix, st);
      if VisibleCount(g) > 0 {
        NavigateInRange(g, mid, direction);
      }
    }
  }

  /** Guarded steps, the i-th taken over the gallery `steps[i].0` in the
      direction `steps[i].1`. */
  function GuardedRun(steps: seq<(seq<Item>, int)>, st: State): State
    decreases |steps|
  {
    if |steps| == 0 then st
    else
      var (g, direction) := steps[|steps| - 1];
      NavigateGuarded(g, GuardedRun(steps[..|steps| - 1], st), direction)
  }

  /** The same steps without the guard: once one of them meets an empty
      visible list, the index is `NaN` for good and no later step shows
      anything, however many items are visible by then. */
  lemma UnguardedStepSticksAtNaN(gallery: seq<Item>, later: seq<Item>, st: State, direction: int)
    requires VisibleCount(gallery) == 0
    ensures Navigate(gallery, st, direction).index == NaN
    ensures Navigate(later, Navigate(gallery, st, direction), direction) == Navigate(gallery, st, direction)
  {
  }

  /** A concrete run of the script as written: the lightbox is open on the
      only gallery item, a filter hides it, ArrowRight is pressed, the
      filter shows it again, and ArrowRight no longer does anything. The
      guarded step shows the item again. */
  lemma ArrowKeysDeadAfterEmptyFilter()
    ensures var item := Item(Some("a"), false, Some("c"), Some("l"));
            var shown := [item];
            var filtered := [item.(hidden := true)];
            var st := State(true, Num(0), "hidden", "l", "c");
            var stuck := OnKey(filtered, st, "ArrowRight");
            && stuck.open && stuck.index == NaN
            && VisibleCount(shown) == 1
            && OnKey(shown, stuck, "ArrowRight") == stuck
            && NavigateGuarded(shown, NavigateGuarded(filtered, st, 1), 1).index == Num(0)
  {
    var item := Item(Some("a"), false, Some("c"), Some("l"));
    var shown := [item];
    var filtered := [item.(hidden := true)];
    assert VisiblePositions(filtered) == VisiblePositions([]) == [];
    assert VisiblePositions(shown) == VisiblePositions([]) + [0];
    var st := State(true, Num(0), "hidden", "l", "c");
    ModTwoN(1);
  }

  lemma ModSmall(x: int, n: int)
    requires 0 <= x < n
    ensures x % n == x
  {
  }

  lemma ModMinusN(x: int, n: int)
    requires 0 < n <= x < 2 * n
    ensures x % n == x - n
  {
  }

  lemma ModTwoN(n: int)
    requires n > 0
    ensures (2 * n) % n == 0 && n % n == 0
  {
  }

  lemma ModNegOne(n: int)
    requires n > 0
    ensures (-1) % n == n - 1
  {
  }
}
