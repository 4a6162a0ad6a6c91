/** How the filter and the lightbox meet: they share the gallery items, and
    the lightbox reads the filter's result afresh on every step. */
module Page {
  import opened Js
  import opened Gallery
  import opened Filter
  import opened Lightbox

  /** A filter click on a page with gallery items, while the lightbox stays
      open, then, once the filter has settled (its hide timer has fired),
      one step of the lightbox from an integer index of -1 or
      more (from `NaN` the step changes nothing): when some item matches the key,
      the step shows a matching item; when none does, the step shows
      nothing new and the index becomes `NaN`. */
  lemma StepAfterFilterShowsMatch(page: FilterPage, b: nat, st: State, direction: int)
    requires b < |page.buttons| && |page.gallery| > 0
    requires st.index.Num? && st.index.n >= -1
    requires direction == 1 || direction == -1
    ensures var key := page.buttons[b].key;
            var g := Click(page, b).gallery;
            var r := Navigate(g, st, direction);
            && ((exists q :: 0 <= q < |page.gallery| && Matches(key, page.gallery[q].category)) ==>
                  exists p :: 0 <= p < |g| && Matches(key, page.gallery[p].category) && Shows(g, r, p))
            && ((forall q :: 0 <= q < |page.gallery| ==> !Matches(key, page.gallery[q].category)) ==>
                  r == st.(index := NaN))
  {
    var key := page.buttons[b].key;
    var g := Click(page, b).gallery;
    if exists q :: 0 <= q < |page.gallery| && Matches(key, page.gallery[q].category) {
      var q :| 0 <= q < |page.gallery| && Matches(key, page.gallery[q].category);
      VisibleAfterClick(page, b, q);
      NavigateInRange(g, st, direction);
      var r := Navigate(g, st, direction);
      var p := VisiblePositions(g)[r.index.n];
      VisibleAfterClick(page, b, p);
    } else if VisibleCount(g) > 0 {
      var p := VisiblePositions(g)[0];
      VisibleAfterClick(page, b, p);
    }
  }

  /** Filtering the product cards leaves the gallery, and so every lightbox
      step, exactly as it was. */
  lemma ProductFilterLeavesLightbox(page: FilterPage, b: nat, st: State, e: Event)
    requires b < |page.buttons| && |page.gallery| == 0
    requires EventFits(page.gallery, e)
    ensures Step(Click(page, b).gallery, st, e) == Step(page.gallery, st, e)
  {
  }
}
