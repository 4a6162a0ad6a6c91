/** The category filter: clicking a filter button makes it the only active
    button and shows or hides the items of one collection by category.
    The state modelled is the settled one, after the fade-in frame and the
    300 ms hide timer have run. */
module Filter {
  import opened Js
  import opened Gallery

  /** A filter button: its `data-filter` key and its `active` marker. */
  datatype Button = Button(key: Option<string>, active: bool)

  /** The page parts the filter touches: its buttons, the gallery items and
      the product cards. */
  datatype FilterPage = FilterPage(buttons: seq<Button>, gallery: seq<Item>, products: seq<Item>)

  /** An item stays shown when the key is `"all"` or equals its category
      (strict equality, so a button without a key selects exactly the items
      without a category). */
  predicate Matches(key: Option<string>, category: Option<string>)
  {
    key == Some("all") || category == key
  }

  /** The settled display of a collection under a key: every item is shown
      or hidden by its category, and nothing else about it changes. */
  function ApplyKey(items: seq<Item>, key: Option<string>): (r: seq<Item>)
    ensures |r| == |items|
    ensures forall j :: 0 <= j < |r| ==> r[j].hidden == !Matches(key, items[j].category)
    ensures forall j :: 0 <= j < |r| ==> r[j] == items[j].(hidden := r[j].hidden)
  {
    seq(|items|, j requires 0 <= j < |items| => items[j].(hidden := !Matches(key, items[j].category)))
  }

  /** Makes the button at `b` the only active one. */
  function SelectOnly(buttons: seq<Button>, b: nat): (r: seq<Button>)
    requires b < |buttons|
    ensures |r| == |buttons|
    ensures forall j :: 0 <= j < |r| ==> r[j].key == buttons[j].key
    ensures forall j :: 0 <= j < |r| ==> (r[j].active <==> j == b)
  {
    seq(|buttons|, j requires 0 <= j < |buttons| => buttons[j].(active := j == b))
  }

  /** The click handler of the button at position `b`, in its settled
      state. Exactly the clicked button is active afterwards. The gallery
      is filtered when it has any item, the product cards otherwise, and the
      other collection is left as it was. */
  function Click(page: FilterPage, b: nat): (r: FilterPage)
    requires b < |page.buttons|
    ensures |r.buttons| == |page.buttons|
    ensures forall j :: 0 <= j < |r.buttons| ==> (r.buttons[j].active <==> j == b)
    ensures forall j :: 0 <= j < |r.buttons| ==> r.buttons[j].key == page.buttons[j].key
    ensures |page.gallery| > 0 ==> r.products == page.products && |r.gallery| == |page.gallery|
    ensures |page.gallery| == 0 ==> r.gallery == page.gallery && |r.products| == |page.products|
    ensures var key := page.buttons[b].key;
            var (before, after) := if |page.gallery| > 0 then (page.gallery, r.gallery) else (page.products, r.products);
            forall j :: 0 <= j < |after| ==> after[j] == before[j].(hidden := !Matches(key, before[j].category))
  {
    var key := page.buttons[b].key;
    var buttons := SelectOnly(page.buttons, b);
    if |page.gallery| > 0 then
      page.(buttons := buttons, gallery := ApplyKey(page.gallery, key))
    else
      page.(buttons := buttons, products := ApplyKey(page.products, key))
  }

  /** The settled page depends only on the last click: clicking `a` and then
      `b` ends where clicking `b` alone does, and clicking the same button
      twice is the same as clicking it once. */
  lemma LastClickWins(page: FilterPage, a: nat, b: nat)
    requires a < |page.buttons| && b < |page.buttons|
    ensures Click(Click(page, a), b) == Click(page, b)
  {
    var p1 := Click(page, a);
    var r1 := Click(p1, b);
    var r2 := Click(page, b);
    assert r1.buttons == r2.buttons;
    if |page.gallery| > 0 {
      assert r1.gallery == r2.gallery;
    } else {
      assert r1.products == r2.products;
    }
  }

  /** After a click on a page with gallery items, the lightbox's visible
      list is exactly the gallery items matching the clicked key. */
  lemma VisibleAfterClick(page: FilterPage, b: nat, p: nat)
    requires b < |page.buttons| && |page.gallery| > 0 && p < |page.gallery|
    ensures p in VisiblePositions(Click(page, b).gallery) <==> Matches(page.buttons[b].key, page.gallery[p].category)
  {
    VisibleExactly(Click(page, b).gallery, p);
  }

  /** The key `"all"` shows every item of the filtered collection. */
  lemma AllShowsEverything(page: FilterPage, b: nat)
    requires b < |page.buttons| && page.buttons[b].key == Some("all")
    ensures |page.gallery| > 0 ==> VisiblePositions(Click(page, b).gallery) == seq(|page.gallery|, j => j)
    ensures |page.gallery| == 0 ==> forall j :: 0 <= j < |Click(page, b).products| ==> !Click(page, b).products[j].hidden
  {
    var g := Click(page, b).gallery;
    if |page.gallery| > 0 {
      AllVisible(g);
    }
  }

  /** When no item is hidden, the visible list is every position in order. */
  lemma {:induction false} AllVisible(items: seq<Item>)
    requires forall j :: 0 <= j < |items| ==> !items[j].hidden
    ensures VisiblePositions(items) == seq(|items|, j => j)
    decreases |items|
  {
    if |items| > 0 {
      AllVisible(items[..|items| - 1]);
    }
  }
}
