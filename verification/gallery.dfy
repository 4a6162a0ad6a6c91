/** The items the filter and the lightbox act on. An item is identified by
    its position in its collection, the way the script identifies a node by
    reference. */
module Gallery {
  import opened Js

  /** A gallery item or product card: its `data-category`, whether its
      inline `display` is `none`, its `data-caption`, and the text of its
      `.gallery-label` child. Absent attributes and children are `None`. */
  datatype Item = Item(category: Option<string>, hidden: bool, caption: Option<string>, labelText: Option<string>)

  predicate Increasing(s: seq<nat>)
  {
    forall i, j :: 0 <= i < j < |s| ==> s[i] < s[j]
  }

  /** `getVisibleItems()`: the positions of the items whose display is not
      `none`, in document order, each exactly once. */
  function VisiblePositions(items: seq<Item>): (r: seq<nat>)
    ensures forall k :: 0 <= k < |r| ==> r[k] < |items| && !items[r[k]].hidden
    ensures forall p :: 0 <= p < |items| && !items[p].hidden ==> p in r
    ensures Increasing(r)
    decreases |items|
  {
    if |items| == 0 then []
    else
      var prefix := VisiblePositions(items[..|items| - 1]);
      if items[|items| - 1].hidden then prefix else prefix + [|items| - 1]
  }

  /** `Array.prototype.indexOf` on a list of distinct positions: the index
      of `x` in `s`, or -1 when it is not there. */
  function IndexOf(s: seq<nat>, x: nat): (r: int)
    ensures -1 <= r < |s|
    ensures r == -1 <==> x !in s
    ensures r >= 0 ==> s[r] == x && x !in s[..r]
    decreases |s|
  {
    if |s| == 0 then -1
    else if s[0] == x then 0
    else
      var k := IndexOf(s[1..], x);
      if k == -1 then -1 else k + 1
  }

  /** The visible list holds exactly the items that are not hidden. */
  lemma VisibleExactly(items: seq<Item>, p: nat)
    requires p < |items|
    ensures p in VisiblePositions(items) <==> !items[p].hidden
  {
  }

  /** Clicking the item at position `p` of the gallery yields, through
      `indexOf`, a visible index that reads back that same item; for a
      hidden item it yields -1. */
  lemma IndexOfVisible(items: seq<Item>, p: nat)
    requires p < |items|
    ensures var vis := VisiblePositions(items);
            var k := IndexOf(vis, p);
            (items[p].hidden <==> k == -1) && (k >= 0 ==> vis[k] == p)
  {
  }
}
