/**
  Choosing the navigation link to highlight: `findClosest` scans the anchors
  and keeps the one whose offset is nearest to the current scroll position.
 */
module ActiveLink {
  import opened Wrappers

  /** An anchor: the navigation link (an opaque element reference) and the
      vertical offset of its target from the container's top, which
      `findAnchors` has already rounded down with `Math.floor`. */
  datatype Anchor = Anchor(link: nat, offset: int)

  function Abs(x: int): nat { if x < 0 then -x else x }

  /** `Math.abs(anchor.offset - y)`. */
  function Distance(a: Anchor, y: int): nat { Abs(a.offset - y) }

  /** `anchors[k]` is nearest to `y`, and every anchor before it is strictly
      farther away: the first of the nearest anchors in list order. */
  predicate IsFirstNearest(anchors: seq<Anchor>, y: int, k: int)
  {
    0 <= k < |anchors| &&
    (forall j :: 0 <= j < |anchors| ==> Distance(anchors[k], y) <= Distance(anchors[j], y)) &&
    (forall j :: 0 <= j < k ==> Distance(anchors[k], y) < Distance(anchors[j], y))
  }

  /** `findClosest(anchors, offset)` (scrollspy.js): `null` for no anchors,
      otherwise the first anchor at the least distance from `offset`. */
  method FindClosest(anchors: seq<Anchor>, offset: int) returns (closest: Option<Anchor>)
    ensures closest.None? <==> anchors == []
    ensures closest.Some? ==>
              exists k :: IsFirstNearest(anchors, offset, k) && anchors[k] == closest.value
  {
    closest := None;
    ghost var best := -1;
    for i := 0 to |anchors|
      invariant closest.None? <==> i == 0
      invariant closest.Some? ==> 0 <= best < i && anchors[best] == closest.value
      invariant closest.Some? ==>
                  forall j :: 0 <= j < i ==> Distance(anchors[best], offset) <= Distance(anchors[j], offset)
      invariant closest.Some? ==>
                  forall j :: 0 <= j < best ==> Distance(anchors[best], offset) < Distance(anchors[j], offset)
    {
      var anchor := anchors[i];
      if closest.None? || Abs(anchor.offset - offset) < Abs(closest.value.offset - offset) {
        closest := Some(anchor);
        best := i;
      }
    }
    if closest.Some? {
      assert IsFirstNearest(anchors, offset, best);
    }
  }

  /** The first nearest anchor is unique, so the result is determined by the
      anchors and the position alone. */
  lemma FirstNearestUnique(anchors: seq<Anchor>, y: int, k1: int, k2: int)
    requires IsFirstNearest(anchors, y, k1) && IsFirstNearest(anchors, y, k2)
    ensures k1 == k2
  {
    assert Distance(anchors[k1], y) == Distance(anchors[k2], y);
  }
}
