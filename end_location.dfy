/**
  Where a smooth scroll ends (`getEndLocation`): the target's distance from the
  top of the page, less a header height and an offset, never above the top.

  The target and its `offsetParent` ancestors are given as the list of their
  `offsetTop` values: the target first, then its offset parent, and so on up to
  the element that has no offset parent. An empty list stands for a selector
  that matched no element (`document.querySelector` returned `null`).
 */
module EndLocation {
  import opened Wrappers

  /** Reading `offsetParent` of `null` throws. */
  datatype EndLocationError = TypeError

  /** The sum of a list of offsets. */
  function Sum(s: seq<int>): int
  {
    if s == [] then 0 else Sum(s[..|s| - 1]) + s[|s| - 1]
  }

  /** The target's distance from the top of the page before the header height
      and the offset are taken off: nothing is added up when the target has no
      offset parent. */
  function PageTop(chain: seq<int>): int
  {
    if |chain| > 1 then Sum(chain) else 0
  }

  /** `getEndLocation(anchor, headerHeight, offset)` (scrollspy.js): walks the
      offset-parent chain adding up `offsetTop`, takes off the header height and
      the offset, and clamps the result at 0. */
  method GetEndLocation(chain: seq<int>, headerHeight: int, offset: int)
    returns (r: Result<int, EndLocationError>)
    ensures r.Failure? <==> chain == []
    ensures r.Success? ==> r.value >= 0
    ensures r.Success? && PageTop(chain) - headerHeight - offset >= 0 ==>
              r.value == PageTop(chain) - headerHeight - offset
    ensures r.Success? && PageTop(chain) - headerHeight - offset < 0 ==> r.value == 0
  {
    if chain == [] {
      return Failure(TypeError);
    }
    var location := 0;
    if |chain| > 1 {
      var i := 0;
      while i < |chain|
        invariant 0 <= i <= |chain|
        invariant location == Sum(chain[..i])
      {
        assert chain[..i + 1][..i] == chain[..i];
        location := location + chain[i];
        i := i + 1;
      }
      assert chain[..i] == chain;
    }
    location := location - headerHeight - offset;
    r := Success(if location >= 0 then location else 0);
  }

  /** An element's distance from the top of the page is its own `offsetTop` plus
      its offset parent's distance from the top: the walk up the chain adds the
      same numbers in either order. */
  lemma {:induction false} SumCons(chain: seq<int>)
    requires chain != []
    ensures Sum(chain) == chain[0] + Sum(chain[1..])
  {
    if |chain| > 1 {
      var init := chain[..|chain| - 1];
      SumCons(init);
      assert init[1..] == chain[1..][..|chain[1..]| - 1];
    }
  }

  /** The page top of an element is its own `offsetTop` plus the page top of its
      offset parent, as long as that parent has an offset parent of its own (an
      element without one counts as 0, however large its `offsetTop`). */
  lemma PageTopParent(chain: seq<int>)
    requires |chain| > 2
    ensures PageTop(chain) == chain[0] + PageTop(chain[1..])
  {
    SumCons(chain);
  }
}
