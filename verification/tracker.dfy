/**
 Index lookup: the walk that subtracts page lengths from the scroll offset to
 find the selected page (the first page whose leading edge is at or past the
 offset) or the first visible page (the first whose trailing edge is).
 The walk stops at the first page that satisfies its test.
 */
module Tracker {
  import opened Geometry

  /**
   The test the walk applies at page `i`: for the selected page, the offset
   minus the lengths of the pages before `i` is at most 0; for the first
   visible page, the offset minus the lengths up to and including `i` is.
   */
  predicate Reached(ext: seq<real>, offset: real, selected: bool, i: nat)
    requires i < |ext|
  {
    if selected then offset - Sum(ext[..i]) <= 0.0 else offset - Sum(ext[..i + 1]) <= 0.0
  }

  lemma ReachedShift(ext: seq<real>, offset: real, selected: bool)
    requires |ext| > 0
    ensures Reached(ext, offset, selected, 0) <==>
              (if selected then offset <= 0.0 else offset - ext[0] <= 0.0)
    ensures forall j :: 1 <= j < |ext| ==>
              (Reached(ext, offset, selected, j) <==> Reached(ext[1..], offset - ext[0], selected, j - 1))
  {
    assert ext[..1] == [ext[0]];
    assert Sum([ext[0]]) == ext[0] + Sum([ext[0]][1..]);
    forall j | 1 <= j < |ext|
      ensures Reached(ext, offset, selected, j) <==> Reached(ext[1..], offset - ext[0], selected, j - 1)
    {
      assert ext[..j][1..] == ext[1..][..j - 1];
      assert ext[..j + 1][1..] == ext[1..][..j];
    }
  }

  /**
   The lookup walk over the pages' scroll-axis lengths: the smallest index
   that passes the test, or `None` when no page does (no pages at all, or an
   offset beyond every page).
   */
  function FindPage(ext: seq<real>, offset: real, selected: bool): (r: Option<nat>)
    ensures r.Some? ==> r.value < |ext| && Reached(ext, offset, selected, r.value)
    ensures r.Some? ==> forall j :: 0 <= j < r.value ==> !Reached(ext, offset, selected, j)
    ensures r.None? ==> forall j :: 0 <= j < |ext| ==> !Reached(ext, offset, selected, j)
    decreases |ext|
  {
    if |ext| == 0 then None
    else
      ReachedShift(ext, offset, selected);
      if selected && offset <= 0.0 then Some(0)
      else
        var remaining := offset - ext[0];
        if !selected && remaining <= 0.0 then Some(0)
        else
          match FindPage(ext[1..], remaining, selected)
          case None => None
          case Some(k) => Some(k + 1)
  }

  /** The page the view is settled on. */
  function Selected(pages: seq<Page>, offset: real): Option<nat>
  {
    FindPage(Extents(pages), offset, true)
  }

  /** The first page any part of which lies at or past the offset. */
  function FirstVisible(pages: seq<Page>, offset: real): Option<nat>
  {
    FindPage(Extents(pages), offset, false)
  }

  /**
   On tiled pages, the selected page is the first one whose leading edge is
   at or past the offset; there is none when every leading edge is before it.
   */
  lemma SelectedIsFirstLeadingEdgeAtOffset(pages: seq<Page>, offset: real)
    requires Tiled(pages)
    ensures Selected(pages, offset).Some? ==>
              var i := Selected(pages, offset).value;
              i < |pages| && offset <= pages[i].origin
              && forall j :: 0 <= j < i ==> pages[j].origin < offset
    ensures Selected(pages, offset).None? <==> forall j :: 0 <= j < |pages| ==> pages[j].origin < offset
  {
    forall j | 0 <= j < |pages|
      ensures Reached(Extents(pages), offset, true, j) <==> offset <= pages[j].origin
    {
      TiledOrigin(pages, j);
    }
  }

  /**
   On tiled pages, the first visible page is the first one whose trailing
   edge is at or past the offset; there is none when every trailing edge is
   before it.
   */
  lemma FirstVisibleIsFirstTrailingEdgeAtOffset(pages: seq<Page>, offset: real)
    requires Tiled(pages)
    ensures FirstVisible(pages, offset).Some? ==>
              var i := FirstVisible(pages, offset).value;
              i < |pages| && offset <= pages[i].origin + pages[i].extent
              && forall j :: 0 <= j < i ==> pages[j].origin + pages[j].extent < offset
    ensures FirstVisible(pages, offset).None? <==>
              forall j :: 0 <= j < |pages| ==> pages[j].origin + pages[j].extent < offset
  {
    forall j | 0 <= j < |pages|
      ensures Reached(Extents(pages), offset, false, j) <==> offset <= pages[j].origin + pages[j].extent
    {
      TiledOrigin(pages, j);
      SumSnoc(Extents(pages), j);
    }
  }

  /**
   With non-negative lengths, whenever a page is selected there is a first
   visible page, and it is never after the selected one.
   */
  lemma {:induction false} FirstVisibleNotAfterSelected(ext: seq<real>, offset: real)
    requires NonNegative(ext)
    ensures FindPage(ext, offset, true).Some? ==>
              && FindPage(ext, offset, false).Some?
              && FindPage(ext, offset, false).value <= FindPage(ext, offset, true).value
  {
    var s := FindPage(ext, offset, true);
    if s.Some? {
      SumSnoc(ext, s.value);
      assert Reached(ext, offset, false, s.value);
    }
  }

  /**
   With non-negative lengths and at least one page, a first visible page
   exists exactly when the offset is not beyond the total length; past the
   total length nothing is selected either.
   */
  lemma {:induction false} LookupWithinContent(ext: seq<real>, offset: real)
    requires NonNegative(ext)
    requires |ext| > 0
    ensures FindPage(ext, offset, false).Some? <==> offset <= Sum(ext)
    ensures offset > Sum(ext) ==> FindPage(ext, offset, true).None?
  {
    var n := |ext|;
    assert ext[..n] == ext;
    if offset <= Sum(ext) {
      assert Reached(ext, offset, false, n - 1);
    } else {
      forall j | 0 <= j < n
        ensures !Reached(ext, offset, false, j) && !Reached(ext, offset, true, j)
      {
        PrefixSumMonotone(ext, j, n);
        PrefixSumMonotone(ext, j + 1, n);
      }
    }
  }
}
