/**
 The visibility report sent on every scroll: starting at the first visible
 page, one (index, visibility) event per page while some viewport length
 remains, each event using up the page length times its visibility.

 Two walks are modelled. `WalkAsWritten` is the loop as the source has it:
 when there is no next page it stays on the last page and reports it again,
 so it is given fuel and may not finish. `Walk` stops after the last page;
 it is the one the scroll view uses.
 */
module VisibilityReport {
  import opened Geometry
  import opened Tracker

  datatype Event = Event(index: nat, visibility: real)

  /**
   Visibility of one page. A page whose leading edge is before the offset
   reports the fraction of it not yet scrolled past; any other page reports
   how much of it fits in the remaining viewport, at most all of it.
   */
  function VisibilityOf(page: Page, offset: real, remaining: real): (v: real)
    requires page.extent > 0.0
    ensures page.origin < offset <= page.origin + page.extent ==> 0.0 <= v < 1.0
    ensures page.origin >= offset && remaining > 0.0 ==> 0.0 < v <= 1.0
    ensures page.origin >= offset ==> (v == 1.0 <==> remaining >= page.extent)
  {
    if page.origin < offset then
      var ahead := page.origin + page.extent - offset;
      FractionBounds(ahead, page.extent);
      ahead / page.extent
    else
      FractionBounds(remaining, page.extent);
      Min(remaining / page.extent, 1.0)
  }

  /**
   The viewport length a page's event uses up: the part of the page not yet
   scrolled past when its leading edge is before the offset, otherwise as
   much of the page as fits in the remaining viewport.
   */
  function Used(page: Page, offset: real, remaining: real): real
  {
    if page.origin < offset then page.origin + page.extent - offset else Min(remaining, page.extent)
  }

  /** The source subtracts page length times visibility; that is exactly `Used`. */
  lemma UsedIsExtentTimesVisibility(page: Page, offset: real, remaining: real)
    requires page.extent > 0.0
    ensures page.extent * VisibilityOf(page, offset, remaining) == Used(page, offset, remaining)
  {
    if page.origin < offset {
      FractionBounds(page.origin + page.extent - offset, page.extent);
    } else {
      FractionBounds(remaining, page.extent);
    }
  }

  lemma FractionBounds(a: real, e: real)
    requires e > 0.0
    ensures e * (a / e) == a
    ensures a >= 0.0 ==> a / e >= 0.0
    ensures a > 0.0 ==> a / e > 0.0
    ensures a < e ==> a / e < 1.0
    ensures a >= e ==> a / e >= 1.0
  {
  }

  /** Length of page `i` along the scroll axis; 0 for an index naming no page. */
  function ExtentAt(pages: seq<Page>, i: nat): real
  {
    if i < |pages| then pages[i].extent else 0.0
  }

  /** Viewport length used up by a sequence of events: page length times visibility, summed. */
  function Consumed(pages: seq<Page>, es: seq<Event>): real
  {
    if |es| == 0 then 0.0
    else ExtentAt(pages, es[0].index) * es[0].visibility + Consumed(pages, es[1..])
  }

  /** Every event of `es` is reported while some of a viewport of length `remaining` is left. */
  predicate ReportedWhileViewportLeft(pages: seq<Page>, remaining: real, es: seq<Event>)
  {
    forall k :: 0 <= k < |es| ==> remaining - Consumed(pages, es[..k]) > 0.0
  }

  /** A report that ran until the viewport was used up: every event while some was left, and none after. */
  predicate UsedUpViewport(pages: seq<Page>, remaining: real, es: seq<Event>)
  {
    ReportedWhileViewportLeft(pages, remaining, es) && remaining - Consumed(pages, es) <= 0.0
  }

  lemma {:induction false} ConsumedCons(pages: seq<Page>, e: Event, es: seq<Event>)
    ensures Consumed(pages, [e] + es) == ExtentAt(pages, e.index) * e.visibility + Consumed(pages, es)
  {
    assert ([e] + es)[1..] == es;
  }

  lemma {:induction false} ConsumedConsPrefix(pages: seq<Page>, e: Event, es: seq<Event>, k: nat)
    requires k <= |es|
    ensures Consumed(pages, ([e] + es)[..k + 1]) == ExtentAt(pages, e.index) * e.visibility + Consumed(pages, es[..k])
  {
    assert ([e] + es)[..k + 1] == [e] + es[..k];
    ConsumedCons(pages, e, es[..k]);
  }

  /**
   The loop of the source, with `fuel` bounding the number of iterations
   (`None` when it runs out). When the next index would be past the last
   page, the index does not advance and the last page is reported again.
   */
  function WalkAsWritten(pages: seq<Page>, offset: real, remaining: real, index: nat, fuel: nat): (r: Option<seq<Event>>)
    requires index < |pages|
    requires Positive(pages)
    ensures r.Some? ==> |r.value| <= fuel
    ensures r.Some? ==> forall k :: 0 <= k < |r.value| ==> index <= r.value[k].index < |pages|
    ensures r.Some? && |r.value| > 0 ==> r.value[0].index == index
    ensures r.Some? ==> forall k :: 0 <= k < |r.value| ==>
              r.value[k].index == if index + k < |pages| then index + k else |pages| - 1
    decreases fuel
  {
    if remaining <= 0.0 then Some([])
    else if fuel == 0 then None
    else
      var page := pages[index];
      var v := VisibilityOf(page, offset, remaining);
      var next := if index + 1 < |pages| then index + 1 else index;
      match WalkAsWritten(pages, offset, remaining - Used(page, offset, remaining), next, fuel - 1)
      case None => None
      case Some(rest) => Some([Event(index, v)] + rest)
  }

  /**
   The walk stopping after the last page: one event per page, for
   consecutive pages starting at `index`.
   */
  function Walk(pages: seq<Page>, offset: real, remaining: real, index: nat): (es: seq<Event>)
    requires index < |pages|
    requires Positive(pages)
    ensures |es| <= |pages| - index
    ensures forall k :: 0 <= k < |es| ==> es[k].index == index + k
    decreases |pages| - index
  {
    if remaining <= 0.0 then []
    else
      var page := pages[index];
      var v := VisibilityOf(page, offset, remaining);
      if index + 1 < |pages| then [Event(index, v)] + Walk(pages, offset, remaining - Used(page, offset, remaining), index + 1)
      else [Event(index, v)]
  }

  /** The report for one scroll, as the source computes it (bounded by fuel). */
  function ScrollEventsAsWritten(pages: seq<Page>, offset: real, viewport: real, fuel: nat): Option<seq<Event>>
    requires Positive(pages)
  {
    match FirstVisible(pages, offset)
    case None => Some([])
    case Some(first) => WalkAsWritten(pages, offset, viewport, first, fuel)
  }

  /** The report for one scroll: nothing when no page is visible. */
  function ScrollEvents(pages: seq<Page>, offset: real, viewport: real): seq<Event>
    requires Positive(pages)
  {
    match FirstVisible(pages, offset)
    case None => []
    case Some(first) => Walk(pages, offset, viewport, first)
  }

  /**
   The viewport length left before the `k`-th event of a walk from `index`:
   each step takes off the current page's `Used` length and moves to the next
   page, or stays on the last one as the source's loop does.
   */
  function LeftBefore(pages: seq<Page>, offset: real, remaining: real, index: nat, k: nat): real
    requires index < |pages|
    requires Positive(pages)
    decreases k
  {
    if k == 0 then remaining
    else
      var next := if index + 1 < |pages| then index + 1 else index;
      LeftBefore(pages, offset, remaining - Used(pages[index], offset, remaining), next, k - 1)
  }

  /** One step of the walk that stops after the last page. */
  lemma WalkStep(pages: seq<Page>, offset: real, remaining: real, index: nat)
    requires index < |pages|
    requires Positive(pages)
    requires remaining > 0.0
    ensures var v := VisibilityOf(pages[index], offset, remaining);
            Walk(pages, offset, remaining, index) ==
              if index + 1 < |pages| then [Event(index, v)] + Walk(pages, offset, remaining - Used(pages[index], offset, remaining), index + 1)
              else [Event(index, v)]
  {
  }

  /** One step of the source's loop. */
  lemma WalkAsWrittenStep(pages: seq<Page>, offset: real, remaining: real, index: nat, fuel: nat)
    requires index < |pages|
    requires Positive(pages)
    requires remaining > 0.0
    requires fuel > 0
    ensures var v := VisibilityOf(pages[index], offset, remaining);
            var next := if index + 1 < |pages| then index + 1 else index;
            var rest := WalkAsWritten(pages, offset, remaining - Used(pages[index], offset, remaining), next, fuel - 1);
            WalkAsWritten(pages, offset, remaining, index, fuel) ==
              if rest.None? then None else Some([Event(index, v)] + rest.value)
  {
  }

  /** Each event of the walk carries its page's visibility for the viewport left before it. */
  lemma {:induction false} WalkVisibilities(pages: seq<Page>, offset: real, remaining: real, index: nat)
    requires index < |pages|
    requires Positive(pages)
    ensures var es := Walk(pages, offset, remaining, index);
            forall k :: 0 <= k < |es| ==>
              es[k].visibility == VisibilityOf(pages[es[k].index], offset, LeftBefore(pages, offset, remaining, index, k))
    decreases |pages| - index
  {
    var es := Walk(pages, offset, remaining, index);
    if remaining > 0.0 {
      WalkStep(pages, offset, remaining, index);
      if index + 1 < |pages| {
        var left := remaining - Used(pages[index], offset, remaining);
        var rest := Walk(pages, offset, left, index + 1);
        WalkVisibilities(pages, offset, left, index + 1);
        forall k | 0 < k < |es|
          ensures es[k].visibility == VisibilityOf(pages[es[k].index], offset, LeftBefore(pages, offset, remaining, index, k))
        {
          assert es[k] == rest[k - 1];
          assert LeftBefore(pages, offset, remaining, index, k) == LeftBefore(pages, offset, left, index + 1, k - 1);
        }
      }
    }
  }

  /** Each event of the source's loop carries its page's visibility for the viewport left before it. */
  lemma {:induction false} WalkAsWrittenVisibilities(pages: seq<Page>, offset: real, remaining: real, index: nat, fuel: nat)
    requires index < |pages|
    requires Positive(pages)
    ensures var r := WalkAsWritten(pages, offset, remaining, index, fuel);
            r.Some? ==> forall k :: 0 <= k < |r.value| ==>
              r.value[k].visibility == VisibilityOf(pages[r.value[k].index], offset, LeftBefore(pages, offset, remaining, index, k))
    decreases fuel
  {
    var r := WalkAsWritten(pages, offset, remaining, index, fuel);
    if remaining > 0.0 && fuel > 0 {
      WalkAsWrittenStep(pages, offset, remaining, index, fuel);
      var left := remaining - Used(pages[index], offset, remaining);
      var next := if index + 1 < |pages| then index + 1 else index;
      var rest := WalkAsWritten(pages, offset, left, next, fuel - 1);
      WalkAsWrittenVisibilities(pages, offset, left, next, fuel - 1);
      if r.Some? {
        forall k | 0 < k < |r.value|
          ensures r.value[k].visibility == VisibilityOf(pages[r.value[k].index], offset, LeftBefore(pages, offset, remaining, index, k))
        {
          assert r.value[k] == rest.value[k - 1];
          assert LeftBefore(pages, offset, remaining, index, k) == LeftBefore(pages, offset, left, next, k - 1);
        }
      }
    }
  }

  /**
   The source's loop reports a page only while viewport length remains, and
   when it finishes the viewport is used up.
   */
  lemma {:induction false} WalkAsWrittenStops(pages: seq<Page>, offset: real, remaining: real, index: nat, fuel: nat)
    requires index < |pages|
    requires Positive(pages)
    ensures var r := WalkAsWritten(pages, offset, remaining, index, fuel);
            r.Some? ==> UsedUpViewport(pages, remaining, r.value)
    decreases fuel
  {
    if remaining > 0.0 && fuel > 0 {
      var next := if index + 1 < |pages| then index + 1 else index;
      WalkAsWrittenStops(pages, offset, remaining - Used(pages[index], offset, remaining), next, fuel - 1);
    }
    StopsStep(pages, offset, remaining, index, fuel);
  }

  /** The step of `WalkAsWrittenStops`: what holds of the rest of the loop holds with one more event in front. */
  lemma StopsStep(pages: seq<Page>, offset: real, remaining: real, index: nat, fuel: nat)
    requires index < |pages|
    requires Positive(pages)
    requires remaining > 0.0 && fuel > 0 ==>
               var used := Used(pages[index], offset, remaining);
               var next := if index + 1 < |pages| then index + 1 else index;
               var t := WalkAsWritten(pages, offset, remaining - used, next, fuel - 1);
               t.Some? ==> UsedUpViewport(pages, remaining - used, t.value)
    ensures var r := WalkAsWritten(pages, offset, remaining, index, fuel);
            r.Some? ==> UsedUpViewport(pages, remaining, r.value)
  {
    if remaining <= 0.0 {
      assert WalkAsWritten(pages, offset, remaining, index, fuel) == Some([]);
      assert Consumed(pages, []) == 0.0;
    } else if fuel > 0 {
      var used := Used(pages[index], offset, remaining);
      var next := if index + 1 < |pages| then index + 1 else index;
      var t := WalkAsWritten(pages, offset, remaining - used, next, fuel - 1);
      WalkAsWrittenStep(pages, offset, remaining, index, fuel);
      if t.Some? {
        StepConsumption(pages, offset, remaining, index, t.value);
      }
    }
  }


  /**
   One event in front of a report that ran on the viewport left after it:
   the combined report uses up that event's `Used` length plus the rest, and
   keeps every prefix positive when the rest did.
   */
  lemma {:induction false} StepConsumption(pages: seq<Page>, offset: real, remaining: real, index: nat, rest: seq<Event>)
    requires index < |pages|
    requires Positive(pages)
    requires remaining > 0.0
    requires var used := Used(pages[index], offset, remaining);
             ReportedWhileViewportLeft(pages, remaining - used, rest)
    ensures var es := [Event(index, VisibilityOf(pages[index], offset, remaining))] + rest;
            && Consumed(pages, es) == Used(pages[index], offset, remaining) + Consumed(pages, rest)
            && ReportedWhileViewportLeft(pages, remaining, es)
  {
    var e := Event(index, VisibilityOf(pages[index], offset, remaining));
    var used := Used(pages[index], offset, remaining);
    var es := [e] + rest;
    UsedIsExtentTimesVisibility(pages[index], offset, remaining);
    assert ExtentAt(pages, e.index) * e.visibility == used;
    ConsumedCons(pages, e, rest);
    forall k | 0 <= k < |es|
      ensures remaining - Consumed(pages, es[..k]) > 0.0
    {
      if k == 0 {
        assert es[..k] == [];
      } else {
        assert remaining - used - Consumed(pages, rest[..k - 1]) > 0.0;
        ConsumedConsPrefix(pages, e, rest, k - 1);
        assert Consumed(pages, es[..k]) == used + Consumed(pages, rest[..k - 1]);
      }
    }
  }

  /**
   Started on a page the offset has not passed, on tiled pages, the source's
   loop reports visibilities between 0 and 1.
   */
  lemma {:induction false} WalkAsWrittenInUnit(pages: seq<Page>, offset: real, remaining: real, index: nat, fuel: nat)
    requires index < |pages|
    requires Positive(pages)
    requires Tiled(pages)
    requires offset <= pages[index].origin + pages[index].extent
    ensures var r := WalkAsWritten(pages, offset, remaining, index, fuel);
            r.Some? ==> forall k :: 0 <= k < |r.value| ==> 0.0 <= r.value[k].visibility <= 1.0
    decreases fuel
  {
    if remaining > 0.0 && fuel > 0 {
      var next := if index + 1 < |pages| then index + 1 else index;
      InUnitNext(pages, offset, index);
      WalkAsWrittenInUnit(pages, offset, remaining - Used(pages[index], offset, remaining), next, fuel - 1);
      InUnitStep(pages, offset, remaining, index, fuel);
    }
  }

  /** On tiled pages the offset does not pass the page after one it does not pass, nor the last page again. */
  lemma InUnitNext(pages: seq<Page>, offset: real, index: nat)
    requires index < |pages|
    requires Positive(pages)
    requires Tiled(pages)
    requires offset <= pages[index].origin + pages[index].extent
    ensures var next := if index + 1 < |pages| then index + 1 else index;
            offset <= pages[next].origin + pages[next].extent
  {
    if index + 1 < |pages| {
      assert pages[index + 1].origin == pages[index].origin + pages[index].extent;
    }
  }

  /** The step of `WalkAsWrittenInUnit`. */
  lemma InUnitStep(pages: seq<Page>, offset: real, remaining: real, index: nat, fuel: nat)
    requires index < |pages|
    requires Positive(pages)
    requires offset <= pages[index].origin + pages[index].extent
    requires remaining > 0.0
    requires fuel > 0
    requires var next := if index + 1 < |pages| then index + 1 else index;
             var t := WalkAsWritten(pages, offset, remaining - Used(pages[index], offset, remaining), next, fuel - 1);
             t.Some? ==> forall k :: 0 <= k < |t.value| ==> 0.0 <= t.value[k].visibility <= 1.0
    ensures var r := WalkAsWritten(pages, offset, remaining, index, fuel);
            r.Some? ==> forall k :: 0 <= k < |r.value| ==> 0.0 <= r.value[k].visibility <= 1.0
  {
    var v := VisibilityOf(pages[index], offset, remaining);
    var next := if index + 1 < |pages| then index + 1 else index;
    var t := WalkAsWritten(pages, offset, remaining - Used(pages[index], offset, remaining), next, fuel - 1);
    WalkAsWrittenStep(pages, offset, remaining, index, fuel);
    assert 0.0 <= v <= 1.0;
    if t.Some? {
      var r := [Event(index, v)] + t.value;
      assert forall k :: 0 < k < |r| ==> r[k] == t.value[k - 1];
    }
  }


  /**
   The walk reports a page only while viewport length remains, and it ends
   either with the viewport used up or on the last page.
   */
  lemma {:induction false} WalkStops(pages: seq<Page>, offset: real, remaining: real, index: nat)
    requires index < |pages|
    requires Positive(pages)
    ensures var es := Walk(pages, offset, remaining, index);
            && ReportedWhileViewportLeft(pages, remaining, es)
            && (remaining - Consumed(pages, es) <= 0.0 || es[|es| - 1].index == |pages| - 1)
    decreases |pages| - index
  {
    if remaining > 0.0 && index + 1 < |pages| {
      WalkStops(pages, offset, remaining - Used(pages[index], offset, remaining), index + 1);
    }
    WalkStopsStep(pages, offset, remaining, index);
  }

  /** The step of `WalkStops`. */
  lemma WalkStopsStep(pages: seq<Page>, offset: real, remaining: real, index: nat)
    requires index < |pages|
    requires Positive(pages)
    requires remaining > 0.0 && index + 1 < |pages| ==>
               var left := remaining - Used(pages[index], offset, remaining);
               var rest := Walk(pages, offset, left, index + 1);
               && ReportedWhileViewportLeft(pages, left, rest)
               && (left - Consumed(pages, rest) <= 0.0 || rest[|rest| - 1].index == |pages| - 1)
    ensures var es := Walk(pages, offset, remaining, index);
            && ReportedWhileViewportLeft(pages, remaining, es)
            && (remaining - Consumed(pages, es) <= 0.0 || es[|es| - 1].index == |pages| - 1)
  {
    var es := Walk(pages, offset, remaining, index);
    if remaining > 0.0 {
      var e := Event(index, VisibilityOf(pages[index], offset, remaining));
      var left := remaining - Used(pages[index], offset, remaining);
      var rest := if index + 1 < |pages| then Walk(pages, offset, left, index + 1) else [];
      WalkStep(pages, offset, remaining, index);
      assert es == [e] + rest;
      StepConsumption(pages, offset, remaining, index, rest);
      if |rest| > 0 {
        assert es[|es| - 1] == rest[|rest| - 1];
      }
    }
  }


  /**
   Started on a page the offset has not passed, on tiled pages, every
   visibility lies in [0, 1], and every page after the first is strictly
   visible.
   */
  lemma {:induction false} WalkInUnit(pages: seq<Page>, offset: real, remaining: real, index: nat)
    requires index < |pages|
    requires Positive(pages)
    requires Tiled(pages)
    requires offset <= pages[index].origin + pages[index].extent
    ensures var es := Walk(pages, offset, remaining, index);
            && (forall k :: 0 <= k < |es| ==> 0.0 <= es[k].visibility <= 1.0)
            && (forall k :: 0 < k < |es| ==> 0.0 < es[k].visibility)
    decreases |pages| - index
  {
    var es := Walk(pages, offset, remaining, index);
    if remaining > 0.0 {
      var v := VisibilityOf(pages[index], offset, remaining);
      var remaining' := remaining - Used(pages[index], offset, remaining);
      WalkStep(pages, offset, remaining, index);
      assert 0.0 <= v <= 1.0;
      if index + 1 < |pages| {
        WalkInUnit(pages, offset, remaining', index + 1);
        var rest := Walk(pages, offset, remaining', index + 1);
        assert es == [Event(index, v)] + rest;
        if |rest| > 0 {
          WalkStep(pages, offset, remaining', index + 1);
          assert pages[index + 1].origin >= offset;
        }
      }
    }
  }

  /**
   Started on a page the offset has not passed, on tiled pages, the length
   the walk accounts for never exceeds the content ahead of the scroll
   position, and is at least the viewport or all of that content, whichever
   is smaller.
   */
  lemma {:induction false} WalkCoverage(pages: seq<Page>, offset: real, remaining: real, index: nat)
    requires index < |pages|
    requires Positive(pages)
    requires Tiled(pages)
    requires offset <= pages[index].origin + pages[index].extent
    ensures var es := Walk(pages, offset, remaining, index);
            var ahead := End(pages) - Max(offset, pages[index].origin);
            Min(remaining, ahead) <= Consumed(pages, es) <= ahead
    decreases |pages| - index
  {
    LeftIsUnconsumed(pages, offset, remaining, index);
    LeftCoverage(pages, offset, remaining, index);
  }

  /**
   The viewport length the walk leaves unused when it stops: what remains
   after each page's `Used` length is taken off in turn.
   */
  function Left(pages: seq<Page>, offset: real, remaining: real, index: nat): real
    requires index < |pages|
    requires Positive(pages)
    decreases |pages| - index
  {
    if remaining <= 0.0 then remaining
    else
      var left := remaining - Used(pages[index], offset, remaining);
      if index + 1 < |pages| then Left(pages, offset, left, index + 1) else left
  }

  /** What the walk leaves unused is the viewport minus the page length times visibility summed over its report. */
  lemma {:induction false} LeftIsUnconsumed(pages: seq<Page>, offset: real, remaining: real, index: nat)
    requires index < |pages|
    requires Positive(pages)
    ensures Left(pages, offset, remaining, index) == remaining - Consumed(pages, Walk(pages, offset, remaining, index))
    decreases |pages| - index
  {
    if remaining <= 0.0 {
      assert Walk(pages, offset, remaining, index) == [];
    } else {
      if index + 1 < |pages| {
        LeftIsUnconsumed(pages, offset, remaining - Used(pages[index], offset, remaining), index + 1);
      }
      WalkConsumedStep(pages, offset, remaining, index);
    }
  }

  /** `WalkCoverage` for the unused length: the walk uses at least the viewport or all content ahead, and no more than that content. */
  lemma {:induction false} LeftCoverage(pages: seq<Page>, offset: real, remaining: real, index: nat)
    requires index < |pages|
    requires Positive(pages)
    requires Tiled(pages)
    requires offset <= pages[index].origin + pages[index].extent
    ensures var ahead := End(pages) - Max(offset, pages[index].origin);
            Min(remaining, ahead) <= remaining - Left(pages, offset, remaining, index) <= ahead
    decreases |pages| - index
  {
    TiledBeforeEnd(pages, index);
    if remaining > 0.0 {
      var used := Used(pages[index], offset, remaining);
      if index + 1 < |pages| {
        var rest := Left(pages, offset, remaining - used, index + 1);
        assert pages[index + 1].origin == pages[index].origin + pages[index].extent;
        TiledBeforeEnd(pages, index + 1);
        LeftCoverage(pages, offset, remaining - used, index + 1);
        CoverageStep(remaining, used, remaining - used - rest, offset, pages[index], End(pages));
      }
    }
  }

  /** One step of the walk uses up the page's `Used` length and then whatever the rest of the walk uses. */
  lemma WalkConsumedStep(pages: seq<Page>, offset: real, remaining: real, index: nat)
    requires index < |pages|
    requires Positive(pages)
    requires remaining > 0.0
    ensures var used := Used(pages[index], offset, remaining);
            Consumed(pages, Walk(pages, offset, remaining, index)) ==
              if index + 1 < |pages| then used + Consumed(pages, Walk(pages, offset, remaining - used, index + 1))
              else used
  {
    var used := Used(pages[index], offset, remaining);
    var e := Event(index, VisibilityOf(pages[index], offset, remaining));
    var rest := if index + 1 < |pages| then Walk(pages, offset, remaining - used, index + 1) else [];
    WalkStep(pages, offset, remaining, index);
    UsedIsExtentTimesVisibility(pages[index], offset, remaining);
    ConsumedFront(pages, e, rest, used);
  }

  /** An event in front of others adds its page length times its visibility. */
  lemma {:induction false} ConsumedFront(pages: seq<Page>, e: Event, rest: seq<Event>, used: real)
    requires e.index < |pages|
    requires pages[e.index].extent * e.visibility == used
    ensures Consumed(pages, [e] + rest) == used + Consumed(pages, rest)
  {
    ConsumedCons(pages, e, rest);
  }

  /**
   The arithmetic of one coverage step: a page followed by a report on the
   pages after it, which covers what it should of the content after them.
   */
  lemma CoverageStep(remaining: real, used: real, restConsumed: real, offset: real, page: Page, end: real)
    requires page.extent > 0.0
    requires remaining > 0.0
    requires offset <= page.origin + page.extent <= end
    requires used == Used(page, offset, remaining)
    requires Min(remaining - used, end - (page.origin + page.extent)) <= restConsumed <= end - (page.origin + page.extent)
    ensures Min(remaining, end - Max(offset, page.origin)) <= used + restConsumed <= end - Max(offset, page.origin)
  {
  }

  /**
   The two walks agree whenever the viewport is used up before the pages run
   out: they differ only when the viewport reaches past the content end.
   */
  lemma {:induction false} WalkAgreesWithAsWritten(pages: seq<Page>, offset: real, remaining: real, index: nat, fuel: nat)
    requires index < |pages|
    requires Positive(pages)
    requires fuel >= |Walk(pages, offset, remaining, index)|
    requires remaining - Consumed(pages, Walk(pages, offset, remaining, index)) <= 0.0
    ensures WalkAsWritten(pages, offset, remaining, index, fuel) == Some(Walk(pages, offset, remaining, index))
    decreases |pages| - index
  {
    LeftIsUnconsumed(pages, offset, remaining, index);
    AgreesWhenNothingLeft(pages, offset, remaining, index, fuel);
  }

  /** `WalkAgreesWithAsWritten`, with the used-up viewport stated through `Left`. */
  lemma {:induction false} AgreesWhenNothingLeft(pages: seq<Page>, offset: real, remaining: real, index: nat, fuel: nat)
    requires index < |pages|
    requires Positive(pages)
    requires fuel >= |Walk(pages, offset, remaining, index)|
    requires Left(pages, offset, remaining, index) <= 0.0
    ensures WalkAsWritten(pages, offset, remaining, index, fuel) == Some(Walk(pages, offset, remaining, index))
    decreases |pages| - index
  {
    if remaining > 0.0 && index + 1 < |pages| {
      WalkStep(pages, offset, remaining, index);
      AgreesWhenNothingLeft(pages, offset, remaining - Used(pages[index], offset, remaining), index + 1, fuel - 1);
      AgreesStep(pages, offset, remaining, index, fuel);
    } else if remaining > 0.0 {
      WalkStep(pages, offset, remaining, index);
      AgreesOnLastPage(pages, offset, remaining, fuel);
    } else {
      assert Walk(pages, offset, remaining, index) == [];
    }
  }

  lemma AgreesStep(pages: seq<Page>, offset: real, remaining: real, index: nat, fuel: nat)
    requires index + 1 < |pages|
    requires Positive(pages)
    requires remaining > 0.0
    requires fuel >= 1
    requires var used := Used(pages[index], offset, remaining);
             WalkAsWritten(pages, offset, remaining - used, index + 1, fuel - 1) == Some(Walk(pages, offset, remaining - used, index + 1))
    ensures WalkAsWritten(pages, offset, remaining, index, fuel) == Some(Walk(pages, offset, remaining, index))
  {
    WalkStep(pages, offset, remaining, index);
    WalkAsWrittenStep(pages, offset, remaining, index, fuel);
  }

  lemma AgreesOnLastPage(pages: seq<Page>, offset: real, remaining: real, fuel: nat)
    requires |pages| > 0
    requires Positive(pages)
    requires remaining > 0.0
    requires fuel >= 1
    requires remaining - Used(pages[|pages| - 1], offset, remaining) <= 0.0
    ensures WalkAsWritten(pages, offset, remaining, |pages| - 1, fuel) == Some(Walk(pages, offset, remaining, |pages| - 1))
  {
    var index := |pages| - 1;
    var used := Used(pages[index], offset, remaining);
    var e := Event(index, VisibilityOf(pages[index], offset, remaining));
    assert Walk(pages, offset, remaining, index) == [e] by { WalkStep(pages, offset, remaining, index); }
    assert WalkAsWritten(pages, offset, remaining - used, index, fuel - 1) == Some([]);
    WalkAsWrittenStep(pages, offset, remaining, index, fuel);
    assert [e] + [] == [e];
  }

  /**
   One scroll report on tiled pages: it starts at the first visible page,
   names consecutive pages, reports visibilities in [0, 1] (strictly
   positive after the first page), and accounts for at least the viewport or
   all content ahead of the scroll position, never more than that content.
   */
  lemma {:induction false} ScrollEventsWellFormed(pages: seq<Page>, offset: real, viewport: real)
    requires Positive(pages)
    requires Tiled(pages)
    ensures var es := ScrollEvents(pages, offset, viewport);
            && (es != [] ==> FirstVisible(pages, offset) == Some(es[0].index))
            && (forall k :: 0 < k < |es| ==> es[k].index == es[k - 1].index + 1)
            && (forall k :: 0 <= k < |es| ==> 0.0 <= es[k].visibility <= 1.0)
            && (forall k :: 0 < k < |es| ==> 0.0 < es[k].visibility)
    ensures FirstVisible(pages, offset).Some? ==>
              var first := FirstVisible(pages, offset).value;
              var ahead := End(pages) - Max(offset, pages[first].origin);
              Min(viewport, ahead) <= Consumed(pages, ScrollEvents(pages, offset, viewport)) <= ahead
  {
    match FirstVisible(pages, offset)
    case None =>
    case Some(first) =>
      assert offset <= pages[first].origin + pages[first].extent by {
        FirstVisibleIsFirstTrailingEdgeAtOffset(pages, offset);
      }
      WalkInUnit(pages, offset, viewport, first);
      WalkCoverage(pages, offset, viewport, first);
  }

  /**
   Offset exactly at the content end: the last page is the first visible
   one, its visibility is 0, nothing is used up, and the source's loop stays
   on it for ever, whatever the fuel.
   */
  lemma {:induction false} StuckOnLastPage(pages: seq<Page>, remaining: real, fuel: nat)
    requires |pages| > 0
    requires Positive(pages)
    requires remaining > 0.0
    ensures VisibilityOf(pages[|pages| - 1], End(pages), remaining) == 0.0
    ensures Used(pages[|pages| - 1], End(pages), remaining) == 0.0
    ensures WalkAsWritten(pages, End(pages), remaining, |pages| - 1, fuel).None?
    decreases fuel
  {
    if fuel > 0 {
      StuckOnLastPage(pages, remaining, fuel - 1);
      StuckStep(pages, remaining, fuel);
    }
  }

  /** The step of `StuckOnLastPage`: at the content end the last page uses up nothing, so the loop repeats unchanged. */
  lemma StuckStep(pages: seq<Page>, remaining: real, fuel: nat)
    requires |pages| > 0
    requires Positive(pages)
    requires remaining > 0.0
    requires fuel > 0
    requires WalkAsWritten(pages, End(pages), remaining, |pages| - 1, fuel - 1).None?
    ensures WalkAsWritten(pages, End(pages), remaining, |pages| - 1, fuel).None?
  {
    var last := |pages| - 1;
    assert Used(pages[last], End(pages), remaining) == 0.0;
    assert remaining - Used(pages[last], End(pages), remaining) == remaining;
    WalkAsWrittenStep(pages, End(pages), remaining, last, fuel);
  }

  /**
   The source's report never finishes when the offset is exactly at the
   content end of tiled pages and the viewport is not empty, while the walk
   that stops after the last page reports that page once, with visibility 0.
   */
  lemma NeverEndsAtContentEnd(pages: seq<Page>, viewport: real, fuel: nat)
    requires |pages| > 0
    requires Positive(pages)
    requires Tiled(pages)
    requires viewport > 0.0
    ensures ScrollEventsAsWritten(pages, End(pages), viewport, fuel).None?
    ensures ScrollEvents(pages, End(pages), viewport) == [Event(|pages| - 1, 0.0)]
  {
    var last := |pages| - 1;
    var end := End(pages);
    forall j | 0 <= j < last
      ensures pages[j].origin + pages[j].extent < end
    {
      TiledBeforeEnd(pages, j + 1);
    }
    FirstVisibleIsFirstTrailingEdgeAtOffset(pages, end);
    assert FirstVisible(pages, end) == Some(last);
    StuckOnLastPage(pages, viewport, fuel);
    WalkStep(pages, end, viewport, last);
  }

  /**
   One page shorter than the viewport: the source reports the same page
   three times, the last time as only half visible, where the walk that
   stops after the last page reports it once, fully visible.
   */
  lemma LastPageReemitted()
    ensures ScrollEventsAsWritten([Page(0.0, 100.0)], 0.0, 250.0, 3)
            == Some([Event(0, 1.0), Event(0, 1.0), Event(0, 0.5)])
  {
    OnePageFirstVisible();
    ReemitFirst();
  }

  /** The same page, offset and viewport: the corrected report names the page once, fully visible. */
  lemma LastPageReportedOnce()
    ensures ScrollEvents([Page(0.0, 100.0)], 0.0, 250.0) == [Event(0, 1.0)]
  {
    var pages := [Page(0.0, 100.0)];
    OnePageFirstVisible();
    assert VisibilityOf(pages[0], 0.0, 250.0) == 1.0;
    WalkStep(pages, 0.0, 250.0, 0);
  }

  lemma OnePageFirstVisible()
    ensures FirstVisible([Page(0.0, 100.0)], 0.0) == Some(0)
  {
    assert Extents([Page(0.0, 100.0)]) == [100.0];
  }

  lemma ReemitFirst()
    ensures WalkAsWritten([Page(0.0, 100.0)], 0.0, 250.0, 0, 3) == Some([Event(0, 1.0), Event(0, 1.0), Event(0, 0.5)])
  {
    var pages := [Page(0.0, 100.0)];
    ReemitSecond();
    assert VisibilityOf(pages[0], 0.0, 250.0) == 1.0 && Used(pages[0], 0.0, 250.0) == 100.0;
    WalkAsWrittenStep(pages, 0.0, 250.0, 0, 3);
    assert [Event(0, 1.0)] + [Event(0, 1.0), Event(0, 0.5)] == [Event(0, 1.0), Event(0, 1.0), Event(0, 0.5)];
  }

  lemma ReemitSecond()
    ensures WalkAsWritten([Page(0.0, 100.0)], 0.0, 150.0, 0, 2) == Some([Event(0, 1.0), Event(0, 0.5)])
  {
    var pages := [Page(0.0, 100.0)];
    ReemitThird();
    assert VisibilityOf(pages[0], 0.0, 150.0) == 1.0 && Used(pages[0], 0.0, 150.0) == 100.0;
    WalkAsWrittenStep(pages, 0.0, 150.0, 0, 2);
    assert [Event(0, 1.0)] + [Event(0, 0.5)] == [Event(0, 1.0), Event(0, 0.5)];
  }

  lemma ReemitThird()
    ensures WalkAsWritten([Page(0.0, 100.0)], 0.0, 50.0, 0, 1) == Some([Event(0, 0.5)])
  {
    var pages := [Page(0.0, 100.0)];
    assert VisibilityOf(pages[0], 0.0, 50.0) == 0.5 && Used(pages[0], 0.0, 50.0) == 50.0;
    assert WalkAsWritten(pages, 0.0, 0.0, 0, 0) == Some([]);
    WalkAsWrittenStep(pages, 0.0, 50.0, 0, 1);
    assert [Event(0, 0.5)] + [] == [Event(0, 0.5)];
  }

  /**
   Three pages 200 long, offset 250, viewport 200: page 1 is three quarters
   visible and page 2 one quarter.
   */
  lemma ThreePagesPartlyScrolled()
    ensures ScrollEvents([Page(0.0, 200.0), Page(200.0, 200.0), Page(400.0, 200.0)], 250.0, 200.0)
            == [Event(1, 0.75), Event(2, 0.25)]
  {
    var pages := [Page(0.0, 200.0), Page(200.0, 200.0), Page(400.0, 200.0)];
    assert FirstVisible(pages, 250.0) == Some(1) by {
      FirstVisibleIsFirstTrailingEdgeAtOffset(pages, 250.0);
    }
    WalkStep(pages, 250.0, 200.0, 1);
    WalkStep(pages, 250.0, 50.0, 2);
  }
}
