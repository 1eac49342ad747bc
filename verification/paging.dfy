/**
 The paging scroll view as a state machine: attaching a data source lays
 the pages out, every scroll reports how much of each page the viewport
 shows, and every end of scrolling reports the page the view settled on,
 unless it is the page reported last.
 The platform's scroll offset and viewport length along the scroll axis
 are parameters; the delegate is reduced to which of its two optional
 callbacks it implements.
 */
module Paging {
  import opened Geometry
  import opened PageLayout
  import opened Tracker
  import opened VisibilityReport

  /** The paging delegate: whether it implements each of its two optional callbacks. */
  datatype Listener = Listener(displaysPages: bool, tracksScrolling: bool)

  datatype ScrollView = ScrollView(
    layout: Layout,
    lastSelectedPage: nat,
    lastContentOffset: real,
    delegate: Option<Listener>)

  /** The outcome of an end of scrolling: the new state and the page reported as displayed, if any. */
  datatype Settled = Settled(view: ScrollView, displayed: Option<nat>)

  /** The outcome of a scroll: the new state and the visibility report sent to the delegate. */
  datatype Scrolled = Scrolled(view: ScrollView, report: seq<Event>)

  /** Every length the data source supplies along its scroll axis is positive. */
  predicate PositiveSizes(ds: DataSource)
  {
    forall i :: 0 <= i < |ds.sizes| ==> PrimaryOf(ds.sizes[i], ds.direction.Vertical?) > 0.0
  }

  /** The state every reachable view is in: its pages tile the scroll axis. */
  predicate Valid(v: ScrollView)
  {
    Tiled(Pages(v.layout))
  }

  /**
   A fresh view: vertical, no pages, and page 0 counted as the page last
   reported, so nothing is ever selected until a data source is attached.
   */
  function Init(delegate: Option<Listener>): (v: ScrollView)
    ensures Valid(v) && Positive(Pages(v.layout))
    ensures v.lastSelectedPage == 0 && v.delegate == delegate
    ensures forall offset :: Selected(Pages(v.layout), offset).None? && FirstVisible(Pages(v.layout), offset).None?
  {
    ScrollView(Layout(true, [], Some(Size(0.0, 0.0))), 0, 0.0, delegate)
  }

  /**
   Setting the data source: clearing it changes nothing; attaching one lays
   out exactly one page per supplied size, tiled along the scroll axis,
   and keeps the page last reported.
   */
  function SetDataSource(v: ScrollView, ds: Option<DataSource>): (w: ScrollView)
    ensures ds.None? ==> w == v
    ensures ds.Some? ==>
              && w.layout == Configure(ds.value)
              && |Pages(w.layout)| == |ds.value.sizes|
              && Valid(w)
              && Extents(Pages(w.layout)) == Primaries(ds.value.sizes, ds.value.direction.Vertical?)
    ensures ds.Some? && PositiveSizes(ds.value) ==> Positive(Pages(w.layout))
    ensures w.lastSelectedPage == v.lastSelectedPage && w.lastContentOffset == v.lastContentOffset
    ensures w.delegate == v.delegate
  {
    match ds
    case None => v
    case Some(source) =>
      ConfiguredPagesTile(source);
      var w := v.(layout := Configure(source));
      assert forall i :: 0 <= i < |Pages(w.layout)| ==> Pages(w.layout)[i].extent == Extents(Pages(w.layout))[i];
      w
  }

  /**
   The end-of-scroll check. With a delegate and a selected page different
   from the page last reported, that page becomes the page last reported,
   and it is reported to the delegate if the delegate takes such reports.
   Otherwise nothing happens.
   */
  function StopScrolling(v: ScrollView, offset: real): (s: Settled)
    ensures s.view.layout == v.layout && s.view.delegate == v.delegate
    ensures s.view.lastContentOffset == v.lastContentOffset
    ensures s.displayed.Some? <==>
              && v.delegate.Some? && v.delegate.value.displaysPages
              && Selected(Pages(v.layout), offset).Some?
              && Selected(Pages(v.layout), offset).value != v.lastSelectedPage
    ensures s.displayed.Some? ==> Selected(Pages(v.layout), offset) == s.displayed
    ensures s.view.lastSelectedPage ==
              if v.delegate.Some? && Selected(Pages(v.layout), offset).Some?
              then Selected(Pages(v.layout), offset).value
              else v.lastSelectedPage
  {
    match v.delegate
    case None => Settled(v, None)
    case Some(listener) =>
      match Selected(Pages(v.layout), offset)
      case None => Settled(v, None)
      case Some(index) =>
        if index == v.lastSelectedPage then Settled(v, None)
        else Settled(v.(lastSelectedPage := index), if listener.displaysPages then Some(index) else None)
  }

  /** Deceleration finished: always the end-of-scroll check. */
  function EndDecelerating(v: ScrollView, offset: real): (s: Settled)
    ensures s == StopScrolling(v, offset)
  {
    StopScrolling(v, offset)
  }

  /** A programmatic scroll animation finished: always the end-of-scroll check. */
  function EndScrollingAnimation(v: ScrollView, offset: real): (s: Settled)
    ensures s == StopScrolling(v, offset)
  {
    StopScrolling(v, offset)
  }

  /**
   The user lifted the finger: the end-of-scroll check only when the view
   will not go on decelerating; otherwise nothing happens.
   */
  function EndDragging(v: ScrollView, offset: real, decelerate: bool): (s: Settled)
    ensures decelerate ==> s == Settled(v, None)
    ensures !decelerate ==> s == StopScrolling(v, offset)
  {
    if decelerate then Settled(v, None) else StopScrolling(v, offset)
  }

  /** Whether the view reports scrolls: a delegate that implements the visibility callback. */
  predicate Listening(v: ScrollView)
  {
    v.delegate.Some? && v.delegate.value.tracksScrolling
  }

  /**
   A scroll. Without a delegate taking visibility reports nothing happens,
   not even the offset is recorded; otherwise the offset is recorded and
   the pages in view are reported, starting at the first visible page.
   */
  function DidScroll(v: ScrollView, offset: real, viewport: real): (r: Scrolled)
    requires Positive(Pages(v.layout))
    ensures !Listening(v) ==> r == Scrolled(v, [])
    ensures Listening(v) ==> r.view == v.(lastContentOffset := offset)
    ensures Listening(v) ==> r.report == ScrollEvents(Pages(v.layout), offset, viewport)
    ensures r.report != [] ==> FirstVisible(Pages(v.layout), offset) == Some(r.report[0].index)
    ensures forall k :: 0 <= k < |r.report| ==> r.report[k].index < |v.layout.frames|
  {
    if Listening(v) then
      var report := ScrollEvents(Pages(v.layout), offset, viewport);
      assert report != [] ==> FirstVisible(Pages(v.layout), offset) == Some(report[0].index);
      Scrolled(v.(lastContentOffset := offset), report)
    else Scrolled(v, [])
  }

  /**
   On a valid view, the page reported at the end of a scroll is the first
   page whose leading edge is at or past the offset.
   */
  lemma SettleReportsLeadingPage(v: ScrollView, offset: real)
    requires Valid(v)
    ensures var s := StopScrolling(v, offset);
            var pages := Pages(v.layout);
            s.displayed.Some? ==>
              var i := s.displayed.value;
              && i < |pages| && offset <= pages[i].origin
              && (forall j :: 0 <= j < i ==> pages[j].origin < offset)
              && i != v.lastSelectedPage
  {
    SelectedIsFirstLeadingEdgeAtOffset(Pages(v.layout), offset);
  }

  /** Ending a scroll twice at the same offset reports nothing the second time and changes nothing. */
  lemma SettleIsIdempotent(v: ScrollView, offset: real)
    ensures var s := StopScrolling(v, offset);
            StopScrolling(s.view, offset) == Settled(s.view, None)
  {
  }

  /**
   Because page 0 counts as reported from the start, settling on the first
   page right after the first data source is attached reports nothing, while
   returning to it after settling on another page reports it.
   */
  lemma FirstPageSilentUntilLeft(delegate: Option<Listener>, ds: DataSource, offset: real, away: real)
    requires |ds.sizes| > 0
    requires offset <= 0.0
    ensures StopScrolling(SetDataSource(Init(delegate), Some(ds)), offset).displayed.None?
    ensures var v := SetDataSource(Init(delegate), Some(ds));
            var left := StopScrolling(v, away);
            delegate.Some? && delegate.value.displaysPages && left.displayed.Some? ==>
              left.displayed.value != 0 && StopScrolling(left.view, offset).displayed == Some(0)
  {
    var v := SetDataSource(Init(delegate), Some(ds));
    assert Reached(Extents(Pages(v.layout)), offset, true, 0);
  }

  /**
   A drag that ends with deceleration settles exactly once, when the
   deceleration ends, as a drag that ends without it does at once; an
   animated scroll settles the same way.
   */
  lemma SettleTriggersAgree(v: ScrollView, offset: real)
    ensures EndDecelerating(EndDragging(v, offset, true).view, offset) == EndDragging(v, offset, false)
    ensures EndScrollingAnimation(v, offset) == EndDragging(v, offset, false)
    ensures EndDragging(v, offset, true).displayed.None?
  {
  }

  /**
   Scrolling never changes which page is reported at the end of scrolling:
   only the recorded offset changes.
   */
  lemma ScrollDoesNotAffectSettle(v: ScrollView, offset: real, viewport: real, settleAt: real)
    requires Positive(Pages(v.layout))
    ensures StopScrolling(DidScroll(v, offset, viewport).view, settleAt).displayed
            == StopScrolling(v, settleAt).displayed
    ensures StopScrolling(DidScroll(v, offset, viewport).view, settleAt).view.lastSelectedPage
            == StopScrolling(v, settleAt).view.lastSelectedPage
  {
  }

  /**
   On a valid view with positive page lengths, a scroll report names
   consecutive pages from the first visible one with visibilities in [0, 1],
   positive after the first, and accounts for the viewport or for all the
   content ahead, whichever is shorter, but never for more than that content.
   */
  lemma DidScrollReportWellFormed(v: ScrollView, offset: real, viewport: real)
    requires Valid(v)
    requires Positive(Pages(v.layout))
    requires Listening(v)
    ensures var es := DidScroll(v, offset, viewport).report;
            var pages := Pages(v.layout);
            && (forall k :: 0 < k < |es| ==> es[k].index == es[k - 1].index + 1)
            && (forall k :: 0 <= k < |es| ==> 0.0 <= es[k].visibility <= 1.0)
            && (forall k :: 0 < k < |es| ==> 0.0 < es[k].visibility)
            && (es != [] ==>
                  var ahead := End(pages) - Max(offset, pages[es[0].index].origin);
                  Min(viewport, ahead) <= Consumed(pages, es) <= ahead)
  {
    ScrollEventsWellFormed(Pages(v.layout), offset, viewport);
  }

  /** What the platform and the host do to the view, one call at a time. */
  datatype Action =
    | DataSourceSet(source: Option<DataSource>)
    | ScrolledTo(offset: real, viewport: real)
    | DecelerationEnded(offset: real)
    | AnimationEnded(offset: real)
    | DraggingEnded(offset: real, decelerate: bool)

  /** Data sources attached during a session supply positive lengths. */
  predicate Admissible(a: Action)
  {
    a.DataSourceSet? && a.source.Some? ==> PositiveSizes(a.source.value)
  }

  /** The effect of one action: the new state, the page reported displayed, the visibility report. */
  datatype Outcome = Outcome(view: ScrollView, displayed: Option<nat>, report: seq<Event>)

  /** The page reports one action can make under a delegate that takes them. */
  function Apply(v: ScrollView, a: Action): (o: Outcome)
    requires Positive(Pages(v.layout))
    requires Admissible(a)
    ensures Positive(Pages(o.view.layout))
    ensures Valid(v) ==> Valid(o.view)
    ensures o.view.delegate == v.delegate
    ensures o.displayed.Some? ==> o.displayed.value != v.lastSelectedPage && o.view.lastSelectedPage == o.displayed.value
    ensures v.delegate.Some? && v.delegate.value.displaysPages && o.view.lastSelectedPage != v.lastSelectedPage ==>
              o.displayed == Some(o.view.lastSelectedPage)
  {
    match a
    case DataSourceSet(source) => Outcome(SetDataSource(v, source), None, [])
    case ScrolledTo(offset, viewport) =>
      var r := DidScroll(v, offset, viewport);
      Outcome(r.view, None, r.report)
    case DecelerationEnded(offset) =>
      var s := EndDecelerating(v, offset);
      Outcome(s.view, s.displayed, [])
    case AnimationEnded(offset) =>
      var s := EndScrollingAnimation(v, offset);
      Outcome(s.view, s.displayed, [])
    case DraggingEnded(offset, decelerate) =>
      var s := EndDragging(v, offset, decelerate);
      Outcome(s.view, s.displayed, [])
  }

  /** A whole session: the final state, every page reported displayed, and every visibility report, in order. */
  datatype Session = Session(view: ScrollView, displayed: seq<nat>, reports: seq<seq<Event>>)

  function Run(v: ScrollView, actions: seq<Action>): (t: Session)
    requires Positive(Pages(v.layout))
    requires forall i :: 0 <= i < |actions| ==> Admissible(actions[i])
    ensures Positive(Pages(t.view.layout))
    ensures Valid(v) ==> Valid(t.view)
    ensures t.view.delegate == v.delegate
    ensures |t.reports| == |actions|
    decreases |actions|
  {
    if |actions| == 0 then Session(v, [], [])
    else
      var o := Apply(v, actions[0]);
      var rest := Run(o.view, actions[1..]);
      var shown := if o.displayed.Some? then [o.displayed.value] else [];
      Session(rest.view, shown + rest.displayed, [o.report] + rest.reports)
  }

  /**
   Under a delegate that takes page reports, a session never reports the
   same page twice in a row, its first report is not the page last reported
   before it, and afterwards the page last reported is the last one it
   reported.
   */
  lemma {:induction false} RunNeverRepeatsDisplay(v: ScrollView, actions: seq<Action>)
    requires Positive(Pages(v.layout))
    requires forall i :: 0 <= i < |actions| ==> Admissible(actions[i])
    requires v.delegate.Some? && v.delegate.value.displaysPages
    ensures var d := Run(v, actions).displayed;
            && (forall k :: 0 < k < |d| ==> d[k] != d[k - 1])
            && (d != [] ==> d[0] != v.lastSelectedPage)
            && Run(v, actions).view.lastSelectedPage == if d == [] then v.lastSelectedPage else d[|d| - 1]
    decreases |actions|
  {
    if |actions| > 0 {
      var o := Apply(v, actions[0]);
      RunNeverRepeatsDisplay(o.view, actions[1..]);
    }
  }
}
