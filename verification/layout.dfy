/**
 The layout pass run when a data source is attached: pages are placed end to
 end along the scroll axis at cross-axis origin 0, each with exactly the size
 the data source supplies, and the content size is derived from the totals.
 */
module PageLayout {
  import opened Geometry

  /** What the data source reports: the scroll direction and one size per page. */
  datatype DataSource = DataSource(direction: Direction, sizes: seq<Size>)

  /**
   The laid-out pages. `contentSize` is `None` when there are no pages: the
   source then divides 0 by 0 for the cross axis, which is not modelled.
   */
  datatype Layout = Layout(isVertical: bool, frames: seq<Frame>, contentSize: Option<Size>)

  /** Frames and the running totals after the layout loop has run from some index on. */
  datatype Placement = Placement(frames: seq<Frame>, totalWidth: real, totalHeight: real)

  function PrimaryOf(s: Size, vertical: bool): real { if vertical then s.height else s.width }

  function CrossOf(s: Size, vertical: bool): real { if vertical then s.width else s.height }

  function Widths(sizes: seq<Size>): seq<real>
  {
    seq(|sizes|, i requires 0 <= i < |sizes| => sizes[i].width)
  }

  function Heights(sizes: seq<Size>): seq<real>
  {
    seq(|sizes|, i requires 0 <= i < |sizes| => sizes[i].height)
  }

  function Primaries(sizes: seq<Size>, vertical: bool): seq<real>
  {
    if vertical then Heights(sizes) else Widths(sizes)
  }

  function Crosses(sizes: seq<Size>, vertical: bool): seq<real>
  {
    if vertical then Widths(sizes) else Heights(sizes)
  }

  /** A frame seen along the scroll axis. */
  function PageOf(f: Frame, vertical: bool): Page
  {
    if vertical then Page(f.y, f.height) else Page(f.x, f.width)
  }

  /** The pages of a layout, projected onto its scroll axis. */
  function Pages(l: Layout): seq<Page>
  {
    seq(|l.frames|, i requires 0 <= i < |l.frames| => PageOf(l.frames[i], l.isVertical))
  }

  /**
   The body of the layout loop from index `idx` on, with `totalWidth` and
   `totalHeight` accumulated so far: each page goes at the running total of
   the scroll-axis lengths before it, at 0 on the cross axis.
   */
  function Place(sizes: seq<Size>, vertical: bool, idx: nat, totalWidth: real, totalHeight: real): (p: Placement)
    requires idx <= |sizes|
    ensures |p.frames| == |sizes| - idx
    ensures p.totalWidth == totalWidth + Sum(Widths(sizes)[idx..])
    ensures p.totalHeight == totalHeight + Sum(Heights(sizes)[idx..])
    ensures forall k :: 0 <= k < |p.frames| ==>
              p.frames[k] == Frame(if vertical then 0.0 else totalWidth + Sum(Widths(sizes)[idx..idx + k]),
                                   if vertical then totalHeight + Sum(Heights(sizes)[idx..idx + k]) else 0.0,
                                   sizes[idx + k].width, sizes[idx + k].height)
    decreases |sizes| - idx
  {
    if idx == |sizes| then
      Placement([], totalWidth, totalHeight)
    else
      var size := sizes[idx];
      var frame := Frame(if vertical then 0.0 else totalWidth, if vertical then totalHeight else 0.0,
                         size.width, size.height);
      var rest := Place(sizes, vertical, idx + 1, totalWidth + size.width, totalHeight + size.height);
      SumFrontAll(Widths(sizes), idx);
      SumFrontAll(Heights(sizes), idx);
      Placement([frame] + rest.frames, rest.totalWidth, rest.totalHeight)
  }

  /**
   Attaching a data source: exactly one frame per supplied size (earlier pages
   are discarded), page i's leading edge at the total scroll-axis length of
   pages 0..i-1, cross-axis origin 0. The content is as long as all pages
   together on the scroll axis and as wide as their average on the cross axis.
   */
  function Configure(ds: DataSource): (l: Layout)
    ensures l.isVertical == ds.direction.Vertical?
    ensures |l.frames| == |ds.sizes|
    ensures forall i :: 0 <= i < |l.frames| ==>
              && l.frames[i].width == ds.sizes[i].width
              && l.frames[i].height == ds.sizes[i].height
              && PageOf(l.frames[i], l.isVertical).origin == Sum(Primaries(ds.sizes, l.isVertical)[..i])
              && (if l.isVertical then l.frames[i].x else l.frames[i].y) == 0.0
    ensures l.contentSize.None? <==> |ds.sizes| == 0
    ensures l.contentSize.Some? ==>
              && PrimaryOf(l.contentSize.value, l.isVertical) == Sum(Primaries(ds.sizes, l.isVertical))
              && CrossOf(l.contentSize.value, l.isVertical) * (|ds.sizes| as real) == Sum(Crosses(ds.sizes, l.isVertical))
  {
    var vertical := ds.direction.Vertical?;
    var n := |ds.sizes|;
    var p := Place(ds.sizes, vertical, 0, 0.0, 0.0);
    assert Widths(ds.sizes)[0..] == Widths(ds.sizes);
    assert Heights(ds.sizes)[0..] == Heights(ds.sizes);
    assert forall k :: 0 <= k <= n ==> Widths(ds.sizes)[0..k] == Widths(ds.sizes)[..k];
    assert forall k :: 0 <= k <= n ==> Heights(ds.sizes)[0..k] == Heights(ds.sizes)[..k];
    var content :=
      if n == 0 then None
      else Some(Size(if vertical then p.totalWidth / (n as real) else p.totalWidth,
                     if !vertical then p.totalHeight / (n as real) else p.totalHeight));
    Layout(vertical, p.frames, content)
  }

  /** A configured page, seen along the scroll axis: at the total length before it, with its supplied length. */
  lemma ConfiguredPage(ds: DataSource, i: nat)
    requires i < |ds.sizes|
    ensures |Pages(Configure(ds))| == |ds.sizes|
    ensures Pages(Configure(ds))[i] ==
              Page(Sum(Primaries(ds.sizes, ds.direction.Vertical?)[..i]), Primaries(ds.sizes, ds.direction.Vertical?)[i])
  {
  }

  /** The configured pages tile the scroll axis and have the supplied lengths. */
  lemma ConfiguredPagesTile(ds: DataSource)
    ensures Tiled(Pages(Configure(ds)))
    ensures Extents(Pages(Configure(ds))) == Primaries(ds.sizes, ds.direction.Vertical?)
  {
    var pages := Pages(Configure(ds));
    var ps := Primaries(ds.sizes, ds.direction.Vertical?);
    forall i | 0 <= i < |pages|
      ensures pages[i] == Page(Sum(ps[..i]), ps[i])
    {
      ConfiguredPage(ds, i);
    }
    PrefixSumsTile(pages, ps);
  }

  /** With at least one page, the content ends exactly at the last page's trailing edge. */
  lemma ContentEndsAtLastPage(ds: DataSource)
    requires |ds.sizes| > 0
    ensures Configure(ds).contentSize.Some?
    ensures PrimaryOf(Configure(ds).contentSize.value, ds.direction.Vertical?) == End(Pages(Configure(ds)))
  {
    ConfiguredPagesTile(ds);
    TiledEnd(Pages(Configure(ds)));
  }
}
