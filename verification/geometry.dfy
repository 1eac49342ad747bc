/**
 Shared vocabulary of the paging scroll view: sizes, frames, the projection
 of a frame onto the scroll axis, and sums of lengths along that axis.
 Lengths are `real`; the platform's floating point is not modelled.
 */
module Geometry {

  datatype Option<T> = None | Some(value: T)

  /** The axis along which pages are laid end to end. */
  datatype Direction = Vertical | Horizontal

  datatype Size = Size(width: real, height: real)

  /** A rectangle placed in the scroll view's content coordinates. */
  datatype Frame = Frame(x: real, y: real, width: real, height: real)

  /** A page seen along the scroll axis only: its leading edge and its length. */
  datatype Page = Page(origin: real, extent: real)

  function Min(a: real, b: real): real { if a <= b then a else b }

  function Max(a: real, b: real): real { if a <= b then b else a }

  /** Sum of a sequence of lengths, first element first. */
  function Sum(xs: seq<real>): real
  {
    if |xs| == 0 then 0.0 else xs[0] + Sum(xs[1..])
  }

  function Extents(pages: seq<Page>): seq<real>
  {
    seq(|pages|, i requires 0 <= i < |pages| => pages[i].extent)
  }

  predicate NonNegative(xs: seq<real>)
  {
    forall i :: 0 <= i < |xs| ==> xs[i] >= 0.0
  }

  /** Every page has a strictly positive length along the scroll axis. */
  predicate Positive(pages: seq<Page>)
  {
    forall i :: 0 <= i < |pages| ==> pages[i].extent > 0.0
  }

  /** Pages start at 0 and follow each other with neither gap nor overlap. */
  predicate Tiled(pages: seq<Page>)
  {
    && (|pages| > 0 ==> pages[0].origin == 0.0)
    && forall i :: 0 <= i < |pages| - 1 ==> pages[i + 1].origin == pages[i].origin + pages[i].extent
  }

  /** Trailing edge of the last page: the end of the content. */
  function End(pages: seq<Page>): real
    requires |pages| > 0
  {
    pages[|pages| - 1].origin + pages[|pages| - 1].extent
  }

  lemma {:induction false} SumAppend(xs: seq<real>, ys: seq<real>)
    ensures Sum(xs + ys) == Sum(xs) + Sum(ys)
  {
    if |xs| == 0 {
      assert xs + ys == ys;
    } else {
      assert (xs + ys)[1..] == xs[1..] + ys;
      SumAppend(xs[1..], ys);
    }
  }

  /** Adding one more length to a prefix adds exactly that length. */
  lemma SumSnoc(xs: seq<real>, i: nat)
    requires i < |xs|
    ensures Sum(xs[..i + 1]) == Sum(xs[..i]) + xs[i]
  {
    assert xs[..i + 1] == xs[..i] + [xs[i]];
    SumAppend(xs[..i], [xs[i]]);
    assert Sum([xs[i]]) == xs[i] + Sum([xs[i]][1..]);
  }

  /** Splitting off the first length of a slice. */
  lemma SumFront(xs: seq<real>, lo: nat, hi: nat)
    requires lo < hi <= |xs|
    ensures Sum(xs[lo..hi]) == xs[lo] + Sum(xs[lo + 1..hi])
  {
    assert xs[lo..hi][1..] == xs[lo + 1..hi];
  }

  /** `SumFront` for every end of the slice, including the end of the sequence. */
  lemma SumFrontAll(xs: seq<real>, lo: nat)
    requires lo < |xs|
    ensures Sum(xs[lo..]) == xs[lo] + Sum(xs[lo + 1..])
    ensures forall hi :: lo < hi <= |xs| ==> Sum(xs[lo..hi]) == xs[lo] + Sum(xs[lo + 1..hi])
  {
    forall hi | lo < hi <= |xs|
      ensures Sum(xs[lo..hi]) == xs[lo] + Sum(xs[lo + 1..hi])
    {
      SumFront(xs, lo, hi);
    }
    assert xs[lo..] == xs[lo..|xs|];
    assert xs[lo + 1..] == xs[lo + 1..|xs|];
  }

  lemma {:induction false} SumNonNegative(xs: seq<real>)
    requires NonNegative(xs)
    ensures Sum(xs) >= 0.0
  {
    if |xs| > 0 {
      SumNonNegative(xs[1..]);
    }
  }

  /** With non-negative lengths, a longer prefix never sums to less. */
  lemma PrefixSumMonotone(xs: seq<real>, i: nat, j: nat)
    requires NonNegative(xs)
    requires i <= j <= |xs|
    ensures Sum(xs[..i]) <= Sum(xs[..j])
  {
    assert xs[..j] == xs[..i] + xs[i..j];
    SumAppend(xs[..i], xs[i..j]);
    SumNonNegative(xs[i..j]);
  }

  /** In a tiled sequence, a page's leading edge is the total length of the pages before it. */
  lemma {:induction false} TiledOrigin(pages: seq<Page>, i: nat)
    requires Tiled(pages)
    requires i < |pages|
    ensures pages[i].origin == Sum(Extents(pages)[..i])
  {
    if i > 0 {
      TiledOrigin(pages, i - 1);
      SumSnoc(Extents(pages), i - 1);
    }
  }

  /** In a tiled sequence, the content ends where the total length of all pages says. */
  lemma TiledEnd(pages: seq<Page>)
    requires Tiled(pages)
    requires |pages| > 0
    ensures End(pages) == Sum(Extents(pages))
  {
    var n := |pages|;
    TiledOrigin(pages, n - 1);
    SumSnoc(Extents(pages), n - 1);
    assert Extents(pages)[..n] == Extents(pages);
  }

  /** A page's trailing edge never lies past the end of tiled content. */
  lemma TiledBeforeEnd(pages: seq<Page>, i: nat)
    requires Tiled(pages)
    requires Positive(pages)
    requires i < |pages|
    ensures pages[i].origin + pages[i].extent <= End(pages)
  {
    var ext := Extents(pages);
    TiledOrigin(pages, i);
    SumSnoc(ext, i);
    PrefixSumMonotone(ext, i + 1, |pages|);
    assert ext[..|pages|] == ext;
    TiledEnd(pages);
  }

  /** Pages placed at the running totals of a sequence of lengths, with those lengths, tile the axis. */
  lemma PrefixSumsTile(pages: seq<Page>, lengths: seq<real>)
    requires |pages| == |lengths|
    requires forall i :: 0 <= i < |pages| ==> pages[i] == Page(Sum(lengths[..i]), lengths[i])
    ensures Tiled(pages)
    ensures Extents(pages) == lengths
  {
    forall i | 0 <= i < |pages| - 1
      ensures pages[i + 1].origin == pages[i].origin + pages[i].extent
    {
      SumSnoc(lengths, i);
    }
  }
}
