/**
 The compositing rule and the raster loop shared by every blit.

 A blit visits the pixels of its (already clipped) drawing region in raster order.
 For each one it either fetches a source index or skips the pixel. A fetched index
 goes through the shifting table, and is written unless the shifted index is marked
 transparent. A skipped pixel, like a transparent one, keeps its old value.
 */
module Raster {
  import opened GL

  /** The shifting and transparency tables hold one entry per palette index. */
  predicate Tables(shifting: seq<Pixel>, transparent: seq<bool>)
  {
    |shifting| == MaxPaletteColors && |transparent| == MaxPaletteColors
  }

  /**
   Writes source index `s` over destination index `d`. The index is shifted first,
   and the shifted index decides whether the pixel is transparent.
   */
  function Composite(shifting: seq<Pixel>, transparent: seq<bool>, s: Pixel, d: Pixel): (r: Pixel)
    requires Tables(shifting, transparent)
    ensures r == d || r == shifting[s]
    ensures transparent[shifting[s]] ==> r == d
    ensures !transparent[shifting[s]] ==> r == shifting[s]
  {
    var index := shifting[s];
    if transparent[index] then d else index
  }

  /** A destination pixel after an optional fetch. A skipped fetch leaves it as it was. */
  function Blend(shifting: seq<Pixel>, transparent: seq<bool>, fetched: Option<Pixel>, d: Pixel): (r: Pixel)
    requires Tables(shifting, transparent)
    ensures fetched.None? ==> r == d
    ensures fetched.Some? ==> r == Composite(shifting, transparent, fetched.value, d)
  {
    match fetched
    case None => d
    case Some(s) => Composite(shifting, transparent, s, d)
  }

  /** The region is a non-empty quad inside the destination. */
  predicate RegionInside(dst: Surface, region: Quad)
  {
    0 <= region.x0 <= region.x1 < dst.width && 0 <= region.y0 <= region.y1 < dst.height
  }

  /**
   Composites columns `region.x0 .. region.x1` of row `y`, left to right, fetching
   each source index through `fetch`.
   */
  method DrawSpan(row: seq<Pixel>, y: int, region: Quad, fetch: (int, int) --> Option<Pixel>,
                  shifting: seq<Pixel>, transparent: seq<bool>)
    returns (out: seq<Pixel>)
    requires Tables(shifting, transparent)
    requires 0 <= region.x0 <= region.x1 < |row|
    requires forall x :: region.x0 <= x <= region.x1 ==> fetch.requires(x, y)
    ensures |out| == |row|
    ensures forall x :: 0 <= x < |row| && (x < region.x0 || region.x1 < x) ==> out[x] == row[x]
    ensures forall x :: region.x0 <= x <= region.x1 ==>
              out[x] == Blend(shifting, transparent, fetch(x, y), row[x])
  {
    out := row;
    var x := region.x0;
    while x <= region.x1
      invariant region.x0 <= x <= region.x1 + 1
      invariant |out| == |row|
      invariant forall i :: 0 <= i < |row| && (i < region.x0 || x <= i) ==> out[i] == row[i]
      invariant forall i :: region.x0 <= i < x ==> out[i] == Blend(shifting, transparent, fetch(i, y), row[i])
    {
      out := out[x := Blend(shifting, transparent, fetch(x, y), out[x])];
      x := x + 1;
    }
  }

  /**
   Composites every pixel of `region`, row by row, and leaves every other pixel of
   the destination as it was.
   */
  method DrawRegion(dst: Surface, region: Quad, fetch: (int, int) --> Option<Pixel>,
                    shifting: seq<Pixel>, transparent: seq<bool>)
    returns (out: Surface)
    requires dst.Valid() && Tables(shifting, transparent)
    requires RegionInside(dst, region)
    requires forall x, y :: InQuad(region, x, y) ==> fetch.requires(x, y)
    ensures SameShape(dst, out)
    ensures forall x, y :: dst.Contains(x, y) && !InQuad(region, x, y) ==> out.At(x, y) == dst.At(x, y)
    ensures forall x, y :: InQuad(region, x, y) ==>
              out.At(x, y) == Blend(shifting, transparent, fetch(x, y), dst.At(x, y))
  {
    out := dst;
    var y := region.y0;
    while y <= region.y1
      invariant region.y0 <= y <= region.y1 + 1
      invariant SameShape(dst, out)
      invariant forall i, j :: dst.Contains(i, j) && !(InQuad(region, i, j) && j < y) ==>
                  out.At(i, j) == dst.At(i, j)
      invariant forall i, j :: InQuad(region, i, j) && j < y ==>
                  out.At(i, j) == Blend(shifting, transparent, fetch(i, j), dst.At(i, j))
    {
      var row := DrawSpan(out.rows[y], y, region, fetch, shifting, transparent);
      out := out.(rows := out.rows[y := row]);
      y := y + 1;
    }
  }
}
