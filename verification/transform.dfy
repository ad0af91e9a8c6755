/**
 The scaled, the rotated and the scanline-transform blits.

 All three compute source coordinates with floating-point maths (scale steps, a
 rotation matrix and its inverse, per-row transform registers). That maths is not
 modelled: its integer outcome is given, either as integer sizes and quads or as a
 sampler function from a destination pixel to the source coordinate it reads.
 What is modelled is the integer part each blit performs around it: clipping of
 the destination region, the bounds check (or its absence) before a fetch, the
 clamp and repeat addressing of the transform blit, and compositing.
 */
module Transforms {
  import opened GL
  import opened Raster
  import opened Contexts
  import opened Blits
  import Arith

  // ---------------------------------------------------------------------------
  // Scaled blit

  /**
   The destination rectangle of a scaled blit: `drawWidth` x `drawHeight` pixels at
   `pos`, the source area's size times the absolute scale factors, rounded.
   */
  function ScaledRect(pos: Point, drawWidth: int, drawHeight: int): Rect
  {
    Rect(pos.x, pos.y, drawWidth, drawHeight)
  }

  /**
   The scaled blit performs no bounds check: every drawn destination column must
   sample a source column, and every drawn row a source row, of `src`.
   */
  ghost predicate ScaledReadable(ctx: Context, src: Surface, pos: Point, drawWidth: int, drawHeight: int,
                                 column: int -> int, row: int -> int)
  {
    forall x, y :: InQuad(ctx.clip, x, y) && InRect(ScaledRect(pos, drawWidth, drawHeight), x, y) ==>
      src.Contains(column(x), row(y))
  }

  ghost predicate ScaledOperands(ctx: Context, src: Surface, pos: Point, drawWidth: int, drawHeight: int,
                                 column: int -> int, row: int -> int)
  {
    ctx.Valid() && ctx.ClipFits() && src.Valid() && ScaledReadable(ctx, src, pos, drawWidth, drawHeight, column, row)
  }

  /**
   What a scaled blit leaves at destination pixel (`x`, `y`). The source column
   depends on the destination column only and the source row on the destination
   row only: the two texture accumulators advance independently.
   */
  function ScaledPixel(ctx: Context, src: Surface, pos: Point, drawWidth: int, drawHeight: int,
                       column: int -> int, row: int -> int, x: int, y: int): Pixel
    requires ScaledOperands(ctx, src, pos, drawWidth, drawHeight, column, row) && ctx.surface.Contains(x, y)
  {
    if InQuad(ctx.clip, x, y) && InRect(ScaledRect(pos, drawWidth, drawHeight), x, y) then
      Composite(ctx.shifting, ctx.transparent, src.At(column(x), row(y)), ctx.surface.At(x, y))
    else
      ctx.surface.At(x, y)
  }

  /** Destination pixel (`x`, `y`) samples a pixel of `src`. */
  predicate ScaledSample(src: Surface, column: int -> int, row: int -> int, x: int, y: int)
  {
    src.Valid() && src.Contains(column(x), row(y))
  }

  /**
   The scaled blit: clip the destination rectangle, bail out when it is empty, then
   draw the clipped region row by row, sampling without a bounds check.
   */
  method BlitScaled(ctx: Context, src: Surface, pos: Point, drawWidth: int, drawHeight: int,
                    column: int -> int, row: int -> int)
    returns (out: Surface)
    requires ScaledOperands(ctx, src, pos, drawWidth, drawHeight, column, row)
    ensures SameShape(ctx.surface, out)
    ensures forall x, y :: out.Contains(x, y) ==>
              out.At(x, y) == ScaledPixel(ctx, src, pos, drawWidth, drawHeight, column, row, x, y)
    ensures forall x, y :: out.Contains(x, y) && out.At(x, y) != ctx.surface.At(x, y) ==>
              InQuad(ctx.clip, x, y) && InRect(ScaledRect(pos, drawWidth, drawHeight), x, y)
  {
    var region := ClipQuad(Quad(pos.x, pos.y, pos.x + drawWidth - 1, pos.y + drawHeight - 1), ctx.clip);
    var width := region.x1 - region.x0 + 1;
    var height := region.y1 - region.y0 + 1;
    if width <= 0 || height <= 0 {
      EmptyIffNoPixel(region);
      return ctx.surface;
    }
    RegionInsideClip(ctx, region);
    var fetch := (x: int, y: int) requires ScaledSample(src, column, row, x, y) =>
      Some(src.At(column(x), row(y)));
    forall x, y | InQuad(region, x, y)
      ensures ScaledSample(src, column, row, x, y)
    {
      assert InQuad(ctx.clip, x, y);
      assert InRect(ScaledRect(pos, drawWidth, drawHeight), x, y);
    }
    out := DrawRegion(ctx.surface, region, fetch, ctx.shifting, ctx.transparent);
    forall x, y | out.Contains(x, y)
      ensures out.At(x, y) == ScaledPixel(ctx, src, pos, drawWidth, drawHeight, column, row, x, y)
    {
      if InQuad(region, x, y) {
        assert fetch(x, y) == Some(src.At(column(x), row(y)));
      }
    }
  }

  /**
   With unit scale factors the drawing size is the area's size and each step moves
   the sampler by one source pixel, so the scaled blit draws exactly what the
   unscaled blit draws.
   */
  lemma UnitScaleIsBlit(ctx: Context, src: Surface, area: Rect, pos: Point)
    requires BlitOperands(ctx, src, area, pos)
    ensures ScaledOperands(ctx, src, pos, area.width, area.height,
                           x => area.x + x - pos.x, y => area.y + y - pos.y)
    ensures forall x, y :: ctx.surface.Contains(x, y) ==>
              ScaledPixel(ctx, src, pos, area.width, area.height,
                          x => area.x + x - pos.x, y => area.y + y - pos.y, x, y)
              == BlitPixel(ctx, src, area, pos, x, y)
  {
    var column := x => area.x + x - pos.x;
    var row := y => area.y + y - pos.y;
    forall x, y | InQuad(ctx.clip, x, y) && InRect(ScaledRect(pos, area.width, area.height), x, y)
      ensures src.Contains(column(x), row(y))
    {
      assert InRect(DestRect(area, pos), x, y);
    }
  }

  // ---------------------------------------------------------------------------
  // Rotated and scaled blit

  /**
   The rotated blit only reads the source at coordinates it has found inside
   `area`; those must be pixels of `src`.
   */
  ghost predicate RotatedReadable(ctx: Context, src: Surface, area: Rect, aabb: Quad, sample: (int, int) -> Point)
  {
    forall x, y :: InQuad(ctx.clip, x, y) && InQuad(aabb, x, y) && InRect(area, sample(x, y).x, sample(x, y).y) ==>
      src.Contains(sample(x, y).x, sample(x, y).y)
  }

  ghost predicate RotatedOperands(ctx: Context, src: Surface, area: Rect, aabb: Quad, sample: (int, int) -> Point)
  {
    ctx.Valid() && ctx.ClipFits() && src.Valid() && RotatedReadable(ctx, src, area, aabb, sample)
  }

  /**
   What a rotated blit leaves at destination pixel (`x`, `y`). `aabb` is the
   bounding box of the rotated, scaled area and `sample` maps a destination pixel
   to the floored source coordinate of the inverse transform. The pixel is drawn
   only when that coordinate lies inside `area`.
   */
  function RotatedPixel(ctx: Context, src: Surface, area: Rect, aabb: Quad, sample: (int, int) -> Point,
                        x: int, y: int): Pixel
    requires RotatedOperands(ctx, src, area, aabb, sample) && ctx.surface.Contains(x, y)
  {
    var p := sample(x, y);
    if InQuad(ctx.clip, x, y) && InQuad(aabb, x, y) && InRect(area, p.x, p.y) then
      Composite(ctx.shifting, ctx.transparent, src.At(p.x, p.y), ctx.surface.At(x, y))
    else
      ctx.surface.At(x, y)
  }

  /**
   The rotated blit: clip the bounding box, bail out when it is empty, then visit
   the clipped region, fetching only the pixels whose source coordinate passes the
   bounds check against `area`.
   */
  method BlitRotated(ctx: Context, src: Surface, area: Rect, aabb: Quad, sample: (int, int) -> Point)
    returns (out: Surface)
    requires RotatedOperands(ctx, src, area, aabb, sample)
    ensures SameShape(ctx.surface, out)
    ensures forall x, y :: out.Contains(x, y) ==> out.At(x, y) == RotatedPixel(ctx, src, area, aabb, sample, x, y)
    ensures forall x, y :: out.Contains(x, y) && out.At(x, y) != ctx.surface.At(x, y) ==>
              InQuad(ctx.clip, x, y) && InQuad(aabb, x, y) && InRect(area, sample(x, y).x, sample(x, y).y)
  {
    var region := ClipQuad(aabb, ctx.clip);
    var width := region.x1 - region.x0 + 1;
    var height := region.y1 - region.y0 + 1;
    if width <= 0 || height <= 0 {
      EmptyIffNoPixel(region);
      return ctx.surface;
    }
    RegionInsideClip(ctx, region);
    var sminx := area.x;
    var sminy := area.y;
    var smaxx := area.x + area.width - 1;
    var smaxy := area.y + area.height - 1;
    var fetch := (x: int, y: int)
      requires src.Valid()
      requires sminx <= sample(x, y).x <= smaxx && sminy <= sample(x, y).y <= smaxy ==>
                 src.Contains(sample(x, y).x, sample(x, y).y)
      =>
      var p := sample(x, y);
      if sminx <= p.x <= smaxx && sminy <= p.y <= smaxy then Some(src.At(p.x, p.y)) else None;
    out := DrawRegion(ctx.surface, region, fetch, ctx.shifting, ctx.transparent);
  }

  /**
   With no rotation and unit scale the inverse transform is a translation; any
   bounding box that covers the destination rectangle (the float one is a pixel
   wider and taller) then draws exactly what the unscaled blit draws.
   */
  lemma UnrotatedIsBlit(ctx: Context, src: Surface, area: Rect, pos: Point, aabb: Quad)
    requires BlitOperands(ctx, src, area, pos)
    requires forall x, y :: InRect(DestRect(area, pos), x, y) ==> InQuad(aabb, x, y)
    ensures RotatedOperands(ctx, src, area, aabb, (x, y) => Point(area.x + x - pos.x, area.y + y - pos.y))
    ensures forall x, y :: ctx.surface.Contains(x, y) ==>
              RotatedPixel(ctx, src, area, aabb, (x, y) => Point(area.x + x - pos.x, area.y + y - pos.y), x, y)
              == BlitPixel(ctx, src, area, pos, x, y)
  {
    var sample := (x, y) => Point(area.x + x - pos.x, area.y + y - pos.y);
    forall x, y | InRect(area, sample(x, y).x, sample(x, y).y)
      ensures InRect(DestRect(area, pos), x, y)
    {
    }
  }

  // ---------------------------------------------------------------------------
  // Scanline-transform blit

  /** How the transform blit addresses source coordinates outside the source. */
  datatype Clamp = ClampNone | ClampEdge | ClampRepeat

  /** The absolute value, as the rasteriser's helper computes it. */
  function IAbs(v: int): (r: nat)
    ensures r == v || r == -v
  {
    if v > 0 then v else -v
  }

  /**
   Addresses coordinate `c` along a source axis of `dim` pixels: the coordinate
   fetched, or `None` when the pixel is left untouched. Edge clamps to the nearest
   pixel, repeat wraps the absolute value, none drops what falls outside.
   */
  function Address(mode: Clamp, c: int, dim: int): (r: Option<int>)
    requires mode.ClampRepeat? ==> dim > 0
    ensures r.Some? ==> 0 <= r.value < dim
    ensures 0 <= c < dim ==> r == Some(c)
    ensures mode.ClampNone? ==> (r.Some? <==> 0 <= c < dim)
    ensures mode.ClampEdge? ==> (r.Some? <==> dim > 0)
    ensures mode.ClampEdge? && dim > 0 && c < 0 ==> r == Some(0)
    ensures mode.ClampEdge? && dim > 0 && c >= dim ==> r == Some(dim - 1)
    ensures mode.ClampRepeat? ==> r.Some?
  {
    var a :=
      match mode
      case ClampRepeat => IAbs(c) % dim
      case ClampEdge => if c < 0 then 0 else if c > dim - 1 then dim - 1 else c
      case ClampNone => c;
    assert mode.ClampRepeat? && 0 <= c < dim ==> a == c by {
      if mode.ClampRepeat? && 0 <= c < dim {
        Arith.DivModUnique(c, dim, 0, c);
      }
    }
    if 0 <= a <= dim - 1 then Some(a) else None
  }

  /** Repeat addressing treats a coordinate and its negation alike. */
  lemma RepeatIsSymmetric(c: int, dim: int)
    requires dim > 0
    ensures Address(ClampRepeat, c, dim) == Address(ClampRepeat, -c, dim)
  {
  }

  /** On non-negative coordinates repeat addressing has period `dim`. */
  lemma RepeatIsPeriodic(c: int, dim: int)
    requires dim > 0 && c >= 0
    ensures Address(ClampRepeat, c + dim, dim) == Address(ClampRepeat, c, dim)
  {
    Arith.DivModUnique(c, dim, c / dim, c % dim);
    Arith.DivModUnique(c + dim, dim, c / dim + 1, c % dim);
  }

  /**
   The drawing region of the transform blit before clipping: a rectangle the size
   of the clipping quad, placed at `pos`.
   */
  function TransformRegion(clip: Quad, pos: Point): Quad
  {
    Quad(pos.x, pos.y, pos.x + (clip.x1 - clip.x0), pos.y + (clip.y1 - clip.y0))
  }

  /** Repeat addressing divides by the source size, which must then be positive. */
  ghost predicate TransformOperands(ctx: Context, src: Surface, pos: Point, mode: Clamp)
  {
    && ctx.Valid() && ctx.ClipFits() && src.Valid()
    && (mode.ClampRepeat? && !IsEmpty(ClipQuad(TransformRegion(ctx.clip, pos), ctx.clip)) ==>
          src.width > 0 && src.height > 0)
  }

  /**
   What the transform blit leaves at destination pixel (`x`, `y`). `sample` maps
   the pixel's offset from `pos` to the truncated source coordinate that the
   per-row registers (after the row callback) produce; each axis is then addressed
   by the clamp mode.
   */
  function TransformPixel(ctx: Context, src: Surface, pos: Point, mode: Clamp, sample: (int, int) -> Point,
                          x: int, y: int): Pixel
    requires TransformOperands(ctx, src, pos, mode) && ctx.surface.Contains(x, y)
  {
    if InQuad(ctx.clip, x, y) && InQuad(TransformRegion(ctx.clip, pos), x, y) then
      assert InQuad(ClipQuad(TransformRegion(ctx.clip, pos), ctx.clip), x, y);
      EmptyIffNoPixel(ClipQuad(TransformRegion(ctx.clip, pos), ctx.clip));
      var p := sample(x - pos.x, y - pos.y);
      match (Address(mode, p.x, src.width), Address(mode, p.y, src.height))
      case (Some(sx), Some(sy)) => Composite(ctx.shifting, ctx.transparent, src.At(sx, sy), ctx.surface.At(x, y))
      case _ => ctx.surface.At(x, y)
    else
      ctx.surface.At(x, y)
  }

  /**
   The transform blit: clip the clip-sized region at `pos`, bail out when it is
   empty, then for each pixel address the sampled coordinate and fetch only when
   both axes land inside the source.
   */
  method BlitTransform(ctx: Context, src: Surface, pos: Point, mode: Clamp, sample: (int, int) -> Point)
    returns (out: Surface)
    requires TransformOperands(ctx, src, pos, mode)
    ensures SameShape(ctx.surface, out)
    ensures forall x, y :: out.Contains(x, y) ==> out.At(x, y) == TransformPixel(ctx, src, pos, mode, sample, x, y)
    ensures forall x, y :: out.Contains(x, y) && out.At(x, y) != ctx.surface.At(x, y) ==>
              InQuad(ctx.clip, x, y) && InQuad(TransformRegion(ctx.clip, pos), x, y)
  {
    var region := ClipQuad(TransformRegion(ctx.clip, pos), ctx.clip);
    var width := region.x1 - region.x0 + 1;
    var height := region.y1 - region.y0 + 1;
    if width <= 0 || height <= 0 {
      EmptyIffNoPixel(region);
      return ctx.surface;
    }
    RegionInsideClip(ctx, region);
    var sw := src.width;
    var sh := src.height;
    var fetch := (x: int, y: int)
      requires src.Valid() && sw == src.width && sh == src.height
      requires mode.ClampRepeat? ==> sw > 0 && sh > 0
      =>
      var p := sample(x - pos.x, y - pos.y);
      match (Address(mode, p.x, sw), Address(mode, p.y, sh))
      case (Some(sx), Some(sy)) => Some(src.At(sx, sy))
      case _ => None;
    out := DrawRegion(ctx.surface, region, fetch, ctx.shifting, ctx.transparent);
  }
}
