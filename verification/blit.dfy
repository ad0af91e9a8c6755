/**
 The unscaled, clipped blit: copies the `area` of a source surface to `position`,
 through the shifting and transparency tables.
 */
module Blits {
  import opened GL
  import opened Raster
  import opened Contexts

  /** The destination rectangle a blit of `area` to `pos` covers before clipping. */
  function DestRect(area: Rect, pos: Point): Rect
  {
    Rect(pos.x, pos.y, area.width, area.height)
  }

  /**
   The source pixel read for destination pixel (`x`, `y`): the offset of the
   destination pixel from `pos`, taken from the corner of `area`. It always lies in
   `area`.
   */
  function SourceOf(area: Rect, pos: Point, x: int, y: int): (p: Point)
    requires InRect(DestRect(area, pos), x, y)
    ensures InRect(area, p.x, p.y)
    ensures p.x - area.x == x - pos.x && p.y - area.y == y - pos.y
  {
    Point(area.x + x - pos.x, area.y + y - pos.y)
  }

  /** Every destination pixel the blit draws reads a pixel of `src`. */
  ghost predicate BlitReadable(ctx: Context, src: Surface, area: Rect, pos: Point)
  {
    forall x, y :: InQuad(ctx.clip, x, y) && InRect(DestRect(area, pos), x, y) ==>
      var p := SourceOf(area, pos, x, y); src.Contains(p.x, p.y)
  }

  /** The blit's operands are well formed. */
  ghost predicate BlitOperands(ctx: Context, src: Surface, area: Rect, pos: Point)
  {
    ctx.Valid() && ctx.ClipFits() && src.Valid() && BlitReadable(ctx, src, area, pos)
  }

  /**
   What a blit leaves at destination pixel (`x`, `y`): inside both the clipping quad
   and the destination rectangle, the source pixel composited over it; anywhere
   else, the pixel as it was.
   */
  function BlitPixel(ctx: Context, src: Surface, area: Rect, pos: Point, x: int, y: int): Pixel
    requires BlitOperands(ctx, src, area, pos) && ctx.surface.Contains(x, y)
  {
    if InQuad(ctx.clip, x, y) && InRect(DestRect(area, pos), x, y) then
      var p := SourceOf(area, pos, x, y);
      Composite(ctx.shifting, ctx.transparent, src.At(p.x, p.y), ctx.surface.At(x, y))
    else
      ctx.surface.At(x, y)
  }

  /** A drawing region after clipping, with how far its left and top edges moved. */
  datatype Clipped = Clipped(region: Quad, skipX: int, skipY: int)

  /**
   Clips the destination rectangle against `clip`, counting how many columns and
   rows were cut off on the left and on the top so that the source read origin can
   move by the same amount.
   */
  function ClipBlit(clip: Quad, area: Rect, pos: Point): (c: Clipped)
    ensures forall x, y :: InQuad(c.region, x, y) <==> InQuad(clip, x, y) && InRect(DestRect(area, pos), x, y)
    ensures 0 <= c.skipX && 0 <= c.skipY
    ensures c.region.x0 == pos.x + c.skipX && c.region.y0 == pos.y + c.skipY
  {
    var region := Quad(pos.x, pos.y, pos.x + area.width - 1, pos.y + area.height - 1);
    var (x0, skipX) := if region.x0 < clip.x0 then (clip.x0, clip.x0 - region.x0) else (region.x0, 0);
    var (y0, skipY) := if region.y0 < clip.y0 then (clip.y0, clip.y0 - region.y0) else (region.y0, 0);
    var x1 := if region.x1 > clip.x1 then clip.x1 else region.x1;
    var y1 := if region.y1 > clip.y1 then clip.y1 else region.y1;
    Clipped(Quad(x0, y0, x1, y1), skipX, skipY)
  }

  /** A non-empty region inside a clip that fits the surface lies inside the surface. */
  lemma RegionInsideClip(ctx: Context, region: Quad)
    requires ctx.Valid() && ctx.ClipFits() && !IsEmpty(region)
    requires forall x, y :: InQuad(region, x, y) ==> InQuad(ctx.clip, x, y)
    ensures RegionInside(ctx.surface, region)
  {
    assert InQuad(region, region.x0, region.y0) && InQuad(region, region.x1, region.y1);
  }

  /**
   The blit as the rasteriser performs it: clip with skip offsets, bail out on an
   empty region, then walk the region in raster order while the source read
   position advances in lock-step from `area`'s corner moved by the skip offsets.
   */
  method Blit(ctx: Context, src: Surface, area: Rect, pos: Point) returns (out: Surface)
    requires BlitOperands(ctx, src, area, pos)
    ensures SameShape(ctx.surface, out)
    ensures forall x, y :: out.Contains(x, y) ==> out.At(x, y) == BlitPixel(ctx, src, area, pos, x, y)
    ensures forall x, y :: out.Contains(x, y) && out.At(x, y) != ctx.surface.At(x, y) ==>
              InQuad(ctx.clip, x, y) && InRect(DestRect(area, pos), x, y)
    ensures IsEmpty(ClipQuad(RectQuad(DestRect(area, pos)), ctx.clip)) ==> out == ctx.surface
  {
    var c := ClipBlit(ctx.clip, area, pos);
    var region := c.region;
    var width := region.x1 - region.x0 + 1;
    var height := region.y1 - region.y0 + 1;
    if width <= 0 || height <= 0 {
      EmptyIffNoPixel(region);
      EmptyIffNoPixel(ClipQuad(RectQuad(DestRect(area, pos)), ctx.clip));
      return ctx.surface;
    }
    RegionInsideClip(ctx, region);
    var sx := area.x + c.skipX;
    var sy := area.y + c.skipY;
    var fetch := (x: int, y: int) requires src.Valid() && src.Contains(sx + (x - region.x0), sy + (y - region.y0)) =>
      Some(src.At(sx + (x - region.x0), sy + (y - region.y0)));
    out := DrawRegion(ctx.surface, region, fetch, ctx.shifting, ctx.transparent);
    EmptyIffNoPixel(ClipQuad(RectQuad(DestRect(area, pos)), ctx.clip));
  }

  /** An `area` that lies inside the source surface can always be read. */
  lemma AreaInsideIsReadable(ctx: Context, src: Surface, area: Rect, pos: Point)
    requires 0 <= area.x && area.x + area.width <= src.width
    requires 0 <= area.y && area.y + area.height <= src.height
    ensures BlitReadable(ctx, src, area, pos)
  {
  }

  /** A source whose shifted indices are all transparent leaves the destination as it was. */
  lemma TransparentSourceLeavesDestination(ctx: Context, src: Surface, area: Rect, pos: Point)
    requires BlitOperands(ctx, src, area, pos)
    requires forall x, y :: src.Contains(x, y) ==> ctx.transparent[ctx.shifting[src.At(x, y)]]
    ensures forall x, y :: ctx.surface.Contains(x, y) ==>
              BlitPixel(ctx, src, area, pos, x, y) == ctx.surface.At(x, y)
  {
  }

  /**
   With the identity shifting table, every visible pixel of the clipped destination
   rectangle is a plain copy of the corresponding source pixel.
   */
  lemma IdentityShiftingCopies(ctx: Context, src: Surface, area: Rect, pos: Point)
    requires BlitOperands(ctx, src, area, pos)
    requires forall i :: 0 <= i < MaxPaletteColors ==> ctx.shifting[i] == i
    ensures forall x, y :: ctx.surface.Contains(x, y) && InQuad(ctx.clip, x, y) && InRect(DestRect(area, pos), x, y) ==>
              var s := src.At(area.x + x - pos.x, area.y + y - pos.y);
              BlitPixel(ctx, src, area, pos, x, y) == if ctx.transparent[s] then ctx.surface.At(x, y) else s
  {
  }

  /**
   An 8x8 surface clipped to (2,2)-(5,5): blitting a fully opaque 4x4 source to
   (0,0) changes at most the 2x2 block (2,2)-(3,3), and every pixel of that block
   becomes the shifted source pixel.
   */
  lemma ClippedCornerScenario(ctx: Context, src: Surface)
    requires ctx.Valid() && ctx.surface.width == 8 && ctx.surface.height == 8
    requires ctx.clip == Quad(2, 2, 5, 5)
    requires src.Valid() && src.width == 4 && src.height == 4
    requires forall i :: 0 <= i < MaxPaletteColors ==> !ctx.transparent[ctx.shifting[i]]
    ensures BlitOperands(ctx, src, Rect(0, 0, 4, 4), Point(0, 0))
    ensures forall x, y :: ctx.surface.Contains(x, y) ==>
              var p := BlitPixel(ctx, src, Rect(0, 0, 4, 4), Point(0, 0), x, y);
              if 2 <= x <= 3 && 2 <= y <= 3 then p == ctx.shifting[src.At(x, y)] else p == ctx.surface.At(x, y)
  {
  }
}
