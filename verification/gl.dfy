/**
 The value types shared by the rasteriser: palette indices, points, rectangles,
 inclusive quads and indexed-colour surfaces.

 A surface keeps its pixels as a sequence of rows; the row sequence plays the part
 of the per-row pointer table of the original, so a row start can never drift from
 the buffer's stride.
 */
module GL {

  /** A palette index: one byte per pixel. */
  type Pixel = i: int | 0 <= i < 256

  /** Number of entries of the shifting and transparency tables. */
  const MaxPaletteColors: nat := 256

  datatype Option<+T> = None | Some(value: T)

  datatype Point = Point(x: int, y: int)

  datatype Size = Size(width: nat, height: nat)

  /** A rectangle given by its top-left corner and its extent. */
  datatype Rect = Rect(x: int, y: int, width: int, height: int)

  /** A rectangle given by its inclusive corners. */
  datatype Quad = Quad(x0: int, y0: int, x1: int, y1: int)

  predicate InQuad(q: Quad, x: int, y: int)
  {
    q.x0 <= x <= q.x1 && q.y0 <= y <= q.y1
  }

  predicate InRect(r: Rect, x: int, y: int)
  {
    r.x <= x < r.x + r.width && r.y <= y < r.y + r.height
  }

  /** A quad is empty when its width or its height is not positive. */
  predicate IsEmpty(q: Quad)
  {
    q.x1 < q.x0 || q.y1 < q.y0
  }

  /** The quad covering the same pixels as a rectangle. */
  function RectQuad(r: Rect): (q: Quad)
    ensures forall x, y :: InQuad(q, x, y) <==> InRect(r, x, y)
  {
    Quad(r.x, r.y, r.x + r.width - 1, r.y + r.height - 1)
  }

  /** A `width` x `height` buffer. */
  datatype Surface = Surface(width: nat, height: nat, rows: seq<seq<Pixel>>)
  {
    predicate Valid()
    {
      |rows| == height && forall y :: 0 <= y < |rows| ==> |rows[y]| == width
    }

    predicate Contains(x: int, y: int)
    {
      0 <= x < width && 0 <= y < height
    }

    function At(x: int, y: int): Pixel
      requires Valid() && Contains(x, y)
    {
      rows[y][x]
    }
  }

  predicate SameShape(a: Surface, b: Surface)
  {
    a.Valid() && b.Valid() && a.width == b.width && a.height == b.height
  }

  /** A `width` x `height` surface whose every pixel is `fill`. */
  function Blank(width: nat, height: nat, fill: Pixel): (s: Surface)
    ensures s.Valid() && s.width == width && s.height == height
    ensures forall x, y :: s.Contains(x, y) ==> s.At(x, y) == fill
  {
    Surface(width, height, seq(height, _ => seq(width, _ => fill)))
  }

  /**
   The quad is empty, or lies inside a `w` x `h` buffer. Every pixel drawn through
   such a quad is a pixel of the buffer.
   */
  predicate QuadFits(q: Quad, w: int, h: int)
  {
    !IsEmpty(q) ==> 0 <= q.x0 && q.x1 < w && 0 <= q.y0 && q.y1 < h
  }

  /**
   Clips `region` against `clip` by moving each of its edges inwards when it lies
   outside the clip, the way every blit narrows its drawing region.
   */
  function ClipQuad(region: Quad, clip: Quad): (r: Quad)
    ensures forall x, y :: InQuad(r, x, y) <==> InQuad(region, x, y) && InQuad(clip, x, y)
  {
    Quad(if region.x0 < clip.x0 then clip.x0 else region.x0,
         if region.y0 < clip.y0 then clip.y0 else region.y0,
         if region.x1 > clip.x1 then clip.x1 else region.x1,
         if region.y1 > clip.y1 then clip.y1 else region.y1)
  }

  /** A quad is empty exactly when it holds no pixel. */
  lemma EmptyIffNoPixel(q: Quad)
    ensures IsEmpty(q) <==> forall x, y :: !InQuad(q, x, y)
  {
    if !IsEmpty(q) {
      assert InQuad(q, q.x0, q.y0);
    }
  }
}
