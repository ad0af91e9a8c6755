/**
 The context's flood fill. The seed's index is the index to match; the fill
 replaces it, inside the clipping quad, on every pixel 4-connected to the seed
 through matching pixels. A seed outside the clip does nothing.

 `Fill` is the fill as evidently intended: it probes the row above the run only
 inside the clip, clears the flag of the row below when the run below ends, and
 returns at once when the replacement equals the index to match. `FillAsWritten`
 keeps the three slips of the original loop; the findings module shows what each
 does.
 */
module FloodFill {
  import opened GL
  import opened Contexts
  import opened FillScan
  import opened FillRegion

  /** Every pixel of a seed's region is open, so it lies in the clip and holds the index to match. */
  lemma RegionOpen(img: Surface, clip: Quad, target: Pixel, seed: Point)
    ensures forall p :: Reach(img, clip, target, seed, p) ==> Open(img, clip, target, p)
  {
    forall p | Reach(img, clip, target, seed, p)
      ensures Open(img, clip, target, p)
    {
      ReachOpen(img, clip, target, seed, p);
    }
  }

  /**
   The corrected fill: exactly the region of the seed takes the new index, and every
   other pixel keeps its own.
   */
  function Fill(ctx: Context, seed: Point, index: Pixel): (r: Surface)
    requires ctx.surface.Valid() && ctx.ClipFits()
    ensures SameShape(ctx.surface, r)
    ensures !InQuad(ctx.clip, seed.x, seed.y) ==> r == ctx.surface
    ensures InQuad(ctx.clip, seed.x, seed.y) ==>
              forall i, j :: r.Contains(i, j) ==>
                r.At(i, j) == if Reach(ctx.surface, ctx.clip, ctx.surface.At(seed.x, seed.y), seed, Point(i, j))
                              then index else ctx.surface.At(i, j)
  {
    if !InQuad(ctx.clip, seed.x, seed.y) then ctx.surface
    else
      var target := ctx.surface.At(seed.x, seed.y);
      if target == index then
        RegionOpen(ctx.surface, ctx.clip, target, seed);
        ctx.surface
      else
        var st := FillState(ctx.surface, [seed]);
        InitialInvariant(ctx.clip, target, index, ctx.surface, seed);
        RunCovers(ctx.clip, target, index, ctx.surface, seed, st);
        Run(Corrected, ctx.clip, target, index, st)
  }

  /** The corrected fill gives the seed the new index and changes nothing outside the clip. */
  lemma FillSeedAndClip(ctx: Context, seed: Point, index: Pixel)
    requires ctx.surface.Valid() && ctx.ClipFits() && InQuad(ctx.clip, seed.x, seed.y)
    ensures Fill(ctx, seed, index).At(seed.x, seed.y) == index
    ensures forall i, j :: ctx.surface.Contains(i, j) && !InQuad(ctx.clip, i, j) ==>
              Fill(ctx, seed, index).At(i, j) == ctx.surface.At(i, j)
  {
    var target := ctx.surface.At(seed.x, seed.y);
    ReachSeed(ctx.surface, ctx.clip, target, seed);
    RegionOpen(ctx.surface, ctx.clip, target, seed);
  }

  /** Filling a seed with the index it already holds changes nothing. */
  lemma FillSameIndex(ctx: Context, seed: Point)
    requires ctx.surface.Valid() && ctx.ClipFits() && ctx.surface.Contains(seed.x, seed.y)
    ensures Fill(ctx, seed, ctx.surface.At(seed.x, seed.y)) == ctx.surface
  {
    if InQuad(ctx.clip, seed.x, seed.y) {
      RegionOpen(ctx.surface, ctx.clip, ctx.surface.At(seed.x, seed.y), seed);
    }
  }

  /** Filling the same seed twice with the same index is filling it once. */
  lemma FillIdempotent(ctx: Context, seed: Point, index: Pixel)
    requires ctx.surface.Valid() && ctx.ClipFits()
    ensures Fill(ctx.(surface := Fill(ctx, seed, index)), seed, index) == Fill(ctx, seed, index)
  {
    if InQuad(ctx.clip, seed.x, seed.y) {
      FillSeedAndClip(ctx, seed, index);
      FillSameIndex(ctx.(surface := Fill(ctx, seed, index)), seed);
    }
  }

  /** On a clip that holds one index throughout, the fill repaints the whole clip and nothing else. */
  lemma FillUniform(ctx: Context, seed: Point, index: Pixel)
    requires ctx.surface.Valid() && ctx.ClipFits() && InQuad(ctx.clip, seed.x, seed.y)
    requires forall i, j :: InQuad(ctx.clip, i, j) ==> ctx.surface.At(i, j) == ctx.surface.At(seed.x, seed.y)
    ensures forall i, j :: ctx.surface.Contains(i, j) ==>
              Fill(ctx, seed, index).At(i, j) == if InQuad(ctx.clip, i, j) then index else ctx.surface.At(i, j)
  {
    var target := ctx.surface.At(seed.x, seed.y);
    forall i, j | InQuad(ctx.clip, i, j)
      ensures Reach(ctx.surface, ctx.clip, target, seed, Point(i, j))
    {
      UniformRegion(ctx.surface, ctx.clip, target, seed, Point(i, j));
    }
    RegionOpen(ctx.surface, ctx.clip, target, seed);
  }

  /** A 5x5 surface of index 0 with the full clip, filled from (2, 2) with 7, is 7 everywhere. */
  lemma FillScenario()
    ensures var ctx := Context(Blank(5, 5, 0), Quad(0, 0, 4, 4), 0, 0, 0, [], []);
            forall i, j :: 0 <= i < 5 && 0 <= j < 5 ==> Fill(ctx, Point(2, 2), 7).At(i, j) == 7
  {
    FillUniform(Context(Blank(5, 5, 0), Quad(0, 0, 4, 4), 0, 0, 0, [], []), Point(2, 2), 7);
  }

  /**
   The fill as the source writes it. It probes the row above the run from the clip's
   top row on, so it reads and may fill the row just above the clip; when a run below
   ends it clears the flag of the row above instead; and it has no exit for a
   replacement equal to the index to match. The model therefore asks for a clip that
   leaves a row above it and for a different replacement, and promises only that the
   pixels it changes lie in the clip's columns, between the row above the clip and the
   clip's bottom row, held the index to match and now hold the replacement.
   */
  function FillAsWritten(ctx: Context, seed: Point, index: Pixel): (r: Surface)
    requires ctx.surface.Valid() && ctx.ClipFits()
    requires InQuad(ctx.clip, seed.x, seed.y) ==> ctx.clip.y0 >= 1 && ctx.surface.At(seed.x, seed.y) != index
    ensures SameShape(ctx.surface, r)
    ensures !InQuad(ctx.clip, seed.x, seed.y) ==> r == ctx.surface
    ensures forall i, j :: r.Contains(i, j) && r.At(i, j) != ctx.surface.At(i, j) ==>
              && ctx.clip.x0 <= i <= ctx.clip.x1 && ctx.clip.y0 - 1 <= j <= ctx.clip.y1
              && ctx.surface.At(i, j) == ctx.surface.At(seed.x, seed.y) && r.At(i, j) == index
  {
    if !InQuad(ctx.clip, seed.x, seed.y) then ctx.surface
    else
      var target := ctx.surface.At(seed.x, seed.y);
      Run(AsWritten, ctx.clip, target, index, FillState(ctx.surface, [seed]))
  }
}
