/**
 Three slips in the source's flood fill, each shown on a small surface by stepping
 the loop as written, next to the property the corrected fill has instead.
 */
module Findings {
  import opened GL
  import opened Contexts
  import opened FillScan
  import opened FillRegion
  import opened FloodFill

  /** A context over `s` clipped to `clip`; the fill consults nothing else. */
  function Over(s: Surface, clip: Quad): (ctx: Context)
    ensures ctx.surface == s && ctx.clip == clip
  {
    Context(s, clip, 0, 0, 0, [], [])
  }

  /**
   The row-above probe is guarded by the clip's top row itself, so a run on the top
   row of the clip spills into the row above it. On a 1x2 surface of index 0 clipped
   to its bottom pixel, filling that pixel with 7 also turns the top pixel, outside
   the clip, into 7.
   */
  lemma AboveGuardAsWritten()
    ensures !InQuad(Quad(0, 1, 0, 1), 0, 0)
    ensures FillAsWritten(Over(Surface(1, 2, [[0], [0]]), Quad(0, 1, 0, 1)), Point(0, 1), 7).At(0, 0) == 7
  {
    var clip := Quad(0, 1, 0, 1);
    var s0 := FillState(Surface(1, 2, [[0], [0]]), [Point(0, 1)]);
    var s1 := FillState(Surface(1, 2, [[0], [7]]), [Point(0, 0)]);
    var s2 := FillState(Surface(1, 2, [[7], [7]]), []);
    assert RunStart([0], 0, 0, 0) == 0;
    assert ProbeNeighbours(AsWritten, 0, 1, 0, false, false, true, false, [0], [], []) == Probe([Point(0, 0)], true, false);
    assert Scan(AsWritten, 0, 0, 7, 1, 0, false, false, true, false, [0], [], [0], []) == ScanResult([7], [Point(0, 0)]);
    assert WithRow(s0.img, 1, [7]) == s1.img;
    assert Step(AsWritten, clip, 0, 7, s0) == s1;
    assert Step(AsWritten, clip, 0, 7, s1) == s2;
    assert Run(AsWritten, clip, 0, 7, s0) == s2.img;
  }

  /** The corrected fill on the same surface leaves the pixel above the clip alone. */
  lemma AboveGuardCorrected()
    ensures Fill(Over(Surface(1, 2, [[0], [0]]), Quad(0, 1, 0, 1)), Point(0, 1), 7).At(0, 0) == 0
  {
    FillSeedAndClip(Over(Surface(1, 2, [[0], [0]]), Quad(0, 1, 0, 1)), Point(0, 1), 7);
  }

  /** The 3x4 surface of the second finding: a gap in the row below splits it into two runs. */
  function Split(): (s: Surface)
    ensures s.Valid() && s.width == 3 && s.height == 4
  {
    Surface(3, 4, [[9, 9, 9], [0, 0, 0], [0, 9, 0], [9, 9, 9]])
  }

  /** `Split` after the first step of the fill of (0, 1) with 5: row 1 filled, only (0, 2) pushed. */
  lemma BelowFirstStep()
    ensures Step(AsWritten, Quad(0, 1, 2, 3), 0, 5, FillState(Split(), [Point(0, 1)]))
            == FillState(Surface(3, 4, [[9, 9, 9], [5, 5, 5], [0, 9, 0], [9, 9, 9]]), [Point(0, 2)])
  {
    var up, down := [9, 9, 9], [0, 9, 0];
    assert RunStart([0, 0, 0], 0, 0, 0) == 0;
    assert ProbeNeighbours(AsWritten, 0, 1, 0, false, false, true, true, up, down, []) == Probe([Point(0, 2)], false, true);
    assert ProbeNeighbours(AsWritten, 0, 1, 1, false, true, true, true, up, down, [Point(0, 2)]) == Probe([Point(0, 2)], false, true);
    assert ProbeNeighbours(AsWritten, 0, 1, 2, false, true, true, true, up, down, [Point(0, 2)]) == Probe([Point(0, 2)], false, true);
    assert Scan(AsWritten, 2, 0, 5, 1, 3, false, true, true, true, up, down, [5, 5, 5], [Point(0, 2)]) == ScanResult([5, 5, 5], [Point(0, 2)]);
    assert Scan(AsWritten, 2, 0, 5, 1, 2, false, true, true, true, up, down, [5, 5, 0], [Point(0, 2)]) == ScanResult([5, 5, 5], [Point(0, 2)]);
    assert Scan(AsWritten, 2, 0, 5, 1, 1, false, true, true, true, up, down, [5, 0, 0], [Point(0, 2)]) == ScanResult([5, 5, 5], [Point(0, 2)]);
    assert Scan(AsWritten, 2, 0, 5, 1, 0, false, false, true, true, up, down, [0, 0, 0], []) == ScanResult([5, 5, 5], [Point(0, 2)]);
    assert WithRow(Split(), 1, [5, 5, 5]) == Surface(3, 4, [[9, 9, 9], [5, 5, 5], [0, 9, 0], [9, 9, 9]]);
  }

  /** The second step fills only (0, 2) and empties the stack. */
  lemma BelowSecondStep()
    ensures Step(AsWritten, Quad(0, 1, 2, 3), 0, 5, FillState(Surface(3, 4, [[9, 9, 9], [5, 5, 5], [0, 9, 0], [9, 9, 9]]), [Point(0, 2)]))
            == FillState(Surface(3, 4, [[9, 9, 9], [5, 5, 5], [5, 9, 0], [9, 9, 9]]), [])
  {
    var img := Surface(3, 4, [[9, 9, 9], [5, 5, 5], [0, 9, 0], [9, 9, 9]]);
    assert RunStart([0, 9, 0], 0, 0, 0) == 0;
    assert ProbeNeighbours(AsWritten, 0, 2, 0, false, false, true, true, [5, 5, 5], [9, 9, 9], []) == Probe([], false, false);
    assert Scan(AsWritten, 2, 0, 5, 2, 0, false, false, true, true, [5, 5, 5], [9, 9, 9], [0, 9, 0], []) == ScanResult([5, 9, 0], []);
    assert WithRow(img, 2, [5, 9, 0]) == Surface(3, 4, [[9, 9, 9], [5, 5, 5], [5, 9, 0], [9, 9, 9]]);
  }

  /**
   When a run of matching pixels below ends, the loop clears the row-above flag
   instead of the row-below flag, so a later run below the same span gets no seed.
   On `Split` clipped to rows 1 to 3, filling (0, 1) with 5 leaves (2, 2) holding 0,
   although (2, 2) is joined to the seed through (1, 1) and (2, 1).
   */
  lemma BelowResetAsWritten()
    ensures Reach(Split(), Quad(0, 1, 2, 3), 0, Point(0, 1), Point(2, 2))
    ensures FillAsWritten(Over(Split(), Quad(0, 1, 2, 3)), Point(0, 1), 5).At(2, 2) == 0
  {
    BelowReach();
    BelowRun();
  }

  /** (2, 2) is in the region of (0, 1) on `Split` clipped to rows 1 to 3. */
  lemma BelowReach()
    ensures Reach(Split(), Quad(0, 1, 2, 3), 0, Point(0, 1), Point(2, 2))
  {
    var ps := [Point(0, 1), Point(1, 1), Point(2, 1), Point(2, 2)];
    assert Connects(Split(), Quad(0, 1, 2, 3), 0, ps);
  }

  /** The fill as written of (0, 1) with 5 on `Split` ends after two steps with (2, 2) still 0. */
  lemma BelowRun()
    ensures FillAsWritten(Over(Split(), Quad(0, 1, 2, 3)), Point(0, 1), 5).At(2, 2) == 0
  {
    var clip := Quad(0, 1, 2, 3);
    var s0 := FillState(Split(), [Point(0, 1)]);
    var s1 := FillState(Surface(3, 4, [[9, 9, 9], [5, 5, 5], [0, 9, 0], [9, 9, 9]]), [Point(0, 2)]);
    var s2 := FillState(Surface(3, 4, [[9, 9, 9], [5, 5, 5], [5, 9, 0], [9, 9, 9]]), []);
    BelowFirstStep();
    BelowSecondStep();
    assert Run(AsWritten, clip, 0, 5, s0) == Run(AsWritten, clip, 0, 5, s1) == s2.img;
  }

  /** The corrected fill on the same surface reaches (2, 2). */
  lemma BelowResetCorrected()
    ensures Fill(Over(Split(), Quad(0, 1, 2, 3)), Point(0, 1), 5).At(2, 2) == 5
  {
    BelowResetAsWritten();
  }

  /**
   Nothing stops the loop when the replacement equals the index to match: filled
   pixels still match and are pushed again. On a 1x3 column of indexes 5, 0, 0
   clipped to its lower two pixels, filling (0, 1) with 0 pushes (0, 2), whose step
   pushes (0, 1) back, and the loop is where it started.
   */
  lemma EqualIndexAsWritten()
    ensures Step(AsWritten, Quad(0, 1, 0, 2), 0, 0, FillState(Surface(1, 3, [[5], [0], [0]]), [Point(0, 1)]))
            == FillState(Surface(1, 3, [[5], [0], [0]]), [Point(0, 2)])
    ensures Step(AsWritten, Quad(0, 1, 0, 2), 0, 0, FillState(Surface(1, 3, [[5], [0], [0]]), [Point(0, 2)]))
            == FillState(Surface(1, 3, [[5], [0], [0]]), [Point(0, 1)])
  {
    var img := Surface(1, 3, [[5], [0], [0]]);
    assert RunStart([0], 0, 0, 0) == 0;
    assert ProbeNeighbours(AsWritten, 0, 1, 0, false, false, true, true, [5], [0], []) == Probe([Point(0, 2)], false, true);
    assert Scan(AsWritten, 0, 0, 0, 1, 0, false, false, true, true, [5], [0], [0], []) == ScanResult([0], [Point(0, 2)]);
    assert WithRow(img, 1, [0]) == img;
    assert ProbeNeighbours(AsWritten, 0, 2, 0, false, false, true, false, [0], [], []) == Probe([Point(0, 1)], true, false);
    assert Scan(AsWritten, 0, 0, 0, 2, 0, false, false, true, false, [0], [], [0], []) == ScanResult([0], [Point(0, 1)]);
    assert WithRow(img, 2, [0]) == img;
  }

  /** The corrected fill returns the same column unchanged. */
  lemma EqualIndexCorrected()
    ensures Fill(Over(Surface(1, 3, [[5], [0], [0]]), Quad(0, 1, 0, 2)), Point(0, 1), 0) == Surface(1, 3, [[5], [0], [0]])
  {
    FillSameIndex(Over(Surface(1, 3, [[5], [0], [0]]), Quad(0, 1, 0, 2)), Point(0, 1));
  }
}
