/**
 The machinery of the span flood fill: the left walk that widens a popped seed to
 the start of its run, the scan that fills the run left to right while probing the
 rows above and below, one iteration of the stack loop, and the loop itself.

 The rasteriser's code and the corrected fill differ in two places of the probe, so
 every operation here takes a `FillRule`:
 - `AsWritten` probes the row above whenever `y >= y0`, so the top clip row pushes
   seeds one row above the clip, and the row-below reset clears the row-above flag;
 - `Corrected` probes the row above only when `y > y0` and resets the row-below flag.
 */
module FillScan {
  import opened GL

  datatype FillRule = AsWritten | Corrected

  /** The surface being filled and the stack of pending seed points; the top is the last element. */
  datatype FillState = FillState(img: Surface, stack: seq<Point>)

  /** The topmost row a rule can seed: the code as written reaches one row above the clip. */
  function TopRow(rule: FillRule, clip: Quad): int
  {
    if rule.AsWritten? then clip.y0 - 1 else clip.y0
  }

  /** A point the rule may push on the stack: inside the clip's columns and the rule's rows. */
  predicate Seedable(rule: FillRule, clip: Quad, p: Point)
  {
    clip.x0 <= p.x <= clip.x1 && TopRow(rule, clip) <= p.y <= clip.y1
  }

  /** The clip is non-empty and inside the surface, and so is every row the rule can seed. */
  predicate Fits(rule: FillRule, clip: Quad, img: Surface)
  {
    img.Valid() && !IsEmpty(clip) && QuadFits(clip, img.width, img.height) && 0 <= TopRow(rule, clip)
  }

  predicate AllSeedable(rule: FillRule, clip: Quad, stack: seq<Point>)
  {
    forall k :: 0 <= k < |stack| ==> Seedable(rule, clip, stack[k])
  }

  /**
   The left walk: from column `x`, the leftmost column of the run of `target`
   pixels of `row` that ends at `x` and does not cross the clip's left edge `x0`.
   When pixel `x` does not match, the walk stops at once and the result is `x + 1`.
   */
  function RunStart(row: seq<Pixel>, x0: int, x: int, target: Pixel): (a: int)
    requires 0 <= x0 && x0 - 1 <= x < |row|
    ensures x0 <= a <= x + 1
    ensures forall k :: a <= k <= x ==> row[k] == target
    ensures a - 1 < x0 || row[a - 1] != target
    decreases x - x0 + 1
  {
    if x >= x0 && row[x] == target then RunStart(row, x0, x - 1, target) else x + 1
  }

  /**
   The first column from `x` on that ends the run of `target` pixels of `row`:
   either it is past the clip's right edge `x1` or its pixel does not match.
   */
  function RunEnd(row: seq<Pixel>, x1: int, x: int, target: Pixel): (e: int)
    requires 0 <= x && x1 < |row|
    ensures x <= e && (e == x || e <= x1 + 1)
    ensures forall k :: x <= k < e ==> row[k] == target
    ensures e > x1 || row[e] != target
    decreases x1 + 1 - x
  {
    if x <= x1 && row[x] == target then RunEnd(row, x1, x + 1, target) else x
  }

  /** The end of a run depends only on the pixels from its start column on. */
  lemma {:induction false} RunEndFrame(a: seq<Pixel>, b: seq<Pixel>, x1: int, x: int, target: Pixel)
    requires 0 <= x && x1 < |a| == |b|
    requires forall k :: x <= k <= x1 ==> a[k] == b[k]
    ensures RunEnd(a, x1, x, target) == RunEnd(b, x1, x, target)
    decreases x1 + 1 - x
  {
    if x <= x1 {
      RunEndFrame(a, b, x1, x + 1, target);
    }
  }

  /** Number of `target` pixels of a row. */
  function RowCount(row: seq<Pixel>, target: Pixel): nat
  {
    if |row| == 0 then 0 else (if row[0] == target then 1 else 0) + RowCount(row[1..], target)
  }

  /** Number of `target` pixels of a set of rows. */
  function CountRows(rows: seq<seq<Pixel>>, target: Pixel): nat
  {
    if |rows| == 0 then 0 else RowCount(rows[0], target) + CountRows(rows[1..], target)
  }

  /** Number of `target` pixels of a surface: the first component of the fill's termination measure. */
  function CountMatch(img: Surface, target: Pixel): nat
  {
    CountRows(img.rows, target)
  }

  /** Overwriting a `target` pixel of a row with another index leaves one `target` pixel fewer. */
  lemma {:induction false} RowCountUpdate(row: seq<Pixel>, x: int, v: Pixel, target: Pixel)
    requires 0 <= x < |row| && row[x] == target && v != target
    ensures RowCount(row[x := v], target) + 1 == RowCount(row, target)
  {
    if x == 0 {
      assert row[x := v][1..] == row[1..];
    } else {
      assert row[x := v][1..] == row[1..][x - 1 := v];
      RowCountUpdate(row[1..], x - 1, v, target);
    }
  }

  lemma {:induction false} CountRowsUpdate(rows: seq<seq<Pixel>>, y: int, row: seq<Pixel>, target: Pixel)
    requires 0 <= y < |rows|
    ensures CountRows(rows[y := row], target) + RowCount(rows[y], target) == CountRows(rows, target) + RowCount(row, target)
  {
    if y == 0 {
      assert rows[y := row][1..] == rows[1..];
    } else {
      assert rows[y := row][1..] == rows[1..][y - 1 := row];
      CountRowsUpdate(rows[1..], y - 1, row, target);
    }
  }

  /** The stack after a probe, and the flags telling whether the current run above and below already has a seed. */
  datatype Probe = Probe(stack: seq<Point>, above: bool, below: bool)

  /**
   After pixel (`x`, `y`) is filled, looks at the pixel just above it (in `up`, when
   the row above is probed at all) and just below it (in `down`, likewise). A
   matching pixel is pushed as a seed unless the run it belongs to already has one;
   a non-matching pixel ends the run, so a flag is cleared: for the code as written
   the row-below case clears the row-above flag.
   */
  function ProbeNeighbours(rule: FillRule, target: Pixel, y: int, x: nat, above: bool, below: bool,
                           probeUp: bool, probeDown: bool, up: seq<Pixel>, down: seq<Pixel>,
                           stack: seq<Point>): (p: Probe)
    requires probeUp ==> x < |up|
    requires probeDown ==> x < |down|
    ensures |stack| <= |p.stack| && p.stack[..|stack|] == stack
    ensures forall k :: |stack| <= k < |p.stack| ==>
              (probeUp && p.stack[k] == Point(x, y - 1) && up[x] == target) ||
              (probeDown && p.stack[k] == Point(x, y + 1) && down[x] == target)
  {
    var (stack1, above1) :=
      if !above && probeUp && up[x] == target then (stack + [Point(x, y - 1)], true)
      else if above && probeUp && up[x] != target then (stack, false)
      else (stack, above);
    if !below && probeDown && down[x] == target then Probe(stack1 + [Point(x, y + 1)], above1, true)
    else if below && probeDown && down[x] != target then
      (if rule.AsWritten? then Probe(stack1, false, below) else Probe(stack1, above1, false))
    else Probe(stack1, above1, below)
  }

  /** A scanned row and the stack with the seeds the scan pushed. */
  datatype ScanResult = ScanResult(row: seq<Pixel>, stack: seq<Point>)

  /**
   The scan of row `y`: fills the run of `target` pixels from column `x` rightwards,
   up to the clip's right edge `x1`, probing above and below each filled pixel. The
   row keeps its width, the stack only grows, and an empty run changes nothing;
   `ScanWrites`, `ScanSeeds` and `ScanShrinks` state what it writes and pushes.
   */
  function Scan(rule: FillRule, x1: int, target: Pixel, repl: Pixel, y: int, x: nat,
                above: bool, below: bool, probeUp: bool, probeDown: bool,
                up: seq<Pixel>, down: seq<Pixel>, row: seq<Pixel>, stack: seq<Point>): (r: ScanResult)
    requires x1 < |row| && (probeUp ==> |up| == |row|) && (probeDown ==> |down| == |row|)
    ensures |r.row| == |row|
    ensures |stack| <= |r.stack| && r.stack[..|stack|] == stack
    ensures (x > x1 || row[x] != target) ==> r == ScanResult(row, stack)
    decreases x1 + 1 - x
  {
    if x <= x1 && row[x] == target then
      var probe := ProbeNeighbours(rule, target, y, x, above, below, probeUp, probeDown, up, down, stack);
      Scan(rule, x1, target, repl, y, x + 1, probe.above, probe.below, probeUp, probeDown, up, down, row[x := repl], probe.stack)
    else
      ScanResult(row, stack)
  }

  /** A scan turns exactly the run of `target` pixels from `x` into the replacement and changes nothing else. */
  lemma {:induction false} ScanWrites(rule: FillRule, x1: int, target: Pixel, repl: Pixel, y: int, x: nat,
                                      above: bool, below: bool, probeUp: bool, probeDown: bool,
                                      up: seq<Pixel>, down: seq<Pixel>, row: seq<Pixel>, stack: seq<Point>)
    requires x1 < |row| && (probeUp ==> |up| == |row|) && (probeDown ==> |down| == |row|)
    ensures var r := Scan(rule, x1, target, repl, y, x, above, below, probeUp, probeDown, up, down, row, stack);
            forall i :: 0 <= i < |row| ==> r.row[i] == if x <= i < RunEnd(row, x1, x, target) then repl else row[i]
    decreases x1 + 1 - x
  {
    if x <= x1 && row[x] == target {
      var probe := ProbeNeighbours(rule, target, y, x, above, below, probeUp, probeDown, up, down, stack);
      ScanWrites(rule, x1, target, repl, y, x + 1, probe.above, probe.below, probeUp, probeDown, up, down, row[x := repl], probe.stack);
      RunEndFrame(row, row[x := repl], x1, x + 1, target);
    }
  }

  /**
   Seed `p` lies over column `a <= p.x < e` of row `y`, on a probed row next to it,
   and the pixel it marks matched.
   */
  ghost predicate PushedOver(p: Point, target: Pixel, y: int, a: int, e: int,
                             probeUp: bool, probeDown: bool, up: seq<Pixel>, down: seq<Pixel>)
  {
    && a <= p.x < e
    && ((probeUp && p.y == y - 1 && 0 <= p.x < |up| && up[p.x] == target) ||
        (probeDown && p.y == y + 1 && 0 <= p.x < |down| && down[p.x] == target))
  }

  /** Each seed a scan pushes sits over a column of the run, on a probed row whose pixel there matched. */
  lemma {:induction false} ScanSeeds(rule: FillRule, x1: int, target: Pixel, repl: Pixel, y: int, x: nat,
                                     above: bool, below: bool, probeUp: bool, probeDown: bool,
                                     up: seq<Pixel>, down: seq<Pixel>, row: seq<Pixel>, stack: seq<Point>)
    requires x1 < |row| && (probeUp ==> |up| == |row|) && (probeDown ==> |down| == |row|)
    ensures forall k :: |stack| <= k < |Scan(rule, x1, target, repl, y, x, above, below, probeUp, probeDown, up, down, row, stack).stack| ==>
              PushedOver(Scan(rule, x1, target, repl, y, x, above, below, probeUp, probeDown, up, down, row, stack).stack[k],
                         target, y, x, RunEnd(row, x1, x, target), probeUp, probeDown, up, down)
    decreases x1 + 1 - x
  {
    if x <= x1 && row[x] == target {
      var probe := ProbeNeighbours(rule, target, y, x, above, below, probeUp, probeDown, up, down, stack);
      var r := Scan(rule, x1, target, repl, y, x + 1, probe.above, probe.below, probeUp, probeDown, up, down, row[x := repl], probe.stack);
      assert r == Scan(rule, x1, target, repl, y, x, above, below, probeUp, probeDown, up, down, row, stack);
      ScanSeeds(rule, x1, target, repl, y, x + 1, probe.above, probe.below, probeUp, probeDown, up, down, row[x := repl], probe.stack);
      RunEndFrame(row, row[x := repl], x1, x + 1, target);
      var e := RunEnd(row, x1, x, target);
      assert e == RunEnd(row, x1, x + 1, target);
      forall k | |stack| <= k < |r.stack|
        ensures PushedOver(r.stack[k], target, y, x, e, probeUp, probeDown, up, down)
      {
        if k < |probe.stack| {
          assert r.stack[k] == probe.stack[k];
        }
      }
    }
  }

  /** With a replacement other than `target`, a scan over a non-empty run leaves fewer `target` pixels in the row. */
  lemma {:induction false} ScanShrinks(rule: FillRule, x1: int, target: Pixel, repl: Pixel, y: int, x: nat,
                                       above: bool, below: bool, probeUp: bool, probeDown: bool,
                                       up: seq<Pixel>, down: seq<Pixel>, row: seq<Pixel>, stack: seq<Point>)
    requires x1 < |row| && (probeUp ==> |up| == |row|) && (probeDown ==> |down| == |row|)
    requires target != repl
    ensures var r := Scan(rule, x1, target, repl, y, x, above, below, probeUp, probeDown, up, down, row, stack);
            RowCount(r.row, target) <= RowCount(row, target) &&
            (x <= x1 && row[x] == target ==> RowCount(r.row, target) < RowCount(row, target))
    decreases x1 + 1 - x
  {
    if x <= x1 && row[x] == target {
      var probe := ProbeNeighbours(rule, target, y, x, above, below, probeUp, probeDown, up, down, stack);
      ScanShrinks(rule, x1, target, repl, y, x + 1, probe.above, probe.below, probeUp, probeDown, up, down, row[x := repl], probe.stack);
      RowCountUpdate(row, x, repl, target);
    }
  }

  /** Whether a rule probes the row above row `y`: the code as written does so on the top clip row too. */
  function ProbesUp(rule: FillRule, clip: Quad, y: int): bool
  {
    if rule.AsWritten? then y >= clip.y0 else y > clip.y0
  }

  /** The surface with row `y` replaced by a row of the same width. */
  function WithRow(img: Surface, y: int, row: seq<Pixel>): (r: Surface)
    requires img.Valid() && 0 <= y < img.height && |row| == img.width
    ensures SameShape(img, r)
    ensures forall i, j :: r.Contains(i, j) ==> r.At(i, j) == if j == y then row[i] else img.At(i, j)
    ensures forall target :: CountMatch(r, target) + RowCount(img.rows[y], target) == CountMatch(img, target) + RowCount(row, target)
  {
    forall target {
      CountRowsUpdate(img.rows, y, row, target);
    }
    img.(rows := img.rows[y := row])
  }

  /**
   The scan of row `y` of `img` from column `start` with both flags cleared, probing
   the row above when the rule allows and the row below when it is inside the clip.
   */
  function RowScan(rule: FillRule, clip: Quad, target: Pixel, repl: Pixel, img: Surface, y: int, start: int,
                   rest: seq<Point>): ScanResult
    requires Fits(rule, clip, img) && TopRow(rule, clip) <= y <= clip.y1 && 0 <= start
  {
    var probeUp := ProbesUp(rule, clip, y);
    var probeDown := y < clip.y1;
    var up := if probeUp then img.rows[y - 1] else [];
    var down := if probeDown then img.rows[y + 1] else [];
    Scan(rule, clip.x1, target, repl, y, start, false, false, probeUp, probeDown, up, down, img.rows[y], rest)
  }

  /**
   The scan a step performs, from the start of the popped seed's run, stays within
   the clip's columns, pushes only seedable points, and either shrinks the number of
   `target` pixels of the row or changes nothing at all.
   */
  lemma ScanInClip(rule: FillRule, clip: Quad, target: Pixel, repl: Pixel, img: Surface, y: int, start: int,
                   rest: seq<Point>)
    requires Fits(rule, clip, img) && AllSeedable(rule, clip, rest) && TopRow(rule, clip) <= y <= clip.y1
    requires clip.x0 <= start
    ensures var scan := RowScan(rule, clip, target, repl, img, y, start, rest);
            && (forall i :: 0 <= i < |img.rows[y]| && scan.row[i] != img.rows[y][i] ==>
                  clip.x0 <= i <= clip.x1 && img.rows[y][i] == target && scan.row[i] == repl)
            && AllSeedable(rule, clip, scan.stack)
            && (target != repl ==> RowCount(scan.row, target) < RowCount(img.rows[y], target) || scan == ScanResult(img.rows[y], rest))
  {
    var row := img.rows[y];
    var probeUp := ProbesUp(rule, clip, y);
    var probeDown := y < clip.y1;
    var up := if probeUp then img.rows[y - 1] else [];
    var down := if probeDown then img.rows[y + 1] else [];
    var scan := Scan(rule, clip.x1, target, repl, y, start, false, false, probeUp, probeDown, up, down, row, rest);
    ScanWrites(rule, clip.x1, target, repl, y, start, false, false, probeUp, probeDown, up, down, row, rest);
    ScanSeeds(rule, clip.x1, target, repl, y, start, false, false, probeUp, probeDown, up, down, row, rest);
    if target != repl {
      ScanShrinks(rule, clip.x1, target, repl, y, start, false, false, probeUp, probeDown, up, down, row, rest);
    }
    forall k | 0 <= k < |scan.stack|
      ensures Seedable(rule, clip, scan.stack[k])
    {
      if k < |rest| {
        assert scan.stack[k] == rest[k];
      } else {
        assert PushedOver(scan.stack[k], target, y, start, RunEnd(row, clip.x1, start, target), probeUp, probeDown, up, down);
      }
    }
  }

  /** The seed the next step pops. */
  function Top(st: FillState): Point
    requires |st.stack| > 0
  {
    st.stack[|st.stack| - 1]
  }

  /**
   One iteration of the fill loop: pop the top seed, walk left to the start of its
   run, and scan the run with both flags cleared. Every pixel it changes is a
   seedable pixel that matched and now holds the replacement, every seed it pushes is
   seedable, and the termination measure (pixels still matching, stack length)
   decreases lexicographically.
   */
  function Step(rule: FillRule, clip: Quad, target: Pixel, repl: Pixel, st: FillState): (r: FillState)
    requires Fits(rule, clip, st.img) && AllSeedable(rule, clip, st.stack) && |st.stack| > 0
    ensures SameShape(st.img, r.img) && AllSeedable(rule, clip, r.stack)
    ensures forall i, j :: r.img.Contains(i, j) && r.img.At(i, j) != st.img.At(i, j) ==>
              Seedable(rule, clip, Point(i, j)) && st.img.At(i, j) == target && r.img.At(i, j) == repl
    ensures target != repl ==>
              CountMatch(r.img, target) < CountMatch(st.img, target) || (r.img == st.img && |r.stack| < |st.stack|)
  {
    var pos := Top(st);
    var y := pos.y;
    var row := st.img.rows[y];
    var start := RunStart(row, clip.x0, pos.x, target);
    var rest := st.stack[..|st.stack| - 1];
    var scan := RowScan(rule, clip, target, repl, st.img, y, start, rest);
    ScanInClip(rule, clip, target, repl, st.img, y, start, rest);
    var img := WithRow(st.img, y, scan.row);
    assert scan.row == row ==> img == st.img by {
      if scan.row == row {
        assert st.img.rows[y := row] == st.img.rows;
      }
    }
    FillState(img, scan.stack)
  }

  /**
   The fill loop: steps until the stack is empty. It ends whenever the replacement
   differs from `target`; what it changes are seedable pixels that matched and now
   hold the replacement.
   */
  function Run(rule: FillRule, clip: Quad, target: Pixel, repl: Pixel, st: FillState): (r: Surface)
    requires Fits(rule, clip, st.img) && AllSeedable(rule, clip, st.stack) && target != repl
    ensures SameShape(st.img, r)
    ensures forall i, j :: r.Contains(i, j) && r.At(i, j) != st.img.At(i, j) ==>
              Seedable(rule, clip, Point(i, j)) && st.img.At(i, j) == target && r.At(i, j) == repl
    decreases CountMatch(st.img, target), |st.stack|
  {
    if |st.stack| == 0 then st.img else Run(rule, clip, target, repl, Step(rule, clip, target, repl, st))
  }
}
