/**
 The region a flood fill must cover, and the proof that the corrected fill covers
 exactly it.

 The region of a seed is the set of pixels joined to it by a 4-connected path of
 pixels that lie in the clip and hold the seed's original index. The loop keeps
 three facts: every seed on the stack is in the region; every pixel changed so far
 is in the region and holds the replacement; and every pixel of the region is
 either filled already or joined to some seed on the stack by a path of pixels that
 still hold the original index. When the stack is empty, the region is filled.
 */
module FillRegion {
  import opened GL
  import opened FillScan

  /** `p` and `q` are 4-neighbours. */
  predicate Adjacent(p: Point, q: Point)
  {
    || (p.x == q.x && (p.y == q.y + 1 || q.y == p.y + 1))
    || (p.y == q.y && (p.x == q.x + 1 || q.x == p.x + 1))
  }

  /** Pixel `p` lies in the clip and holds `target` in `img`. */
  ghost predicate Open(img: Surface, clip: Quad, target: Pixel, p: Point)
  {
    InQuad(clip, p.x, p.y) && img.Valid() && img.Contains(p.x, p.y) && img.At(p.x, p.y) == target
  }

  /** `ps` is a 4-connected path of open pixels. */
  ghost predicate Connects(img: Surface, clip: Quad, target: Pixel, ps: seq<Point>)
  {
    && (forall i :: 0 <= i < |ps| ==> Open(img, clip, target, ps[i]))
    && (forall i :: 0 <= i < |ps| - 1 ==> Adjacent(ps[i], ps[i + 1]))
  }

  /** `p` belongs to the region of `seed`: an open path leads from `seed` to `p`. */
  ghost predicate Reach(img: Surface, clip: Quad, target: Pixel, seed: Point, p: Point)
  {
    exists ps :: |ps| > 0 && ps[0] == seed && ps[|ps| - 1] == p && Connects(img, clip, target, ps)
  }

  /** An open path leads from some point of `stack` to `p`. */
  ghost predicate Pending(img: Surface, clip: Quad, target: Pixel, stack: seq<Point>, p: Point)
  {
    exists ps :: |ps| > 0 && ps[0] in stack && ps[|ps| - 1] == p && Connects(img, clip, target, ps)
  }

  /** Pixel `p` no longer holds `target`. */
  ghost predicate Filled(img: Surface, target: Pixel, p: Point)
  {
    img.Valid() && img.Contains(p.x, p.y) && img.At(p.x, p.y) != target
  }

  lemma ReachOpen(img: Surface, clip: Quad, target: Pixel, seed: Point, p: Point)
    requires Reach(img, clip, target, seed, p)
    ensures Open(img, clip, target, p)
  {
    var ps :| |ps| > 0 && ps[0] == seed && ps[|ps| - 1] == p && Connects(img, clip, target, ps);
    assert Open(img, clip, target, ps[|ps| - 1]);
  }

  lemma ReachSeed(img: Surface, clip: Quad, target: Pixel, seed: Point)
    requires Open(img, clip, target, seed)
    ensures Reach(img, clip, target, seed, seed)
  {
    assert Connects(img, clip, target, [seed]);
  }

  /** The region is closed under stepping to an open neighbour. */
  lemma ReachExtend(img: Surface, clip: Quad, target: Pixel, seed: Point, p: Point, q: Point)
    requires Reach(img, clip, target, seed, p) && Open(img, clip, target, q) && Adjacent(p, q)
    ensures Reach(img, clip, target, seed, q)
  {
    var ps :| |ps| > 0 && ps[0] == seed && ps[|ps| - 1] == p && Connects(img, clip, target, ps);
    var qs := ps + [q];
    forall i | 0 <= i < |qs| - 1
      ensures Adjacent(qs[i], qs[i + 1])
    {
      if i < |ps| - 1 {
        assert qs[i] == ps[i] && qs[i + 1] == ps[i + 1];
      }
    }
    assert Connects(img, clip, target, qs);
    assert qs[0] == seed && qs[|qs| - 1] == q;
  }

  /** Along a row of open pixels the region spreads from one end to the other. */
  lemma {:induction false} ReachAlongRow(img: Surface, clip: Quad, target: Pixel, seed: Point, y: int, a: int, b: int)
    requires Reach(img, clip, target, seed, Point(a, y))
    requires forall k :: (a <= k <= b || b <= k <= a) ==> Open(img, clip, target, Point(k, y))
    ensures Reach(img, clip, target, seed, Point(b, y))
    decreases if a <= b then b - a else a - b
  {
    if a < b {
      ReachExtend(img, clip, target, seed, Point(a, y), Point(a + 1, y));
      ReachAlongRow(img, clip, target, seed, y, a + 1, b);
    } else if b < a {
      ReachExtend(img, clip, target, seed, Point(a, y), Point(a - 1, y));
      ReachAlongRow(img, clip, target, seed, y, a - 1, b);
    }
  }

  /** Along a column of open pixels the region spreads from one end to the other. */
  lemma {:induction false} ReachAlongColumn(img: Surface, clip: Quad, target: Pixel, seed: Point, x: int, a: int, b: int)
    requires Reach(img, clip, target, seed, Point(x, a))
    requires forall k :: (a <= k <= b || b <= k <= a) ==> Open(img, clip, target, Point(x, k))
    ensures Reach(img, clip, target, seed, Point(x, b))
    decreases if a <= b then b - a else a - b
  {
    if a < b {
      ReachExtend(img, clip, target, seed, Point(x, a), Point(x, a + 1));
      ReachAlongColumn(img, clip, target, seed, x, a + 1, b);
    } else if b < a {
      ReachExtend(img, clip, target, seed, Point(x, a), Point(x, a - 1));
      ReachAlongColumn(img, clip, target, seed, x, a - 1, b);
    }
  }

  /** When every pixel of the clip holds `target`, the region of a seed in the clip is the whole clip. */
  lemma UniformRegion(img: Surface, clip: Quad, target: Pixel, seed: Point, p: Point)
    requires img.Valid() && QuadFits(clip, img.width, img.height)
    requires forall i, j :: InQuad(clip, i, j) ==> img.Contains(i, j) && img.At(i, j) == target
    requires InQuad(clip, seed.x, seed.y) && InQuad(clip, p.x, p.y)
    ensures Reach(img, clip, target, seed, p)
  {
    ReachSeed(img, clip, target, seed);
    ReachAlongRow(img, clip, target, seed, seed.y, seed.x, p.x);
    ReachAlongColumn(img, clip, target, seed, p.x, seed.y, p.y);
  }

  /** Two open paths that meet end to start join into one. */
  lemma ConnectsConcat(img: Surface, clip: Quad, target: Pixel, ps: seq<Point>, qs: seq<Point>)
    requires Connects(img, clip, target, ps) && Connects(img, clip, target, qs)
    requires |ps| > 0 && |qs| > 0 ==> Adjacent(ps[|ps| - 1], qs[0])
    ensures Connects(img, clip, target, ps + qs)
  {
    var rs := ps + qs;
    forall i | 0 <= i < |rs|
      ensures Open(img, clip, target, rs[i])
    {
      if i < |ps| {
        assert rs[i] == ps[i];
      } else {
        assert rs[i] == qs[i - |ps|];
      }
    }
    forall i | 0 <= i < |rs| - 1
      ensures Adjacent(rs[i], rs[i + 1])
    {
      if i < |ps| - 1 {
        assert rs[i] == ps[i] && rs[i + 1] == ps[i + 1];
      } else if i >= |ps| {
        assert rs[i] == qs[i - |ps|] && rs[i + 1] == qs[i - |ps| + 1];
      }
    }
  }

  /** The horizontal path from column `a` to column `b >= a` of row `y`. */
  function RowPath(a: int, b: int, y: int): (ps: seq<Point>)
    requires a <= b
    ensures |ps| == b - a + 1 && ps[0] == Point(a, y) && ps[|ps| - 1] == Point(b, y)
    ensures forall i :: 0 <= i < |ps| ==> ps[i] == Point(a + i, y)
  {
    seq(b - a + 1, i => Point(a + i, y))
  }

  /** Columns `a..b` of `row` all hold `target`. */
  ghost predicate RunOf(row: seq<Pixel>, a: int, b: int, target: Pixel)
  {
    && (a <= b ==> 0 <= a && b < |row|)
    && forall k :: a <= k <= b ==> row[k] == target
  }

  /**
   Some seed on `stack` lies on row `y`, at or left of column `c`, and every pixel
   of `row` from it to `c` holds `target`.
   */
  ghost predicate Covered(stack: seq<Point>, row: seq<Pixel>, y: int, c: int, target: Pixel)
  {
    exists i :: 0 <= i < |stack| && stack[i].y == y && stack[i].x <= c && RunOf(row, stack[i].x, c, target)
  }

  lemma CoveredPrefix(a: seq<Point>, b: seq<Point>, row: seq<Pixel>, y: int, c: int, target: Pixel)
    requires Covered(a, row, y, c, target) && |a| <= |b| && b[..|a|] == a
    ensures Covered(b, row, y, c, target)
  {
    var i :| 0 <= i < |a| && a[i].y == y && a[i].x <= c && RunOf(row, a[i].x, c, target);
    assert b[i] == a[i];
  }

  lemma CoveredExtend(stack: seq<Point>, row: seq<Pixel>, y: int, c: int, target: Pixel)
    requires Covered(stack, row, y, c, target) && 0 <= c + 1 < |row| && row[c + 1] == target
    ensures Covered(stack, row, y, c + 1, target)
  {
    var i :| 0 <= i < |stack| && stack[i].y == y && stack[i].x <= c && RunOf(row, stack[i].x, c, target);
    assert RunOf(row, stack[i].x, c + 1, target);
  }

  lemma CoveredPush(stack: seq<Point>, row: seq<Pixel>, y: int, c: int, target: Pixel)
    requires 0 <= c < |row| && row[c] == target
    ensures Covered(stack + [Point(c, y)], row, y, c, target)
  {
    assert (stack + [Point(c, y)])[|stack|] == Point(c, y);
    assert RunOf(row, c, c, target);
  }

  /**
   One probe of the corrected fill keeps the flag discipline: a set flag means the
   run of matching pixels above (below) reaching the current column has a seed on
   the stack, and a matching pixel above (below) the current column is covered
   afterwards.
   */
  lemma ProbeCovers(target: Pixel, y: int, x: nat, above: bool, below: bool, probeUp: bool, probeDown: bool,
                    up: seq<Pixel>, down: seq<Pixel>, stack: seq<Point>)
    requires probeUp ==> x < |up|
    requires probeDown ==> x < |down|
    requires above ==> probeUp && Covered(stack, up, y - 1, x - 1, target)
    requires below ==> probeDown && Covered(stack, down, y + 1, x - 1, target)
    ensures var p := ProbeNeighbours(Corrected, target, y, x, above, below, probeUp, probeDown, up, down, stack);
            && (p.above ==> probeUp && Covered(p.stack, up, y - 1, x, target))
            && (p.below ==> probeDown && Covered(p.stack, down, y + 1, x, target))
            && (probeUp && up[x] == target ==> Covered(p.stack, up, y - 1, x, target))
            && (probeDown && down[x] == target ==> Covered(p.stack, down, y + 1, x, target))
  {
    var p := ProbeNeighbours(Corrected, target, y, x, above, below, probeUp, probeDown, up, down, stack);
    var (stack1, above1) :=
      if !above && probeUp && up[x] == target then (stack + [Point(x, y - 1)], true)
      else if above && probeUp && up[x] != target then (stack, false)
      else (stack, above);
    assert |stack1| <= |p.stack| && p.stack[..|stack1|] == stack1;
    if probeUp && up[x] == target {
      if above {
        CoveredExtend(stack, up, y - 1, x - 1, target);
        CoveredPrefix(stack, p.stack, up, y - 1, x, target);
      } else {
        CoveredPush(stack, up, y - 1, x, target);
        CoveredPrefix(stack1, p.stack, up, y - 1, x, target);
      }
    }
    if probeDown && down[x] == target {
      if below {
        CoveredExtend(stack, down, y + 1, x - 1, target);
        CoveredPrefix(stack, p.stack, down, y + 1, x, target);
      } else {
        CoveredPush(stack1, down, y + 1, x, target);
        assert p.stack == stack1 + [Point(x, y + 1)];
      }
    }
  }

  /**
   Every matching pixel just above or below the run a corrected scan fills is
   covered by a seed the scan leaves on the stack: the scan pushes one seed per run
   of matching pixels and, because it clears the right flag, does not skip the
   runs that follow a gap.
   */
  lemma {:induction false} ScanCovers(x1: int, target: Pixel, repl: Pixel, y: int, x: nat, above: bool, below: bool,
                                      probeUp: bool, probeDown: bool, up: seq<Pixel>, down: seq<Pixel>,
                                      row: seq<Pixel>, stack: seq<Point>)
    requires x1 < |row| && (probeUp ==> |up| == |row|) && (probeDown ==> |down| == |row|)
    requires above ==> probeUp && Covered(stack, up, y - 1, x - 1, target)
    requires below ==> probeDown && Covered(stack, down, y + 1, x - 1, target)
    ensures forall c :: x <= c < RunEnd(row, x1, x, target) && probeUp && up[c] == target ==>
              Covered(Scan(Corrected, x1, target, repl, y, x, above, below, probeUp, probeDown, up, down, row, stack).stack,
                      up, y - 1, c, target)
    ensures forall c :: x <= c < RunEnd(row, x1, x, target) && probeDown && down[c] == target ==>
              Covered(Scan(Corrected, x1, target, repl, y, x, above, below, probeUp, probeDown, up, down, row, stack).stack,
                      down, y + 1, c, target)
    decreases x1 + 1 - x
  {
    if x <= x1 && row[x] == target {
      var p := ProbeNeighbours(Corrected, target, y, x, above, below, probeUp, probeDown, up, down, stack);
      var r := Scan(Corrected, x1, target, repl, y, x + 1, p.above, p.below, probeUp, probeDown, up, down, row[x := repl], p.stack);
      assert r == Scan(Corrected, x1, target, repl, y, x, above, below, probeUp, probeDown, up, down, row, stack);
      ProbeCovers(target, y, x, above, below, probeUp, probeDown, up, down, stack);
      ScanCovers(x1, target, repl, y, x + 1, p.above, p.below, probeUp, probeDown, up, down, row[x := repl], p.stack);
      RunEndFrame(row, row[x := repl], x1, x + 1, target);
      if probeUp && up[x] == target {
        CoveredPrefix(p.stack, r.stack, up, y - 1, x, target);
      }
      if probeDown && down[x] == target {
        CoveredPrefix(p.stack, r.stack, down, y + 1, x, target);
      }
    }
  }

  /** The left end of the run the next corrected step fills. */
  ghost function SpanStart(clip: Quad, target: Pixel, st: FillState): int
    requires Fits(Corrected, clip, st.img) && AllSeedable(Corrected, clip, st.stack) && |st.stack| > 0
  {
    RunStart(st.img.rows[Top(st).y], clip.x0, Top(st).x, target)
  }

  /** One past the right end of the run the next corrected step fills. */
  ghost function SpanEnd(clip: Quad, target: Pixel, st: FillState): int
    requires Fits(Corrected, clip, st.img) && AllSeedable(Corrected, clip, st.stack) && |st.stack| > 0
  {
    RunEnd(st.img.rows[Top(st).y], clip.x1, SpanStart(clip, target, st), target)
  }

  /**
   The run `a..e-1` a step fills around the popped seed `pos` is a maximal run of
   matching pixels inside the clip's columns, and it holds `pos` whenever `pos` matches.
   */
  ghost predicate RunFacts(clip: Quad, target: Pixel, st: FillState, pos: Point, a: int, e: int)
  {
    && Fits(Corrected, clip, st.img) && |st.stack| > 0 && pos == Top(st) && Seedable(Corrected, clip, pos)
    && clip.x0 <= a <= pos.x + 1 && a <= e <= clip.x1 + 1
    && (forall k :: a <= k <= pos.x ==> st.img.At(k, pos.y) == target)
    && (forall k :: a <= k < e ==> st.img.At(k, pos.y) == target)
    && (a - 1 < clip.x0 || st.img.At(a - 1, pos.y) != target)
    && (e > clip.x1 || st.img.At(e, pos.y) != target)
  }

  /** The step changes exactly the run `a..e-1` of row `pos.y`, to the replacement. */
  ghost predicate ImageFacts(repl: Pixel, st: FillState, r: FillState, pos: Point, a: int, e: int)
  {
    && SameShape(st.img, r.img)
    && (forall i, j :: r.img.Contains(i, j) ==>
          r.img.At(i, j) == if j == pos.y && a <= i < e then repl else st.img.At(i, j))
  }

  /**
   The step pops the top seed, keeps the rest of the stack, and pushes only
   matching seedable pixels just above or below the run.
   */
  ghost predicate PushFacts(clip: Quad, target: Pixel, st: FillState, r: FillState, pos: Point, a: int, e: int)
    requires st.img.Valid() && |st.stack| > 0
  {
    && |st.stack| - 1 <= |r.stack| && r.stack[..|st.stack| - 1] == st.stack[..|st.stack| - 1]
    && AllSeedable(Corrected, clip, r.stack)
    && (forall k :: |st.stack| - 1 <= k < |r.stack| ==>
          && a <= r.stack[k].x < e
          && (r.stack[k].y == pos.y - 1 || r.stack[k].y == pos.y + 1)
          && st.img.Contains(r.stack[k].x, r.stack[k].y)
          && st.img.At(r.stack[k].x, r.stack[k].y) == target)
  }

  /** Every matching pixel of row `y` in columns `a..e-1` is covered by a seed on `stack`. */
  ghost predicate CoversRow(stack: seq<Point>, img: Surface, y: int, a: int, e: int, target: Pixel)
  {
    forall c :: a <= c < e && img.Valid() && img.Contains(c, y) && img.At(c, y) == target ==>
      Covered(stack, img.rows[y], y, c, target)
  }

  /** The rows just above and below the run that lie in the clip are covered by the new stack. */
  ghost predicate CoverFacts(clip: Quad, target: Pixel, st: FillState, r: FillState, pos: Point, a: int, e: int)
  {
    && (pos.y > clip.y0 ==> CoversRow(r.stack, st.img, pos.y - 1, a, e, target))
    && (pos.y < clip.y1 ==> CoversRow(r.stack, st.img, pos.y + 1, a, e, target))
  }

  /** What one corrected step does, in terms of its popped seed `pos` and the run `a..e-1` it fills. */
  ghost predicate StepFacts(clip: Quad, target: Pixel, repl: Pixel, st: FillState, r: FillState, pos: Point, a: int, e: int)
  {
    && RunFacts(clip, target, st, pos, a, e)
    && ImageFacts(repl, st, r, pos, a, e)
    && PushFacts(clip, target, st, r, pos, a, e)
    && CoverFacts(clip, target, st, r, pos, a, e)
  }

  lemma StepRun(clip: Quad, target: Pixel, st: FillState)
    requires Fits(Corrected, clip, st.img) && AllSeedable(Corrected, clip, st.stack) && |st.stack| > 0
    ensures RunFacts(clip, target, st, Top(st), SpanStart(clip, target, st), SpanEnd(clip, target, st))
  {
    assert Seedable(Corrected, clip, Top(st));
  }

  lemma StepImage(clip: Quad, target: Pixel, repl: Pixel, st: FillState)
    requires Fits(Corrected, clip, st.img) && AllSeedable(Corrected, clip, st.stack) && |st.stack| > 0
    ensures ImageFacts(repl, st, Step(Corrected, clip, target, repl, st), Top(st), SpanStart(clip, target, st), SpanEnd(clip, target, st))
  {
    var y := Top(st).y;
    var a := SpanStart(clip, target, st);
    var rest := st.stack[..|st.stack| - 1];
    assert Seedable(Corrected, clip, Top(st));
    var probeUp := ProbesUp(Corrected, clip, y);
    var probeDown := y < clip.y1;
    var up := if probeUp then st.img.rows[y - 1] else [];
    var down := if probeDown then st.img.rows[y + 1] else [];
    ScanWrites(Corrected, clip.x1, target, repl, y, a, false, false, probeUp, probeDown, up, down, st.img.rows[y], rest);
  }

  lemma StepPushes(clip: Quad, target: Pixel, repl: Pixel, st: FillState)
    requires Fits(Corrected, clip, st.img) && AllSeedable(Corrected, clip, st.stack) && |st.stack| > 0
    ensures PushFacts(clip, target, st, Step(Corrected, clip, target, repl, st), Top(st), SpanStart(clip, target, st), SpanEnd(clip, target, st))
  {
    var y := Top(st).y;
    var a := SpanStart(clip, target, st);
    var e := SpanEnd(clip, target, st);
    var rest := st.stack[..|st.stack| - 1];
    assert Seedable(Corrected, clip, Top(st));
    var probeUp := ProbesUp(Corrected, clip, y);
    var probeDown := y < clip.y1;
    var up := if probeUp then st.img.rows[y - 1] else [];
    var down := if probeDown then st.img.rows[y + 1] else [];
    var scan := RowScan(Corrected, clip, target, repl, st.img, y, a, rest);
    ScanSeeds(Corrected, clip.x1, target, repl, y, a, false, false, probeUp, probeDown, up, down, st.img.rows[y], rest);
    ScanInClip(Corrected, clip, target, repl, st.img, y, a, rest);
    assert Step(Corrected, clip, target, repl, st).stack == scan.stack;
    forall k | |rest| <= k < |scan.stack|
      ensures && a <= scan.stack[k].x < e
              && (scan.stack[k].y == y - 1 || scan.stack[k].y == y + 1)
              && st.img.Contains(scan.stack[k].x, scan.stack[k].y)
              && st.img.At(scan.stack[k].x, scan.stack[k].y) == target
    {
      assert PushedOver(scan.stack[k], target, y, a, e, probeUp, probeDown, up, down);
    }
  }

  lemma StepCovers(clip: Quad, target: Pixel, repl: Pixel, st: FillState)
    requires Fits(Corrected, clip, st.img) && AllSeedable(Corrected, clip, st.stack) && |st.stack| > 0
    ensures CoverFacts(clip, target, st, Step(Corrected, clip, target, repl, st), Top(st), SpanStart(clip, target, st), SpanEnd(clip, target, st))
  {
    var y := Top(st).y;
    var a := SpanStart(clip, target, st);
    var rest := st.stack[..|st.stack| - 1];
    assert Seedable(Corrected, clip, Top(st));
    var probeUp := ProbesUp(Corrected, clip, y);
    var probeDown := y < clip.y1;
    var up := if probeUp then st.img.rows[y - 1] else [];
    var down := if probeDown then st.img.rows[y + 1] else [];
    var scan := RowScan(Corrected, clip, target, repl, st.img, y, a, rest);
    ScanCovers(clip.x1, target, repl, y, a, false, false, probeUp, probeDown, up, down, st.img.rows[y], rest);
    assert Step(Corrected, clip, target, repl, st).stack == scan.stack;
  }

  /** The facts of a corrected step, with its popped seed and filled run named. */
  lemma StepSpan(clip: Quad, target: Pixel, repl: Pixel, st: FillState) returns (r: FillState, pos: Point, a: int, e: int)
    requires Fits(Corrected, clip, st.img) && AllSeedable(Corrected, clip, st.stack) && |st.stack| > 0
    ensures r == Step(Corrected, clip, target, repl, st)
    ensures StepFacts(clip, target, repl, st, r, pos, a, e)
  {
    r, pos, a, e := Step(Corrected, clip, target, repl, st), Top(st), SpanStart(clip, target, st), SpanEnd(clip, target, st);
    StepRun(clip, target, st);
    StepImage(clip, target, repl, st);
    StepPushes(clip, target, repl, st);
    StepCovers(clip, target, repl, st);
  }

  /** The loop invariant of the corrected fill of the region of `seed`, whose original image is `img0`. */
  ghost predicate Invariant(clip: Quad, target: Pixel, repl: Pixel, img0: Surface, seed: Point, st: FillState)
  {
    && Fits(Corrected, clip, img0) && target != repl
    && SameShape(img0, st.img)
    && AllSeedable(Corrected, clip, st.stack)
    && (forall k :: 0 <= k < |st.stack| ==> Reach(img0, clip, target, seed, st.stack[k]))
    && (forall i, j :: st.img.Contains(i, j) && st.img.At(i, j) != img0.At(i, j) ==>
          st.img.At(i, j) == repl && Reach(img0, clip, target, seed, Point(i, j)))
    && (forall p :: Reach(img0, clip, target, seed, p) ==>
          Filled(st.img, target, p) || Pending(st.img, clip, target, st.stack, p))
  }

  /** The invariant holds when the stack holds only the seed and nothing is filled yet. */
  lemma InitialInvariant(clip: Quad, target: Pixel, repl: Pixel, img0: Surface, seed: Point)
    requires Fits(Corrected, clip, img0) && target != repl && Open(img0, clip, target, seed)
    ensures Invariant(clip, target, repl, img0, seed, FillState(img0, [seed]))
  {
    ReachSeed(img0, clip, target, seed);
    forall p | Reach(img0, clip, target, seed, p)
      ensures Pending(img0, clip, target, [seed], p)
    {
      var ps :| |ps| > 0 && ps[0] == seed && ps[|ps| - 1] == p && Connects(img0, clip, target, ps);
      assert ps[0] in [seed];
    }
  }

  /** Under the invariant, a pixel that still holds `target` held it originally. */
  lemma StillTarget(clip: Quad, target: Pixel, repl: Pixel, img0: Surface, seed: Point, st: FillState, p: Point)
    requires Invariant(clip, target, repl, img0, seed, st)
    requires InQuad(clip, p.x, p.y) && st.img.At(p.x, p.y) == target
    ensures Open(img0, clip, target, p)
  {
  }

  /** Every pixel of the run a corrected step fills is in the region. */
  lemma RunInRegion(clip: Quad, target: Pixel, repl: Pixel, img0: Surface, seed: Point, st: FillState,
                    r: FillState, pos: Point, a: int, e: int)
    requires Invariant(clip, target, repl, img0, seed, st) && StepFacts(clip, target, repl, st, r, pos, a, e)
    ensures forall k :: a <= k < e ==> Reach(img0, clip, target, seed, Point(k, pos.y))
  {
    if a < e {
      forall k | a <= k < e
        ensures Open(img0, clip, target, Point(k, pos.y))
      {
        StillTarget(clip, target, repl, img0, seed, st, Point(k, pos.y));
      }
      assert Reach(img0, clip, target, seed, pos);
      if a <= pos.x {
        ReachAlongRow(img0, clip, target, seed, pos.y, pos.x, a);
      } else {
        ReachExtend(img0, clip, target, seed, pos, Point(a, pos.y));
      }
      forall k | a <= k < e
        ensures Reach(img0, clip, target, seed, Point(k, pos.y))
      {
        ReachAlongRow(img0, clip, target, seed, pos.y, a, k);
      }
    }
  }

  /** Index of the last point of `ps[..n]` in the run `a..e-1` of row `y`, or -1. */
  function LastInRun(ps: seq<Point>, y: int, a: int, e: int, n: nat): (m: int)
    requires n <= |ps|
    ensures -1 <= m < n
    ensures m >= 0 ==> ps[m].y == y && a <= ps[m].x < e
    ensures forall i :: m < i < n ==> !(ps[i].y == y && a <= ps[i].x < e)
  {
    if n == 0 then -1
    else if ps[n - 1].y == y && a <= ps[n - 1].x < e then n - 1
    else LastInRun(ps, y, a, e, n - 1)
  }

  /** The part of an open path from index `from` on that avoids the filled run stays open after the step. */
  lemma TailOpen(clip: Quad, target: Pixel, repl: Pixel, st: FillState, r: FillState, pos: Point, a: int, e: int,
                 ps: seq<Point>, from: nat)
    requires ImageFacts(repl, st, r, pos, a, e)
    requires Connects(st.img, clip, target, ps) && from <= |ps|
    requires forall i :: from <= i < |ps| ==> !(ps[i].y == pos.y && a <= ps[i].x < e)
    ensures Connects(r.img, clip, target, ps[from..])
  {
    var tail := ps[from..];
    forall k | 0 <= k < |tail|
      ensures Open(r.img, clip, target, tail[k])
    {
      assert tail[k] == ps[from + k];
      assert Open(st.img, clip, target, ps[from + k]);
    }
    forall k | 0 <= k < |tail| - 1
      ensures Adjacent(tail[k], tail[k + 1])
    {
      assert tail[k] == ps[from + k] && tail[k + 1] == ps[from + k + 1];
    }
  }

  /** A path that avoids the filled run still starts on the stack and stays open after the step. */
  lemma RerouteAround(clip: Quad, target: Pixel, repl: Pixel, st: FillState, r: FillState, pos: Point, a: int, e: int,
                      ps: seq<Point>)
    requires StepFacts(clip, target, repl, st, r, pos, a, e)
    requires |ps| > 0 && ps[0] in st.stack && Connects(st.img, clip, target, ps)
    requires forall i :: 0 <= i < |ps| ==> !(ps[i].y == pos.y && a <= ps[i].x < e)
    ensures Pending(r.img, clip, target, r.stack, ps[|ps| - 1])
  {
    TailOpen(clip, target, repl, st, r, pos, a, e, ps, 0);
    assert ps[0..] == ps;
    var i :| 0 <= i < |st.stack| && st.stack[i] == ps[0];
    assert Open(st.img, clip, target, ps[0]);
    assert i < |st.stack| - 1;
    assert r.stack[i] == st.stack[..|st.stack| - 1][i];
    assert ps[0] in r.stack;
  }

  /**
   Where a path leaves the filled run for the last time, from index `m` to `m + 1`,
   it steps to a matching pixel just above or below the run, and a seed on the new
   stack lies on that pixel's row with only matching pixels between them.
   */
  lemma ExitCovered(clip: Quad, target: Pixel, repl: Pixel, st: FillState, r: FillState, pos: Point, a: int, e: int,
                    ps: seq<Point>, m: nat) returns (s: Point)
    requires RunFacts(clip, target, st, pos, a, e) && CoverFacts(clip, target, st, r, pos, a, e)
    requires Connects(st.img, clip, target, ps) && m < |ps| - 1
    requires ps[m].y == pos.y && a <= ps[m].x < e
    requires !(ps[m + 1].y == pos.y && a <= ps[m + 1].x < e)
    ensures s in r.stack && s.y == ps[m + 1].y != pos.y && s.x <= ps[m + 1].x <= clip.x1
    ensures RunOf(st.img.rows[s.y], s.x, ps[m + 1].x, target)
  {
    var q := ps[m + 1];
    assert Adjacent(ps[m], q);
    assert Open(st.img, clip, target, q);
    assert q.y != pos.y;
    assert Covered(r.stack, st.img.rows[q.y], q.y, q.x, target);
    var i :| 0 <= i < |r.stack| && r.stack[i].y == q.y && r.stack[i].x <= q.x && RunOf(st.img.rows[q.y], r.stack[i].x, q.x, target);
    s := r.stack[i];
  }

  /**
   A path that leaves the filled run for the last time at index `m` is replaced by
   the row path from the seed covering its exit pixel, followed by the rest of it.
   */
  lemma RerouteVia(clip: Quad, target: Pixel, repl: Pixel, st: FillState, r: FillState, pos: Point, a: int, e: int,
                   ps: seq<Point>, m: nat)
    requires StepFacts(clip, target, repl, st, r, pos, a, e)
    requires Connects(st.img, clip, target, ps) && m < |ps| - 1
    requires ps[m].y == pos.y && a <= ps[m].x < e
    requires forall i :: m < i < |ps| ==> !(ps[i].y == pos.y && a <= ps[i].x < e)
    ensures Pending(r.img, clip, target, r.stack, ps[|ps| - 1])
  {
    var s := ExitCovered(clip, target, repl, st, r, pos, a, e, ps, m);
    var rp := RowPathOpen(clip, target, repl, st, r, pos, a, e, s, ps[m + 1].x);
    TailOpen(clip, target, repl, st, r, pos, a, e, ps, m + 2);
    var tail := ps[m + 2..];
    if |tail| > 0 {
      assert tail[0] == ps[m + 2];
      assert Adjacent(ps[m + 1], ps[m + 2]);
    }
    ConnectsConcat(r.img, clip, target, rp, tail);
    var path := rp + tail;
    assert path[0] == s;
    assert path[|path| - 1] == ps[|ps| - 1];
  }

  /**
   The row path from a seed `s` on the new stack, off the filled row, to column `c`,
   when the pixels between matched before the step, is open after the step.
   */
  lemma RowPathOpen(clip: Quad, target: Pixel, repl: Pixel, st: FillState, r: FillState, pos: Point, a: int, e: int,
                    s: Point, c: int) returns (rp: seq<Point>)
    requires StepFacts(clip, target, repl, st, r, pos, a, e)
    requires s in r.stack && s.y != pos.y && s.x <= c <= clip.x1 && RunOf(st.img.rows[s.y], s.x, c, target)
    ensures rp == RowPath(s.x, c, s.y) && Connects(r.img, clip, target, rp)
  {
    assert Seedable(Corrected, clip, s);
    rp := RowPath(s.x, c, s.y);
    forall k | 0 <= k < |rp|
      ensures Open(r.img, clip, target, rp[k])
    {
      assert st.img.At(s.x + k, s.y) == st.img.rows[s.y][s.x + k];
    }
  }

  /**
   A path of matching pixels from a seed on the stack before a corrected step
   to a pixel the step leaves matching can be redirected to start from a seed on the
   stack after the step: either it avoids the filled run, or it leaves the run for
   the last time through a pixel just above or below it.
   */
  lemma Reroute(clip: Quad, target: Pixel, repl: Pixel, st: FillState, r: FillState, pos: Point, a: int, e: int,
                ps: seq<Point>)
    requires StepFacts(clip, target, repl, st, r, pos, a, e) && target != repl
    requires |ps| > 0 && ps[0] in st.stack && Connects(st.img, clip, target, ps)
    requires r.img.At(ps[|ps| - 1].x, ps[|ps| - 1].y) == target
    ensures Pending(r.img, clip, target, r.stack, ps[|ps| - 1])
  {
    var m := LastInRun(ps, pos.y, a, e, |ps|);
    assert Open(st.img, clip, target, ps[|ps| - 1]);
    if m < 0 {
      RerouteAround(clip, target, repl, st, r, pos, a, e, ps);
    } else {
      RerouteVia(clip, target, repl, st, r, pos, a, e, ps, m);
    }
  }

  /** Every seed on the stack after a corrected step is in the region. */
  lemma StackInRegion(clip: Quad, target: Pixel, repl: Pixel, img0: Surface, seed: Point, st: FillState,
                      r: FillState, pos: Point, a: int, e: int)
    requires Invariant(clip, target, repl, img0, seed, st) && StepFacts(clip, target, repl, st, r, pos, a, e)
    requires forall k :: a <= k < e ==> Reach(img0, clip, target, seed, Point(k, pos.y))
    ensures forall k :: 0 <= k < |r.stack| ==> Reach(img0, clip, target, seed, r.stack[k])
  {
    forall k | 0 <= k < |r.stack|
      ensures Reach(img0, clip, target, seed, r.stack[k])
    {
      if k < |st.stack| - 1 {
        assert r.stack[k] == st.stack[..|st.stack| - 1][k];
      } else {
        var q := r.stack[k];
        assert Seedable(Corrected, clip, q);
        StillTarget(clip, target, repl, img0, seed, st, q);
        ReachExtend(img0, clip, target, seed, Point(q.x, pos.y), q);
      }
    }
  }

  /** Every pixel that differs from the original after a corrected step holds the replacement and is in the region. */
  lemma ChangesInRegion(clip: Quad, target: Pixel, repl: Pixel, img0: Surface, seed: Point, st: FillState,
                        r: FillState, pos: Point, a: int, e: int)
    requires Invariant(clip, target, repl, img0, seed, st) && ImageFacts(repl, st, r, pos, a, e)
    requires forall k :: a <= k < e ==> Reach(img0, clip, target, seed, Point(k, pos.y))
    ensures forall i, j :: r.img.Contains(i, j) && r.img.At(i, j) != img0.At(i, j) ==>
              r.img.At(i, j) == repl && Reach(img0, clip, target, seed, Point(i, j))
  {
  }

  /** After a corrected step, every pixel of the region is filled or reachable from the new stack. */
  lemma RegionPending(clip: Quad, target: Pixel, repl: Pixel, img0: Surface, seed: Point, st: FillState,
                      r: FillState, pos: Point, a: int, e: int)
    requires Invariant(clip, target, repl, img0, seed, st) && StepFacts(clip, target, repl, st, r, pos, a, e)
    ensures forall p :: Reach(img0, clip, target, seed, p) ==>
              Filled(r.img, target, p) || Pending(r.img, clip, target, r.stack, p)
  {
    forall p | Reach(img0, clip, target, seed, p)
      ensures Filled(r.img, target, p) || Pending(r.img, clip, target, r.stack, p)
    {
      ReachOpen(img0, clip, target, seed, p);
      if r.img.At(p.x, p.y) == target {
        assert !Filled(st.img, target, p);
        var ps :| |ps| > 0 && ps[0] in st.stack && ps[|ps| - 1] == p && Connects(st.img, clip, target, ps);
        Reroute(clip, target, repl, st, r, pos, a, e, ps);
      }
    }
  }

  /** A corrected step keeps the invariant. */
  lemma StepKeeps(clip: Quad, target: Pixel, repl: Pixel, img0: Surface, seed: Point, st: FillState)
    requires Invariant(clip, target, repl, img0, seed, st) && |st.stack| > 0
    ensures Invariant(clip, target, repl, img0, seed, Step(Corrected, clip, target, repl, st))
  {
    var r, pos, a, e := StepSpan(clip, target, repl, st);
    RunInRegion(clip, target, repl, img0, seed, st, r, pos, a, e);
    StackInRegion(clip, target, repl, img0, seed, st, r, pos, a, e);
    ChangesInRegion(clip, target, repl, img0, seed, st, r, pos, a, e);
    RegionPending(clip, target, repl, img0, seed, st, r, pos, a, e);
  }

  /**
   The corrected loop, run from a state satisfying the invariant, ends with exactly
   the region of `seed` holding the replacement and every other pixel as it was
   originally.
   */
  lemma {:induction false} RunCovers(clip: Quad, target: Pixel, repl: Pixel, img0: Surface, seed: Point, st: FillState)
    requires Invariant(clip, target, repl, img0, seed, st)
    ensures SameShape(img0, Run(Corrected, clip, target, repl, st))
    ensures forall i, j :: Run(Corrected, clip, target, repl, st).Contains(i, j) ==>
              Run(Corrected, clip, target, repl, st).At(i, j) ==
                if Reach(img0, clip, target, seed, Point(i, j)) then repl else img0.At(i, j)
    decreases CountMatch(st.img, target), |st.stack|
  {
    if |st.stack| == 0 {
      forall i, j | st.img.Contains(i, j)
        ensures st.img.At(i, j) == if Reach(img0, clip, target, seed, Point(i, j)) then repl else img0.At(i, j)
      {
        if Reach(img0, clip, target, seed, Point(i, j)) {
          ReachOpen(img0, clip, target, seed, Point(i, j));
          assert !Pending(st.img, clip, target, st.stack, Point(i, j));
        }
      }
    } else {
      StepKeeps(clip, target, repl, img0, seed, st);
      RunCovers(clip, target, repl, img0, seed, Step(Corrected, clip, target, repl, st));
    }
  }
}
