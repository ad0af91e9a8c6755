/**
 Sprite sheets: an atlas surface cut into a row-major grid of equal cells. A
 partial trailing column or row that cannot hold a whole cell is discarded.
 */
module Sheets {
  import opened GL
  import Arith

  datatype Sheet = Sheet(atlas: Surface, cells: seq<Rect>, size: Size)

  /** Number of whole cells across and down. */
  function Columns(width: nat, cellWidth: nat): nat
    requires cellWidth > 0
  {
    width / cellWidth
  }

  function Rows(height: nat, cellHeight: nat): nat
    requires cellHeight > 0
  {
    height / cellHeight
  }

  /** Cell `k` of a grid `columns` cells wide: grid row `k / columns`, grid column `k % columns`. */
  function CellAt(columns: nat, cellWidth: nat, cellHeight: nat, k: nat): Rect
    requires columns > 0
  {
    Rect((k % columns) * cellWidth, (k / columns) * cellHeight, cellWidth, cellHeight)
  }

  /** The grid as an index-addressed table of whole cells, row-major. */
  function Grid(width: nat, height: nat, cellWidth: nat, cellHeight: nat): seq<Rect>
    requires cellWidth > 0 && cellHeight > 0
  {
    var columns := Columns(width, cellWidth);
    var rows := Rows(height, cellHeight);
    seq(columns * rows, k requires 0 <= k < columns * rows => CellAt(columns, cellWidth, cellHeight, k))
  }

  /** `n` lies in the `q`-th span of length `d` exactly when `n / d` is `q`. */
  lemma {:induction false} DivSpan(n: int, d: int, q: nat)
    requires d > 0
    ensures (q * d <= n < q * d + d) <==> (0 <= n && n / d == q)
  {
    if q * d <= n < q * d + d {
      Arith.DivModUnique(n, d, q, n - q * d);
    }
    if 0 <= n && n / d == q {
      assert n == (n / d) * d + n % d;
    }
  }

  /** A non-negative `n` is below `m * d` exactly when `n / d` is below `m`. */
  lemma {:induction false} DivBelow(n: nat, d: int, m: nat)
    requires d > 0
    ensures n < m * d <==> n / d < m
  {
    assert n == (n / d) * d + n % d;
    if n / d < m {
      Arith.MulMono(n / d + 1, m, d);
    } else {
      Arith.MulMono(m, n / d, d);
    }
  }

  /** Index `i * columns + j` with `j < columns` is cell (`i`, `j`). */
  lemma {:induction false} CellAtLayout(columns: nat, cellWidth: nat, cellHeight: nat, i: nat, j: nat)
    requires j < columns
    ensures CellAt(columns, cellWidth, cellHeight, i * columns + j) == Rect(j * cellWidth, i * cellHeight, cellWidth, cellHeight)
  {
    Arith.DivModUnique(i * columns + j, columns, i, j);
  }

  /** The grid holds `(width / cellWidth) * (height / cellHeight)` cells. */
  lemma GridCount(width: nat, height: nat, cellWidth: nat, cellHeight: nat)
    requires cellWidth > 0 && cellHeight > 0
    ensures |Grid(width, height, cellWidth, cellHeight)| == (width / cellWidth) * (height / cellHeight)
  {
  }

  /** Cell `i * columns + j` is the cell of grid row `i` and grid column `j`. */
  lemma {:induction false} GridLayout(width: nat, height: nat, cellWidth: nat, cellHeight: nat, i: nat, j: nat)
    requires cellWidth > 0 && cellHeight > 0
    requires i < Rows(height, cellHeight) && j < Columns(width, cellWidth)
    ensures i * Columns(width, cellWidth) + j < |Grid(width, height, cellWidth, cellHeight)|
    ensures Grid(width, height, cellWidth, cellHeight)[i * Columns(width, cellWidth) + j]
            == Rect(j * cellWidth, i * cellHeight, cellWidth, cellHeight)
  {
    var columns := Columns(width, cellWidth);
    var rows := Rows(height, cellHeight);
    Arith.MulMono(i + 1, rows, columns);
    CellAtLayout(columns, cellWidth, cellHeight, i, j);
  }

  /** Whole cells span `columns * cellWidth` pixels, which fit in `width`. */
  lemma SpanFits(width: nat, cellWidth: nat)
    requires cellWidth > 0
    ensures Columns(width, cellWidth) * cellWidth <= width
  {
  }

  /**
   A pixel lies in cell `k` exactly when it lies in the whole-cell part of the atlas
   and `k` is the index of the cell its coordinates divide into.
   */
  lemma {:induction false} InCellIff(width: nat, height: nat, cellWidth: nat, cellHeight: nat, k: nat, px: int, py: int)
    requires cellWidth > 0 && cellHeight > 0
    requires k < |Grid(width, height, cellWidth, cellHeight)|
    ensures InRect(Grid(width, height, cellWidth, cellHeight)[k], px, py) <==>
              && 0 <= px < Columns(width, cellWidth) * cellWidth
              && 0 <= py < Rows(height, cellHeight) * cellHeight
              && k == (py / cellHeight) * Columns(width, cellWidth) + px / cellWidth
  {
    var columns := Columns(width, cellWidth);
    var rows := Rows(height, cellHeight);
    var i, j := k / columns, k % columns;
    assert i < rows by {
      DivBelow(k, columns, rows);
    }
    CellAtLayout(columns, cellWidth, cellHeight, i, j);
    assert Grid(width, height, cellWidth, cellHeight)[k] == Rect(j * cellWidth, i * cellHeight, cellWidth, cellHeight);
    CellIff(columns, rows, cellWidth, cellHeight, i, j, px, py);
  }

  /** The arithmetic behind `InCellIff`, for cell (`i`, `j`) of a `columns` x `rows` grid. */
  lemma {:induction false} CellIff(columns: nat, rows: nat, cellWidth: int, cellHeight: int, i: nat, j: nat, px: int, py: int)
    requires cellWidth > 0 && cellHeight > 0 && i < rows && j < columns
    ensures (j * cellWidth <= px < j * cellWidth + cellWidth && i * cellHeight <= py < i * cellHeight + cellHeight) <==>
              && 0 <= px < columns * cellWidth
              && 0 <= py < rows * cellHeight
              && i * columns + j == (py / cellHeight) * columns + px / cellWidth
  {
    DivSpan(px, cellWidth, j);
    DivSpan(py, cellHeight, i);
    if 0 <= px && 0 <= py {
      DivBelow(px, cellWidth, columns);
      DivBelow(py, cellHeight, rows);
      var a, b := px / cellWidth, py / cellHeight;
      if a < columns && i * columns + j == b * columns + a {
        Arith.DivModUnique(i * columns + j, columns, i, j);
        Arith.DivModUnique(i * columns + j, columns, b, a);
      }
    }
  }

  /** Every cell lies inside the atlas. */
  lemma GridInside(width: nat, height: nat, cellWidth: nat, cellHeight: nat)
    requires cellWidth > 0 && cellHeight > 0
    ensures forall k :: 0 <= k < |Grid(width, height, cellWidth, cellHeight)| ==>
              var cell := Grid(width, height, cellWidth, cellHeight)[k];
              0 <= cell.x && cell.x + cellWidth <= width && 0 <= cell.y && cell.y + cellHeight <= height
  {
    forall k | 0 <= k < |Grid(width, height, cellWidth, cellHeight)| {
      CellInside(width, height, cellWidth, cellHeight, k);
    }
  }

  /** Cell `k` of the grid lies inside the atlas. */
  lemma CellInside(width: nat, height: nat, cellWidth: nat, cellHeight: nat, k: nat)
    requires cellWidth > 0 && cellHeight > 0 && k < |Grid(width, height, cellWidth, cellHeight)|
    ensures var cell := Grid(width, height, cellWidth, cellHeight)[k];
            0 <= cell.x && cell.x + cellWidth <= width && 0 <= cell.y && cell.y + cellHeight <= height
  {
    var columns := Columns(width, cellWidth);
    var rows := Rows(height, cellHeight);
    assert k / columns < rows by {
      DivBelow(k, columns, rows);
    }
    SlotFits(k % columns, width, cellWidth);
    SlotFits(k / columns, height, cellHeight);
  }

  /** Slot `j` of the whole slots of length `d` in `n` ends within `n`. */
  lemma SlotFits(j: nat, n: nat, d: int)
    requires d > 0 && j < n / d
    ensures (j + 1) * d <= n
  {
    Arith.MulMono(j + 1, n / d, d);
  }

  /** No pixel belongs to two different cells. */
  lemma GridDisjoint(width: nat, height: nat, cellWidth: nat, cellHeight: nat, k: nat, l: nat, px: int, py: int)
    requires cellWidth > 0 && cellHeight > 0
    requires k < l < |Grid(width, height, cellWidth, cellHeight)|
    ensures !(InRect(Grid(width, height, cellWidth, cellHeight)[k], px, py) &&
              InRect(Grid(width, height, cellWidth, cellHeight)[l], px, py))
  {
    InCellIff(width, height, cellWidth, cellHeight, k, px, py);
    InCellIff(width, height, cellWidth, cellHeight, l, px, py);
  }

  /**
   The cells cover exactly the pixels of the whole-cell part of the atlas,
   `[0, columns * cellWidth) x [0, rows * cellHeight)`.
   */
  lemma GridCovers(width: nat, height: nat, cellWidth: nat, cellHeight: nat, px: int, py: int)
    requires cellWidth > 0 && cellHeight > 0
    ensures (exists k :: 0 <= k < |Grid(width, height, cellWidth, cellHeight)| &&
                         InRect(Grid(width, height, cellWidth, cellHeight)[k], px, py))
            <==> (0 <= px < Columns(width, cellWidth) * cellWidth && 0 <= py < Rows(height, cellHeight) * cellHeight)
  {
    if exists k :: 0 <= k < |Grid(width, height, cellWidth, cellHeight)| &&
                   InRect(Grid(width, height, cellWidth, cellHeight)[k], px, py) {
      var k :| 0 <= k < |Grid(width, height, cellWidth, cellHeight)| &&
               InRect(Grid(width, height, cellWidth, cellHeight)[k], px, py);
      InCellIff(width, height, cellWidth, cellHeight, k, px, py);
    }
    if 0 <= px < Columns(width, cellWidth) * cellWidth && 0 <= py < Rows(height, cellHeight) * cellHeight {
      var k := CellOf(width, height, cellWidth, cellHeight, px, py);
    }
  }

  /** A pixel of the whole-cell part of the atlas lies in the cell its coordinates divide into. */
  lemma CellOf(width: nat, height: nat, cellWidth: nat, cellHeight: nat, px: int, py: int) returns (k: nat)
    requires cellWidth > 0 && cellHeight > 0
    requires 0 <= px < Columns(width, cellWidth) * cellWidth && 0 <= py < Rows(height, cellHeight) * cellHeight
    ensures k < |Grid(width, height, cellWidth, cellHeight)| && InRect(Grid(width, height, cellWidth, cellHeight)[k], px, py)
  {
    var columns := Columns(width, cellWidth);
    var rows := Rows(height, cellHeight);
    DivBelow(px, cellWidth, columns);
    DivBelow(py, cellHeight, rows);
    var i, j := py / cellHeight, px / cellWidth;
    GridLayout(width, height, cellWidth, cellHeight, i, j);
    k := i * columns + j;
    InCellIff(width, height, cellWidth, cellHeight, k, px, py);
  }

  /**
   Cuts the atlas the way the sheet loader does: grid rows top to bottom, and in
   each grid row the cells left to right, appended one after the other.
   */
  method PrecomputeCells(width: nat, height: nat, cellWidth: nat, cellHeight: nat) returns (cells: seq<Rect>)
    requires cellWidth > 0 && cellHeight > 0
    ensures cells == Grid(width, height, cellWidth, cellHeight)
  {
    var columns := width / cellWidth;
    var rows := height / cellHeight;
    cells := [];
    var i := 0;
    while i < rows
      invariant 0 <= i <= rows
      invariant |cells| == i * columns
      invariant forall k :: 0 <= k < |cells| ==> cells[k] == CellAt(columns, cellWidth, cellHeight, k)
    {
      var y := i * cellHeight;
      var j := 0;
      while j < columns
        invariant 0 <= j <= columns
        invariant |cells| == i * columns + j
        invariant forall k :: 0 <= k < |cells| ==> cells[k] == CellAt(columns, cellWidth, cellHeight, k)
      {
        var x := j * cellWidth;
        CellAtLayout(columns, cellWidth, cellHeight, i, j);
        cells := cells + [Rect(x, y, cellWidth, cellHeight)];
        j := j + 1;
      }
      assert i * columns + columns == (i + 1) * columns;
      i := i + 1;
    }
  }

  /** A sheet whose cells are the whole-cell grid of its atlas. */
  ghost predicate WellCut(sheet: Sheet)
  {
    && sheet.atlas.Valid()
    && sheet.size.width > 0 && sheet.size.height > 0
    && |sheet.cells| == Columns(sheet.atlas.width, sheet.size.width) * Rows(sheet.atlas.height, sheet.size.height)
    && (forall k :: 0 <= k < |sheet.cells| ==>
          && sheet.cells[k].width == sheet.size.width && sheet.cells[k].height == sheet.size.height
          && 0 <= sheet.cells[k].x && sheet.cells[k].x + sheet.size.width <= sheet.atlas.width
          && 0 <= sheet.cells[k].y && sheet.cells[k].y + sheet.size.height <= sheet.atlas.height)
  }

  /**
   Builds a sheet from the outcome of loading or decoding its atlas. A failed load
   or decode yields no sheet; a loaded atlas yields a sheet of `cellWidth` x
   `cellHeight` cells cut from it.
   */
  function FromAtlas(atlas: Option<Surface>, cellWidth: nat, cellHeight: nat): (r: Option<Sheet>)
    requires atlas.Some? ==> atlas.value.Valid() && cellWidth > 0 && cellHeight > 0
    ensures r.Some? <==> atlas.Some?
    ensures r.Some? ==> WellCut(r.value)
    ensures r.Some? ==> r.value.atlas == atlas.value && r.value.size == Size(cellWidth, cellHeight)
    ensures r.Some? ==> r.value.cells == Grid(atlas.value.width, atlas.value.height, cellWidth, cellHeight)
  {
    match atlas
    case None => None
    case Some(surface) =>
      GridInside(surface.width, surface.height, cellWidth, cellHeight);
      Some(Sheet(surface, Grid(surface.width, surface.height, cellWidth, cellHeight), Size(cellWidth, cellHeight)))
  }

  /** Releasing a sheet leaves no cells and an empty atlas. */
  function Delete(sheet: Sheet): (r: Sheet)
    ensures r.cells == [] && r.atlas.Valid() && r.atlas.width == 0 && r.atlas.height == 0 && r.size == Size(0, 0)
  {
    Sheet(Surface(0, 0, []), [], Size(0, 0))
  }
}
