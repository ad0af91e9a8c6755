# amaranth rasteriser and sprite-sheet grid, in Dafny

This project models the software rasteriser of the amaranth engine and proves properties of the model. The drawing context (`src/gl/context.c`) is a `width` x `height` buffer of one-byte palette indices. Alongside the buffer it holds:

- an inclusive clipping quad;
- a 256-entry shifting table that remaps indices;
- a 256-entry transparency table;
- background, colour and pattern values.

Its operations are `create`, `clear`, the top-left copy `to_surface`, the state setters, four blits and a flood `fill`. The blits are:

- the plain clipped `blit`;
- the scaled `blit_s`;
- the rotated `blit_sr`;
- the scanline-transform `blit_x`.

The sprite sheet (`src/gl/sheet.c`) cuts an atlas surface into a row-major grid of equal cells.

Modules:

- `GL` (`gl.dfy`) holds the value types: pixels, points, rectangles, inclusive quads, and surfaces as sequences of rows. It also has quad clipping.
- `Raster` (`raster.dfy`) is the compositing rule and the raster loop every blit shares. A source index is shifted, then dropped if the shifted index is transparent.
- `Contexts` (`context.dfy`) holds the context, `create`, `clear`, `to_surface` and the setters.
- `Blits` (`blit.dfy`) is the unscaled blit, with its clip and skip offsets.
- `Transforms` (`transform.dfy`) holds the scaled, rotated and transform blits. It also has the edge and repeat addressing of `blit_x`.
- `FillScan` (`fill_scan.dfy`) is one iteration of the fill loop and the loop itself: the walk left, the scan right with the above/below flags, and the pushes. It is parametrised by a rule: `AsWritten` keeps the source's guards, and `Corrected` repairs them. The termination measure is (pixels still matching, stack length).
- `FillRegion` (`fill_region.dfy`) defines the region of a seed: the pixels joined to it by a 4-connected path of matching pixels inside the clip. It proves that the corrected loop fills exactly that region.
- `FloodFill` (`fill.dfy`) holds the context-level fill, both as evidently intended and as written.
- `Findings` (`findings.dfy`) holds the three fill defects, each shown on a small surface.
- `Sheets` (`sheet.dfy`) holds the cell grid, `precompute_cells`, sheet load/decode and delete.
- `Arith` (`arith.dfy`) holds division and multiplication facts.

Each blit is modelled twice. A reference function gives the pixel the blit leaves at each destination point. A method then follows the source's loop: clip, bail out on an empty region, draw in raster order. The method's postcondition ties every output pixel to the reference function.

The three float-based blits compute source coordinates with floating point. The model takes the integer outcome of that maths as a parameter, as a drawing size, a bounding box or a sampler function.

Two places where the code's own evidence shows what it means to do:

- The clipping setter stores any quad it is given (context.c:509-510), and its comment marks the missing check as still to do. The model stores the quad too. The drawing operations require a clip that is empty or inside the surface, because a larger one makes them write outside the buffer.
- The fill's guards keep it inside the clip on three sides: `x >= x0` in the walk left (context.c:551), `x <= x1` in the scan (context.c:559), and `y < y1` before the row below is probed (context.c:572). The fourth guard, `y >= y0` before the row above is probed (context.c:562), lets the fill go one row above the clip. The fill also cites the lodev.org scanline fill (context.c:529). That algorithm returns at once when the new colour equals the old one; this code has no such exit. `FloodFill.FillAsWritten` keeps the loop as written. `FloodFill.Fill` closes the top guard, corrects the flag reset of context.c:577 and adds the early exit. It is proved to repaint exactly the seed's region.

## Model

| member | source | states |
|---|---|---|
| GL.RectQuad | src/gl/context.c:178-183 | the inclusive quad built from a position and a size covers exactly the pixels of that rectangle |
| GL.ClipQuad | src/gl/context.c:393-404 | moving each edge of a drawing region inwards to the clip keeps exactly the pixels that lie in both |
| GL.EmptyIffNoPixel | src/gl/context.c:406-410 | the bail-out test (width or height not positive) holds exactly when the clipped region contains no pixel |
| Raster.Composite | src/gl/context.c:220-226 | the written index is the shifted source index unless that shifted index is transparent, in which case the destination keeps its index |
| Raster.Blend | src/gl/context.c:442-451 | a pixel whose source fetch is skipped keeps its index; a fetched one is composited |
| Raster.DrawSpan | src/gl/context.c:216-231 | one row pass composites every column of the region's span and leaves every other column of the row unchanged |
| Raster.DrawRegion | src/gl/context.c:215-234 | the raster loop composites every pixel of the region against the original destination and leaves every pixel outside the region unchanged |
| Contexts.FullQuad | src/gl/context.c:60 | the default clip quad fits the surface and contains exactly the surface's pixels |
| Contexts.Create | src/gl/context.c:53-71 | a new context has identity shifting, only index 0 transparent, the full-surface clip, background 0 and the requested size |
| Contexts.Clear | src/gl/context.c:89-96 | every pixel of the surface becomes the background index and the shape is kept |
| Contexts.ToSurface | src/gl/context.c:142-167 | every pixel the context and the source surface share takes the source's index at the same coordinates; every other pixel keeps its own |
| Contexts.Shifting | src/gl/context.c:472-483 | without a key list the table returns to the identity; otherwise entry `c` takes the value paired with the last occurrence of `c` among the keys, reduced to a byte, or keeps its old value; nothing else in the context changes |
| Contexts.Transparent | src/gl/context.c:485-497 | without an index list only index 0 is transparent; otherwise entry `c` takes the flag paired with the last occurrence of `c`, or keeps its old flag; nothing else changes |
| Contexts.Clipping | src/gl/context.c:499-512 | without a quad the clip covers exactly the surface; a given quad is stored as it is; nothing else changes |
| Contexts.Background | src/gl/context.c:514-517 | the background index becomes the given index and nothing else changes |
| Contexts.Color | src/gl/context.c:519-522 | the colour index becomes the given index and nothing else changes |
| Contexts.Pattern | src/gl/context.c:524-527 | the pattern mask becomes the given mask and nothing else changes |
| Blits.SourceOf | src/gl/context.c:209-220 | the source pixel read for a destination pixel lies inside the source area, at the destination's offset from the position |
| Blits.ClipBlit | src/gl/context.c:178-201 | the clipped drawing region holds exactly the pixels in both the clip and the destination rectangle; the skip offsets are non-negative and equal how far the left and top edges moved |
| Blits.RegionInsideClip | src/gl/context.c:203-210 | a non-empty drawing region inside a clip that fits the surface lies inside the surface, so the destination rows it writes exist |
| Blits.Blit | src/gl/context.c:172-235 | every output pixel is the reference blit pixel; pixels outside both the clip and the destination rectangle are unchanged; an empty intersection changes nothing |
| Blits.AreaInsideIsReadable | src/gl/context.c:209-232 | when the source area lies inside the source surface, every read the blit makes is a pixel of the source |
| Blits.TransparentSourceLeavesDestination | src/gl/context.c:220-226 | a source whose shifted indices are all transparent leaves every destination pixel as it was |
| Blits.IdentityShiftingCopies | src/gl/context.c:220-226 | with the identity shifting table a visible destination pixel becomes the source index itself, unless that index is transparent |
| Blits.ClippedCornerScenario | src/gl/context.c:178-234 | an opaque 4x4 blit to (0,0) of an 8x8 context clipped to (2,2)-(5,5) changes only the block (2,2)-(3,3), each pixel to the shifted source index |
| Transforms.BlitScaled | src/gl/context.c:240-322 | every output pixel is the reference scaled pixel (column sampler of the destination column, row sampler of the destination row); changes stay in the clip and the scaled rectangle |
| Transforms.UnitScaleIsBlit | src/gl/context.c:246-305 | with unit scale the scaled blit's operands are valid and it draws exactly what the unscaled blit draws |
| Transforms.BlitRotated | src/gl/context.c:386-451 | every output pixel is the reference rotated pixel; a pixel changes only inside the clip and the bounding box, and only when its floored source coordinate lies inside the area |
| Transforms.UnrotatedIsBlit | src/gl/context.c:412-451 | with no rotation and unit scale the rotated blit draws exactly what the unscaled blit draws, for any bounding box covering the destination rectangle |
| Transforms.IAbs | src/gl/context.c:41-44 | the result is the value or its negation, and is never negative |
| Transforms.Address | src/gl/context.c:674-693 | an addressed coordinate is always inside the source axis and in-range coordinates are kept; none drops exactly the out-of-range coordinates; edge clamps to the first or last pixel; repeat always yields a coordinate |
| Transforms.RepeatIsSymmetric | src/gl/context.c:674-676 | repeat addressing gives a coordinate and its negation the same source coordinate |
| Transforms.RepeatIsPeriodic | src/gl/context.c:674-676 | on non-negative coordinates repeat addressing has the source size as period |
| Transforms.BlitTransform | src/gl/context.c:601-699 | every output pixel is the reference transform pixel, drawn in the clip-sized region at the position; changes stay in that region and the clip |
| Sheets.GridCount | src/gl/sheet.c:36-39 | the grid holds (width / cell width) x (height / cell height) cells, with integer division |
| Sheets.CellAtLayout | src/gl/sheet.c:41-51 | cell `i * columns + j` is the rectangle at column `j` times the cell width and row `i` times the cell height, of cell size |
| Sheets.GridLayout | src/gl/sheet.c:41-51 | for every row `i` and column `j` of the grid, index `i * columns + j` exists and holds that cell |
| Sheets.SpanFits | src/gl/sheet.c:36 | the whole columns fit in the atlas width |
| Sheets.InCellIff | src/gl/sheet.c:36-51 | a pixel lies in cell `k` exactly when it lies in the whole-cell part of the atlas and `k` is the row-major index of the cell its coordinates divide into |
| Sheets.GridInside | src/gl/sheet.c:36-51 | every cell has the cell size and lies inside the atlas |
| Sheets.GridDisjoint | src/gl/sheet.c:41-51 | no pixel lies in two different cells |
| Sheets.GridCovers | src/gl/sheet.c:36-52 | a pixel lies in some cell exactly when it lies in the whole-cell part of the atlas; a partial trailing row or column is dropped |
| Sheets.PrecomputeCells | src/gl/sheet.c:34-54 | the nested loops produce exactly the row-major cell grid |
| Sheets.FromAtlas | src/gl/sheet.c:56-88 | a failed atlas load or decode gives no sheet; a loaded atlas gives a sheet that keeps the atlas and the cell size and whose cells are the grid, all inside the atlas |
| Sheets.Delete | src/gl/sheet.c:90-96 | a deleted sheet has no cells, an empty atlas and a zero cell size |
| FillScan.RunStart | src/gl/context.c:551-554 | the walk left stops at a column no further left than the clip, the pixels from it to the seed column all match, and the column before it is left of the clip or does not match |
| FillScan.RunEnd | src/gl/context.c:559 | the scan stops at the first column from its start that is past the clip's right edge or does not match, and every column before it matches |
| FillScan.ProbeNeighbours | src/gl/context.c:562-578 | a probe keeps the stack and pushes only the pixel just above or just below the current column, and only when that pixel matches and its row is probed |
| FillScan.Scan | src/gl/context.c:559-581 | the scan keeps the row width and the stack prefix, and a scan that starts on a non-matching or out-of-clip column changes nothing |
| FillScan.ScanWrites | src/gl/context.c:559-560 | a scan turns exactly the run of matching pixels from its start column into the replacement and leaves every other column of the row alone |
| FillScan.ScanSeeds | src/gl/context.c:562-574 | every seed a scan pushes lies just above or below a filled column and matched there |
| FillScan.ScanShrinks | src/gl/context.c:559-560 | when the replacement differs from the matched index, a scan that fills anything strictly lowers the row's count of matching pixels |
| FillScan.ScanInClip | src/gl/context.c:559-578 | a step's scan changes only matching pixels in the clip's columns, to the replacement, pushes only seedable points, and either lowers the row's matching count or changes nothing |
| FillScan.Step | src/gl/context.c:546-581 | one iteration changes only seedable pixels that matched, to the replacement, keeps every stacked point seedable, and lowers (matching pixels, stack length) lexicographically |
| FillScan.Run | src/gl/context.c:542-582 | the loop terminates when the replacement differs from the matched index, and every pixel it changes is a seedable pixel that matched and now holds the replacement |
| FillRegion.ProbeCovers | src/gl/context.c:562-578 | under the corrected reset, a set flag means the matching run above (below) that reaches the current column already has a seed on the stack, and a matching pixel above (below) is covered afterwards |
| FillRegion.ScanCovers | src/gl/context.c:559-581 | every matching pixel just above or below the run a corrected scan fills lies on a run of matching pixels that starts at a seed the scan leaves on the stack |
| FillRegion.StepSpan | src/gl/context.c:546-581 | a corrected step pops the top seed, fills the maximal matching run around it inside the clip's columns, keeps the rest of the stack, and covers the matching pixels above and below the run |
| FillRegion.InitialInvariant | src/gl/context.c:539-543 | before the loop, with only the seed on the stack, every pixel of the seed's region is pending |
| FillRegion.RunInRegion | src/gl/context.c:551-560 | every pixel of the run a corrected step fills belongs to the seed's region |
| FillRegion.Reroute | src/gl/context.c:562-578 | a matching path from an old stack seed to a pixel the step leaves matching can be redirected to start at a seed on the new stack |
| FillRegion.StepKeeps | src/gl/context.c:545-582 | a corrected step keeps the loop invariant: stacked seeds and changed pixels are in the region, and every region pixel is filled or pending |
| FillRegion.RunCovers | src/gl/context.c:545-582 | the corrected loop ends with exactly the seed's region holding the replacement and every other pixel as it originally was |
| FloodFill.Fill | src/gl/context.c:530-585 | a seed outside the clip changes nothing; otherwise a pixel ends with the new index exactly when it is in the seed's region, and keeps its own index otherwise |
| FloodFill.FillSeedAndClip | src/gl/context.c:534-560 | the seed itself ends with the new index and no pixel outside the clip changes |
| FloodFill.FillSameIndex | src/gl/context.c:539-540 | filling with the index the seed already holds changes nothing |
| FloodFill.FillIdempotent | src/gl/context.c:530-585 | filling the same seed with the same index a second time changes nothing more |
| FillRegion.UniformRegion | src/gl/context.c:530-585 | when the clip holds a single index throughout, every pixel of the clip belongs to the region of any seed in it |
| FloodFill.FillUniform | src/gl/context.c:530-585 | on a clip that holds one index throughout, the fill repaints the whole clip and nothing outside it |
| FloodFill.FillScenario | src/gl/context.c:530-585 | a 5x5 surface of index 0 with the full-surface clip, filled from (2, 2) with 7, holds 7 in all 25 pixels |
| FloodFill.FillAsWritten | src/gl/context.c:530-585 | a seed outside the clip changes nothing; otherwise every changed pixel lies in the clip's columns between the row above the clip and its bottom row, held the seed's index and now holds the new one |
| Findings.AboveGuardAsWritten | src/gl/context.c:562 | the fill as written changes a pixel outside the clip, on the row above it |
| Findings.AboveGuardCorrected | src/gl/context.c:562 | the corrected fill leaves that pixel alone |
| Findings.BelowResetAsWritten | src/gl/context.c:576-578 | the fill as written leaves a matching pixel of the seed's region unfilled |
| Findings.BelowResetCorrected | src/gl/context.c:576-578 | the corrected fill fills that pixel |
| Findings.EqualIndexAsWritten | src/gl/context.c:539-546 | with the replacement equal to the matched index, two iterations of the loop as written on a 1x3 column return it to its starting state, so on that input the loop never ends; other fills with an equal index can still end |
| Findings.EqualIndexCorrected | src/gl/context.c:539-546 | the corrected fill returns the surface unchanged |

## Left out

- Float maths: the drawing size of `blit_s` (context.c:246-247), the rotation, scale, bounding box and inverse matrix of `blit_sr`, and the register arithmetic and row callback of `blit_x`. Each is given as integers or as a sampler function of the destination pixel.
- Transforms.BlitScaled: `blit_s` indexes the source without a bounds check (context.c:298, 305). The model requires every drawn pixel to sample inside the source (`ScaledReadable`) and does not model the out-of-bounds read.
- Blits.Blit: the source `area` is not checked against the source surface (context.c:209). The model requires every read to lie in the source (`BlitReadable`); `AreaInsideIsReadable` gives a sufficient condition.
- Blits.Blit, Transforms.BlitScaled, Transforms.BlitRotated, Transforms.BlitTransform, FloodFill.Fill, FloodFill.FillAsWritten: each requires the clip quad to be empty or inside the surface (`ClipFits`). The clipping setter stores a caller's quad unchecked (context.c:509-510), and a larger quad would make these writes land outside the buffer.
- FloodFill.FillAsWritten: requires a clip that starts at row 1 or below. When a run on row 0 is scanned, the guard at context.c:562 may read row -1, so fills under a clip starting at row 0 are outside the as-written model. That includes every fill under the default full-surface clip (context.c:60), even one whose region never reaches row 0. It also requires a replacement different from the seed's index, because the loop as written can loop forever otherwise (see Findings); some such fills do end, and those are not modelled either. It promises confinement only, not coverage of the region.
- Contexts.Shifting: requires every key `from[i]` below 256. The source indexes the 256-entry table with unchecked `size_t` keys (context.c:472, 480); a larger key writes outside the table.
- Transforms.BlitRotated: requires every sample it fetches to lie inside the source surface (`RotatedReadable`). The source checks the sample only against the source area before reading it (context.c:442-446); an area reaching past the surface reads outside it.
- Transforms.BlitTransform: under repeat addressing, requires a positive source width and height. The source computes `iabs(sx) % sw` with no guard (context.c:675-676); a zero size divides by zero.
- Transforms.IAbs: the absolute value of the most negative 32-bit integer overflows in C; integers here are unbounded.
- Machine integer widths: coordinates, sizes and products are unbounded integers, so 32-bit overflow of `int` and `size_t` arithmetic is not modelled. The shifting setter's store of a machine word into a byte is modelled (`% 256`).
- Contexts.Create: the new surface comes from the surface allocator, which is not part of this model; its pixels are taken as 0.
- Sheets.FromAtlas: loading and decoding the atlas (file I/O, image decoding) are not part of this model. Their outcome is a parameter: a surface, or none on failure.
- Sheets.PrecomputeCells: an allocation failure of the cell array is not modelled.
- `GL_context_delete`, `push` and `pop` (empty), `screenshot` and `to_rgba` (PNG and RGBA output), debug-graphics branches and logging: these are presentation, allocation or no-ops.
- The fill's stack is a sequence with no bound, and the above/below rows are read from the state at the start of each iteration. A scan writes only its own row, so those rows are the same ones the source reads during the scan.

## Findings

| source | as written | input that shows it | evidently intended | confidence | as-written member | corrected member |
|---|---|---|---|---|---|---|
| src/gl/context.c:562 | the row above the run is probed when `y >= clipping_region.y0` | a 1x2 surface of index 0 clipped to its bottom pixel; filling (0,1) with 7 turns (0,0), outside the clip, into 7 (with a clip starting at row 0 the same test reads row -1) | probe the row above only when `y > clipping_region.y0` | not executed | Findings.AboveGuardAsWritten | FloodFill.Fill, Findings.AboveGuardCorrected |
| src/gl/context.c:577 | when the run below ends, `above` is cleared | a 3x4 surface with rows 9 9 9 / 0 0 0 / 0 9 0 / 9 9 9 clipped to rows 1-3; filling (0,1) with 5 leaves (2,2) at 0 although it is joined to the seed | clear `below` | not executed | Findings.BelowResetAsWritten | FloodFill.Fill, Findings.BelowResetCorrected |
| src/gl/context.c:539-546 | nothing stops the loop when the replacement equals the matched index, so it can loop forever | a 1x3 column 5 / 0 / 0 clipped to rows 1-2; filling (0,1) with 0 pushes (0,2), whose iteration pushes (0,1) again, forever | return at once when the replacement equals the matched index | not executed | Findings.EqualIndexAsWritten | FloodFill.Fill, Findings.EqualIndexCorrected |
