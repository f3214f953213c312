# Hitomezashi stitching: stitch selection and polyline merging

This project models the core of `generative.js` from the hitomezashi-stitching
repository. That core is the part of the SVG variant that decides which edges of
the warped grid are stitched and then merges the stitches into polylines. It
has four parts:

- `hasStitch`, the parity rule. A stitch is drawn when the pattern bit plus the
  index along the line is odd (module `Stitches`).
- The two nested loops at the top of `straightStitch`. They walk the interior
  column lines and the interior row lines and push one segment per stitched
  edge. `Stitches.Select` produces exactly the list `Stitches.StitchSegments`
  describes, in push order. Each selected edge is a stitched interior edge, each
  such edge is selected, and none is selected twice.
- Class `PolyLine` (module `PolyLines`): two parallel coordinate arrays.
  - `join` glues another polyline on at the first of four endpoint
    coincidences, and reverses a copy of the other's arrays where needed.
  - `pointString` writes the `points` attribute text.
  - The value-level meaning of a join is in module `Paths`: `FindCase` picks
    the case and `Glue` gives the shape. A join keeps every segment of both
    inputs and adds none, with segments counted as a multiset of unordered
    endpoint pairs. The joined path is contiguous.
- The do/while merge loop of `straightStitch` (module `Merging`). It joins pairs
  and splices the absorbed polyline out of the list. It re-examines the same
  slot after a join and stops after a pass with no join. At exit:
  - no two polylines of the list can be joined in either order;
  - together they draw exactly the selected segments;
  - a list with nothing to join is returned unchanged, so a second merge
    changes nothing.

Points have an abstract type `C` with equality. Picture coordinates enter only
through a parameter `coordinate: (int, int) -> (C, C)`, which stands for
`getCoordinate(col, row)`. So joining compares exactly what the source compares:
the values returned by that function for the same grid indices.

The code is mixed in style, and so is the model:
- `HasStitch` is a function.
- `PolyLine` is a class whose `Join` reassigns its two `seq` fields.
- `PointString` and the selection and merge loops are methods with `while` or
  `for` loops.
- Each method is proved against a specification function (`StitchSegments`,
  `Glue`, `Render`), or against the ghost shapes it keeps in step with the
  polylines it changes.

## Model

| member | source | states |
|---|---|---|
| Stitches.JsRemainder2 | generative.js:140 | JavaScript's `% 2`: zero exactly when the dividend is even; otherwise 1 for a positive dividend and -1 for a negative one |
| Stitches.HasStitch | generative.js:138-141 | the result is non-zero exactly when `Stitched` holds (bit and index of different parity); for a non-negative index it is 0 or 1 |
| Stitches.HasStitchAlternates | generative.js:138-141 | along one line, consecutive edges alternate between stitched (1) and unstitched (0) |
| Stitches.Select | generative.js:202-219 | the segment list equals `StitchSegments`: the vertical loops' pushes followed by the horizontal loops' pushes, in loop order |
| Stitches.SelectVertical | generative.js:202-210 | for column lines `i + 1` with `i < numColumns - 1` and rows `j < numRows`, pushes edge (i+1, j)-(i+1, j+1) exactly when `hasStitch(columns, i, j)` is truthy, in loop order |
| Stitches.SelectHorizontal | generative.js:211-219 | for row lines `j + 1` with `j < numRows - 1` and columns `i < numColumns`, pushes edge (i, j+1)-(i+1, j+1) exactly when `hasStitch(rows, j, i)` is truthy, in loop order |
| Stitches.ColumnMembers | generative.js:203-209 | an edge is pushed by the inner vertical loop for line `i + 1` exactly when it is a stitched edge of that line below the current row |
| Stitches.VerticalMembers | generative.js:202-210 | an edge is pushed by the vertical loops exactly when it is a stitched edge on one of the column lines visited so far |
| Stitches.RowMembers | generative.js:212-218 | an edge is pushed by the inner horizontal loop for line `j + 1` exactly when it is a stitched edge of that line left of the current column |
| Stitches.HorizontalMembers | generative.js:211-219 | an edge is pushed by the horizontal loops exactly when it is a stitched edge on one of the row lines visited so far |
| Stitches.StitchSegmentsMembers | generative.js:202-219 | a segment is selected if and only if it is a stitched vertical edge on an interior column line or a stitched horizontal edge on an interior row line |
| Stitches.ColumnBounds | generative.js:203-209 | every edge pushed for column line `i + 1` lies on that line, below the current row, and points one row down |
| Stitches.VerticalBounds | generative.js:202-210 | every vertical push lies on a column line visited so far and points one row down |
| Stitches.RowBounds | generative.js:212-218 | every edge pushed for row line `j + 1` lies on that line, left of the current column, and points one column right |
| Stitches.HorizontalBounds | generative.js:211-219 | every horizontal push lies on a row line visited so far and points one column right |
| Stitches.ColumnNoDuplicates | generative.js:203-209 | the inner vertical loop never pushes the same edge twice |
| Stitches.VerticalNoDuplicates | generative.js:202-210 | the vertical loops never push the same edge twice |
| Stitches.RowNoDuplicates | generative.js:212-218 | the inner horizontal loop never pushes the same edge twice |
| Stitches.HorizontalNoDuplicates | generative.js:211-219 | the horizontal loops never push the same edge twice |
| Stitches.StitchSegmentsNoDuplicates | generative.js:202-219 | each stitched edge is selected exactly once |
| Paths.FindCase | generative.js:161-184 | a case is found exactly when one of the four endpoint coincidences holds; each case is reported exactly when its coincidence holds and none tested before it does, in the test order "this end = other start", "this end = other end", "other end = this start", "this start = other start" |
| Paths.Glue | generative.js:163-181 | the glued path has as many points as the two inputs together, less one for the shared endpoint |
| Paths.Edges | generative.js:143-198 | a path of n points has n - 1 segments |
| Paths.JoinableSymmetric | generative.js:161-182 | `a` can be joined with `b` exactly when `b` can be joined with `a` |
| Paths.EdgesAppend | generative.js:163-181 | concatenating two paths adds exactly the segment between the last point of the first and the first point of the second |
| Paths.EdgesReverse | generative.js:169-181 | a reversed copy of a path has the same segments |
| Paths.GlueAfter | generative.js:163-175 | gluing a path after one that ends where it starts keeps the segments of both |
| Paths.JoinPreservesEdges | generative.js:161-183 | in each of the four cases the joined path has exactly the segments of the two inputs, with multiplicity |
| Paths.StepIsEdge | generative.js:143-198 | each pair of neighbouring points of a path is one of its segments |
| Paths.EdgeIsStep | generative.js:143-198 | each segment of a path is a pair of neighbouring points |
| Paths.JoinIsContiguous | generative.js:161-183 | every pair of neighbouring points of the joined path is a pair of neighbouring points of one of the inputs |
| Paths.ZipEndToStart | generative.js:163-164 | appending the other's arrays, less their first entry, to this polyline's arrays appends the other's points less the first |
| Paths.ZipEndToEnd | generative.js:169-170 | appending reversed copies of the other's arrays, less their last entry, appends its points less the last, reversed |
| Paths.ZipStartToStart | generative.js:180-181 | prepending reversed copies of the other's arrays, less their first entry, prepends its points less the first, reversed |
| Paths.GlueZip | generative.js:161-183 | gluing the x arrays and the y arrays separately glues the points they describe |
| Paths.ChainOfSegments | generative.js:161-165 | segments A-B, B-C, C-D are joined into the one path A, B, C, D, and two segments with four distinct ends are not joinable |
| PolyLines.PolyLine.constructor | generative.js:144-147 | a new polyline holds exactly the two given points, in parallel arrays of length 2 |
| PolyLines.PolyLine.Join | generative.js:149-185 | returns true exactly when one of the four coincidences holds; then both arrays, and so the points, are `Glue` of the first case found, one point shorter than the two together; otherwise this polyline is unchanged; the argument polyline is never changed |
| PolyLines.PolyLine.PointString | generative.js:187-196 | the text is `Render` of the points: "x,y " for each point, in order |
| PolyLines.RenderAppend | generative.js:192-194 | the text of two runs of points is the text of the first followed by the text of the second |
| Merging.StableBothWays | generative.js:222-236 | in a list where no later polyline joins an earlier one, no two distinct polylines can be joined in either order |
| Merging.TotalEdgesCount | generative.js:220-236 | the multiset of segments has one entry per segment: points minus one, summed over the polylines |
| Merging.TotalEdgesAppend | generative.js:220-236 | the segments of two lists of polylines are those of each, together |
| Merging.TotalEdgesAround | generative.js:220-236 | the segments of a list are those before a polyline, those of the polyline, and those after it |
| Merging.TotalEdgesAfterJoin | generative.js:228-229 | replacing polyline `i` by its join with polyline `j` and splicing out `j` keeps the segments of the list |
| Merging.TracksRemoveAt | generative.js:229 | splicing a polyline out keeps the rest valid and distinct, and still in step with their recorded shapes |
| Merging.SpliceAfterJoin | generative.js:228-229 | after a join and the splice, the list is still in step with its shapes and draws the same segments |
| Merging.AbsorbStep | generative.js:227-232 | reports whether polyline `i` could absorb polyline `j`; if it did, polyline `i` now holds `Glue` of the first case found and `j` is spliced out; otherwise nothing changes; the polylines before `i` are untouched and the segments drawn are the same either way |
| Merging.AbsorbInto | generative.js:226-234 | the inner loop keeps the segments and leaves the polylines before `i` and their shapes as they were; the list is shorter if anything was joined; it joins nothing exactly when no polyline after `i` can join polyline `i` (and then changes nothing) |
| Merging.MergePass | generative.js:223-235 | a pass keeps the segments; it shrinks the list when it joins; it joins nothing exactly when no pair `a < b` can be joined (and then changes nothing) |
| Merging.MergeLoop | generative.js:220-236 | the do/while loop terminates with a list with no joinable pair that draws the same segments; a list with no joinable pair is returned as it is |
| Merging.Merge | generative.js:220-236 | the result consists of distinct valid polylines from the input; no two of them can be joined; they draw exactly the segments of the input; an input with nothing to join is returned unchanged (re-running the merge changes nothing) |
| Merging.Drawn | generative.js:205-216 | one two-point path per segment, at the picture points of its two ends |
| Merging.DrawnEdges | generative.js:202-219 | the one-segment polylines draw exactly the selected segments, one per selected edge |
| Merging.MakePieces | generative.js:205-216 | one fresh single-segment polyline per selected edge, in push order, at the picture points of its ends |
| Merging.StraightStitch | generative.js:200-236 | the final polylines are fresh, distinct and valid; no two can be joined; together they draw every selected stitch exactly once and nothing else |

## Left out

- `linePartition` (generative.js:6-105) is not part of this model. It is random
  floating-point arithmetic that produces the warped grid lines.
- `getCoordinate` (generative.js:112-125) is not part of this model. The
  parameter `coordinate` replaces it: any deterministic function from grid
  indices to points.
- `binaryString` (generative.js:127-133) is not part of this model. The column
  and row patterns are inputs of type `seq<Bit>`. `numColumns` and `numRows` are
  their lengths, as `columns = binaryString(numColumns)` makes them in the
  source.
- The DOM and SVG plumbing is left out. This covers `window.innerHeight`, the
  element creation and attributes after the merge (generative.js:237-243), and
  the page bootstrap.
- JavaScript's conversion of coordinates to text in `pointString` is the
  parameter `show`. Its digits and formatting are not modelled.
- Floating-point equality is modelled as Dafny equality on `C`, which is
  reflexive. JavaScript's `NaN !== NaN` case, where a degenerate
  `getCoordinate` would make a point unequal to itself, is not modelled.
- Stitches.HasStitch: requires an index inside the pattern. `straightStitch`
  only calls it that way. JavaScript's `undefined + n` for an index outside
  the pattern is not modelled.
- Stitches.Select: the source creates each `PolyLine` inside the selection
  loops. The model first selects grid segments and then creates the polylines
  in the same order (`Merging.MakePieces`). Nothing else happens between the
  pushes, so this does not change the list the merge starts from.
- Merging.MergePass: the source's `numPieces` lives across passes; the model
  re-reads it as the list length after each inner loop. The two are always
  equal, since every splice decrements it.
- Merging.AbsorbInto: `j--` followed by the loop's `j++` is kept as written.
  `polylines.splice(j, 1)` is modelled as `RemoveAt` on the `seq` of polyline
  references, reassigned rather than updated in place. Only the references are
  shared, as in the source.
- PolyLines.PolyLine.Join: `polyline` is never changed only when it is a
  different object from `this`. The merge never joins a polyline with itself.
