/** Stitch selection (generative.js:138-141, 202-219): the parity rule
    `hasStitch` and the two nested loops of `straightStitch` that turn the
    column and row bit patterns into the list of grid edges to draw. Grid
    points are named by their (column, row) indices; mapping them to picture
    coordinates happens later. */
module Stitches {
  import opened Sequences

  /** An entry of a bit pattern, as `binaryString` produces them. */
  type Bit = b: int | 0 <= b <= 1

  /** JavaScript's `x % 2`: the remainder of division truncated toward zero,
      so a negative odd dividend leaves -1. */
  function JsRemainder2(x: int): (r: int)
    ensures r == 0 <==> x % 2 == 0
    ensures r != 0 ==> (r == 1 <==> x > 0) && (r == -1 <==> x < 0)
  {
    if x >= 0 then x % 2 else -((-x) % 2)
  }

  /** The parity rule of hitomezashi: the edge at `transverseIndex` along the
      line that `pattern[arrayIndex]` describes is stitched when the bit and
      the index have different parities. */
  predicate Stitched(pattern: seq<Bit>, arrayIndex: int, transverseIndex: int)
    requires 0 <= arrayIndex < |pattern|
  {
    pattern[arrayIndex] != Parity(transverseIndex)
  }

  /** 0 for an even number, 1 for an odd one. */
  function Parity(n: int): Bit
  {
    n % 2
  }

  /** `hasStitch(array, arrayIndex, transverseIndex)`: the edge is stitched
      when the result is truthy, that is non-zero. */
  function HasStitch(pattern: seq<Bit>, arrayIndex: int, transverseIndex: int): (r: int)
    requires 0 <= arrayIndex < |pattern|
    ensures r != 0 <==> Stitched(pattern, arrayIndex, transverseIndex)
    ensures transverseIndex >= 0 ==> r == 0 || r == 1
  {
    JsRemainder2(pattern[arrayIndex] + transverseIndex)
  }

  /** Along one line of the grid, stitched and unstitched edges alternate. */
  lemma HasStitchAlternates(pattern: seq<Bit>, arrayIndex: int, transverseIndex: nat)
    requires 0 <= arrayIndex < |pattern|
    ensures HasStitch(pattern, arrayIndex, transverseIndex + 1) ==
            1 - HasStitch(pattern, arrayIndex, transverseIndex)
  {
  }

  datatype GridPoint = GridPoint(col: int, row: int)

  /** One grid edge, from the first point to the second. */
  datatype Segment = Segment(from: GridPoint, to: GridPoint)

  /** The edge between (i + 1, j) and (i + 1, j + 1), on column line i + 1. */
  function VerticalStitch(i: int, j: int): Segment
  {
    Segment(GridPoint(i + 1, j), GridPoint(i + 1, j + 1))
  }

  /** The edge between (i, j + 1) and (i + 1, j + 1), on row line j + 1. */
  function HorizontalStitch(i: int, j: int): Segment
  {
    Segment(GridPoint(i, j + 1), GridPoint(i + 1, j + 1))
  }

  /** What the inner vertical loop pushes for column line `i` with rows 0 .. j - 1. */
  function ColumnStitches(columns: seq<Bit>, i: nat, j: nat): seq<Segment>
    requires i < |columns|
  {
    if j == 0 then []
    else ColumnStitches(columns, i, j - 1) +
         (if Stitched(columns, i, j - 1) then [VerticalStitch(i, j - 1)] else [])
  }

  /** What the vertical loops push for column lines 0 .. i - 1. */
  function VerticalStitches(columns: seq<Bit>, i: nat, numRows: nat): seq<Segment>
    requires i <= |columns|
  {
    if i == 0 then []
    else VerticalStitches(columns, i - 1, numRows) + ColumnStitches(columns, i - 1, numRows)
  }

  /** What the inner horizontal loop pushes for row line `j` with columns 0 .. i - 1. */
  function RowStitches(rows: seq<Bit>, j: nat, i: nat): seq<Segment>
    requires j < |rows|
  {
    if i == 0 then []
    else RowStitches(rows, j, i - 1) +
         (if Stitched(rows, j, i - 1) then [HorizontalStitch(i - 1, j)] else [])
  }

  /** What the horizontal loops push for row lines 0 .. j - 1. */
  function HorizontalStitches(rows: seq<Bit>, j: nat, numColumns: nat): seq<Segment>
    requires j <= |rows|
  {
    if j == 0 then []
    else HorizontalStitches(rows, j - 1, numColumns) + RowStitches(rows, j - 1, numColumns)
  }

  /** The number of interior grid lines along an axis with `n` cells. */
  function Interior(n: nat): nat
  {
    if n == 0 then 0 else n - 1
  }

  /** The whole segment list, in the order the loops push it. */
  function StitchSegments(columns: seq<Bit>, rows: seq<Bit>): seq<Segment>
  {
    VerticalStitches(columns, Interior(|columns|), |rows|) +
    HorizontalStitches(rows, Interior(|rows|), |columns|)
  }

  /** `s` is a stitched edge on an interior column line. */
  predicate IsVerticalStitch(columns: seq<Bit>, numRows: nat, s: Segment)
  {
    1 <= s.from.col < |columns| && 0 <= s.from.row < numRows &&
    s.to == GridPoint(s.from.col, s.from.row + 1) &&
    Stitched(columns, s.from.col - 1, s.from.row)
  }

  /** `s` is a stitched edge on an interior row line. */
  predicate IsHorizontalStitch(rows: seq<Bit>, numColumns: nat, s: Segment)
  {
    1 <= s.from.row < |rows| && 0 <= s.from.col < numColumns &&
    s.to == GridPoint(s.from.col + 1, s.from.row) &&
    Stitched(rows, s.from.row - 1, s.from.col)
  }

  /** The segment list `straightStitch` builds before merging: first its
      loops over the interior column lines, then those over the row lines. */
  method Select(columns: seq<Bit>, rows: seq<Bit>) returns (segments: seq<Segment>)
    ensures segments == StitchSegments(columns, rows)
  {
    var vertical := SelectVertical(columns, |rows|);
    var horizontal := SelectHorizontal(rows, |columns|);
    segments := vertical + horizontal;
  }

  /** generative.js:202-210: for each column line i + 1 and row j, push the
      vertical edge when the column pattern says so. */
  method SelectVertical(columns: seq<Bit>, numRows: nat) returns (segments: seq<Segment>)
    ensures segments == VerticalStitches(columns, Interior(|columns|), numRows)
  {
    var numColumns := |columns|;
    segments := [];
    var i := 0;
    while i < numColumns - 1
      invariant 0 <= i <= Interior(numColumns)
      invariant segments == VerticalStitches(columns, i, numRows)
    {
      ghost var done := segments;
      var j := 0;
      while j < numRows
        invariant 0 <= j <= numRows
        invariant segments == done + ColumnStitches(columns, i, j)
      {
        ghost var before := ColumnStitches(columns, i, j);
        if HasStitch(columns, i, j) != 0 {
          assert ColumnStitches(columns, i, j + 1) == before + [VerticalStitch(i, j)];
          assert (done + before) + [VerticalStitch(i, j)] == done + (before + [VerticalStitch(i, j)]);
          segments := segments + [VerticalStitch(i, j)];
        } else {
          assert ColumnStitches(columns, i, j + 1) == before;
        }
        j := j + 1;
      }
      assert VerticalStitches(columns, i + 1, numRows) == done + ColumnStitches(columns, i, numRows);
      i := i + 1;
    }
  }

  /** generative.js:211-219: for each row line j + 1 and column i, push the
      horizontal edge when the row pattern says so. */
  method SelectHorizontal(rows: seq<Bit>, numColumns: nat) returns (segments: seq<Segment>)
    ensures segments == HorizontalStitches(rows, Interior(|rows|), numColumns)
  {
    var numRows := |rows|;
    segments := [];
    var j := 0;
    while j < numRows - 1
      invariant 0 <= j <= Interior(numRows)
      invariant segments == HorizontalStitches(rows, j, numColumns)
    {
      ghost var done := segments;
      var i := 0;
      while i < numColumns
        invariant 0 <= i <= numColumns
        invariant segments == done + RowStitches(rows, j, i)
      {
        ghost var before := RowStitches(rows, j, i);
        if HasStitch(rows, j, i) != 0 {
          assert RowStitches(rows, j, i + 1) == before + [HorizontalStitch(i, j)];
          assert (done + before) + [HorizontalStitch(i, j)] == done + (before + [HorizontalStitch(i, j)]);
          segments := segments + [HorizontalStitch(i, j)];
        } else {
          assert RowStitches(rows, j, i + 1) == before;
        }
        i := i + 1;
      }
      assert HorizontalStitches(rows, j + 1, numColumns) == done + RowStitches(rows, j, numColumns);
      j := j + 1;
    }
  }

  lemma {:induction false} ColumnMembers(columns: seq<Bit>, i: nat, j: nat, s: Segment)
    requires i < |columns|
    ensures s in ColumnStitches(columns, i, j) <==>
      s.from.col == i + 1 && 0 <= s.from.row < j &&
      s.to == GridPoint(s.from.col, s.from.row + 1) && Stitched(columns, s.from.col - 1, s.from.row)
  {
    if j > 0 {
      ColumnMembers(columns, i, j - 1, s);
    }
  }

  lemma {:induction false} VerticalMembers(columns: seq<Bit>, i: nat, numRows: nat, s: Segment)
    requires i <= |columns|
    ensures s in VerticalStitches(columns, i, numRows) <==>
      1 <= s.from.col <= i && 0 <= s.from.row < numRows &&
      s.to == GridPoint(s.from.col, s.from.row + 1) &&
      Stitched(columns, s.from.col - 1, s.from.row)
  {
    if i > 0 {
      var earlier := VerticalStitches(columns, i - 1, numRows);
      var last := ColumnStitches(columns, i - 1, numRows);
      assert VerticalStitches(columns, i, numRows) == earlier + last;
      if s.from.col == i {
        if s in earlier {
          VerticalBounds(columns, i - 1, numRows, s);
        }
        ColumnMembers(columns, i - 1, numRows, s);
        assert s in earlier + last <==> s in last;
      } else {
        if s in last {
          ColumnBounds(columns, i - 1, numRows, s);
        }
        VerticalMembers(columns, i - 1, numRows, s);
        assert s in earlier + last <==> s in earlier;
      }
    }
  }

  lemma {:induction false} RowMembers(rows: seq<Bit>, j: nat, i: nat, s: Segment)
    requires j < |rows|
    ensures s in RowStitches(rows, j, i) <==>
      s.from.row == j + 1 && 0 <= s.from.col < i &&
      s.to == GridPoint(s.from.col + 1, s.from.row) && Stitched(rows, s.from.row - 1, s.from.col)
  {
    if i > 0 {
      RowMembers(rows, j, i - 1, s);
    }
  }

  lemma {:induction false} HorizontalMembers(rows: seq<Bit>, j: nat, numColumns: nat, s: Segment)
    requires j <= |rows|
    ensures s in HorizontalStitches(rows, j, numColumns) <==>
      1 <= s.from.row <= j && 0 <= s.from.col < numColumns &&
      s.to == GridPoint(s.from.col + 1, s.from.row) &&
      Stitched(rows, s.from.row - 1, s.from.col)
  {
    if j > 0 {
      var earlier := HorizontalStitches(rows, j - 1, numColumns);
      var last := RowStitches(rows, j - 1, numColumns);
      assert HorizontalStitches(rows, j, numColumns) == earlier + last;
      if s.from.row == j {
        if s in earlier {
          HorizontalBounds(rows, j - 1, numColumns, s);
        }
        RowMembers(rows, j - 1, numColumns, s);
        assert s in earlier + last <==> s in last;
      } else {
        if s in last {
          RowBounds(rows, j - 1, numColumns, s);
        }
        HorizontalMembers(rows, j - 1, numColumns, s);
        assert s in earlier + last <==> s in earlier;
      }
    }
  }

  /** A segment is selected exactly when it is a stitched interior edge:
      vertical ones by the column pattern, horizontal ones by the row pattern. */
  lemma StitchSegmentsMembers(columns: seq<Bit>, rows: seq<Bit>, s: Segment)
    ensures s in StitchSegments(columns, rows) <==>
      IsVerticalStitch(columns, |rows|, s) || IsHorizontalStitch(rows, |columns|, s)
  {
    var vertical := VerticalStitches(columns, Interior(|columns|), |rows|);
    var horizontal := HorizontalStitches(rows, Interior(|rows|), |columns|);
    VerticalMembers(columns, Interior(|columns|), |rows|, s);
    HorizontalMembers(rows, Interior(|rows|), |columns|, s);
    assert 1 <= s.from.col ==> (s.from.col <= Interior(|columns|) <==> s.from.col < |columns|);
    assert 1 <= s.from.row ==> (s.from.row <= Interior(|rows|) <==> s.from.row < |rows|);
    assert s in vertical + horizontal <==> s in vertical || s in horizontal;
  }

  lemma {:induction false} ColumnBounds(columns: seq<Bit>, i: nat, j: nat, s: Segment)
    requires i < |columns| && s in ColumnStitches(columns, i, j)
    ensures s.from.col == i + 1 && s.from.row < j && s.to == GridPoint(s.from.col, s.from.row + 1)
  {
    var earlier := ColumnStitches(columns, i, j - 1);
    if s in earlier {
      ColumnBounds(columns, i, j - 1, s);
    }
  }

  lemma {:induction false} VerticalBounds(columns: seq<Bit>, i: nat, numRows: nat, s: Segment)
    requires i <= |columns| && s in VerticalStitches(columns, i, numRows)
    ensures s.from.col <= i && s.to == GridPoint(s.from.col, s.from.row + 1)
  {
    var earlier := VerticalStitches(columns, i - 1, numRows);
    if s in earlier {
      VerticalBounds(columns, i - 1, numRows, s);
    } else {
      ColumnBounds(columns, i - 1, numRows, s);
    }
  }

  lemma {:induction false} RowBounds(rows: seq<Bit>, j: nat, i: nat, s: Segment)
    requires j < |rows| && s in RowStitches(rows, j, i)
    ensures s.from.row == j + 1 && s.from.col < i && s.to == GridPoint(s.from.col + 1, s.from.row)
  {
    var earlier := RowStitches(rows, j, i - 1);
    if s in earlier {
      RowBounds(rows, j, i - 1, s);
    }
  }

  lemma {:induction false} HorizontalBounds(rows: seq<Bit>, j: nat, numColumns: nat, s: Segment)
    requires j <= |rows| && s in HorizontalStitches(rows, j, numColumns)
    ensures s.from.row <= j && s.to == GridPoint(s.from.col + 1, s.from.row)
  {
    var earlier := HorizontalStitches(rows, j - 1, numColumns);
    if s in earlier {
      HorizontalBounds(rows, j - 1, numColumns, s);
    } else {
      RowBounds(rows, j - 1, numColumns, s);
    }
  }

  lemma {:induction false} ColumnNoDuplicates(columns: seq<Bit>, i: nat, j: nat)
    requires i < |columns|
    ensures NoDuplicates(ColumnStitches(columns, i, j))
  {
    if j > 0 {
      var earlier := ColumnStitches(columns, i, j - 1);
      ColumnNoDuplicates(columns, i, j - 1);
      if VerticalStitch(i, j - 1) in earlier {
        ColumnBounds(columns, i, j - 1, VerticalStitch(i, j - 1));
      }
      NoDuplicatesAppend(earlier, if Stitched(columns, i, j - 1) then [VerticalStitch(i, j - 1)] else []);
    }
  }

  lemma {:induction false} VerticalNoDuplicates(columns: seq<Bit>, i: nat, numRows: nat)
    requires i <= |columns|
    ensures NoDuplicates(VerticalStitches(columns, i, numRows))
  {
    if i > 0 {
      var done := VerticalStitches(columns, i - 1, numRows);
      var last := ColumnStitches(columns, i - 1, numRows);
      VerticalNoDuplicates(columns, i - 1, numRows);
      ColumnNoDuplicates(columns, i - 1, numRows);
      forall k | 0 <= k < |done|
        ensures done[k] !in last
      {
        VerticalBounds(columns, i - 1, numRows, done[k]);
        if done[k] in last {
          ColumnBounds(columns, i - 1, numRows, done[k]);
        }
      }
      NoDuplicatesAppend(done, last);
    }
  }

  lemma {:induction false} RowNoDuplicates(rows: seq<Bit>, j: nat, i: nat)
    requires j < |rows|
    ensures NoDuplicates(RowStitches(rows, j, i))
  {
    if i > 0 {
      var earlier := RowStitches(rows, j, i - 1);
      RowNoDuplicates(rows, j, i - 1);
      if HorizontalStitch(i - 1, j) in earlier {
        RowBounds(rows, j, i - 1, HorizontalStitch(i - 1, j));
      }
      NoDuplicatesAppend(earlier, if Stitched(rows, j, i - 1) then [HorizontalStitch(i - 1, j)] else []);
    }
  }

  lemma {:induction false} HorizontalNoDuplicates(rows: seq<Bit>, j: nat, numColumns: nat)
    requires j <= |rows|
    ensures NoDuplicates(HorizontalStitches(rows, j, numColumns))
  {
    if j > 0 {
      var done := HorizontalStitches(rows, j - 1, numColumns);
      var last := RowStitches(rows, j - 1, numColumns);
      HorizontalNoDuplicates(rows, j - 1, numColumns);
      RowNoDuplicates(rows, j - 1, numColumns);
      forall k | 0 <= k < |done|
        ensures done[k] !in last
      {
        HorizontalBounds(rows, j - 1, numColumns, done[k]);
        if done[k] in last {
          RowBounds(rows, j - 1, numColumns, done[k]);
        }
      }
      NoDuplicatesAppend(done, last);
    }
  }

  /** Each stitched edge is selected once, never twice. */
  lemma StitchSegmentsNoDuplicates(columns: seq<Bit>, rows: seq<Bit>)
    ensures NoDuplicates(StitchSegments(columns, rows))
  {
    var vertical := VerticalStitches(columns, Interior(|columns|), |rows|);
    var horizontal := HorizontalStitches(rows, Interior(|rows|), |columns|);
    VerticalNoDuplicates(columns, Interior(|columns|), |rows|);
    HorizontalNoDuplicates(rows, Interior(|rows|), |columns|);
    forall k | 0 <= k < |vertical|
      ensures vertical[k] !in horizontal
    {
      VerticalBounds(columns, Interior(|columns|), |rows|, vertical[k]);
      if vertical[k] in horizontal {
        HorizontalBounds(rows, Interior(|rows|), |columns|, vertical[k]);
      }
    }
    NoDuplicatesAppend(vertical, horizontal);
  }
}
