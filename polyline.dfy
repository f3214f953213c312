/** Class `PolyLine` (generative.js:143-198): a path kept as two parallel
    coordinate arrays, which `join` replaces by longer ones when another
    polyline shares an endpoint, and which `pointString` writes out. */
module PolyLines {
  import opened Sequences
  import opened Paths

  class PolyLine<C(==)> {
    var xCoords: seq<C>
    var yCoords: seq<C>

    /** The arrays are parallel and describe at least one segment. */
    ghost predicate Valid()
      reads this
    {
      |xCoords| == |yCoords| && |xCoords| >= 2
    }

    /** The points of the path, in order. */
    ghost function Points(): seq<(C, C)>
      reads this
      requires Valid()
    {
      Zip(xCoords, yCoords)
    }

    /** A polyline of the single segment (x1, y1)-(x2, y2). */
    constructor (x1: C, y1: C, x2: C, y2: C)
      ensures Valid()
      ensures xCoords == [x1, x2] && yCoords == [y1, y2]
      ensures Points() == [(x1, y1), (x2, y2)]
    {
      xCoords := [x1, x2];
      yCoords := [y1, y2];
    }

    /** Appends `polyline` at the first endpoint coincidence found, reversing a
        copy of its arrays where needed, and says whether it did. `polyline`
        itself is only read. */
    method Join(polyline: PolyLine<C>) returns (joined: bool)
      requires Valid() && polyline.Valid()
      modifies this
      ensures Valid()
      ensures joined == Joinable(old(Points()), old(polyline.Points()))
      ensures joined ==>
        var c := FindCase(old(Points()), old(polyline.Points())).value;
        xCoords == Glue(c, old(xCoords), old(polyline.xCoords)) &&
        yCoords == Glue(c, old(yCoords), old(polyline.yCoords)) &&
        Points() == Glue(c, old(Points()), old(polyline.Points()))
      ensures joined ==> |xCoords| == old(|xCoords|) + old(|polyline.xCoords|) - 1
      ensures !joined ==> xCoords == old(xCoords) && yCoords == old(yCoords)
      ensures polyline != this ==>
        polyline.xCoords == old(polyline.xCoords) && polyline.yCoords == old(polyline.yCoords)
    {
      ghost var mine, theirs := Points(), polyline.Points();
      var thisNumPoints := |xCoords|;
      var thisX1, thisY1 := xCoords[0], yCoords[0];
      var thisLastX, thisLastY := xCoords[thisNumPoints - 1], yCoords[thisNumPoints - 1];
      var lineNumPoints := |polyline.xCoords|;
      var lineX1, lineY1 := polyline.xCoords[0], polyline.yCoords[0];
      var lineLastX, lineLastY := polyline.xCoords[lineNumPoints - 1], polyline.yCoords[lineNumPoints - 1];
      ghost var xs, ys, xs', ys' := xCoords, yCoords, polyline.xCoords, polyline.yCoords;
      assert Last(mine) == (thisLastX, thisLastY) && mine[0] == (thisX1, thisY1);
      assert Last(theirs) == (lineLastX, lineLastY) && theirs[0] == (lineX1, lineY1);

      if thisLastX == lineX1 && thisLastY == lineY1 {
        assert FindCase(mine, theirs) == Some(EndToStart);
        xCoords := xCoords + polyline.xCoords[1..];
        yCoords := yCoords + polyline.yCoords[1..];
        joined := true;
        assert xCoords == Glue(EndToStart, xs, xs') && yCoords == Glue(EndToStart, ys, ys');
        GlueZip(EndToStart, xs, ys, xs', ys');
      } else if thisLastX == lineLastX && thisLastY == lineLastY {
        assert FindCase(mine, theirs) == Some(EndToEnd);
        xCoords := xCoords + Reverse(polyline.xCoords[..lineNumPoints - 1]);
        yCoords := yCoords + Reverse(polyline.yCoords[..lineNumPoints - 1]);
        joined := true;
        assert xCoords == Glue(EndToEnd, xs, xs') && yCoords == Glue(EndToEnd, ys, ys');
        GlueZip(EndToEnd, xs, ys, xs', ys');
      } else if lineLastX == thisX1 && lineLastY == thisY1 {
        assert FindCase(mine, theirs) == Some(StartToEnd);
        xCoords := polyline.xCoords + xCoords[1..];
        yCoords := polyline.yCoords + yCoords[1..];
        joined := true;
        assert xCoords == Glue(StartToEnd, xs, xs') && yCoords == Glue(StartToEnd, ys, ys');
        GlueZip(StartToEnd, xs, ys, xs', ys');
      } else if thisX1 == lineX1 && thisY1 == lineY1 {
        assert FindCase(mine, theirs) == Some(StartToStart);
        xCoords := Reverse(polyline.xCoords[1..]) + xCoords;
        yCoords := Reverse(polyline.yCoords[1..]) + yCoords;
        joined := true;
        assert xCoords == Glue(StartToStart, xs, xs') && yCoords == Glue(StartToStart, ys, ys');
        GlueZip(StartToStart, xs, ys, xs', ys');
      } else {
        assert FindCase(mine, theirs) == None;
        joined := false;
      }
    }

    /** The `points` attribute text: "x,y " for every point, in order. */
    method PointString(show: C -> string) returns (str: string)
      requires Valid()
      ensures str == Render(Points(), show)
    {
      var numPoints := |xCoords|;
      str := "";
      for i := 0 to numPoints
        invariant str == Render(Points()[..i], show)
      {
        assert Points()[..i + 1] == Points()[..i] + [(xCoords[i], yCoords[i])];
        str := str + show(xCoords[i]) + "," + show(yCoords[i]) + " ";
      }
      assert Points()[..numPoints] == Points();
    }
  }

  /** The text for one point. */
  function PointText<C>(p: (C, C), show: C -> string): string
  {
    show(p.0) + "," + show(p.1) + " "
  }

  /** The text for a sequence of points, the last one written last; `show`
      stands for JavaScript's conversion of a coordinate to a string. */
  function Render<C>(points: seq<(C, C)>, show: C -> string): string
  {
    if points == [] then ""
    else Render(points[..|points| - 1], show) + PointText(Last(points), show)
  }

  /** The text of a path is the text of its parts, one after the other. */
  lemma {:induction false} RenderAppend<C>(p: seq<(C, C)>, q: seq<(C, C)>, show: C -> string)
    ensures Render(p + q, show) == Render(p, show) + Render(q, show)
  {
    if q != [] {
      assert (p + q)[..|p + q| - 1] == p + q[..|q| - 1];
      RenderAppend(p, q[..|q| - 1], show);
    } else {
      assert p + q == p;
    }
  }
}
