/** The body of `straightStitch` (generative.js:200-236): one polyline per
    selected stitch, then the do/while loop that joins pairs until a whole
    pass joins nothing. */
module Merging {
  import opened Sequences
  import opened Paths
  import opened Stitches
  import opened PolyLines

  ghost predicate AllValid<C>(ps: seq<PolyLine<C>>)
    reads ps
  {
    forall k :: 0 <= k < |ps| ==> ps[k].Valid()
  }

  /** The point sequences of a list of polylines. */
  ghost function Shapes<C>(ps: seq<PolyLine<C>>): (s: seq<seq<(C, C)>>)
    reads ps
    requires AllValid(ps)
    ensures |s| == |ps|
    ensures forall k :: 0 <= k < |ps| ==> s[k] == ps[k].Points() && |s[k]| >= 2
  {
    if ps == [] then [] else [ps[0].Points()] + Shapes(ps[1..])
  }

  /** All segments of all paths, counted with multiplicity. */
  ghost function TotalEdges<P>(shapes: seq<seq<P>>): multiset<set<P>>
  {
    if shapes == [] then multiset{} else Edges(shapes[0]) + TotalEdges(shapes[1..])
  }

  /** No two paths of the list share an endpoint in any of the four ways
      `join` looks for. */
  ghost predicate Stable<P>(shapes: seq<seq<P>>)
  {
    forall a, b :: 0 <= a < b < |shapes| ==> !Joinable(shapes[a], shapes[b])
  }

  /** Both orders of every pair are excluded: a stable list has no two
      distinct paths that could be joined either way round. */
  lemma StableBothWays<P>(shapes: seq<seq<P>>, a: nat, b: nat)
    requires Stable(shapes) && a < |shapes| && b < |shapes| && a != b
    ensures !Joinable(shapes[a], shapes[b])
  {
    if b < a {
      JoinableSymmetric(shapes[a], shapes[b]);
    }
  }

  /** The number of segments of a list of paths: points minus one, summed. */
  function SegmentCount<P>(shapes: seq<seq<P>>): nat
  {
    if shapes == [] then 0
    else (if |shapes[0]| == 0 then 0 else |shapes[0]| - 1) + SegmentCount(shapes[1..])
  }

  /** The multiset of segments has one entry per segment. */
  lemma {:induction false} TotalEdgesCount<P>(shapes: seq<seq<P>>)
    ensures |TotalEdges(shapes)| == SegmentCount(shapes)
  {
    if shapes != [] {
      TotalEdgesCount(shapes[1..]);
    }
  }

  lemma {:induction false} TotalEdgesAppend<P>(s: seq<seq<P>>, t: seq<seq<P>>)
    ensures TotalEdges(s + t) == TotalEdges(s) + TotalEdges(t)
  {
    if s == [] {
      assert s + t == t;
    } else {
      assert (s + t)[1..] == s[1..] + t;
      TotalEdgesAppend(s[1..], t);
    }
  }

  /** The segments of a list with one path singled out. */
  lemma TotalEdgesAround<P>(front: seq<seq<P>>, p: seq<P>, back: seq<seq<P>>)
    ensures TotalEdges(front + ([p] + back)) == TotalEdges(front) + (Edges(p) + TotalEdges(back))
  {
    TotalEdgesAppend(front, [p] + back);
    assert ([p] + back)[1..] == back;
  }

  lemma MultisetRegroup<T>(a: multiset<T>, b: multiset<T>, c: multiset<T>, d: multiset<T>, e: multiset<T>)
    ensures a + (b + (c + (d + e))) == a + ((b + d) + (c + e))
  {
  }

  /** Replacing path `i` by its join with path `j` and dropping path `j`
      keeps the total multiset of segments. */
  lemma TotalEdgesAfterJoin<P>(s: seq<seq<P>>, i: nat, j: nat, glued: seq<P>)
    requires i < j < |s|
    requires Edges(glued) == Edges(s[i]) + Edges(s[j])
    ensures TotalEdges(RemoveAt(s[i := glued], j)) == TotalEdges(s)
  {
    var front, middle, back := s[..i], s[i + 1..j], s[j + 1..];
    var after := middle + ([s[j]] + back);
    assert s == front + ([s[i]] + after);
    assert RemoveAt(s[i := glued], j) == front + ([glued] + (middle + back));
    TotalEdgesAround(front, s[i], after);
    TotalEdgesAround(middle, s[j], back);
    TotalEdgesAround(front, glued, middle + back);
    TotalEdgesAppend(middle, back);
    MultisetRegroup(TotalEdges(front), Edges(s[i]), TotalEdges(middle), Edges(s[j]), TotalEdges(back));
  }

  /** `shapes` records the current points of each polyline of the working
      list, whose polylines are distinct objects taken from `footprint`. */
  ghost predicate Tracks<C>(polylines: seq<PolyLine<C>>, shapes: seq<seq<(C, C)>>, footprint: set<PolyLine<C>>)
    reads polylines
  {
    |shapes| == |polylines| && NoDuplicates(polylines) &&
    forall k :: 0 <= k < |polylines| ==>
      polylines[k] in footprint && polylines[k].Valid() &&
      shapes[k] == polylines[k].Points() && |shapes[k]| >= 2
  }

  /** A tracked list is a list of valid polylines whose shapes are the
      recorded ones. */
  lemma TrackedShapes<C>(polylines: seq<PolyLine<C>>, shapes: seq<seq<(C, C)>>, footprint: set<PolyLine<C>>)
    requires Tracks(polylines, shapes, footprint)
    ensures AllValid(polylines) && Shapes(polylines) == shapes
  {
  }

  /** Dropping one polyline from a tracked list keeps the rest tracked. */
  lemma TracksRemoveAt<C>(polylines: seq<PolyLine<C>>, shapes: seq<seq<(C, C)>>, footprint: set<PolyLine<C>>, j: nat)
    requires Tracks(polylines, shapes, footprint) && j < |polylines|
    ensures Tracks(RemoveAt(polylines, j), RemoveAt(shapes, j), footprint)
  {
    RemoveAtNoDuplicates(polylines, j);
  }

  /** After polyline `i` has absorbed polyline `j`, splicing `j` out leaves a
      tracked list with the same segments. */
  lemma SpliceAfterJoin<C>(polylines: seq<PolyLine<C>>, shapes: seq<seq<(C, C)>>, footprint: set<PolyLine<C>>,
                           i: nat, j: nat, glued: seq<(C, C)>)
    requires i < j < |polylines| && |shapes| == |polylines|
    requires |shapes[i]| > 0 && |shapes[j]| > 0 && Joinable(shapes[i], shapes[j])
    requires glued == Glue(FindCase(shapes[i], shapes[j]).value, shapes[i], shapes[j])
    requires Tracks(polylines, shapes[i := glued], footprint)
    ensures Tracks(RemoveAt(polylines, j), RemoveAt(shapes[i := glued], j), footprint)
    ensures TotalEdges(RemoveAt(shapes[i := glued], j)) == TotalEdges(shapes)
  {
    JoinPreservesEdges(shapes[i], shapes[j]);
    TotalEdgesAfterJoin(shapes, i, j, glued);
    TracksRemoveAt(polylines, shapes[i := glued], footprint, j);
  }

  /** One round of the inner loop (generative.js:227-232): polyline `i`
      tries to absorb polyline `j`, which is spliced out of the list when it
      is absorbed. */
  method AbsorbStep<C(==)>(polylines: seq<PolyLine<C>>, i: nat, j: nat,
                           ghost shapes: seq<seq<(C, C)>>, ghost footprint: set<PolyLine<C>>)
    returns (result: seq<PolyLine<C>>, joined: bool, ghost resultShapes: seq<seq<(C, C)>>)
    requires Tracks(polylines, shapes, footprint) && i < j < |polylines|
    modifies polylines[i]
    ensures Tracks(result, resultShapes, footprint)
    ensures joined == Joinable(shapes[i], shapes[j])
    ensures joined ==> result == RemoveAt(polylines, j)
    ensures joined ==>
      resultShapes == RemoveAt(shapes[i := Glue(FindCase(shapes[i], shapes[j]).value, shapes[i], shapes[j])], j)
    ensures !joined ==> result == polylines && resultShapes == shapes
    ensures result[i] == polylines[i]
    ensures result[..i] == polylines[..i] && resultShapes[..i] == shapes[..i]
    ensures TotalEdges(resultShapes) == TotalEdges(shapes)
  {
    var polyline1, polyline2 := polylines[i], polylines[j];
    ghost var mine, theirs := shapes[i], shapes[j];
    joined := polyline1.Join(polyline2);
    ghost var glued := polyline1.Points();
    ghost var updated := shapes[i := glued];
    forall k | 0 <= k < |polylines|
      ensures polylines[k] in footprint && polylines[k].Valid()
      ensures updated[k] == polylines[k].Points() && |updated[k]| >= 2
    {
      if k != i {
        assert polylines[k] != polyline1;
      }
    }
    assert Tracks(polylines, updated, footprint);
    result := polylines;
    resultShapes := updated;
    if joined {
      assert glued == Glue(FindCase(mine, theirs).value, mine, theirs);
      SpliceAfterJoin(polylines, shapes, footprint, i, j, glued);
      RemoveAtPrefix(polylines, i, j, polyline1);
      RemoveAtPrefix(shapes, i, j, glued);
      result := RemoveAt(polylines, j);
      resultShapes := RemoveAt(updated, j);
    } else {
      assert updated == shapes;
    }
  }

  /** The inner loop of the merge (generative.js:226-234) for one `i`: tries
      each later polyline in turn against polyline `i`, and on a join looks at
      the same slot again, which now holds the next polyline. */
  method AbsorbInto<C(==)>(polylines: seq<PolyLine<C>>, i: nat,
                           ghost shapes: seq<seq<(C, C)>>, ghost footprint: set<PolyLine<C>>)
    returns (result: seq<PolyLine<C>>, didJoin: bool, ghost resultShapes: seq<seq<(C, C)>>)
    requires Tracks(polylines, shapes, footprint) && i < |polylines|
    modifies polylines[i]
    ensures Tracks(result, resultShapes, footprint)
    ensures i < |result| <= |polylines| && result[i] == polylines[i]
    ensures result[..i] == polylines[..i] && resultShapes[..i] == shapes[..i]
    ensures TotalEdges(resultShapes) == TotalEdges(shapes)
    ensures didJoin ==> |result| < |polylines|
    ensures !didJoin ==>
      result == polylines && resultShapes == shapes &&
      forall b :: i < b < |shapes| ==> !Joinable(shapes[i], shapes[b])
    ensures (forall b :: i < b < |shapes| ==> !Joinable(shapes[i], shapes[b])) ==> !didJoin
  {
    result, resultShapes := polylines, shapes;
    didJoin := false;
    var numPieces := |result|;
    var j := i + 1;
    while j < numPieces
      invariant i < j <= numPieces == |result| <= |polylines|
      invariant Tracks(result, resultShapes, footprint)
      invariant result[i] == polylines[i]
      invariant result[..i] == polylines[..i] && resultShapes[..i] == shapes[..i]
      invariant (forall b :: i < b < |shapes| ==> !Joinable(shapes[i], shapes[b])) ==> !didJoin
      invariant TotalEdges(resultShapes) == TotalEdges(shapes)
      invariant didJoin ==> |result| < |polylines|
      invariant !didJoin ==>
        result == polylines && resultShapes == shapes &&
        forall b :: i < b < j ==> !Joinable(shapes[i], shapes[b])
      decreases numPieces - j
    {
      var joined;
      ghost var before, beforeShapes := result, resultShapes;
      result, joined, resultShapes := AbsorbStep(result, i, j, resultShapes, footprint);
      assert result[..i] == before[..i] == polylines[..i];
      assert resultShapes[..i] == beforeShapes[..i] == shapes[..i];
      if joined {
        didJoin := true;
        numPieces := numPieces - 1;
        j := j - 1;
      }
      j := j + 1;
    }
  }

  /** One pass of the do/while body (generative.js:223-235): every polyline
      in turn absorbs what it can of the polylines after it. */
  method MergePass<C(==)>(polylines: seq<PolyLine<C>>,
                          ghost shapes: seq<seq<(C, C)>>, ghost footprint: set<PolyLine<C>>)
    returns (result: seq<PolyLine<C>>, didJoin: bool, ghost resultShapes: seq<seq<(C, C)>>)
    requires Tracks(polylines, shapes, footprint)
    modifies footprint
    ensures Tracks(result, resultShapes, footprint)
    ensures TotalEdges(resultShapes) == TotalEdges(shapes)
    ensures didJoin ==> |result| < |polylines|
    ensures !didJoin ==> result == polylines && resultShapes == shapes && Stable(shapes)
    ensures Stable(shapes) ==> !didJoin
  {
    result, resultShapes := polylines, shapes;
    didJoin := false;
    var numPieces := |result|;
    var i := 0;
    while i < numPieces
      invariant 0 <= i <= numPieces == |result| <= |polylines|
      invariant Tracks(result, resultShapes, footprint)
      invariant TotalEdges(resultShapes) == TotalEdges(shapes)
      invariant didJoin ==> |result| < |polylines|
      invariant !didJoin ==>
        result == polylines && resultShapes == shapes &&
        forall a, b :: 0 <= a < i && a < b < |shapes| ==> !Joinable(shapes[a], shapes[b])
      invariant Stable(shapes) ==> !didJoin
      decreases numPieces - i
    {
      var joined;
      result, joined, resultShapes := AbsorbInto(result, i, resultShapes, footprint);
      didJoin := didJoin || joined;
      numPieces := |result|;
      i := i + 1;
    }
  }

  /** The merge loop of `straightStitch` (generative.js:220-236) on a tracked
      list: passes until one of them joins nothing. */
  method MergeLoop<C(==)>(polylines: seq<PolyLine<C>>,
                          ghost shapes: seq<seq<(C, C)>>, ghost footprint: set<PolyLine<C>>)
    returns (result: seq<PolyLine<C>>, ghost resultShapes: seq<seq<(C, C)>>)
    requires Tracks(polylines, shapes, footprint)
    modifies footprint
    ensures Tracks(result, resultShapes, footprint)
    ensures |result| <= |polylines|
    ensures Stable(resultShapes)
    ensures TotalEdges(resultShapes) == TotalEdges(shapes)
    ensures Stable(shapes) ==> result == polylines && resultShapes == shapes
  {
    result, resultShapes := polylines, shapes;
    var didJoin := true;
    while didJoin
      invariant |result| <= |polylines|
      invariant Tracks(result, resultShapes, footprint)
      invariant TotalEdges(resultShapes) == TotalEdges(shapes)
      invariant !didJoin ==> Stable(resultShapes)
      invariant Stable(shapes) ==> result == polylines && resultShapes == shapes
      decreases |result| + (if didJoin then 1 else 0)
    {
      result, didJoin, resultShapes := MergePass(result, resultShapes, footprint);
    }
  }

  /** A list of distinct valid polylines is tracked by its own shapes within
      the set of its elements. */
  lemma TracksStart<C>(pieces: seq<PolyLine<C>>)
    requires AllValid(pieces) && NoDuplicates(pieces)
    ensures Tracks(pieces, Shapes(pieces), set k | 0 <= k < |pieces| :: pieces[k])
  {
  }

  /** Merging a list of distinct single polylines: the result is drawn from
      them, no two of its polylines can be joined, together they draw the
      same segments, and a list with nothing to join is left as it is. */
  method Merge<C(==)>(pieces: seq<PolyLine<C>>) returns (polylines: seq<PolyLine<C>>)
    requires AllValid(pieces) && NoDuplicates(pieces)
    modifies pieces
    ensures AllValid(polylines) && NoDuplicates(polylines)
    ensures forall k :: 0 <= k < |polylines| ==> polylines[k] in pieces
    ensures |polylines| <= |pieces|
    ensures Stable(Shapes(polylines))
    ensures TotalEdges(Shapes(polylines)) == old(TotalEdges(Shapes(pieces)))
    ensures old(Stable(Shapes(pieces))) ==>
      polylines == pieces && Shapes(polylines) == old(Shapes(pieces))
  {
    ghost var start := Shapes(pieces);
    ghost var footprint := set k | 0 <= k < |pieces| :: pieces[k];
    TracksStart(pieces);
    ghost var shapes;
    polylines, shapes := MergeLoop(pieces, start, footprint);
    TrackedShapes(polylines, shapes, footprint);
  }

  /** The picture points of a grid segment's two ends. */
  function Endpoints<C>(s: Segment, coordinate: (int, int) -> (C, C)): seq<(C, C)>
  {
    [coordinate(s.from.col, s.from.row), coordinate(s.to.col, s.to.row)]
  }

  /** The two-point paths of a list of grid segments, in order. */
  function Drawn<C>(segments: seq<Segment>, coordinate: (int, int) -> (C, C)): (d: seq<seq<(C, C)>>)
    ensures |d| == |segments|
    ensures forall k :: 0 <= k < |d| ==> d[k] == Endpoints(segments[k], coordinate)
  {
    if segments == [] then []
    else Drawn(segments[..|segments| - 1], coordinate) + [Endpoints(Last(segments), coordinate)]
  }

  /** The segments drawn for a selection, one unordered pair of picture points
      per selected grid edge. */
  ghost function SegmentEdges<C>(segments: seq<Segment>, coordinate: (int, int) -> (C, C)): multiset<set<(C, C)>>
  {
    if segments == [] then multiset{}
    else
      var e := Endpoints(Last(segments), coordinate);
      SegmentEdges(segments[..|segments| - 1], coordinate) + multiset{{e[0], e[1]}}
  }

  /** Drawing each selected edge as its own polyline draws exactly the
      selected edges: one segment per grid edge. */
  lemma {:induction false} DrawnEdges<C>(segments: seq<Segment>, coordinate: (int, int) -> (C, C))
    ensures TotalEdges(Drawn(segments, coordinate)) == SegmentEdges(segments, coordinate)
    ensures |SegmentEdges(segments, coordinate)| == |segments|
  {
    if segments != [] {
      var front := segments[..|segments| - 1];
      DrawnEdges(front, coordinate);
      var e: seq<(C, C)> := Endpoints(Last(segments), coordinate);
      TotalEdgesAppend(Drawn(front, coordinate), [e]);
      assert [e][1..] == [];
      assert Edges(e) == multiset{{e[0], e[1]}} + Edges(e[1..]);
    }
  }

  /** The `new PolyLine(x1, y1, x2, y2)` pushes of generative.js:205-207 and
      214-216: one fresh polyline per selected segment, in the same order. */
  method MakePieces<C(==)>(segments: seq<Segment>, coordinate: (int, int) -> (C, C))
    returns (pieces: seq<PolyLine<C>>)
    ensures AllValid(pieces) && NoDuplicates(pieces)
    ensures forall k :: 0 <= k < |pieces| ==> fresh(pieces[k])
    ensures Shapes(pieces) == Drawn(segments, coordinate)
  {
    pieces := [];
    for n := 0 to |segments|
      invariant |pieces| == n && NoDuplicates(pieces)
      invariant forall k :: 0 <= k < n ==>
        fresh(pieces[k]) && pieces[k].Valid() && pieces[k].Points() == Endpoints(segments[k], coordinate)
    {
      var s := segments[n];
      var (x1, y1) := coordinate(s.from.col, s.from.row);
      var (x2, y2) := coordinate(s.to.col, s.to.row);
      var polyline := new PolyLine(x1, y1, x2, y2);
      pieces := pieces + [polyline];
    }
  }

  /** `straightStitch` without its drawing (generative.js:200-236): the
      selected stitches become polylines, which are merged until no two of
      them share an endpoint; together they draw every selected stitch once. */
  method StraightStitch<C(==)>(columns: seq<Bit>, rows: seq<Bit>, coordinate: (int, int) -> (C, C))
    returns (polylines: seq<PolyLine<C>>)
    ensures AllValid(polylines) && NoDuplicates(polylines)
    ensures forall k :: 0 <= k < |polylines| ==> fresh(polylines[k])
    ensures |polylines| <= |StitchSegments(columns, rows)|
    ensures Stable(Shapes(polylines))
    ensures TotalEdges(Shapes(polylines)) == SegmentEdges(StitchSegments(columns, rows), coordinate)
  {
    var segments := Select(columns, rows);
    var pieces: seq<PolyLine<C>> := MakePieces(segments, coordinate);
    ghost var drawn := Shapes(pieces);
    DrawnEdges(segments, coordinate);
    assert TotalEdges(drawn) == SegmentEdges(StitchSegments(columns, rows), coordinate);
    polylines := Merge(pieces);
    assert TotalEdges(Shapes(polylines)) == TotalEdges(drawn);
  }
}
