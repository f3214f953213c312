/** The value-level meaning of `PolyLine.join` (generative.js:149-185): which of
    the four endpoint coincidences applies, the sequence a join glues together,
    and the fact that a join keeps every segment of both inputs and adds none.
    Points are of any type with equality: joining only ever compares endpoints. */
module Paths {
  import opened Sequences

  datatype Option<T> = None | Some(value: T)

  /** The four ways two polylines can meet, in the order `join` tests them. */
  datatype JoinCase =
    | EndToStart    // this ends where the other starts
    | EndToEnd      // this ends where the other ends
    | StartToEnd    // the other ends where this starts
    | StartToStart  // both start at the same point

  /** The first coincidence that holds between `mine` and `theirs`, if any. */
  function FindCase<P(==)>(mine: seq<P>, theirs: seq<P>): (c: Option<JoinCase>)
    requires |mine| > 0 && |theirs| > 0
    ensures c.Some? <==>
      (Last(mine) == theirs[0] || Last(mine) == Last(theirs) ||
       Last(theirs) == mine[0] || mine[0] == theirs[0])
    ensures c == Some(EndToStart) <==> Last(mine) == theirs[0]
    ensures c == Some(EndToEnd) <==> Last(mine) != theirs[0] && Last(mine) == Last(theirs)
    ensures c == Some(StartToEnd) <==>
      Last(mine) != theirs[0] && Last(mine) != Last(theirs) && Last(theirs) == mine[0]
    ensures c == Some(StartToStart) <==>
      Last(mine) != theirs[0] && Last(mine) != Last(theirs) && Last(theirs) != mine[0] &&
      mine[0] == theirs[0]
  {
    if Last(mine) == theirs[0] then Some(EndToStart)
    else if Last(mine) == Last(theirs) then Some(EndToEnd)
    else if Last(theirs) == mine[0] then Some(StartToEnd)
    else if mine[0] == theirs[0] then Some(StartToStart)
    else None
  }

  /** Two non-empty paths can be joined when one of the four cases applies. */
  predicate Joinable<P(==)>(mine: seq<P>, theirs: seq<P>)
  {
    |mine| > 0 && |theirs| > 0 && FindCase(mine, theirs).Some?
  }

  /** The sequence `join` builds for case `c`; the shared endpoint is kept once. */
  function Glue<T>(c: JoinCase, mine: seq<T>, theirs: seq<T>): (r: seq<T>)
    requires |mine| > 0 && |theirs| > 0
    ensures |r| == |mine| + |theirs| - 1
  {
    match c
    case EndToStart => mine + theirs[1..]
    case EndToEnd => mine + Reverse(theirs[..|theirs| - 1])
    case StartToEnd => theirs + mine[1..]
    case StartToStart => Reverse(theirs[1..]) + mine
  }

  /** The segments of a path, each as the unordered pair of its endpoints. */
  ghost function Edges<P>(p: seq<P>): (e: multiset<set<P>>)
    ensures |e| == if |p| == 0 then 0 else |p| - 1
  {
    if |p| < 2 then multiset{} else multiset{{p[0], p[1]}} + Edges(p[1..])
  }

  /** Symmetry: `mine` can be joined with `theirs` exactly when `theirs` can be
      joined with `mine`, so testing each unordered pair once suffices. */
  lemma JoinableSymmetric<P>(mine: seq<P>, theirs: seq<P>)
    ensures Joinable(mine, theirs) == Joinable(theirs, mine)
  {
  }

  lemma {:induction false} EdgesAppend<P>(a: seq<P>, b: seq<P>)
    requires |a| > 0 && |b| > 0
    ensures Edges(a + b) == Edges(a) + multiset{{Last(a), b[0]}} + Edges(b)
  {
    if |a| == 1 {
      assert (a + b)[1..] == b;
    } else {
      assert (a + b)[1..] == a[1..] + b;
      EdgesAppend(a[1..], b);
    }
  }

  lemma PairSymmetric<P>(u: P, v: P)
    ensures {u, v} == {v, u}
  {
  }

  /** Running a path backwards traverses the same segments. */
  lemma {:induction false} EdgesReverse<P>(p: seq<P>)
    ensures Edges(Reverse(p)) == Edges(p)
  {
    if |p| < 2 {
      assert Reverse(p) == p;
    } else {
      var rest := Reverse(p[1..]);
      ReverseBack(p);
      EdgesAppend(rest, [p[0]]);
      EdgesReverse(p[1..]);
      assert Last(rest) == p[1];
      PairSymmetric(p[1], p[0]);
      assert Edges([p[0]]) == multiset{};
      assert Edges(p) == multiset{{p[0], p[1]}} + Edges(p[1..]);
    }
  }

  /** Gluing `b` after `a` at a shared point keeps the segments of both. */
  lemma GlueAfter<P>(a: seq<P>, b: seq<P>)
    requires |a| > 0 && |b| > 0 && Last(a) == b[0]
    ensures Edges(a + b[1..]) == Edges(a) + Edges(b)
  {
    if |b| == 1 {
      assert a + b[1..] == a;
    } else {
      EdgesAppend(a, b[1..]);
      assert Edges(b) == multiset{{b[0], b[1]}} + Edges(b[1..]);
    }
  }

  /** A join loses no segment and invents none: the segments of the joined
      path are exactly those of the two inputs, counted with multiplicity. */
  lemma JoinPreservesEdges<P>(mine: seq<P>, theirs: seq<P>)
    requires |mine| > 0 && |theirs| > 0 && Joinable(mine, theirs)
    ensures Edges(Glue(FindCase(mine, theirs).value, mine, theirs)) == Edges(mine) + Edges(theirs)
  {
    var n := |theirs|;
    match FindCase(mine, theirs).value
    case EndToStart =>
      GlueAfter(mine, theirs);
    case EndToEnd =>
      ReverseFront(theirs);
      GlueAfter(mine, Reverse(theirs));
      assert Reverse(theirs)[1..] == Reverse(theirs[..n - 1]);
      EdgesReverse(theirs);
    case StartToEnd =>
      GlueAfter(theirs, mine);
    case StartToStart =>
      ReverseBack(theirs);
      var back := Reverse(theirs);
      assert back + mine[1..] == Reverse(theirs[1..]) + mine;
      GlueAfter(back, mine);
      EdgesReverse(theirs);
  }

  lemma {:induction false} StepIsEdge<P>(p: seq<P>, k: nat)
    requires k + 1 < |p|
    ensures {p[k], p[k + 1]} in Edges(p)
  {
    if k > 0 {
      StepIsEdge(p[1..], k - 1);
    }
  }

  lemma {:induction false} EdgeIsStep<P>(p: seq<P>, e: set<P>)
    requires e in Edges(p)
    ensures exists k :: 0 <= k < |p| - 1 && e == {p[k], p[k + 1]}
  {
    if e != {p[0], p[1]} {
      EdgeIsStep(p[1..], e);
      var k :| 0 <= k < |p| - 2 && e == {p[1..][k], p[1..][k + 1]};
      assert e == {p[k + 1], p[k + 2]};
    }
  }

  /** The joined polyline is one contiguous path: each pair of neighbouring
      points in it is a pair of neighbouring points of one of the inputs. */
  lemma JoinIsContiguous<P>(mine: seq<P>, theirs: seq<P>, k: nat)
    requires |mine| > 0 && |theirs| > 0 && Joinable(mine, theirs)
    requires k + 1 < |mine| + |theirs| - 1
    ensures var r := Glue(FindCase(mine, theirs).value, mine, theirs);
      (exists m :: 0 <= m < |mine| - 1 && {r[k], r[k + 1]} == {mine[m], mine[m + 1]}) ||
      (exists m :: 0 <= m < |theirs| - 1 && {r[k], r[k + 1]} == {theirs[m], theirs[m + 1]})
  {
    var r := Glue(FindCase(mine, theirs).value, mine, theirs);
    StepIsEdge(r, k);
    JoinPreservesEdges(mine, theirs);
    if {r[k], r[k + 1]} in Edges(mine) {
      EdgeIsStep(mine, {r[k], r[k + 1]});
    } else {
      EdgeIsStep(theirs, {r[k], r[k + 1]});
    }
  }

  lemma ZipEndToStart<C>(xs: seq<C>, ys: seq<C>, xs': seq<C>, ys': seq<C>)
    requires |xs| == |ys| && |xs'| == |ys'| > 0
    ensures Zip(xs + xs'[1..], ys + ys'[1..]) == Zip(xs, ys) + Zip(xs', ys')[1..]
  {
    assert Zip(xs'[1..], ys'[1..]) == Zip(xs', ys')[1..];
    ZipAppend(xs, xs'[1..], ys, ys'[1..]);
  }

  lemma ZipEndToEnd<C>(xs: seq<C>, ys: seq<C>, xs': seq<C>, ys': seq<C>)
    requires |xs| == |ys| && |xs'| == |ys'| > 0
    ensures Zip(xs + Reverse(xs'[..|xs'| - 1]), ys + Reverse(ys'[..|ys'| - 1])) ==
            Zip(xs, ys) + Reverse(Zip(xs', ys')[..|xs'| - 1])
  {
    var front, front' := xs'[..|xs'| - 1], ys'[..|ys'| - 1];
    assert Zip(front, front') == Zip(xs', ys')[..|xs'| - 1];
    ZipReverse(front, front');
    ZipAppend(xs, Reverse(front), ys, Reverse(front'));
  }

  lemma ZipStartToStart<C>(xs: seq<C>, ys: seq<C>, xs': seq<C>, ys': seq<C>)
    requires |xs| == |ys| && |xs'| == |ys'| > 0
    ensures Zip(Reverse(xs'[1..]) + xs, Reverse(ys'[1..]) + ys) == Reverse(Zip(xs', ys')[1..]) + Zip(xs, ys)
  {
    assert Zip(xs'[1..], ys'[1..]) == Zip(xs', ys')[1..];
    ZipReverse(xs'[1..], ys'[1..]);
    ZipAppend(Reverse(xs'[1..]), xs, Reverse(ys'[1..]), ys);
  }

  /** Segments A-B, B-C and C-D chain into the single path A, B, C, D, while
      two segments with four distinct ends cannot be joined. */
  lemma ChainOfSegments<P>(a: P, b: P, c: P, d: P)
    requires a != b && a != c && a != d && b != c && b != d && c != d
    ensures Joinable([a, b], [b, c]) && Glue(FindCase([a, b], [b, c]).value, [a, b], [b, c]) == [a, b, c]
    ensures Joinable([a, b, c], [c, d]) && Glue(FindCase([a, b, c], [c, d]).value, [a, b, c], [c, d]) == [a, b, c, d]
    ensures !Joinable([a, b], [c, d])
  {
    assert [a, b] + [b, c][1..] == [a, b, c];
    assert [a, b, c] + [c, d][1..] == [a, b, c, d];
  }

  /** Gluing the coordinate arrays one by one glues the points they describe. */
  lemma GlueZip<C>(c: JoinCase, xs: seq<C>, ys: seq<C>, xs': seq<C>, ys': seq<C>)
    requires |xs| == |ys| > 0 && |xs'| == |ys'| > 0
    ensures Zip(Glue(c, xs, xs'), Glue(c, ys, ys')) == Glue(c, Zip(xs, ys), Zip(xs', ys'))
  {
    match c
    case EndToStart => ZipEndToStart(xs, ys, xs', ys');
    case EndToEnd => ZipEndToEnd(xs, ys, xs', ys');
    case StartToEnd => ZipEndToStart(xs', ys', xs, ys);
    case StartToStart => ZipStartToStart(xs, ys, xs', ys');
  }
}
