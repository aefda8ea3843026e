/**
  Points of the building's floor plan and the nearest-node snap of the
  campus map view (`dist` and `findNearestNode`).

  Every coordinate of the map's tables is a whole number, so points are
  pairs of integers. `dist` is the Euclidean distance; the model compares
  squared distances instead, which order points the same way because the
  square root is strictly increasing, so the chosen node and the handling
  of ties are unchanged.
*/
module Geometry {

  datatype Point = Point(x: int, y: int)

  /** The square of `dist(a, b)`: never negative, and zero exactly for equal points. */
  function SqDist(a: Point, b: Point): (d: int)
    ensures d >= 0
    ensures d == 0 <==> a == b
  {
    var dx := a.x - b.x;
    var dy := a.y - b.y;
    dx * dx + dy * dy
  }

  /**
    The index `minByOrNull` settles on when it scans `nodes` from left to
    right, keeping the current best and replacing it only by a strictly
    closer node: an index of minimum distance, earlier than which every
    node is strictly farther away.
  */
  function NearestIndex(nodes: seq<Point>, p: Point): (i: nat)
    requires nodes != []
    ensures i < |nodes|
    ensures forall j :: 0 <= j < |nodes| ==> SqDist(nodes[i], p) <= SqDist(nodes[j], p)
    ensures forall j :: 0 <= j < i ==> SqDist(nodes[i], p) < SqDist(nodes[j], p)
    decreases |nodes|
  {
    if |nodes| == 1 then 0
    else
      var k := NearestIndex(nodes[..|nodes| - 1], p);
      if SqDist(nodes[|nodes| - 1], p) < SqDist(nodes[k], p) then |nodes| - 1 else k
  }

  /**
    `findNearestNode`: the first node of `nodes` closest to `p`, or `p`
    itself when there are no nodes (the `?: point` fallback).
  */
  function NearestNode(nodes: seq<Point>, p: Point): (r: Point)
    ensures nodes == [] ==> r == p
    ensures nodes != [] ==> r in nodes
    ensures forall q :: q in nodes ==> SqDist(r, p) <= SqDist(q, p)
    ensures nodes != [] ==>
      exists i :: 0 <= i < |nodes| && nodes[i] == r &&
        forall j :: 0 <= j < i ==> SqDist(r, p) < SqDist(nodes[j], p)
  {
    if nodes == [] then p
    else
      var i := NearestIndex(nodes, p);
      assert forall q :: q in nodes ==> exists j :: 0 <= j < |nodes| && nodes[j] == q;
      nodes[i]
  }

  /**
    The two properties of `NearestIndex` determine it: any index of
    minimum distance with only strictly farther nodes before it is that
    index.
  */
  lemma NearestIndexUnique(nodes: seq<Point>, p: Point, i: nat)
    requires i < |nodes|
    requires forall j :: 0 <= j < |nodes| ==> SqDist(nodes[i], p) <= SqDist(nodes[j], p)
    requires forall j :: 0 <= j < i ==> SqDist(nodes[i], p) < SqDist(nodes[j], p)
    ensures i == NearestIndex(nodes, p)
  {
  }

  /** Snapping a point that already is a node gives back that node. */
  lemma NearestOfNode(nodes: seq<Point>, n: Point)
    requires n in nodes
    ensures NearestNode(nodes, n) == n
  {
    var r := NearestNode(nodes, n);
    assert SqDist(r, n) <= SqDist(n, n);
  }

  /** Snapping is idempotent. */
  lemma SnapIdempotent(nodes: seq<Point>, p: Point)
    ensures NearestNode(nodes, NearestNode(nodes, p)) == NearestNode(nodes, p)
  {
    if nodes != [] {
      NearestOfNode(nodes, NearestNode(nodes, p));
    }
  }
}
