/**
  The walkable waypoint graph and the breadth-first search of the campus
  map view (`findShortestPath`).

  The search keeps a FIFO queue of whole paths and a set of expanded
  nodes. It dequeues a path; if the path ends at the goal it is the
  answer; otherwise, the first time its last node is dequeued, that node
  is marked visited and one extension of the path per neighbour is
  enqueued. An exhausted queue means there is no route.
*/
module Graph {
  import opened Geometry

  /** Adjacency lists (`graphEdges`): a node maps to the nodes next to it. */
  type Edges = map<Point, seq<Point>>

  /** `graphEdges[node]?`: a node missing from the table has no neighbours. */
  function Neighbours(edges: Edges, v: Point): seq<Point>
  {
    if v in edges then edges[v] else []
  }

  function Last(p: seq<Point>): Point
    requires p != []
  {
    p[|p| - 1]
  }

  /** A non-empty sequence of nodes, each a neighbour of the one before. */
  ghost predicate IsWalk(edges: Edges, w: seq<Point>)
  {
    w != [] && forall i :: 0 <= i < |w| - 1 ==> w[i + 1] in Neighbours(edges, w[i])
  }

  ghost predicate IsWalkBetween(edges: Edges, w: seq<Point>, a: Point, b: Point)
  {
    IsWalk(edges, w) && w[0] == a && Last(w) == b
  }

  ghost predicate Reachable(edges: Edges, a: Point, b: Point)
  {
    exists w :: IsWalkBetween(edges, w, a, b)
  }

  /** A walk from `a` to `b` with no more nodes (hops plus one) than any other. */
  ghost predicate IsShortestWalk(edges: Edges, w: seq<Point>, a: Point, b: Point)
  {
    IsWalkBetween(edges, w, a, b) &&
    forall v :: IsWalkBetween(edges, v, a, b) ==> |w| <= |v|
  }

  /** The nodes a search from `start` can ever dequeue. */
  ghost function Vertices(edges: Edges, start: Point): set<Point>
  {
    {start} + set k, i | k in edges && 0 <= i < |edges[k]| :: edges[k][i]
  }

  /** The paths the search enqueues when it expands the last node of `p`. */
  function Extensions(p: seq<Point>, ns: seq<Point>): (r: seq<seq<Point>>)
    ensures |r| == |ns|
    ensures forall k :: 0 <= k < |ns| ==> r[k] == p + [ns[k]]
  {
    seq(|ns|, k requires 0 <= k < |ns| => p + [ns[k]])
  }

  /**
    `findShortestPath(start, end)`: a shortest walk from `start` to `end`,
    or the empty list exactly when `end` cannot be reached.
  */
  method ShortestPath(edges: Edges, start: Point, end: Point) returns (path: seq<Point>)
    ensures path != [] ==> IsShortestWalk(edges, path, start, end)
    ensures path == [] <==> !Reachable(edges, start, end)
    ensures start == end ==> path == [start]
  {
    var queue: seq<seq<Point>> := [[start]];
    var visited: set<Point> := {};
    ghost var vertices := Vertices(edges, start);
    SearchStart(edges, start, end);
    while queue != []
      invariant SearchInv(edges, start, end, queue, visited)
      decreases |vertices - visited|, |queue|
    {
      ghost var queue0, visited0 := queue, visited;
      var p := queue[0];
      queue := queue[1..];
      var node := Last(p);
      if node == end {
        SearchFound(edges, start, end, queue0, visited0);
        return p;
      }
      SearchStep(edges, start, end, queue0, visited0);
      if node !in visited {
        visited := visited + {node};
        queue := EnqueueExtensions(queue, p, Neighbours(edges, node));
        VisitShrinks(vertices, visited0, node);
      }
    }
    SearchExhausted(edges, start, end, visited);
    return [];
  }

  /** The `forEach` over the neighbours: one extension of `p` per neighbour, in order. */
  method EnqueueExtensions(queue: seq<seq<Point>>, p: seq<Point>, nbrs: seq<Point>) returns (queue': seq<seq<Point>>)
    ensures queue' == queue + Extensions(p, nbrs)
  {
    queue' := queue;
    var i := 0;
    while i < |nbrs|
      invariant 0 <= i <= |nbrs|
      invariant queue' == queue + Extensions(p, nbrs[..i])
    {
      assert nbrs[..i + 1] == nbrs[..i] + [nbrs[i]];
      assert Extensions(p, nbrs[..i + 1]) == Extensions(p, nbrs[..i]) + [p + [nbrs[i]]];
      queue' := queue' + [p + [nbrs[i]]];
      i := i + 1;
    }
    assert nbrs[..i] == nbrs;
  }

  /** Expanding a new vertex leaves fewer vertices to expand. */
  lemma VisitShrinks(vertices: set<Point>, visited: set<Point>, node: Point)
    requires node in vertices && node !in visited
    ensures |vertices - (visited + {node})| < |vertices - visited|
  {
    assert vertices - (visited + {node}) == (vertices - visited) - {node};
  }

  lemma ReachableSelf(edges: Edges, a: Point)
    ensures Reachable(edges, a, a)
  {
    assert IsWalkBetween(edges, [a], a, a);
  }

  /** The only shortest walk from a node to itself is that node alone. */
  lemma ShortestWalkToSelf(edges: Edges, w: seq<Point>, a: Point)
    requires IsShortestWalk(edges, w, a, a)
    ensures w == [a]
  {
    assert IsWalkBetween(edges, [a], a, a);
  }

  // ---------------------------------------------------------------------
  // The search invariant, piece by piece.

  ghost predicate EndsAt(queue: seq<seq<Point>>, j: int, w: Point)
  {
    0 <= j < |queue| && queue[j] != [] && Last(queue[j]) == w
  }

  /** Every queued path is a walk out of `start` that ends at a vertex. */
  ghost predicate QueueWalks(edges: Edges, start: Point, queue: seq<seq<Point>>)
  {
    forall j :: 0 <= j < |queue| ==>
      IsWalk(edges, queue[j]) && queue[j][0] == start && Last(queue[j]) in Vertices(edges, start)
  }

  /** Queued paths never get shorter, and differ in length by at most one. */
  ghost predicate Levelled(queue: seq<seq<Point>>)
  {
    forall i, j :: 0 <= i <= j < |queue| ==> |queue[i]| <= |queue[j]| <= |queue[i]| + 1
  }

  /** Each neighbour of an expanded node is expanded or at the end of a queued path. */
  ghost predicate Closed(edges: Edges, queue: seq<seq<Point>>, visited: set<Point>)
  {
    forall v, w :: v in visited && w in Neighbours(edges, v) ==>
      w in visited || exists j :: EndsAt(queue, j, w)
  }

  /**
    Walks shorter than the head of the queue end at expanded nodes; walks
    as long as the head end at expanded nodes or at queued paths of that
    same length.
  */
  ghost predicate Frontier(edges: Edges, start: Point, queue: seq<seq<Point>>, visited: set<Point>)
  {
    queue != [] ==>
      (forall w :: IsWalk(edges, w) && w[0] == start && |w| < |queue[0]| ==> Last(w) in visited) &&
      (forall w :: IsWalk(edges, w) && w[0] == start && |w| == |queue[0]| ==>
         Last(w) in visited || exists j :: EndsAt(queue, j, Last(w)) && |queue[j]| == |queue[0]|)
  }

  ghost predicate SearchInv(edges: Edges, start: Point, end: Point, queue: seq<seq<Point>>, visited: set<Point>)
  {
    && QueueWalks(edges, start, queue)
    && Levelled(queue)
    && visited <= Vertices(edges, start)
    && end !in visited
    && (start in visited || queue == [[start]])
    && Closed(edges, queue, visited)
    && Frontier(edges, start, queue, visited)
  }

  lemma SearchStart(edges: Edges, start: Point, end: Point)
    ensures SearchInv(edges, start, end, [[start]], {})
  {
    var queue := [[start]];
    forall w | IsWalk(edges, w) && w[0] == start && |w| == 1
      ensures exists j :: EndsAt(queue, j, Last(w)) && |queue[j]| == 1
    {
      assert EndsAt(queue, 0, Last(w));
    }
  }

  /** One iteration that does not reach the goal keeps the invariant. */
  lemma SearchStep(edges: Edges, start: Point, end: Point, queue: seq<seq<Point>>, visited: set<Point>)
    requires SearchInv(edges, start, end, queue, visited)
    requires queue != [] && Last(queue[0]) != end
    ensures Last(queue[0]) in Vertices(edges, start)
    ensures Last(queue[0]) in visited ==> SearchInv(edges, start, end, queue[1..], visited)
    ensures Last(queue[0]) !in visited ==>
      SearchInv(edges, start, end, queue[1..] + Extensions(queue[0], Neighbours(edges, Last(queue[0]))),
        visited + {Last(queue[0])})
  {
    var node := Last(queue[0]);
    Expand(edges, start, end, queue, visited);
    if node in visited {
      assert queue[1..] + [] == queue[1..];
      assert visited + {node} == visited;
    }
  }

  /** Dequeuing the head, and expanding its last node unless already expanded, keeps the invariant. */
  lemma Expand(edges: Edges, start: Point, end: Point, queue: seq<seq<Point>>, visited: set<Point>)
    requires SearchInv(edges, start, end, queue, visited)
    requires queue != [] && Last(queue[0]) != end
    ensures
      var node := Last(queue[0]);
      var ext := if node in visited then [] else Extensions(queue[0], Neighbours(edges, node));
      SearchInv(edges, start, end, queue[1..] + ext, visited + {node})
  {
    var p := queue[0];
    var node := Last(p);
    var ext := if node in visited then [] else Extensions(p, Neighbours(edges, node));
    var queue' := queue[1..] + ext;
    var visited' := visited + {node};
    ExtensionsAreWalks(edges, start, p, ext, node in visited);
    StepWalks(edges, start, queue, ext);
    StepLevelled(queue, ext);
    StepBookkeeping(edges, start, end, queue, visited);
    StepClosed(edges, queue, visited, ext);
    StepFrontier(edges, start, queue, visited, ext);
  }

  /** The dequeued node is a vertex other than the goal, and the start is expanded first. */
  lemma StepBookkeeping(edges: Edges, start: Point, end: Point, queue: seq<seq<Point>>, visited: set<Point>)
    requires QueueWalks(edges, start, queue) && visited <= Vertices(edges, start)
    requires start in visited || queue == [[start]]
    requires end !in visited
    requires queue != [] && Last(queue[0]) != end
    ensures visited + {Last(queue[0])} <= Vertices(edges, start)
    ensures end !in visited + {Last(queue[0])}
    ensures start in visited + {Last(queue[0])}
  {
  }

  /** What the enqueued extensions of the dequeued path `p` are like. */
  lemma ExtensionsAreWalks(edges: Edges, start: Point, p: seq<Point>, ext: seq<seq<Point>>, seen: bool)
    requires IsWalk(edges, p) && p[0] == start
    requires ext == if seen then [] else Extensions(p, Neighbours(edges, Last(p)))
    ensures forall k :: 0 <= k < |ext| ==>
      IsWalk(edges, ext[k]) && ext[k][0] == start && |ext[k]| == |p| + 1 &&
      Last(ext[k]) in Vertices(edges, start) && Last(ext[k]) in Neighbours(edges, Last(p))
    ensures !seen ==> forall w :: w in Neighbours(edges, Last(p)) ==>
      exists k :: 0 <= k < |ext| && ext[k] != [] && Last(ext[k]) == w
  {
    var ns := Neighbours(edges, Last(p));
    forall k | 0 <= k < |ext|
      ensures IsWalk(edges, ext[k]) && ext[k][0] == start && |ext[k]| == |p| + 1
      ensures Last(ext[k]) in Vertices(edges, start) && Last(ext[k]) in Neighbours(edges, Last(p))
    {
      var e := ext[k];
      assert e == p + [ns[k]];
      forall i | 0 <= i < |e| - 1 ensures e[i + 1] in Neighbours(edges, e[i]) {
        if i < |p| - 1 {
          assert e[i] == p[i] && e[i + 1] == p[i + 1];
        }
      }
      assert Last(p) in edges;
      assert ns[k] == edges[Last(p)][k];
    }
    if !seen {
      forall w | w in ns ensures exists k :: 0 <= k < |ext| && ext[k] != [] && Last(ext[k]) == w {
        var k :| 0 <= k < |ns| && ns[k] == w;
        assert Last(ext[k]) == w;
      }
    }
  }

  lemma StepWalks(edges: Edges, start: Point, queue: seq<seq<Point>>, ext: seq<seq<Point>>)
    requires QueueWalks(edges, start, queue) && queue != []
    requires forall k :: 0 <= k < |ext| ==>
      IsWalk(edges, ext[k]) && ext[k][0] == start && Last(ext[k]) in Vertices(edges, start)
    ensures QueueWalks(edges, start, queue[1..] + ext)
  {
    var queue' := queue[1..] + ext;
    forall j | 0 <= j < |queue'|
      ensures IsWalk(edges, queue'[j]) && queue'[j][0] == start && Last(queue'[j]) in Vertices(edges, start)
    {
      if j < |queue| - 1 {
        assert queue'[j] == queue[j + 1];
      } else {
        assert queue'[j] == ext[j - (|queue| - 1)];
      }
    }
  }

  lemma StepLevelled(queue: seq<seq<Point>>, ext: seq<seq<Point>>)
    requires Levelled(queue) && queue != []
    requires forall k :: 0 <= k < |ext| ==> |ext[k]| == |queue[0]| + 1
    ensures Levelled(queue[1..] + ext)
  {
    var queue' := queue[1..] + ext;
    var n := |queue| - 1;
    forall j | 0 <= j < |queue'|
      ensures |queue[0]| <= |queue'[j]| <= |queue[0]| + 1
    {
      if j < n {
        assert queue'[j] == queue[j + 1];
      } else {
        assert queue'[j] == ext[j - n];
      }
    }
    forall i, j | 0 <= i <= j < |queue'|
      ensures |queue'[i]| <= |queue'[j]|
    {
      if j < n {
        assert queue'[i] == queue[i + 1] && queue'[j] == queue[j + 1];
      } else {
        assert queue'[j] == ext[j - n];
      }
    }
  }

  lemma StepClosed(edges: Edges, queue: seq<seq<Point>>, visited: set<Point>, ext: seq<seq<Point>>)
    requires Closed(edges, queue, visited) && queue != [] && queue[0] != []
    requires Last(queue[0]) in visited ==> ext == []
    requires Last(queue[0]) !in visited ==>
      forall w :: w in Neighbours(edges, Last(queue[0])) ==>
        exists k :: 0 <= k < |ext| && ext[k] != [] && Last(ext[k]) == w
    ensures Closed(edges, queue[1..] + ext, visited + {Last(queue[0])})
  {
    var node := Last(queue[0]);
    var queue' := queue[1..] + ext;
    var visited' := visited + {node};
    var n := |queue| - 1;
    forall v, w | v in visited' && w in Neighbours(edges, v)
      ensures w in visited' || exists j :: EndsAt(queue', j, w)
    {
      if v in visited {
        if w !in visited {
          var j :| EndsAt(queue, j, w);
          if j > 0 {
            assert queue'[j - 1] == queue[j];
            assert EndsAt(queue', j - 1, w);
          }
        }
      } else {
        var k :| 0 <= k < |ext| && ext[k] != [] && Last(ext[k]) == w;
        assert queue'[n + k] == ext[k];
        assert EndsAt(queue', n + k, w);
      }
    }
  }

  lemma StepFrontier(edges: Edges, start: Point, queue: seq<seq<Point>>, visited: set<Point>, ext: seq<seq<Point>>)
    requires Frontier(edges, start, queue, visited) && Levelled(queue) && queue != [] && queue[0] != []
    requires Levelled(queue[1..] + ext)
    requires Closed(edges, queue[1..] + ext, visited + {Last(queue[0])})
    requires forall k :: 0 <= k < |ext| ==> |ext[k]| == |queue[0]| + 1
    ensures Frontier(edges, start, queue[1..] + ext, visited + {Last(queue[0])})
  {
    var queue' := queue[1..] + ext;
    var visited' := visited + {Last(queue[0])};
    var len := |queue[0]|;
    if queue' != [] {
      SameLevelStays(edges, start, queue, visited, ext);
      if |queue'[0]| != len {
        LevelUp(queue, ext);
        forall w | IsWalk(edges, w) && w[0] == start && |w| <= len
          ensures Last(w) in visited'
        {
        }
        NextLevel(edges, start, queue', visited', len);
      }
    }
  }

  /** Walks as long as the old head that were not expanded still end at queued paths. */
  lemma SameLevelStays(edges: Edges, start: Point, queue: seq<seq<Point>>, visited: set<Point>, ext: seq<seq<Point>>)
    requires Frontier(edges, start, queue, visited) && queue != [] && queue[0] != []
    ensures forall w :: IsWalk(edges, w) && w[0] == start && |w| == |queue[0]| && Last(w) !in visited + {Last(queue[0])} ==>
      exists j :: EndsAt(queue[1..] + ext, j, Last(w)) && |(queue[1..] + ext)[j]| == |queue[0]|
  {
    var queue' := queue[1..] + ext;
    var visited' := visited + {Last(queue[0])};
    var len := |queue[0]|;
    forall w | IsWalk(edges, w) && w[0] == start && |w| == len && Last(w) !in visited'
      ensures exists j :: EndsAt(queue', j, Last(w)) && |queue'[j]| == len
    {
      var j :| EndsAt(queue, j, Last(w)) && |queue[j]| == len;
      assert j != 0;
      assert queue'[j - 1] == queue[j];
      assert EndsAt(queue', j - 1, Last(w));
    }
  }

  /** When the head of the queue gets longer, every queued path has one node more than the old head. */
  lemma LevelUp(queue: seq<seq<Point>>, ext: seq<seq<Point>>)
    requires Levelled(queue) && queue != []
    requires Levelled(queue[1..] + ext)
    requires forall k :: 0 <= k < |ext| ==> |ext[k]| == |queue[0]| + 1
    requires queue[1..] + ext != [] && |(queue[1..] + ext)[0]| != |queue[0]|
    ensures forall j :: 0 <= j < |queue[1..] + ext| ==> |(queue[1..] + ext)[j]| == |queue[0]| + 1
  {
    var queue' := queue[1..] + ext;
    var n := |queue| - 1;
    var len := |queue[0]|;
    forall j | 0 <= j < |queue'| ensures |queue'[j]| == len + 1 {
      if j < n {
        assert queue'[j] == queue[j + 1];
        assert queue'[0] == queue[1];
      } else {
        assert queue'[j] == ext[j - n];
      }
    }
  }

  /**
    Once every walk of at most `len` nodes ends at an expanded node and
    all queued paths have `len + 1` nodes, the frontier holds at that
    next length.
  */
  lemma NextLevel(edges: Edges, start: Point, queue: seq<seq<Point>>, visited: set<Point>, len: nat)
    requires len > 0 && queue != []
    requires forall j :: 0 <= j < |queue| ==> |queue[j]| == len + 1
    requires Closed(edges, queue, visited)
    requires forall w :: IsWalk(edges, w) && w[0] == start && |w| <= len ==> Last(w) in visited
    ensures Frontier(edges, start, queue, visited)
  {
    forall w | IsWalk(edges, w) && w[0] == start && |w| == len + 1
      ensures Last(w) in visited || exists j :: EndsAt(queue, j, Last(w)) && |queue[j]| == len + 1
    {
      var u := w[..len];
      assert IsWalk(edges, u) && u[0] == start;
      assert Last(u) == w[len - 1];
      assert Last(w) == w[len];
      assert Last(w) in Neighbours(edges, Last(u));
    }
  }

  /** A dequeued path that ends at the goal is a shortest walk to it. */
  lemma SearchFound(edges: Edges, start: Point, end: Point, queue: seq<seq<Point>>, visited: set<Point>)
    requires SearchInv(edges, start, end, queue, visited)
    requires queue != [] && Last(queue[0]) == end
    ensures IsShortestWalk(edges, queue[0], start, end)
    ensures Reachable(edges, start, end)
    ensures start == end ==> queue[0] == [start]
  {
    assert IsWalkBetween(edges, queue[0], start, end);
    if start == end {
      ShortestWalkToSelf(edges, queue[0], start);
    }
  }

  /** Expanded nodes closed under neighbours contain every walk that starts among them. */
  lemma {:induction false} WalkStaysIn(edges: Edges, w: seq<Point>, visited: set<Point>)
    requires IsWalk(edges, w) && w[0] in visited
    requires forall v, u :: v in visited && u in Neighbours(edges, v) ==> u in visited
    ensures Last(w) in visited
  {
    if |w| > 1 {
      var u := w[..|w| - 1];
      assert IsWalk(edges, u);
      WalkStaysIn(edges, u, visited);
      assert w[|w| - 1] in Neighbours(edges, w[|w| - 2]);
    }
  }

  /** An exhausted queue means the goal cannot be reached. */
  lemma SearchExhausted(edges: Edges, start: Point, end: Point, visited: set<Point>)
    requires SearchInv(edges, start, end, [], visited)
    ensures !Reachable(edges, start, end)
    ensures start != end
  {
    ReachableSelf(edges, start);
    forall w | IsWalk(edges, w) && w[0] == start ensures Last(w) in visited {
      WalkStaysIn(edges, w, visited);
    }
  }

  // ---------------------------------------------------------------------
  // Reachability over an undirected (symmetric) adjacency table.

  /** Every listed adjacency is listed in both directions. */
  ghost predicate Symmetric(edges: Edges)
  {
    forall a, b :: b in Neighbours(edges, a) ==> a in Neighbours(edges, b)
  }

  function Reverse(w: seq<Point>): (r: seq<Point>)
    ensures |r| == |w|
    ensures forall i :: 0 <= i < |w| ==> r[i] == w[|w| - 1 - i]
  {
    seq(|w|, i requires 0 <= i < |w| => w[|w| - 1 - i])
  }

  /** On a symmetric table a walk can be followed backwards. */
  lemma ReachableSymmetric(edges: Edges, a: Point, b: Point)
    requires Symmetric(edges) && Reachable(edges, a, b)
    ensures Reachable(edges, b, a)
  {
    var w :| IsWalkBetween(edges, w, a, b);
    var r := Reverse(w);
    forall i | 0 <= i < |r| - 1 ensures r[i + 1] in Neighbours(edges, r[i]) {
      var k := |w| - 2 - i;
      assert r[i] == w[k + 1] && r[i + 1] == w[k];
      assert w[k + 1] in Neighbours(edges, w[k]);
    }
    assert IsWalkBetween(edges, r, b, a);
  }

  /** A walk to `b` followed by a walk from `b` is a walk. */
  lemma ReachableTransitive(edges: Edges, a: Point, b: Point, c: Point)
    requires Reachable(edges, a, b) && Reachable(edges, b, c)
    ensures Reachable(edges, a, c)
  {
    var u :| IsWalkBetween(edges, u, a, b);
    var v :| IsWalkBetween(edges, v, b, c);
    var w := u + v[1..];
    forall i | 0 <= i < |w| - 1 ensures w[i + 1] in Neighbours(edges, w[i]) {
      if i < |u| - 1 {
        assert w[i] == u[i] && w[i + 1] == u[i + 1];
      } else {
        var k := i - (|u| - 1);
        assert w[i] == v[k] && w[i + 1] == v[k + 1];
      }
    }
    assert Last(w) == c;
    assert IsWalkBetween(edges, w, a, c);
  }

  /** Each prefix of a walk is a walk to the prefix's last node. */
  lemma PrefixReachable(edges: Edges, w: seq<Point>, k: nat)
    requires IsWalk(edges, w) && k < |w|
    ensures Reachable(edges, w[0], w[k])
  {
    var u := w[..k + 1];
    assert IsWalkBetween(edges, u, w[0], w[k]);
  }
}
