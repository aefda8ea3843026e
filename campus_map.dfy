/**
  The campus map view (`CustomCampusMapView`): its fixed waypoint tables,
  the route it keeps to the selected room, and the three fields that the
  position and destination updates change.
*/
module CampusMap {
  import opened Wrappers
  import opened Geometry
  import opened Graph

  /** `graphNodes`: the vertical corridor from top to bottom, then the horizontal corridor. */
  const GraphNodes: seq<Point> := [
    Point(375, 100), Point(375, 250), Point(375, 400), Point(375, 600),
    Point(375, 750), Point(375, 900), Point(375, 975), Point(375, 1050),
    Point(375, 1200), Point(375, 1400),
    Point(600, 975), Point(800, 975), Point(1000, 975)
  ]

  /** `graphEdges`: the walkable corridors, listed from both ends. */
  const GraphEdges: Edges := map[
    Point(375, 100) := [Point(375, 250)],
    Point(375, 250) := [Point(375, 100), Point(375, 400)],
    Point(375, 400) := [Point(375, 250), Point(375, 600)],
    Point(375, 600) := [Point(375, 400), Point(375, 750)],
    Point(375, 750) := [Point(375, 600), Point(375, 900)],
    Point(375, 900) := [Point(375, 750), Point(375, 975)],
    Point(375, 975) := [Point(375, 900), Point(375, 1050), Point(600, 975)],
    Point(375, 1050) := [Point(375, 975), Point(375, 1200)],
    Point(375, 1200) := [Point(375, 1050), Point(375, 1400)],
    Point(375, 1400) := [Point(375, 1200)],
    Point(600, 975) := [Point(375, 975), Point(800, 975)],
    Point(800, 975) := [Point(600, 975), Point(1000, 975)],
    Point(1000, 975) := [Point(800, 975)]
  ]

  /** `roomToPath`: the door of each room, just off the corridor. */
  const RoomToPath: map<string, Point> := map[
    "A3-207" := Point(300, 250),
    "A3-208" := Point(300, 750),
    "A3-209" := Point(300, 1200),
    "A3-206" := Point(450, 200),
    "A3-205" := Point(450, 400),
    "A3-204" := Point(450, 600),
    "A3-203" := Point(450, 800),
    "A3-202" := Point(450, 1250),
    "Reading Hall" := Point(800, 1050)
  ]

  /** Where the user is drawn before the first position update. */
  const InitialLocation: Point := Point(375, 200)

  // ---------------------------------------------------------------------
  // Properties of the literal tables.

  /** Every node has an adjacency list, and every key and every neighbour is a node. */
  lemma EdgesWithinNodes()
    ensures forall n :: n in GraphNodes <==> n in GraphEdges
    ensures forall a, b :: a in GraphEdges && b in GraphEdges[a] ==> b in GraphNodes
  {
  }

  /** The corridor table lists each connection from both of its ends. */
  lemma EdgesSymmetric()
    ensures Symmetric(GraphEdges)
  {
    forall a, b | b in Neighbours(GraphEdges, a) ensures a in Neighbours(GraphEdges, b) {
      ListedBack(a);
    }
  }

  /** The check of symmetry at one node. */
  lemma ListedBack(a: Point)
    ensures forall b :: b in Neighbours(GraphEdges, a) ==> a in Neighbours(GraphEdges, b)
  {
    if a == Point(375, 100) {
    } else if a == Point(375, 250) {
    } else if a == Point(375, 400) {
    } else if a == Point(375, 600) {
    } else if a == Point(375, 750) {
    } else if a == Point(375, 900) {
    } else if a == Point(375, 975) {
    } else if a == Point(375, 1050) {
    } else if a == Point(375, 1200) {
    } else if a == Point(375, 1400) {
    } else if a == Point(600, 975) {
    } else if a == Point(800, 975) {
    } else if a == Point(1000, 975) {
    } else {
      assert a !in GraphEdges;
    }
  }

  /** No door is itself a waypoint, so a route always ends with its door appended. */
  lemma EntrancesOffGraph()
    ensures forall r :: r in RoomToPath ==> RoomToPath[r] !in GraphNodes
  {
  }

  /** Every waypoint can be reached from every other one. */
  lemma {:induction false} CampusConnected(a: Point, b: Point)
    requires a in GraphNodes && b in GraphNodes
    ensures Reachable(GraphEdges, a, b)
  {
    var vertical := GraphNodes[..10];
    var horizontal := [Point(375, 975)] + GraphNodes[10..];
    CorridorsAreWalks();
    var top := Point(375, 100);
    EdgesSymmetric();
    FromTop(vertical, horizontal, a);
    FromTop(vertical, horizontal, b);
    ReachableSymmetric(GraphEdges, top, a);
    ReachableTransitive(GraphEdges, a, top, b);
  }

  /** Both corridors, walked from their top and left ends, are walks. */
  lemma CorridorsAreWalks()
    ensures IsWalk(GraphEdges, GraphNodes[..10])
    ensures IsWalk(GraphEdges, [Point(375, 975)] + GraphNodes[10..])
  {
    var vertical := GraphNodes[..10];
    forall i | 0 <= i < |vertical| - 1 ensures vertical[i + 1] in Neighbours(GraphEdges, vertical[i]) {
    }
    var horizontal := [Point(375, 975)] + GraphNodes[10..];
    assert horizontal == [Point(375, 975), Point(600, 975), Point(800, 975), Point(1000, 975)];
  }

  /** Each waypoint lies on the vertical corridor or past its turn into the horizontal one. */
  lemma FromTop(vertical: seq<Point>, horizontal: seq<Point>, n: Point)
    requires vertical == GraphNodes[..10] && horizontal == [Point(375, 975)] + GraphNodes[10..]
    requires IsWalk(GraphEdges, vertical) && IsWalk(GraphEdges, horizontal)
    requires n in GraphNodes
    ensures Reachable(GraphEdges, Point(375, 100), n)
  {
    var k :| 0 <= k < |GraphNodes| && GraphNodes[k] == n;
    if k < 10 {
      PrefixReachable(GraphEdges, vertical, k);
    } else {
      PrefixReachable(GraphEdges, vertical, 6);
      PrefixReachable(GraphEdges, horizontal, k - 9);
      ReachableTransitive(GraphEdges, Point(375, 100), Point(375, 975), n);
    }
  }

  /** The point (0, 0) snaps to the top of the vertical corridor, the first node. */
  lemma SnapOrigin()
    ensures NearestNode(GraphNodes, Point(0, 0)) == Point(375, 100)
  {
    NearestIndexUnique(GraphNodes, Point(0, 0), 0);
  }

  // ---------------------------------------------------------------------
  // Routes.

  /** `roomToPath[destinationRoom]`: no door for no room or an unknown room. */
  function RoomEntrance(room: Option<string>): (r: Option<Point>)
    ensures r.Some? <==> room.Some? && room.value in RoomToPath
    ensures r.Some? ==> r.value == RoomToPath[room.value]
  {
    if room.Some? && room.value in RoomToPath then Some(RoomToPath[room.value]) else None
  }

  /**
    The route drawn to a door: the walk over the corridors followed by
    the door, which is added only when the walk does not already end there.
  */
  function WithEntrance(base: seq<Point>, entrance: Point): (r: seq<Point>)
    requires base != []
    ensures |r| == |base| || (|r| == |base| + 1 && Last(base) != entrance)
    ensures |r| == |base| <==> Last(base) == entrance
    ensures r[..|base|] == base
    ensures Last(r) == entrance
  {
    if Last(base) != entrance then base + [entrance] else base
  }

  /**
    What `updatePath` leaves in `currentPath` for a user at `start` heading
    to `entrance`: empty exactly when the waypoint nearest the door cannot
    be reached, and otherwise a shortest walk to that waypoint with the
    door appended.
  */
  ghost predicate IsRoute(start: Point, entrance: Point, path: seq<Point>)
  {
    var goal := NearestNode(GraphNodes, entrance);
    (path == [] <==> !Reachable(GraphEdges, start, goal)) &&
    (path != [] ==>
      exists base :: IsShortestWalk(GraphEdges, base, start, goal) && path == WithEntrance(base, entrance))
  }

  /** The outcome of `updatePath`, from the position and destination it reads. */
  ghost predicate PathUpdated(user: Point, room: Option<string>, before: seq<Point>, after: seq<Point>)
  {
    match RoomEntrance(room)
    case None => after == before
    case Some(entrance) => IsRoute(NearestNode(GraphNodes, user), entrance, after)
  }

  /**
    On this campus a known room always gets a route: it starts where the
    user is snapped to, runs along corridors, and ends at the room's door
    one step past the corridor.
  */
  lemma RouteToKnownRoom(user: Point, room: string, before: seq<Point>, after: seq<Point>)
    requires room in RoomToPath
    requires PathUpdated(user, Some(room), before, after)
    ensures after != [] && |after| >= 2
    ensures after[0] == NearestNode(GraphNodes, user)
    ensures user in GraphNodes ==> after[0] == user
    ensures Last(after) == RoomToPath[room]
    ensures IsWalk(GraphEdges, after[..|after| - 1])
  {
    var entrance := RoomToPath[room];
    var start := NearestNode(GraphNodes, user);
    var goal := NearestNode(GraphNodes, entrance);
    CampusConnected(start, goal);
    var base :| IsShortestWalk(GraphEdges, base, start, goal) && after == WithEntrance(base, entrance);
    EntrancesOffGraph();
    assert Last(base) == goal && goal in GraphNodes;
    assert Last(base) != entrance;
    assert after == base + [entrance];
    assert after[..|after| - 1] == base;
    if user in GraphNodes {
      NearestOfNode(GraphNodes, user);
    }
  }

  // ---------------------------------------------------------------------
  // The view's state.

  class CampusMapView {
    var userLocation: Point
    var destinationRoom: Option<string>
    var currentPath: seq<Point>

    constructor ()
      ensures userLocation == InitialLocation
      ensures destinationRoom == None
      ensures currentPath == []
    {
      userLocation := InitialLocation;
      destinationRoom := None;
      currentPath := [];
    }

    /**
      `updateUserPosition(x, y)`: the user is snapped to the nearest
      waypoint and the route is recomputed from there.
    */
    method UpdateUserPosition(x: int, y: int)
      modifies this
      ensures userLocation == NearestNode(GraphNodes, Point(x, y))
      ensures userLocation in GraphNodes
      ensures destinationRoom == old(destinationRoom)
      ensures PathUpdated(userLocation, destinationRoom, old(currentPath), currentPath)
    {
      userLocation := NearestNode(GraphNodes, Point(x, y));
      UpdatePath();
    }

    /** `setDestination(room)`: selects the room and recomputes the route to it. */
    method SetDestination(room: string)
      modifies this
      ensures destinationRoom == Some(room)
      ensures userLocation == old(userLocation)
      ensures PathUpdated(userLocation, destinationRoom, old(currentPath), currentPath)
    {
      destinationRoom := Some(room);
      UpdatePath();
    }

    /**
      `updatePath`: leaves the route alone when there is no known
      destination, and otherwise replaces it by the route from the
      waypoint nearest the user to the waypoint nearest the door.
    */
    method UpdatePath()
      modifies this`currentPath
      ensures PathUpdated(userLocation, destinationRoom, old(currentPath), currentPath)
    {
      var start := NearestNode(GraphNodes, userLocation);
      var door := RoomEntrance(destinationRoom);
      if door.None? {
        return;
      }
      var roomEntrance := door.value;
      var endNode := NearestNode(GraphNodes, roomEntrance);
      var basePath := ShortestPath(GraphEdges, start, endNode);
      if basePath != [] {
        currentPath := WithEntrance(basePath, roomEntrance);
      } else {
        currentPath := [];
      }
    }
  }
}
