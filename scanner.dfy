/**
  The activity's beacon bookkeeping (`MainActivity`): readings from
  verified beacons are collected into `scanResults` during a scan window,
  and when the window closes with enough beacons the weighted-centroid
  estimate is handed to the map view.
*/
module Scanner {
  import opened Wrappers
  import opened Geometry
  import opened Localization
  import opened CampusMap
  import opened Graph

  /** Kotlin's `Short`, the type of the signal strength a scan reports. */
  newtype int16 = x: int | -0x8000 <= x < 0x8000

  /** `scanResults.size < 3` is the "not enough verified beacons" case. */
  const MinBeacons: nat := 3

  /**
    The estimate as handed to the map: each coordinate rounded to the
    nearest whole unit, halves rounded up.
  */
  function RoundToUnit(r: real): (n: int)
    ensures n as real - 0.5 <= r < n as real + 0.5
  {
    (r + 0.5).Floor
  }

  /** The rooms the room selector offers, in its order. */
  const SpinnerRooms: seq<string> := [
    "A3-208", "A3-209", "A3-207",
    "A3-206", "A3-205", "A3-204",
    "A3-203", "A3-202", "Reading Hall"
  ]

  /**
    The selector offers exactly the rooms that have a door, so selecting
    one never takes the early exit of `updatePath`.
  */
  lemma SpinnerRoomsHaveDoors()
    ensures forall i :: 0 <= i < |SpinnerRooms| ==> RoomEntrance(Some(SpinnerRooms[i])).Some?
    ensures forall r :: r in RoomToPath <==> r in SpinnerRooms
  {
  }

  /**
    The square of the distance from a waypoint to a point with real
    coordinates, as `dist` measures it before any rounding.
  */
  function RealSqDist(n: Point, x: real, y: real): real
  {
    (n.x as real - x) * (n.x as real - x) + (n.y as real - y) * (n.y as real - y)
  }

  /**
    Rounding the estimate before snapping can change the node chosen.
    Three heard beacons with these weights put the user at (500.4, 1050.9),
    which is nearer to (600, 975) than to (375, 1050), yet its rounding
    (500, 1051) snaps to (375, 1050).
  */
  lemma RoundingCanMoveSnap()
    ensures Centroid([Sample(300.0, 750.0, 0.15772), Sample(300.0, 1250.0, 0.57508), Sample(1050.0, 800.0, 0.2672)])
      == Estimate(500.4, 1050.9)
    ensures RoundToUnit(500.4) == 500 && RoundToUnit(1050.9) == 1051
    ensures RealSqDist(Point(600, 975), 500.4, 1050.9) < RealSqDist(Point(375, 1050), 500.4, 1050.9)
    ensures NearestNode(GraphNodes, Point(500, 1051)) == Point(375, 1050)
  {
    var samples := [Sample(300.0, 750.0, 0.15772), Sample(300.0, 1250.0, 0.57508), Sample(1050.0, 800.0, 0.2672)];
    assert samples[1..][1..][1..] == [];
    assert WeightSum(samples) == 1.0;
    NearestIndexUnique(GraphNodes, Point(500, 1051), 7);
  }

  /** Distinct verified beacons have distinct addresses. */
  ghost predicate DistinctMacs(beacons: seq<Beacon>)
  {
    forall i, j :: 0 <= i < j < |beacons| ==> beacons[i].mac != beacons[j].mac
  }

  lemma VerifiedMacsDistinct()
    ensures DistinctMacs(VerifiedBeacons)
  {
  }

  /** Readings for addresses no listed beacon has do not change the samples. */
  lemma {:induction false} SamplesIgnoreKey(beacons: seq<Beacon>, scan: map<string, int>, key: string, distance: int -> real)
    requires forall rssi :: distance(rssi) != 0.0
    requires forall i :: 0 <= i < |beacons| ==> beacons[i].mac != key
    ensures Samples(beacons, scan - {key}, distance) == Samples(beacons, scan, distance)
  {
    if beacons != [] {
      SamplesIgnoreKey(beacons[1..], scan, key, distance);
    }
  }

  /**
    When every recorded address belongs to one of the (distinct) beacons,
    there is exactly one sample per recorded reading.
  */
  lemma {:induction false} SamplesCount(beacons: seq<Beacon>, scan: map<string, int>, distance: int -> real)
    requires forall rssi :: distance(rssi) != 0.0
    requires DistinctMacs(beacons)
    requires forall mac :: mac in scan ==> IsVerified(beacons, mac)
    ensures |Samples(beacons, scan, distance)| == |scan|
  {
    if beacons == [] {
      assert scan == map[];
    } else {
      var b := beacons[0];
      var rest := beacons[1..];
      TailOfDistinct(beacons, scan);
      SamplesCount(rest, scan - {b.mac}, distance);
      SamplesIgnoreKey(rest, scan, b.mac, distance);
      RemoveKeySize(scan, b.mac);
    }
  }

  /**
    Dropping the first of distinct beacons leaves distinct beacons, none
    with the first one's address, which between them have every other
    recorded address.
  */
  lemma TailOfDistinct(beacons: seq<Beacon>, scan: map<string, int>)
    requires beacons != [] && DistinctMacs(beacons)
    requires forall mac :: mac in scan ==> IsVerified(beacons, mac)
    ensures DistinctMacs(beacons[1..])
    ensures forall i :: 0 <= i < |beacons| - 1 ==> beacons[1..][i].mac != beacons[0].mac
    ensures forall mac :: mac in scan - {beacons[0].mac} ==> IsVerified(beacons[1..], mac)
  {
    var rest := beacons[1..];
    forall mac | mac in scan - {beacons[0].mac} ensures IsVerified(rest, mac) {
      var i :| 0 <= i < |beacons| && beacons[i].mac == mac;
      assert rest[i - 1].mac == mac;
    }
  }

  lemma RemoveKeySize(scan: map<string, int>, key: string)
    ensures |scan - {key}| == if key in scan then |scan| - 1 else |scan|
  {
    assert (scan - {key}).Keys == scan.Keys - {key};
    if key !in scan {
      assert scan.Keys - {key} == scan.Keys;
    }
  }

  class MainActivity {
    var scanResults: map<string, int>
    const customMapView: CampusMapView
    /** `verifiedBeacons`. */
    const verifiedBeacons: seq<Beacon>
    /** `calculateDistance`: the distance estimated from a signal strength. */
    const distance: int -> real

    /** Every recorded reading comes from a verified beacon and fits a `Short`. */
    ghost predicate Valid()
      reads this
    {
      (forall mac :: mac in scanResults ==> IsVerified(verifiedBeacons, mac)) &&
      (forall mac :: mac in scanResults ==> -0x8000 <= scanResults[mac] < 0x8000) &&
      (forall rssi :: distance(rssi) > 0.0)
    }

    /**
      The state `onCreate` sets up: an empty table of readings and a map
      view placed at the estimate from no readings, (0, 0), which snaps to
      the top of the vertical corridor.
    */
    constructor (calculateDistance: int -> real)
      requires forall rssi :: calculateDistance(rssi) > 0.0
      ensures Valid()
      ensures scanResults == map[] && distance == calculateDistance
      ensures verifiedBeacons == VerifiedBeacons
      ensures fresh(customMapView)
      ensures customMapView.userLocation == Point(375, 100)
      ensures customMapView.destinationRoom == None && customMapView.currentPath == []
    {
      distance := calculateDistance;
      verifiedBeacons := VerifiedBeacons;
      scanResults := map[];
      var view := new CampusMapView();
      customMapView := view;
      new;
      var e := EstimateUserPosition(verifiedBeacons, scanResults, distance);
      assert e == Estimate(0.0, 0.0);
      var x, y := RoundToUnit(e.x), RoundToUnit(e.y);
      assert x == 0 && y == 0;
      SnapOrigin();
      view.UpdateUserPosition(x, y);
    }

    /**
      `bluetoothReceiver.onReceive` for a found device: a reading with no
      address is dropped, a reading from a verified beacon is stored and
      replaces any earlier reading from it, and any other reading is ignored.
    */
    method OnReceive(mac: Option<string>, rssi: int16)
      requires Valid()
      modifies this`scanResults
      ensures Valid()
      ensures mac.Some? && IsVerified(verifiedBeacons, mac.value) ==>
        scanResults == old(scanResults)[mac.value := rssi as int]
      ensures !(mac.Some? && IsVerified(verifiedBeacons, mac.value)) ==>
        scanResults == old(scanResults)
    {
      if mac.None? {
        return;
      }
      var macAddress := mac.value;
      if IsVerified(verifiedBeacons, macAddress) {
        scanResults := scanResults[macAddress := rssi as int];
      }
    }

    /**
      The room selector's `onItemSelected`: the room at `position` becomes
      the destination, and since every offered room has a door and the
      campus is connected, a route to its door is drawn.
    */
    method OnItemSelected(position: nat)
      requires position < |SpinnerRooms|
      modifies customMapView
      ensures customMapView.destinationRoom == Some(SpinnerRooms[position])
      ensures customMapView.userLocation == old(customMapView.userLocation)
      ensures PathUpdated(customMapView.userLocation, customMapView.destinationRoom,
        old(customMapView.currentPath), customMapView.currentPath)
      ensures customMapView.currentPath != []
      ensures customMapView.currentPath[0] == NearestNode(GraphNodes, customMapView.userLocation)
      ensures Last(customMapView.currentPath) == RoomToPath[SpinnerRooms[position]]
    {
      var selectedRoom := SpinnerRooms[position];
      SpinnerRoomsHaveDoors();
      customMapView.SetDestination(selectedRoom);
      RouteToKnownRoom(customMapView.userLocation, selectedRoom, old(customMapView.currentPath), customMapView.currentPath);
    }

    /** `startBluetoothScan`: a new scan window starts with no readings. */
    method StartBluetoothScan()
      requires Valid()
      modifies this`scanResults
      ensures Valid()
      ensures scanResults == map[]
    {
      scanResults := map[];
    }

    /**
      The end of the scan window: with fewer than three recorded beacons
      nothing happens; otherwise the map view moves to the rounded
      estimate and recomputes its route.
    */
    method OnScanWindowElapsed() returns (updated: bool)
      requires Valid()
      modifies customMapView
      ensures updated <==> |scanResults| >= MinBeacons
      ensures !updated ==> unchanged(customMapView)
      ensures updated ==>
        var e := EstimateUserPosition(verifiedBeacons, scanResults, distance);
        customMapView.userLocation == NearestNode(GraphNodes, Point(RoundToUnit(e.x), RoundToUnit(e.y)))
      ensures updated ==> customMapView.destinationRoom == old(customMapView.destinationRoom)
      ensures updated ==>
        PathUpdated(customMapView.userLocation, customMapView.destinationRoom,
          old(customMapView.currentPath), customMapView.currentPath)
    {
      if |scanResults| < MinBeacons {
        return false;
      }
      var e := EstimateUserPosition(verifiedBeacons, scanResults, distance);
      customMapView.UpdateUserPosition(RoundToUnit(e.x), RoundToUnit(e.y));
      return true;
    }
  }

  /**
    Once the threshold is met the estimate draws on at least three
    beacons, one per recorded reading, and lies on the floor plan.
  */
  lemma ThresholdMet(scan: map<string, int>, distance: int -> real)
    requires forall rssi :: distance(rssi) > 0.0
    requires forall mac :: mac in scan ==> IsVerified(VerifiedBeacons, mac)
    requires |scan| >= MinBeacons
    ensures forall rssi :: distance(rssi) != 0.0
    ensures |Samples(VerifiedBeacons, scan, distance)| == |scan| >= 3
    ensures 300.0 <= EstimateUserPosition(VerifiedBeacons, scan, distance).x <= 1050.0
    ensures 250.0 <= EstimateUserPosition(VerifiedBeacons, scan, distance).y <= 1250.0
  {
    OneSamplePerReading(scan, distance);
    HeardSome(scan);
    EstimateOnFloorPlan(scan, distance);
  }

  /** Each recorded reading of a verified beacon gives one sample. */
  lemma OneSamplePerReading(scan: map<string, int>, distance: int -> real)
    requires forall rssi :: distance(rssi) != 0.0
    requires forall mac :: mac in scan ==> IsVerified(VerifiedBeacons, mac)
    ensures |Samples(VerifiedBeacons, scan, distance)| == |scan|
  {
    VerifiedMacsDistinct();
    SamplesCount(VerifiedBeacons, scan, distance);
  }

  lemma HeardSome(scan: map<string, int>)
    requires forall mac :: mac in scan ==> IsVerified(VerifiedBeacons, mac)
    requires |scan| > 0
    ensures exists i :: 0 <= i < |VerifiedBeacons| && VerifiedBeacons[i].mac in scan
  {
    var mac :| mac in scan;
    assert IsVerified(VerifiedBeacons, mac);
  }
}
