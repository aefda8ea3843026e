# Indoor navigation: routing and beacon localisation

This project models the two pieces of logic in the Indoor-Navigation Android app.

**The campus map view (`CustomCampusMapView`).** The building is a fixed waypoint graph:
- a vertical corridor of ten nodes;
- a horizontal corridor of three more nodes, branching off at (375, 975);
- nine room doors, each just off the corridor.

The view keeps three fields: the user's snapped position, the selected room and the route drawn to it.
- A position update snaps the user to the nearest waypoint and recomputes the route.
- Choosing a room also recomputes the route.
- A route is a breadth-first shortest walk from the waypoint nearest the user to the waypoint nearest the door. The door itself is appended at the end.

**The activity (`MainActivity`).**
- It records the signal strength of every verified beacon heard during a scan window. A later reading replaces an earlier one, and readings from other devices are ignored.
- When the window ends with at least three beacons recorded, it estimates the user's position. The estimate is the inverse-distance weighted centroid of the heard beacons' positions.
- The estimate is handed to the map view.

Modules:
- `Wrappers`: an `Option` type, modelling Kotlin's nullable values.
- `Geometry`: integer points, squared distance, and the nearest-node snap (`findNearestNode`, `dist`).
- `Graph`: the breadth-first search (`findShortestPath`) over any adjacency table. It is an imperative loop over a queue of paths and a visited set, proved against walks, reachability and shortest walks. The module also holds reachability lemmas for symmetric tables.
- `CampusMap`: the literal tables (`graphNodes`, `graphEdges`, `roomToPath`) and their properties. The class `CampusMapView` has the fields `userLocation`, `destinationRoom` and `currentPath`, and the methods `updateUserPosition`, `setDestination` and `updatePath`.
- `Localization`: the verified beacons, the per-beacon samples, and the weighted centroid (`estimateUserPosition`) with its bounds.
- `Scanner`: the class `MainActivity`. It holds `scanResults`, the receiver rule, the clearing at the start of a scan, the three-beacon threshold that gates a map update, and the room selector that calls `setDestination`.

How values are represented:
- Every coordinate in the map's tables is a whole number, so map points are integer pairs.
- The snap compares squared distances. The square root is strictly increasing, so this picks the same node with the same tie-break as comparing `dist`.
- The centroid is computed over `real`.
- The distance model `calculateDistance` is a parameter. It is assumed to be positive for every signal strength.

## Model

| member | source | states |
|---|---|---|
| Geometry.SqDist | app/src/main/java/com/example/indoornavigation/CustomCampusMapView.kt:160-166 | the squared distance is never negative and is zero exactly when the two points are equal |
| Geometry.NearestIndex | app/src/main/java/com/example/indoornavigation/CustomCampusMapView.kt:136 | the index `minByOrNull` keeps is in range, no node is closer than the one at it, and every node before it is strictly farther (first-minimum tie-break) |
| Geometry.NearestNode | app/src/main/java/com/example/indoornavigation/CustomCampusMapView.kt:135-137 | with no nodes the point itself is returned; otherwise the result is a node, no node is closer, and it is the first node at that minimum distance |
| Geometry.NearestIndexUnique | app/src/main/java/com/example/indoornavigation/CustomCampusMapView.kt:136 | "minimum distance, and strictly farther nodes before it" determines the chosen index uniquely |
| Geometry.NearestOfNode | app/src/main/java/com/example/indoornavigation/CustomCampusMapView.kt:135-137 | snapping a point that is already a node returns that node |
| Geometry.SnapIdempotent | app/src/main/java/com/example/indoornavigation/CustomCampusMapView.kt:135-137 | snapping twice gives the same node as snapping once |
| Graph.EnqueueExtensions | app/src/main/java/com/example/indoornavigation/CustomCampusMapView.kt:150-154 | the `forEach` loop leaves the queue followed by one copy of the dequeued path per neighbour, extended by that neighbour, in neighbour order |
| Graph.ExtensionsAreWalks | app/src/main/java/com/example/indoornavigation/CustomCampusMapView.kt:150-154 | each path enqueued from `graphEdges[node]` (nothing for a node without an entry) is a walk out of `start` one node longer than the dequeued path and ends at a neighbour of its last node; every neighbour gets such a path |
| Graph.ShortestPath | app/src/main/java/com/example/indoornavigation/CustomCampusMapView.kt:139-158 | terminates; a non-empty result is a walk from `start` to `end` with no more nodes than any other such walk; the result is empty exactly when `end` is unreachable; `start == end` gives `[start]` |
| Graph.SearchStart | app/src/main/java/com/example/indoornavigation/CustomCampusMapView.kt:140-142 | the queue holding only `[start]`, with nothing visited, satisfies the search invariant |
| Graph.SearchStep | app/src/main/java/com/example/indoornavigation/CustomCampusMapView.kt:145-155 | dequeuing a path that does not reach the goal keeps the invariant, both when its node was already visited and when it is expanded; the dequeued node is a vertex of the table |
| Graph.Expand | app/src/main/java/com/example/indoornavigation/CustomCampusMapView.kt:145-155 | the queue minus its head, plus the head's extensions when its node is new, with that node marked visited, still satisfies the invariant |
| Graph.StepFrontier | app/src/main/java/com/example/indoornavigation/CustomCampusMapView.kt:144-155 | after a step the breadth-first frontier still holds: shorter walks end at visited nodes, and walks as long as the head end at visited nodes or at queued paths of that length |
| Graph.SearchFound | app/src/main/java/com/example/indoornavigation/CustomCampusMapView.kt:146-147 | a dequeued path ending at `end` is a shortest walk to it, `end` is reachable, and when `start == end` the path is `[start]` |
| Graph.SearchExhausted | app/src/main/java/com/example/indoornavigation/CustomCampusMapView.kt:144-157 | once the queue is empty, `end` cannot be reached from `start` (and so differs from it) |
| Graph.VisitShrinks | app/src/main/java/com/example/indoornavigation/CustomCampusMapView.kt:148-149 | marking a new vertex visited leaves strictly fewer vertices to expand, which is why the loop terminates |
| Graph.WalkStaysIn | app/src/main/java/com/example/indoornavigation/CustomCampusMapView.kt:148-155 | a set closed under neighbours contains the last node of every walk that starts inside it |
| Graph.ShortestWalkToSelf | app/src/main/java/com/example/indoornavigation/CustomCampusMapView.kt:147 | the only shortest walk from a node to itself is the node alone |
| Graph.ReachableSymmetric | app/src/main/java/com/example/indoornavigation/CustomCampusMapView.kt:69-86 | on a table that lists each connection from both ends, reachability is symmetric |
| Graph.ReachableTransitive | app/src/main/java/com/example/indoornavigation/CustomCampusMapView.kt:139-158 | joining a walk from `a` to `b` and a walk from `b` to `c` gives a walk from `a` to `c` |
| CampusMap.EdgesWithinNodes | app/src/main/java/com/example/indoornavigation/CustomCampusMapView.kt:57-86 | the keys of `graphEdges` are exactly the nodes of `graphNodes`, and every listed neighbour is a node |
| CampusMap.EdgesSymmetric | app/src/main/java/com/example/indoornavigation/CustomCampusMapView.kt:69-86 | whenever B is listed under A, A is listed under B |
| CampusMap.EntrancesOffGraph | app/src/main/java/com/example/indoornavigation/CustomCampusMapView.kt:57-100 | no room door is a waypoint |
| CampusMap.CampusConnected | app/src/main/java/com/example/indoornavigation/CustomCampusMapView.kt:57-86 | every waypoint can be reached from every other |
| CampusMap.SnapOrigin | app/src/main/java/com/example/indoornavigation/CustomCampusMapView.kt:135-137 | the fallback estimate (0, 0) snaps to (375, 100), the first node |
| CampusMap.WithEntrance | app/src/main/java/com/example/indoornavigation/CustomCampusMapView.kt:124-127 | the route keeps the walk as its prefix and ends at the door; it is one node longer exactly when the walk did not already end there |
| CampusMap.RouteToKnownRoom | app/src/main/java/com/example/indoornavigation/CustomCampusMapView.kt:118-131 | on this campus every listed room gets a route of at least two nodes; it starts at the user's snapped node (the user's own node when already on a node), runs along corridors, and ends at the door |
| CampusMap.CampusMapView.constructor | app/src/main/java/com/example/indoornavigation/CustomCampusMapView.kt:46-48 | the view starts at (375, 200) with no room and no route |
| CampusMap.CampusMapView.UpdateUserPosition | app/src/main/java/com/example/indoornavigation/CustomCampusMapView.kt:102-109 | the user becomes the node nearest (x, y) and so lies on the graph; the room is unchanged; the route is recomputed as `updatePath` does |
| CampusMap.CampusMapView.SetDestination | app/src/main/java/com/example/indoornavigation/CustomCampusMapView.kt:112-116 | the room becomes the given one; the position is unchanged; the route is recomputed as `updatePath` does |
| CampusMap.CampusMapView.UpdatePath | app/src/main/java/com/example/indoornavigation/CustomCampusMapView.kt:118-131 | with no listed room the route stays as it was; with an unreachable goal it is emptied; otherwise it is a shortest walk from the user's snapped node to the node nearest the door, followed by the door when the walk does not end there |
| Localization.IsVerified | app/src/main/java/com/example/indoornavigation/MainActivity.kt:57 | true exactly when some beacon in the list has that address |
| Localization.SampleOf | app/src/main/java/com/example/indoornavigation/MainActivity.kt:155-159 | a heard beacon's sample sits at the beacon's position, and its weight is positive when its distance is |
| Localization.Samples | app/src/main/java/com/example/indoornavigation/MainActivity.kt:155-161 | no more samples than beacons, and none exactly when no beacon has a reading |
| Localization.SamplesMembers | app/src/main/java/com/example/indoornavigation/MainActivity.kt:155-160 | every sample comes from a beacon with a reading, and every beacon with a reading gives its sample |
| Localization.SamplesAppend | app/src/main/java/com/example/indoornavigation/MainActivity.kt:155-160 | samples are taken beacon by beacon in the list's order: the samples of a concatenation are the concatenated samples |
| Localization.SamplesPositive | app/src/main/java/com/example/indoornavigation/MainActivity.kt:155-159 | a positive distance model gives only positive weights |
| Localization.Centroid | app/src/main/java/com/example/indoornavigation/MainActivity.kt:161-164 | no samples, or a zero weight sum, give (0, 0) |
| Localization.CentroidScaled | app/src/main/java/com/example/indoornavigation/MainActivity.kt:163-168 | otherwise each coordinate times the weight sum is the weighted sum of the beacons' coordinates |
| Localization.WeightSumPositive | app/src/main/java/com/example/indoornavigation/MainActivity.kt:163 | the `sumOf { 1 / it.third }` of at least one positive weight (`WeightSum`) is positive |
| Localization.WeightedSumBounds | app/src/main/java/com/example/indoornavigation/MainActivity.kt:163-167 | for the sums `WeightSum` and `WeightedSum` of lines 163 and 166-167, coordinates between `lo` and `hi` give a weighted sum between `lo` and `hi` times the weight sum |
| Localization.CentroidWithinBounds | app/src/main/java/com/example/indoornavigation/MainActivity.kt:163-168 | with positive weights each coordinate of the estimate lies between the least and greatest coordinate of the contributing beacons |
| Localization.CentroidSingle | app/src/main/java/com/example/indoornavigation/MainActivity.kt:163-168 | a single heard beacon puts the user exactly at that beacon |
| Localization.EqualWeightSums | app/src/main/java/com/example/indoornavigation/MainActivity.kt:163-167 | with equal weights the sums factor into the count, or the plain coordinate sum, times that weight |
| Localization.CentroidEqualDistances | app/src/main/java/com/example/indoornavigation/MainActivity.kt:163-168 | equally distant beacons give the plain mean of their positions |
| Localization.EstimateEqualDistances | app/src/main/java/com/example/indoornavigation/MainActivity.kt:155-168 | when every heard beacon has the same estimated distance, the estimate is the plain mean of the heard beacons' positions |
| Localization.EstimateOnFloorPlan | app/src/main/java/com/example/indoornavigation/MainActivity.kt:154-169 | with positive distances and some verified beacon heard, the estimate lies in the rectangle x in [300, 1050], y in [250, 1250] that the verified beacons span |
| Localization.EstimateWithoutReadings | app/src/main/java/com/example/indoornavigation/MainActivity.kt:161 | with no readings the estimate is (0, 0) |
| Localization.EstimateUserPosition | app/src/main/java/com/example/indoornavigation/MainActivity.kt:154-169 | with no verified beacon heard the estimate is (0, 0); its weighted-average form, bounds and equal-distance mean are stated by `CentroidScaled`, `EstimateOnFloorPlan` and `EstimateEqualDistances` |
| Scanner.RoundToUnit | app/src/main/java/com/example/indoornavigation/MainActivity.kt:168 | the whole number handed to the map is within half a unit of the estimate |
| Scanner.RoundingCanMoveSnap | app/src/main/java/com/example/indoornavigation/MainActivity.kt:142-144 | rounding can change the snapped node: three beacons put the user at (500.4, 1050.9), nearer to (600, 975) than to (375, 1050), but the rounded (500, 1051) snaps to (375, 1050) |
| Scanner.SpinnerRoomsHaveDoors | app/src/main/java/com/example/indoornavigation/MainActivity.kt:87-91 | the selector offers exactly the nine rooms of `roomToPath`, so each has a door |
| Scanner.VerifiedMacsDistinct | app/src/main/java/com/example/indoornavigation/MainActivity.kt:31-36 | the four verified beacons have distinct addresses |
| Scanner.SamplesIgnoreKey | app/src/main/java/com/example/indoornavigation/MainActivity.kt:155-160 | readings for addresses that no listed beacon has do not change the samples |
| Scanner.SamplesCount | app/src/main/java/com/example/indoornavigation/MainActivity.kt:155-160 | when all recorded addresses belong to distinct beacons, there is one sample per recorded reading |
| Scanner.ThresholdMet | app/src/main/java/com/example/indoornavigation/MainActivity.kt:136-145 | once three readings are recorded, the estimate draws on at least three beacons, one per reading, and lies on the floor plan |
| Scanner.MainActivity.constructor | app/src/main/java/com/example/indoornavigation/MainActivity.kt:107-109 | no readings are recorded, and the initial estimate (0, 0) places the map view at (375, 100) with no room and no route |
| Scanner.MainActivity.OnReceive | app/src/main/java/com/example/indoornavigation/MainActivity.kt:51-60 | a reading without an address is dropped; a verified beacon's reading is stored, replacing any earlier one for that address and leaving the others alone; any other reading changes nothing |
| Scanner.MainActivity.StartBluetoothScan | app/src/main/java/com/example/indoornavigation/MainActivity.kt:119-120 | a scan window starts with no readings |
| Scanner.MainActivity.OnItemSelected | app/src/main/java/com/example/indoornavigation/MainActivity.kt:97-102 | selecting a room makes it the destination, keeps the position, recomputes the route as `updatePath` does, and that route is non-empty, starts at the user's snapped node and ends at the room's door |
| Scanner.MainActivity.OnScanWindowElapsed | app/src/main/java/com/example/indoornavigation/MainActivity.kt:136-145 | the map is updated exactly when at least three beacons are recorded; otherwise the map view is untouched; when updated, the user is placed at the node nearest the rounded estimate, the room is kept and the route is recomputed |

## Left out

- Rendering: `onDraw`, `Paint` objects, walls, labels and the `beacons` list of `CustomCampusMapView`, which is used only for drawing. The `invalidate()` calls are left out too.
- `CustomMapView.kt` is not part of this model. It is a separate view that stores a position and draws.
- Bluetooth discovery, the `BroadcastReceiver` registration and the `ACTION_FOUND` check are left out as OS integration. So are the `Handler.postDelayed` ten-second timer, the permission checks and the `SecurityException` handlers. The model starts at the callbacks: `OnReceive` is one found device, and `OnScanWindowElapsed` is the delayed block.
- The room selector is modelled only as `Scanner.MainActivity.OnItemSelected`, the caller of `setDestination`, with the list of nine rooms it offers. Its adapter setup, the `Toast` and `TextView` output, the device name and logging are left out; they do not change the fields the model keeps.
- `calculateDistance`: its body (`10.0.pow((txPower - rssi) / 20.0)`) is floating-point exponentiation. The model takes it as a parameter that returns a positive, finite real for every signal strength.
- Localization.EstimateUserPosition: does not model the infinite distance of a reading without a signal strength. `getShortExtra` then gives `Short.MIN_VALUE`, for which `10.0.pow(...)` overflows to +Infinity, so that beacon's weight `1 / it.third` is 0.0. Such a reading counts toward the three-beacon threshold but adds nothing to the estimate, and when every recorded reading is like that the `weightSum == 0.0` branch returns (0, 0). With finite positive distances the model never takes that branch (`SamplesPositive` and `WeightSumPositive`), and `EstimateOnFloorPlan` does not cover that case.
- Floating point is left out.
  - Map coordinates are integers and the centroid is computed over exact reals.
  - The `toFloat()` conversion of the estimate is modelled by `Scanner.RoundToUnit`, which rounds to the nearest whole unit, because map points are integer pairs.
- Scanner.RoundToUnit: rounds the estimate to whole units, where Kotlin keeps its fraction as a `Float`. Near the line halfway between two waypoints the rounded point can be nearer to the other one. `Scanner.RoundingCanMoveSnap` proves such a case: (500.4, 1050.9) is nearer to (600, 975), but its rounding (500, 1051) snaps to (375, 1050).
- Scanner.MainActivity.OnScanWindowElapsed: places the user at the node nearest the rounded estimate, not the unrounded one. By the case above, the node and so the route can differ from the app's near a halfway line.
- Graph.ShortestPath: does not state which of several shortest walks is returned. Its contract says only that the result is a shortest one. The walk breadth-first order would pick (earliest neighbours first) is not specified.
- Graph.ShortestPath: the Kotlin `LinkedList` queue and `mutableSetOf` are modelled as a `seq` and a `set` held in local variables. Nothing else can see them, so nothing about aliasing is lost.
- Localization.EstimateUserPosition: requires a distance model that is never zero. Kotlin would divide by zero into infinities instead, which a positive `calculateDistance` never triggers.
- Scanner.MainActivity.OnReceive: the signal strength a scan reports is a `Short`, and `Short.MIN_VALUE` is used when the intent carries none. The model takes the value as given.
