/**
  Weighted-centroid localisation (`estimateUserPosition`).

  Each verified beacon that was heard contributes its position on the
  floor plan, weighted by the inverse of the distance estimated from its
  signal strength. The estimate is the weighted average of those
  positions, or (0, 0) when no beacon was heard or the weights cancel out.
*/
module Localization {

  /** A beacon the app trusts: its hardware address and where it is mounted. */
  datatype Beacon = Beacon(mac: string, x: real, y: real)

  /** `verifiedBeacons`. */
  const VerifiedBeacons: seq<Beacon> := [
    Beacon("10:BC:97:BC:18:4A", 300.0, 250.0),
    Beacon("00:45:E2:81:A2:5E", 300.0, 750.0),
    Beacon("00:45:E2:A6:5F:9E", 300.0, 1250.0),
    Beacon("74:4C:A1:7A:D1:36", 1050.0, 800.0)
  ]

  /** `beacons.any { it.first == mac }`. */
  function IsVerified(beacons: seq<Beacon>, mac: string): (r: bool)
    ensures r <==> exists i :: 0 <= i < |beacons| && beacons[i].mac == mac
  {
    if beacons == [] then false
    else beacons[0].mac == mac || IsVerified(beacons[1..], mac)
  }

  /**
    One heard beacon: its position and its weight, the inverse of the
    distance estimated from its signal strength (`1 / it.third`).
  */
  datatype Sample = Sample(x: real, y: real, weight: real)

  datatype Axis = X | Y

  function Coord(s: Sample, a: Axis): real
  {
    match a
    case X => s.x
    case Y => s.y
  }

  /** The estimated position. */
  datatype Estimate = Estimate(x: real, y: real)

  function EstimateCoord(e: Estimate, a: Axis): real
  {
    match a
    case X => e.x
    case Y => e.y
  }

  /** The sample of beacon `b` when `scan` holds a reading for it. */
  function SampleOf(b: Beacon, scan: map<string, int>, distance: int -> real): (s: Sample)
    requires b.mac in scan
    requires forall rssi :: distance(rssi) != 0.0
    ensures s.x == b.x && s.y == b.y
    ensures distance(scan[b.mac]) > 0.0 ==> s.weight > 0.0
  {
    var rssi: int := scan[b.mac];
    assert distance(rssi) != 0.0;
    Sample(b.x, b.y, 1.0 / distance(rssi))
  }

  /**
    The `mapNotNull` over the beacons: one sample per beacon with a
    reading, in the order of `beacons`.
  */
  function Samples(beacons: seq<Beacon>, scan: map<string, int>, distance: int -> real): (r: seq<Sample>)
    requires forall rssi :: distance(rssi) != 0.0
    ensures |r| <= |beacons|
    ensures r == [] <==> forall i :: 0 <= i < |beacons| ==> beacons[i].mac !in scan
  {
    if beacons == [] then []
    else
      var rest := Samples(beacons[1..], scan, distance);
      assert forall i :: 1 <= i < |beacons| ==> beacons[i] == beacons[1..][i - 1];
      if beacons[0].mac in scan then [SampleOf(beacons[0], scan, distance)] + rest else rest
  }

  /**
    The samples are exactly those of the beacons that have a reading:
    every sample comes from such a beacon, and every such beacon gives one.
  */
  lemma {:induction false} SamplesMembers(beacons: seq<Beacon>, scan: map<string, int>, distance: int -> real)
    requires forall rssi :: distance(rssi) != 0.0
    ensures forall s :: s in Samples(beacons, scan, distance) ==>
      exists i :: 0 <= i < |beacons| && beacons[i].mac in scan && s == SampleOf(beacons[i], scan, distance)
    ensures forall i :: 0 <= i < |beacons| && beacons[i].mac in scan ==>
      SampleOf(beacons[i], scan, distance) in Samples(beacons, scan, distance)
  {
    if beacons != [] {
      SamplesMembers(beacons[1..], scan, distance);
      assert forall i :: 1 <= i < |beacons| ==> beacons[i] == beacons[1..][i - 1];
    }
  }

  ghost predicate PositiveWeights(samples: seq<Sample>)
  {
    forall i :: 0 <= i < |samples| ==> samples[i].weight > 0.0
  }

  /** `sumOf { 1 / it.third }`. */
  function WeightSum(samples: seq<Sample>): real
  {
    if samples == [] then 0.0
    else samples[0].weight + WeightSum(samples[1..])
  }

  /** `sumOf { coordinate * (1 / it.third) }`. */
  function WeightedSum(samples: seq<Sample>, a: Axis): real
  {
    if samples == [] then 0.0
    else Coord(samples[0], a) * samples[0].weight + WeightedSum(samples[1..], a)
  }

  /**
    The weighted centroid: (0, 0) without samples or with a zero weight
    sum, and otherwise the weighted average that `CentroidScaled` states.
  */
  function Centroid(samples: seq<Sample>): (e: Estimate)
    ensures samples == [] || WeightSum(samples) == 0.0 ==> e == Estimate(0.0, 0.0)
  {
    if samples == [] then Estimate(0.0, 0.0)
    else
      var w := WeightSum(samples);
      if w == 0.0 then Estimate(0.0, 0.0)
      else Estimate(WeightedSum(samples, X) / w, WeightedSum(samples, Y) / w)
  }

  /**
    `estimateUserPosition`, for the beacons `beacons`, the readings in
    `scan` and the distance model `distance`.
  */
  function EstimateUserPosition(beacons: seq<Beacon>, scan: map<string, int>, distance: int -> real): (e: Estimate)
    requires forall rssi :: distance(rssi) != 0.0
    ensures (forall i :: 0 <= i < |beacons| ==> beacons[i].mac !in scan) ==> e == Estimate(0.0, 0.0)
  {
    Centroid(Samples(beacons, scan, distance))
  }

  /** A positive distance model gives positive weights. */
  lemma {:induction false} SamplesPositive(beacons: seq<Beacon>, scan: map<string, int>, distance: int -> real)
    requires forall rssi :: distance(rssi) > 0.0
    ensures PositiveWeights(Samples(beacons, scan, distance))
  {
    if beacons != [] {
      SamplesPositive(beacons[1..], scan, distance);
      if beacons[0].mac in scan {
        var d := distance(scan[beacons[0].mac]);
        assert d > 0.0;
        InversePositive(d);
      }
    }
  }

  lemma InversePositive(d: real)
    requires d > 0.0
    ensures 1.0 / d > 0.0
  {
  }

  // ---------------------------------------------------------------------
  // Properties.

  /** Samples are taken beacon by beacon, so they keep the beacons' order. */
  lemma {:induction false} SamplesAppend(b1: seq<Beacon>, b2: seq<Beacon>, scan: map<string, int>, distance: int -> real)
    requires forall rssi :: distance(rssi) != 0.0
    ensures Samples(b1 + b2, scan, distance) == Samples(b1, scan, distance) + Samples(b2, scan, distance)
  {
    if b1 == [] {
      assert b1 + b2 == b2;
    } else {
      assert (b1 + b2)[1..] == b1[1..] + b2;
      SamplesAppend(b1[1..], b2, scan, distance);
    }
  }

  /** With positive weights their sum is positive. */
  lemma {:induction false} WeightSumPositive(samples: seq<Sample>)
    requires PositiveWeights(samples) && samples != []
    ensures WeightSum(samples) > 0.0
  {
    if |samples| > 1 {
      WeightSumPositive(samples[1..]);
    }
  }

  /**
    With positive weights, coordinates between `lo` and `hi` give a
    weighted sum between `lo` and `hi` times the weight sum.
  */
  lemma {:induction false} WeightedSumBounds(samples: seq<Sample>, a: Axis, lo: real, hi: real)
    requires PositiveWeights(samples)
    requires forall i :: 0 <= i < |samples| ==> lo <= Coord(samples[i], a) <= hi
    ensures lo * WeightSum(samples) <= WeightedSum(samples, a) <= hi * WeightSum(samples)
  {
    if samples != [] {
      var rest := samples[1..];
      WeightedSumBounds(rest, a, lo, hi);
      StepBetween(lo, Coord(samples[0], a), hi, samples[0].weight, WeightSum(rest), WeightedSum(rest, a));
    }
  }

  /** Adding one weighted coordinate keeps the weighted sum between the bounds. */
  lemma StepBetween(lo: real, c: real, hi: real, w: real, ws: real, s: real)
    requires lo <= c <= hi && w > 0.0
    requires lo * ws <= s <= hi * ws
    ensures lo * (w + ws) <= c * w + s <= hi * (w + ws)
  {
    assert (c - lo) * w >= 0.0;
    assert (hi - c) * w >= 0.0;
  }

  /**
    With positive distances the estimate is a convex combination of the
    heard beacons: each coordinate lies between the least and the
    greatest coordinate of the beacons that contribute.
  */
  lemma CentroidWithinBounds(samples: seq<Sample>, a: Axis, lo: real, hi: real)
    requires PositiveWeights(samples) && samples != []
    requires forall i :: 0 <= i < |samples| ==> lo <= Coord(samples[i], a) <= hi
    ensures lo <= EstimateCoord(Centroid(samples), a) <= hi
  {
    WeightSumPositive(samples);
    WeightedSumBounds(samples, a, lo, hi);
    CentroidBetween(samples, a, lo, hi, WeightSum(samples), WeightedSum(samples, a));
  }

  /** Dividing bounds on the weighted sum by the positive weight sum. */
  lemma CentroidBetween(samples: seq<Sample>, a: Axis, lo: real, hi: real, ws: real, s: real)
    requires samples != [] && ws == WeightSum(samples) && s == WeightedSum(samples, a)
    requires ws > 0.0 && lo * ws <= s <= hi * ws
    ensures lo <= EstimateCoord(Centroid(samples), a) <= hi
  {
    CentroidScaled(samples, a);
    BetweenAfterScaling(lo, EstimateCoord(Centroid(samples), a), hi, ws, s);
  }

  lemma BetweenAfterScaling(lo: real, e: real, hi: real, w: real, s: real)
    requires w > 0.0 && lo * w <= s <= hi * w && e * w == s
    ensures lo <= e <= hi
  {
    assert (e - lo) * w >= 0.0;
    assert (hi - e) * w >= 0.0;
  }

  /**
    Otherwise each coordinate of the centroid, multiplied by the weight
    sum, gives the weighted sum of the beacons' coordinates.
  */
  lemma CentroidScaled(samples: seq<Sample>, a: Axis)
    requires samples != [] && WeightSum(samples) != 0.0
    ensures EstimateCoord(Centroid(samples), a) * WeightSum(samples) == WeightedSum(samples, a)
  {
  }

  /** One heard beacon puts the user at that beacon. */
  lemma CentroidSingle(s: Sample)
    requires s.weight != 0.0
    ensures Centroid([s]) == Estimate(s.x, s.y)
  {
    assert [s][1..] == [];
    assert WeightSum([s]) == s.weight;
    assert WeightedSum([s], X) == s.x * s.weight;
    assert WeightedSum([s], Y) == s.y * s.weight;
  }

  /** The unweighted sum of one coordinate. */
  function Sum(samples: seq<Sample>, a: Axis): real
  {
    if samples == [] then 0.0 else Coord(samples[0], a) + Sum(samples[1..], a)
  }

  /** When every beacon is equally far away, every weight is the same `w`. */
  lemma {:induction false} EqualWeightSums(samples: seq<Sample>, a: Axis, w: real)
    requires forall i :: 0 <= i < |samples| ==> samples[i].weight == w
    ensures WeightSum(samples) == (|samples| as real) * w
    ensures WeightedSum(samples, a) == Sum(samples, a) * w
  {
    if samples != [] {
      EqualWeightSums(samples[1..], a, w);
      var n := (|samples| - 1) as real;
      var c := Coord(samples[0], a);
      var rest := Sum(samples[1..], a);
      assert (n + 1.0) * w == w + n * w;
      assert (c + rest) * w == c * w + rest * w;
    }
  }

  /**
    When every beacon is equally far away the estimate is the plain mean
    of the heard beacons' positions.
  */
  lemma CentroidEqualDistances(samples: seq<Sample>, a: Axis, w: real)
    requires w != 0.0 && samples != []
    requires forall i :: 0 <= i < |samples| ==> samples[i].weight == w
    ensures EstimateCoord(Centroid(samples), a) == Sum(samples, a) / (|samples| as real)
  {
    EqualWeightSums(samples, a, w);
    NonZeroProduct(|samples| as real, w);
    CentroidMean(samples, a, w, Sum(samples, a), WeightedSum(samples, a), WeightSum(samples));
  }

  /**
    When every heard beacon is estimated at the same distance `d`, the
    estimate is the plain mean of the heard beacons' positions.
  */
  lemma EstimateEqualDistances(beacons: seq<Beacon>, scan: map<string, int>, distance: int -> real, a: Axis, d: real)
    requires forall rssi :: distance(rssi) != 0.0
    requires forall i :: 0 <= i < |beacons| && beacons[i].mac in scan ==> distance(scan[beacons[i].mac]) == d
    requires exists i :: 0 <= i < |beacons| && beacons[i].mac in scan
    ensures Samples(beacons, scan, distance) != []
    ensures EstimateCoord(EstimateUserPosition(beacons, scan, distance), a) ==
      Sum(Samples(beacons, scan, distance), a) / (|Samples(beacons, scan, distance)| as real)
  {
    var samples := Samples(beacons, scan, distance);
    SamplesMembers(beacons, scan, distance);
    forall j | 0 <= j < |samples| ensures samples[j].weight == 1.0 / d {
      assert samples[j] in samples;
    }
    InverseNonZero(d);
    CentroidEqualDistances(samples, a, 1.0 / d);
  }

  lemma InverseNonZero(d: real)
    requires d != 0.0
    ensures 1.0 / d != 0.0
  {
  }

  /** Dividing two sums that share the factor `w` cancels it. */
  lemma CentroidMean(samples: seq<Sample>, a: Axis, w: real, sum: real, s: real, ws: real)
    requires samples != [] && w != 0.0
    requires ws == WeightSum(samples) && s == WeightedSum(samples, a) && sum == Sum(samples, a)
    requires ws == (|samples| as real) * w && ws != 0.0 && s == sum * w
    ensures EstimateCoord(Centroid(samples), a) == sum / (|samples| as real)
  {
    CentroidScaled(samples, a);
    MeanOfScaled(sum, |samples| as real, w, EstimateCoord(Centroid(samples), a), ws, s);
  }

  lemma NonZeroProduct(n: real, w: real)
    requires n > 0.0 && w != 0.0
    ensures n * w != 0.0
  {
  }

  lemma MeanOfScaled(sum: real, n: real, w: real, e: real, ws: real, s: real)
    requires n > 0.0 && w != 0.0
    requires ws == n * w && s == sum * w && e * ws == s
    ensures e == sum / n
  {
    assert (e * n - sum) * w == 0.0;
    assert e * n == sum;
  }

  /**
    With positive distances, once any verified beacon was heard the
    estimate lies in the rectangle spanned by the verified beacons.
  */
  lemma EstimateOnFloorPlan(scan: map<string, int>, distance: int -> real)
    requires forall rssi :: distance(rssi) > 0.0
    requires exists i :: 0 <= i < |VerifiedBeacons| && VerifiedBeacons[i].mac in scan
    ensures forall rssi :: distance(rssi) != 0.0
    ensures 300.0 <= EstimateUserPosition(VerifiedBeacons, scan, distance).x <= 1050.0
    ensures 250.0 <= EstimateUserPosition(VerifiedBeacons, scan, distance).y <= 1250.0
  {
    var samples := Samples(VerifiedBeacons, scan, distance);
    SamplesPositive(VerifiedBeacons, scan, distance);
    SamplesOnFloorPlan(scan, distance);
    CentroidWithinBounds(samples, X, 300.0, 1050.0);
    CentroidWithinBounds(samples, Y, 250.0, 1250.0);
  }

  /** Every heard verified beacon is mounted inside that rectangle. */
  lemma SamplesOnFloorPlan(scan: map<string, int>, distance: int -> real)
    requires forall rssi :: distance(rssi) != 0.0
    ensures forall i :: 0 <= i < |Samples(VerifiedBeacons, scan, distance)| ==>
      300.0 <= Samples(VerifiedBeacons, scan, distance)[i].x <= 1050.0 &&
      250.0 <= Samples(VerifiedBeacons, scan, distance)[i].y <= 1250.0
  {
    var samples := Samples(VerifiedBeacons, scan, distance);
    SamplesMembers(VerifiedBeacons, scan, distance);
    forall i | 0 <= i < |samples|
      ensures 300.0 <= samples[i].x <= 1050.0 && 250.0 <= samples[i].y <= 1250.0
    {
      assert samples[i] in samples;
    }
  }

  /** Without any reading the estimate falls back to (0, 0). */
  lemma EstimateWithoutReadings(distance: int -> real)
    requires forall rssi :: distance(rssi) != 0.0
    ensures EstimateUserPosition(VerifiedBeacons, map[], distance) == Estimate(0.0, 0.0)
  {
  }
}
