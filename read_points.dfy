/**
 * NYC taxi trip points (modules/nyc-taxi/src/read-points-parquet.ts): the
 * start and end coordinates of every trip are interleaved into one `x`
 * (longitude) and one `y` (latitude) column, the points outside
 * longitude [-180, 180] or latitude [-90, 90] are dropped, and the bounding
 * box of the points kept is computed.
 *
 * Reading the Parquet file is left out: the trip table is a parameter.
 */
module ReadPoints {
  import opened Wrappers
  import opened Columns

  /** A row of the trip table: the `Start_Lon`, `Start_Lat`, `End_Lon` and `End_Lat` columns. */
  datatype Trip = Trip(startLon: Float, startLat: Float, endLon: Float, endLat: Float)

  /** A row of the `points` table. */
  datatype LonLat = LonLat(x: Float, y: Float)

  /** The result of `readPoints`: the bounding box and the points kept. */
  datatype TripPoints = TripPoints(bbox: Option<BBox>, points: seq<LonLat>)

  function StartLons(trips: seq<Trip>): (r: seq<Float>)
    ensures |r| == |trips| && forall i :: 0 <= i < |trips| ==> r[i] == trips[i].startLon
  {
    seq(|trips|, i requires 0 <= i < |trips| => trips[i].startLon)
  }

  function EndLons(trips: seq<Trip>): (r: seq<Float>)
    ensures |r| == |trips| && forall i :: 0 <= i < |trips| ==> r[i] == trips[i].endLon
  {
    seq(|trips|, i requires 0 <= i < |trips| => trips[i].endLon)
  }

  function StartLats(trips: seq<Trip>): (r: seq<Float>)
    ensures |r| == |trips| && forall i :: 0 <= i < |trips| ==> r[i] == trips[i].startLat
  {
    seq(|trips|, i requires 0 <= i < |trips| => trips[i].startLat)
  }

  function EndLats(trips: seq<Trip>): (r: seq<Float>)
    ensures |r| == |trips| && forall i :: 0 <= i < |trips| ==> r[i] == trips[i].endLat
  {
    seq(|trips|, i requires 0 <= i < |trips| => trips[i].endLat)
  }

  /** `x`: trip i's start longitude at 2i, its end longitude at 2i + 1. */
  function TripXs(trips: seq<Trip>): (r: seq<Float>)
    ensures |r| == 2 * |trips|
    ensures forall i :: 0 <= i < |trips| ==> r[2 * i] == trips[i].startLon && r[2 * i + 1] == trips[i].endLon
  {
    Interleave(StartLons(trips), EndLons(trips))
  }

  /** `y`: trip i's start latitude at 2i, its end latitude at 2i + 1. */
  function TripYs(trips: seq<Trip>): (r: seq<Float>)
    ensures |r| == 2 * |trips|
    ensures forall i :: 0 <= i < |trips| ==> r[2 * i] == trips[i].startLat && r[2 * i + 1] == trips[i].endLat
  {
    Interleave(StartLats(trips), EndLats(trips))
  }

  /** `v.ge(lo).logicalAnd(v.le(hi))`: both comparisons are false on NaN. */
  predicate Within(v: Float, lo: real, hi: real) {
    v.Fin? && lo <= v.value && v.value <= hi
  }

  /** `xMask.logicalAnd(yMask)` for one point. */
  predicate OnGlobe(x: Float, y: Float) {
    Within(x, -180.0, 180.0) && Within(y, -90.0, 90.0)
  }

  /** `new DataFrame({ x, y }).filter(mask)`: the rows that pass, in row order. */
  function FilterPoints(xs: seq<Float>, ys: seq<Float>): (r: seq<LonLat>)
    requires |xs| == |ys|
    ensures |r| <= |xs|
    ensures forall k :: 0 <= k < |r| ==> OnGlobe(r[k].x, r[k].y)
  {
    if xs == [] then []
    else
      var n := |xs| - 1;
      FilterPoints(xs[..n], ys[..n]) + (if OnGlobe(xs[n], ys[n]) then [LonLat(xs[n], ys[n])] else [])
  }

  /** How many of the rows before `j` pass the mask. */
  function KeptBefore(xs: seq<Float>, ys: seq<Float>, j: nat): (r: nat)
    requires |xs| == |ys| && j <= |xs|
  {
    |FilterPoints(xs[..j], ys[..j])|
  }

  function PointXs(points: seq<LonLat>): (r: seq<Float>)
    ensures |r| == |points| && forall k :: 0 <= k < |points| ==> r[k] == points[k].x
  {
    seq(|points|, k requires 0 <= k < |points| => points[k].x)
  }

  function PointYs(points: seq<LonLat>): (r: seq<Float>)
    ensures |r| == |points| && forall k :: 0 <= k < |points| ==> r[k] == points[k].y
  {
    seq(|points|, k requires 0 <= k < |points| => points[k].y)
  }

  /** `points.get(c).minmax()` for both columns; none when no point is kept. */
  function BoundingBox(points: seq<LonLat>): (r: Option<BBox>) {
    Box(PointXs(points), PointYs(points))
  }

  /** `readPoints` on a trip table. */
  function ReadPoints(trips: seq<Trip>): (r: TripPoints) {
    var points := FilterPoints(TripXs(trips), TripYs(trips));
    TripPoints(BoundingBox(points), points)
  }

  // ---------------------------------------------------------------------
  // Lemmas

  /** The filter keeps exactly the in-range rows, as they were. */
  lemma {:induction false} FilterPointsMember(xs: seq<Float>, ys: seq<Float>, p: LonLat)
    requires |xs| == |ys|
    ensures p in FilterPoints(xs, ys) <==> exists j :: 0 <= j < |xs| && OnGlobe(xs[j], ys[j]) && p == LonLat(xs[j], ys[j])
  {
    if xs != [] {
      var n := |xs| - 1;
      FilterPointsMember(xs[..n], ys[..n], p);
      if j :| 0 <= j < n && OnGlobe(xs[..n][j], ys[..n][j]) && p == LonLat(xs[..n][j], ys[..n][j]) {
        assert OnGlobe(xs[j], ys[j]) && p == LonLat(xs[j], ys[j]);
      }
      if j :| 0 <= j < n && OnGlobe(xs[j], ys[j]) && p == LonLat(xs[j], ys[j]) {
        assert OnGlobe(xs[..n][j], ys[..n][j]) && p == LonLat(xs[..n][j], ys[..n][j]);
      }
    }
  }

  /** Filtering two stacked tables filters each and stacks the results. */
  lemma {:induction false} FilterPointsAppend(xa: seq<Float>, ya: seq<Float>, xb: seq<Float>, yb: seq<Float>)
    requires |xa| == |ya| && |xb| == |yb|
    ensures FilterPoints(xa + xb, ya + yb) == FilterPoints(xa, ya) + FilterPoints(xb, yb)
  {
    if xb == [] {
      assert xa + xb == xa && ya + yb == ya;
    } else {
      var n := |xb| - 1;
      var m := |xa| + n;
      assert (xa + xb)[..m] == xa + xb[..n] && (ya + yb)[..m] == ya + yb[..n];
      assert (xa + xb)[m] == xb[n] && (ya + yb)[m] == yb[n];
      FilterPointsAppend(xa, ya, xb[..n], yb[..n]);
    }
  }

  /** Row j ends the prefix of length j + 1. */
  lemma FilterPointsStep(xs: seq<Float>, ys: seq<Float>, j: nat)
    requires |xs| == |ys| && j < |xs|
    ensures FilterPoints(xs[..j + 1], ys[..j + 1])
            == FilterPoints(xs[..j], ys[..j]) + (if OnGlobe(xs[j], ys[j]) then [LonLat(xs[j], ys[j])] else [])
  {
    assert xs[..j + 1][..j] == xs[..j] && ys[..j + 1][..j] == ys[..j];
    assert xs[..j + 1][j] == xs[j] && ys[..j + 1][j] == ys[j];
  }

  /** The filtered prefix is a prefix of the filtered table. */
  lemma FilterPointsPrefix(xs: seq<Float>, ys: seq<Float>, j: nat)
    requires |xs| == |ys| && j <= |xs|
    ensures FilterPoints(xs, ys) == FilterPoints(xs[..j], ys[..j]) + FilterPoints(xs[j..], ys[j..])
  {
    assert xs == xs[..j] + xs[j..] && ys == ys[..j] + ys[j..];
    FilterPointsAppend(xs[..j], ys[..j], xs[j..], ys[j..]);
  }

  /**
   * A kept row keeps its place among the kept rows: row j, when in
   * range, is the point at the number of kept rows before it. The filter
   * keeps x and y of one row together.
   */
  lemma FilterPointsAt(xs: seq<Float>, ys: seq<Float>, j: nat)
    requires |xs| == |ys| && j < |xs| && OnGlobe(xs[j], ys[j])
    ensures KeptBefore(xs, ys, j) < |FilterPoints(xs, ys)|
    ensures FilterPoints(xs, ys)[KeptBefore(xs, ys, j)] == LonLat(xs[j], ys[j])
  {
    FilterPointsStep(xs, ys, j);
    FilterPointsPrefix(xs, ys, j + 1);
  }

  /** The filter does not reorder rows: an earlier kept row lands at an earlier position. */
  lemma KeptBeforeMonotone(xs: seq<Float>, ys: seq<Float>, i: nat, j: nat)
    requires |xs| == |ys| && i < j <= |xs| && OnGlobe(xs[i], ys[i])
    ensures KeptBefore(xs, ys, i) < KeptBefore(xs, ys, j)
  {
    FilterPointsStep(xs, ys, i);
    var p := xs[..j];
    var q := ys[..j];
    FilterPointsPrefix(p, q, i + 1);
    assert p[..i + 1] == xs[..i + 1] && q[..i + 1] == ys[..i + 1];
  }

  /** The box holds every kept point and each of its four bounds is attained. */
  lemma BoundingBoxBounds(points: seq<LonLat>)
    requires forall k :: 0 <= k < |points| ==> points[k].x.Fin? && points[k].y.Fin?
    ensures BoundingBox(points).Some? <==> points != []
    ensures BoundingBox(points).Some? ==>
              var b := BoundingBox(points).value;
              (forall k :: 0 <= k < |points| ==>
                 b.xMin <= points[k].x.value <= b.xMax && b.yMin <= points[k].y.value <= b.yMax)
              && (exists k :: 0 <= k < |points| && points[k].x.value == b.xMin)
              && (exists k :: 0 <= k < |points| && points[k].x.value == b.xMax)
              && (exists k :: 0 <= k < |points| && points[k].y.value == b.yMin)
              && (exists k :: 0 <= k < |points| && points[k].y.value == b.yMax)
  {
    var xs := PointXs(points);
    var ys := PointYs(points);
    var bx := MinMax(xs);
    var bY := MinMax(ys);
    if points != [] {
      var rx := bx.value;
      var ry := bY.value;
      var b := BBox(rx.0, rx.1, ry.0, ry.1);
      assert BoundingBox(points) == Some(b);
      forall k | 0 <= k < |points|
        ensures b.xMin <= points[k].x.value <= b.xMax && b.yMin <= points[k].y.value <= b.yMax
      {
        assert xs[k] == points[k].x && ys[k] == points[k].y;
      }
      var k1 :| 0 <= k1 < |xs| && xs[k1].value == rx.0;
      var k2 :| 0 <= k2 < |xs| && xs[k2].value == rx.1;
      var k3 :| 0 <= k3 < |ys| && ys[k3].value == ry.0;
      var k4 :| 0 <= k4 < |ys| && ys[k4].value == ry.1;
      assert points[k1].x.value == b.xMin && points[k2].x.value == b.xMax;
      assert points[k3].y.value == b.yMin && points[k4].y.value == b.yMax;
    }
  }

  /**
   * `readPoints`: the points are the trip ends on the globe, start and end
   * of each trip in trip order, and the box is the tightest one around
   * them (none when no point is kept).
   */
  lemma ReadPointsSpec(trips: seq<Trip>)
    ensures var r := ReadPoints(trips);
            (forall p :: p in r.points <==>
               exists i :: 0 <= i < |trips| &&
                 ((p == LonLat(trips[i].startLon, trips[i].startLat) && OnGlobe(trips[i].startLon, trips[i].startLat))
                  || (p == LonLat(trips[i].endLon, trips[i].endLat) && OnGlobe(trips[i].endLon, trips[i].endLat))))
            && (r.bbox.Some? <==> r.points != [])
            && (r.bbox.Some? ==> forall k :: 0 <= k < |r.points| ==>
                  r.bbox.value.xMin <= r.points[k].x.value <= r.bbox.value.xMax
                  && r.bbox.value.yMin <= r.points[k].y.value <= r.bbox.value.yMax)
  {
    var xs := TripXs(trips);
    var ys := TripYs(trips);
    var pts := FilterPoints(xs, ys);
    BoundingBoxBounds(pts);
    forall p
      ensures p in pts <==>
               exists i :: 0 <= i < |trips| &&
                 ((p == LonLat(trips[i].startLon, trips[i].startLat) && OnGlobe(trips[i].startLon, trips[i].startLat))
                  || (p == LonLat(trips[i].endLon, trips[i].endLat) && OnGlobe(trips[i].endLon, trips[i].endLat)))
    {
      TripPointMember(trips, p);
    }
  }

  /** A point is kept exactly when it is the start or the end of a trip and lies on the globe. */
  lemma TripPointMember(trips: seq<Trip>, p: LonLat)
    ensures p in FilterPoints(TripXs(trips), TripYs(trips)) <==>
              exists i :: 0 <= i < |trips| &&
                ((p == LonLat(trips[i].startLon, trips[i].startLat) && OnGlobe(trips[i].startLon, trips[i].startLat))
                 || (p == LonLat(trips[i].endLon, trips[i].endLat) && OnGlobe(trips[i].endLon, trips[i].endLat)))
  {
    var xs := TripXs(trips);
    var ys := TripYs(trips);
    FilterPointsMember(xs, ys, p);
    if j :| 0 <= j < |xs| && OnGlobe(xs[j], ys[j]) && p == LonLat(xs[j], ys[j]) {
      var i := j / 2;
      if j % 2 == 0 {
        assert j == 2 * i;
        assert xs[j] == trips[i].startLon && ys[j] == trips[i].startLat;
      } else {
        assert j == 2 * i + 1;
        assert xs[j] == trips[i].endLon && ys[j] == trips[i].endLat;
      }
    }
    if i :| 0 <= i < |trips| && p == LonLat(trips[i].startLon, trips[i].startLat) && OnGlobe(trips[i].startLon, trips[i].startLat) {
      assert OnGlobe(xs[2 * i], ys[2 * i]) && p == LonLat(xs[2 * i], ys[2 * i]);
    }
    if i :| 0 <= i < |trips| && p == LonLat(trips[i].endLon, trips[i].endLat) && OnGlobe(trips[i].endLon, trips[i].endLat) {
      assert OnGlobe(xs[2 * i + 1], ys[2 * i + 1]) && p == LonLat(xs[2 * i + 1], ys[2 * i + 1]);
    }
  }

  /** Trip i's start point comes before its end point, and both before trip i + 1's. */
  lemma ReadPointsOrder(trips: seq<Trip>, i: nat)
    requires i < |trips|
    requires OnGlobe(trips[i].startLon, trips[i].startLat) && OnGlobe(trips[i].endLon, trips[i].endLat)
    ensures var xs := TripXs(trips);
            var ys := TripYs(trips);
            var a := KeptBefore(xs, ys, 2 * i);
            a + 1 < |ReadPoints(trips).points|
            && a + 1 == KeptBefore(xs, ys, 2 * i + 1)
            && ReadPoints(trips).points[a] == LonLat(trips[i].startLon, trips[i].startLat)
            && ReadPoints(trips).points[a + 1] == LonLat(trips[i].endLon, trips[i].endLat)
  {
    var xs := TripXs(trips);
    var ys := TripYs(trips);
    FilterPointsAt(xs, ys, 2 * i);
    FilterPointsAt(xs, ys, 2 * i + 1);
    FilterPointsStep(xs, ys, 2 * i);
  }
}
