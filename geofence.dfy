/**
 * `GeofenceUtils.isPointInPolygon`: the even-odd ray-casting test. For each
 * edge from vertex `i` to the vertex before it (the closing edge joins the
 * last vertex to the first), a crossing toggles the answer.
 * Coordinates are exact reals.
 */
module Geofence {

  datatype LatLng = LatLng(latitude: real, longitude: real)

  /** The longitude of the line through `a` and `b` at latitude `y`, as the source computes it from `a`. */
  function LineLongitude(a: LatLng, b: LatLng, y: real): real
    requires a.latitude != b.latitude
  {
    (b.longitude - a.longitude) * (y - a.latitude) / (b.latitude - a.latitude) + a.longitude
  }

  /**
   * The crossing test for the edge (a, b) = (polygon[i], polygon[j]): the
   * edge straddles the point's latitude, and the point lies west of the
   * edge at that latitude. The division is evaluated only when the first
   * conjunct holds, and then the two latitudes differ; an edge of equal
   * latitudes never counts.
   */
  predicate Crosses(point: LatLng, a: LatLng, b: LatLng)
    ensures Crosses(point, a, b) ==> a.latitude != b.latitude
  {
    && (point.latitude > a.latitude) != (point.latitude > b.latitude)
    && point.longitude < LineLongitude(a, b, point.latitude)
  }

  /** The trailing index `j` paired with `i`: the previous vertex, cyclically. */
  function Prev(n: nat, i: nat): int {
    if i == 0 then n - 1 else i - 1
  }

  predicate EdgeCrosses(point: LatLng, polygon: seq<LatLng>, i: nat)
    requires i < |polygon|
  {
    Crosses(point, polygon[i], polygon[Prev(|polygon|, i)])
  }

  /** The number of edges `lo <= i < hi` that pass the crossing test. */
  function CrossingCount(point: LatLng, polygon: seq<LatLng>, lo: nat, hi: nat): nat
    requires lo <= hi <= |polygon|
    decreases hi
  {
    if lo == hi then 0
    else CrossingCount(point, polygon, lo, hi - 1) + (if EdgeCrosses(point, polygon, hi - 1) then 1 else 0)
  }

  /** Reference definition: an odd number of the polygon's edges pass the crossing test. */
  predicate Inside(point: LatLng, polygon: seq<LatLng>) {
    CrossingCount(point, polygon, 0, |polygon|) % 2 == 1
  }

  /** The loop of `isPointInPolygon`, with `isInside` toggled and `j` trailing `i`. */
  method IsPointInPolygon(point: LatLng, polygon: seq<LatLng>) returns (isInside: bool)
    ensures isInside <==> Inside(point, polygon)
    ensures |polygon| == 0 ==> !isInside
  {
    isInside := false;
    var j: int := |polygon| - 1;
    for i := 0 to |polygon|
      invariant j == Prev(|polygon|, i)
      invariant isInside <==> CrossingCount(point, polygon, 0, i) % 2 == 1
    {
      if Crosses(point, polygon[i], polygon[j]) {
        isInside := !isInside;
      }
      j := i;
    }
  }

  // ---------------------------------------------------------------------------
  // Degenerate polygons
  // ---------------------------------------------------------------------------

  lemma LineLongitudeSymmetric(a: LatLng, b: LatLng, y: real)
    requires a.latitude != b.latitude
    ensures LineLongitude(a, b, y) == LineLongitude(b, a, y)
  {
    var d, s := b.latitude - a.latitude, b.longitude - a.longitude;
    var q1 := s * (y - a.latitude) / d;
    var q2 := (-s) * (y - b.latitude) / (-d);
    assert q1 * d == s * (y - a.latitude);
    assert q2 * (-d) == (-s) * (y - b.latitude);
    assert (q1 - q2) * d == s * d;
    assert (q1 - q2 - s) * d == 0.0;
    assert q1 - q2 == s;
  }

  /** An edge along a meridian meets every latitude at its own longitude. */
  lemma ConstantLongitudeEdge(a: LatLng, b: LatLng, y: real)
    requires a.latitude != b.latitude && a.longitude == b.longitude
    ensures LineLongitude(a, b, y) == a.longitude
  {
    assert b.longitude - a.longitude == 0.0;
  }

  /** An edge crosses in one direction exactly when it crosses in the other. */
  lemma CrossesSymmetric(point: LatLng, a: LatLng, b: LatLng)
    ensures Crosses(point, a, b) <==> Crosses(point, b, a)
  {
    if a.latitude != b.latitude {
      LineLongitudeSymmetric(a, b, point.latitude);
    }
  }

  /**
   * Fewer than three vertices never contain a point: one vertex gives an
   * edge of equal latitudes; two give the same edge twice, so the toggles
   * cancel.
   */
  lemma FewerThanThreeVerticesOutside(point: LatLng, polygon: seq<LatLng>)
    requires |polygon| < 3
    ensures !Inside(point, polygon)
  {
    if |polygon| == 2 {
      CrossesSymmetric(point, polygon[0], polygon[1]);
      assert EdgeCrosses(point, polygon, 0) == EdgeCrosses(point, polygon, 1);
    }
  }

  // ---------------------------------------------------------------------------
  // Rotation of the vertex list
  // ---------------------------------------------------------------------------

  function Rotate(polygon: seq<LatLng>, k: nat): (r: seq<LatLng>)
    requires k <= |polygon|
    ensures |r| == |polygon|
  {
    polygon[k..] + polygon[..k]
  }

  lemma {:induction false} CrossingCountSplit(point: LatLng, polygon: seq<LatLng>, lo: nat, mid: nat, hi: nat)
    requires lo <= mid <= hi <= |polygon|
    ensures CrossingCount(point, polygon, lo, hi)
         == CrossingCount(point, polygon, lo, mid) + CrossingCount(point, polygon, mid, hi)
    decreases hi
  {
    if mid < hi {
      CrossingCountSplit(point, polygon, lo, mid, hi - 1);
    }
  }

  lemma {:induction false} CrossingCountShift(point: LatLng, p: seq<LatLng>, a: nat, q: seq<LatLng>, b: nat, m: nat)
    requires a + m <= |p| && b + m <= |q|
    requires forall i :: a <= i < a + m ==> EdgeCrosses(point, p, i) == EdgeCrosses(point, q, i - a + b)
    ensures CrossingCount(point, p, a, a + m) == CrossingCount(point, q, b, b + m)
  {
    if m > 0 {
      CrossingCountShift(point, p, a, q, b, m - 1);
      assert EdgeCrosses(point, p, a + m - 1) == EdgeCrosses(point, q, b + m - 1);
    }
  }

  lemma RotateAt(polygon: seq<LatLng>, k: nat, x: nat)
    requires k <= |polygon| && x < |polygon|
    ensures Rotate(polygon, k)[x] == if x < |polygon| - k then polygon[k + x] else polygon[x - (|polygon| - k)]
  {
  }

  /** Edge `i` of the rotated list is edge `(i + k) mod n` of the original. */
  lemma RotatedEdge(point: LatLng, polygon: seq<LatLng>, k: nat, i: nat)
    requires 0 < k < |polygon| && i < |polygon|
    ensures EdgeCrosses(point, Rotate(polygon, k), i)
         == EdgeCrosses(point, polygon, if i < |polygon| - k then k + i else i - (|polygon| - k))
  {
    var n := |polygon|;
    RotateAt(polygon, k, i);
    RotateAt(polygon, k, Prev(n, i));
  }

  /** The first `n - k` edges of the rotated list are the original's edges from `k` on. */
  lemma RotatedCountHead(point: LatLng, polygon: seq<LatLng>, k: nat)
    requires 0 < k < |polygon|
    ensures CrossingCount(point, Rotate(polygon, k), 0, |polygon| - k) == CrossingCount(point, polygon, k, |polygon|)
  {
    var n, r := |polygon|, Rotate(polygon, k);
    forall i | 0 <= i < n - k
      ensures EdgeCrosses(point, r, i) == EdgeCrosses(point, polygon, i - 0 + k)
    {
      RotatedEdge(point, polygon, k, i);
    }
    CrossingCountShift(point, r, 0, polygon, k, n - k);
  }

  /** The last `k` edges of the rotated list are the original's first `k` edges. */
  lemma RotatedCountTail(point: LatLng, polygon: seq<LatLng>, k: nat)
    requires 0 < k < |polygon|
    ensures CrossingCount(point, Rotate(polygon, k), |polygon| - k, |polygon|) == CrossingCount(point, polygon, 0, k)
  {
    var n, r := |polygon|, Rotate(polygon, k);
    forall i | n - k <= i < n
      ensures EdgeCrosses(point, r, i) == EdgeCrosses(point, polygon, i - (n - k) + 0)
    {
      RotatedEdge(point, polygon, k, i);
    }
    CrossingCountShift(point, r, n - k, polygon, 0, k);
  }

  /** Rotating the vertex list tests the same edges, so the answer is the same. */
  lemma RotationInvariant(point: LatLng, polygon: seq<LatLng>, k: nat)
    requires k <= |polygon|
    ensures Inside(point, Rotate(polygon, k)) <==> Inside(point, polygon)
  {
    var n, r := |polygon|, Rotate(polygon, k);
    if k == 0 || k == n {
      assert r == polygon;
    } else {
      RotatedCount(point, polygon, k);
    }
  }

  lemma RotatedCount(point: LatLng, polygon: seq<LatLng>, k: nat)
    requires 0 < k < |polygon|
    ensures CrossingCount(point, Rotate(polygon, k), 0, |polygon|) == CrossingCount(point, polygon, 0, |polygon|)
  {
    var n, r := |polygon|, Rotate(polygon, k);
    {
      RotatedCountHead(point, polygon, k);
      RotatedCountTail(point, polygon, k);
      CrossingCountSplit(point, r, 0, n - k, n);
      CrossingCountSplit(point, polygon, 0, k, n);
    }
  }

  // ---------------------------------------------------------------------------
  // A square
  // ---------------------------------------------------------------------------

  function Square(): seq<LatLng> {
    [LatLng(0.0, 0.0), LatLng(0.0, 10.0), LatLng(10.0, 10.0), LatLng(10.0, 0.0)]
  }

  /**
   * A point strictly between the latitudes of an edge along a meridian
   * crosses it exactly when it lies west of that meridian.
   */
  lemma MeridianEdgeCrossing(point: LatLng, a: LatLng, b: LatLng)
    requires a.longitude == b.longitude
    requires (point.latitude > a.latitude) != (point.latitude > b.latitude)
    ensures Crosses(point, a, b) <==> point.longitude < a.longitude
  {
    ConstantLongitudeEdge(a, b, point.latitude);
  }

  /** At the centre (5,5) of the square only edge 2, from (10,10) back to (0,10), is crossed. */
  lemma SquareCentreEdges()
    ensures var p, sq := LatLng(5.0, 5.0), Square();
      !EdgeCrosses(p, sq, 0) && !EdgeCrosses(p, sq, 1) && EdgeCrosses(p, sq, 2) && !EdgeCrosses(p, sq, 3)
  {
    var p, sq := LatLng(5.0, 5.0), Square();
    MeridianEdgeCrossing(p, sq[0], sq[3]);
    MeridianEdgeCrossing(p, sq[2], sq[1]);
  }

  /** For the square (0,0),(0,10),(10,10),(10,0), the centre (5,5) is inside. */
  lemma SquareContainsCentre()
    ensures Inside(LatLng(5.0, 5.0), Square())
  {
    SquareCentreEdges();
    var p, sq := LatLng(5.0, 5.0), Square();
    assert CrossingCount(p, sq, 0, 4) == 1;
  }

  /** (15,15) lies north of every vertex, so no edge straddles it. */
  lemma SquareExcludesFarPoint()
    ensures !Inside(LatLng(15.0, 15.0), Square())
  {
    var p, sq := LatLng(15.0, 15.0), Square();
    assert forall i :: 0 <= i < 4 ==> !EdgeCrosses(p, sq, i);
    assert CrossingCount(p, sq, 0, 4) == 0;
  }

  /** The point (0,5) on the square's edge comes out outside: no edge straddles latitude 0 under the strict test. */
  lemma SquareEdgePointOutside()
    ensures !Inside(LatLng(0.0, 5.0), Square())
  {
    var p, sq := LatLng(0.0, 5.0), Square();
    assert forall i :: 0 <= i < 4 ==> !EdgeCrosses(p, sq, i);
    assert CrossingCount(p, sq, 0, 4) == 0;
  }
}
