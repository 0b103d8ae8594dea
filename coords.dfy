/**
 * Planar coordinates and envelopes as the geometry kernel uses them.
 * A coordinate keeps only its x and y ordinates, so equality of two values
 * is the kernel's exact two-dimensional equality (`equals2D`, `equals`).
 */
module Coords {

  datatype Coord = Coord(x: real, y: real)

  /** The tolerance the hole joiner uses for "same vertex" and "same x". */
  const EPS: real := 0.0001

  function Abs(r: real): (a: real)
    ensures a >= 0.0 && (a == r || a == -r)
  {
    if r < 0.0 then -r else r
  }

  /** The natural order of coordinates (compareTo < 0): lexicographic on (x, y). */
  predicate Less(a: Coord, b: Coord)
  {
    a.x < b.x || (a.x == b.x && a.y < b.y)
  }

  lemma LessIsStrictTotalOrder(a: Coord, b: Coord, c: Coord)
    ensures !Less(a, a)
    ensures Less(a, b) ==> !Less(b, a)
    ensures Less(a, b) && Less(b, c) ==> Less(a, c)
    ensures a == b || Less(a, b) || Less(b, a)
  {
  }

  /** Equality within a tolerance on each ordinate (`equals2D(c, tolerance)`). */
  predicate NearEquals(a: Coord, b: Coord, tolerance: real)
  {
    Abs(a.x - b.x) <= tolerance && Abs(a.y - b.y) <= tolerance
  }

  /**
   * An axis-aligned bounding box, or the null envelope of an empty geometry.
   * A null envelope reports minX = minY = 0 and maxX = maxY = -1.
   */
  datatype Envelope = NullEnvelope | Box(minX: real, minY: real, maxX: real, maxY: real)
  {
    function MinX(): real { if NullEnvelope? then 0.0 else minX }
    function MinY(): real { if NullEnvelope? then 0.0 else minY }
    function MaxX(): real { if NullEnvelope? then -1.0 else maxX }
    function MaxY(): real { if NullEnvelope? then -1.0 else maxY }
  }

  function Min(a: real, b: real): real { if a <= b then a else b }
  function Max(a: real, b: real): real { if a >= b then a else b }

  /** The envelope of a list of coordinates: the smallest box holding all of them. */
  function EnvelopeOf(pts: seq<Coord>): (e: Envelope)
    ensures pts == [] <==> e.NullEnvelope?
    ensures e.Box? ==> forall i :: 0 <= i < |pts| ==>
      e.minX <= pts[i].x <= e.maxX && e.minY <= pts[i].y <= e.maxY
    ensures e.Box? ==> (exists i :: 0 <= i < |pts| && pts[i].x == e.minX)
    ensures e.Box? ==> (exists i :: 0 <= i < |pts| && pts[i].y == e.minY)
    ensures e.Box? ==> (exists i :: 0 <= i < |pts| && pts[i].x == e.maxX)
    ensures e.Box? ==> (exists i :: 0 <= i < |pts| && pts[i].y == e.maxY)
  {
    if pts == [] then NullEnvelope
    else
      var rest := EnvelopeOf(pts[1..]);
      var p := pts[0];
      if rest.NullEnvelope? then Box(p.x, p.y, p.x, p.y)
      else
        var e := Box(Min(p.x, rest.minX), Min(p.y, rest.minY), Max(p.x, rest.maxX), Max(p.y, rest.maxY));
        assert forall i :: 1 <= i < |pts| ==> pts[i] == pts[1..][i - 1];
        assert e.minX != p.x ==> exists i :: 1 <= i < |pts| && pts[i].x == e.minX by {
          if e.minX != p.x {
            var k :| 0 <= k < |pts[1..]| && pts[1..][k].x == rest.minX;
            assert pts[k + 1].x == e.minX;
          }
        }
        assert e.minY != p.y ==> exists i :: 1 <= i < |pts| && pts[i].y == e.minY by {
          if e.minY != p.y {
            var k :| 0 <= k < |pts[1..]| && pts[1..][k].y == rest.minY;
            assert pts[k + 1].y == e.minY;
          }
        }
        assert e.maxX != p.x ==> exists i :: 1 <= i < |pts| && pts[i].x == e.maxX by {
          if e.maxX != p.x {
            var k :| 0 <= k < |pts[1..]| && pts[1..][k].x == rest.maxX;
            assert pts[k + 1].x == e.maxX;
          }
        }
        assert e.maxY != p.y ==> exists i :: 1 <= i < |pts| && pts[i].y == e.maxY by {
          if e.maxY != p.y {
            var k :| 0 <= k < |pts[1..]| && pts[1..][k].y == rest.maxY;
            assert pts[k + 1].y == e.maxY;
          }
        }
        e
  }

  /**
   * Envelope.compareTo: a null envelope comes first, then boxes are ordered
   * by minX, minY, maxX and maxY in that order. The result is -1, 0 or 1.
   */
  function CompareEnvelopes(a: Envelope, b: Envelope): (r: int)
    ensures -1 <= r <= 1
    ensures r == 0 <==> a == b
  {
    if a.NullEnvelope? then (if b.NullEnvelope? then 0 else -1)
    else if b.NullEnvelope? then 1
    else if a.minX < b.minX then -1
    else if a.minX > b.minX then 1
    else if a.minY < b.minY then -1
    else if a.minY > b.minY then 1
    else if a.maxX < b.maxX then -1
    else if a.maxX > b.maxX then 1
    else if a.maxY < b.maxY then -1
    else if a.maxY > b.maxY then 1
    else 0
  }

  /** The envelope order is a total order: antisymmetric and transitive. */
  lemma CompareEnvelopesIsTotalOrder(a: Envelope, b: Envelope, c: Envelope)
    ensures CompareEnvelopes(a, b) == -CompareEnvelopes(b, a)
    ensures CompareEnvelopes(a, b) <= 0 && CompareEnvelopes(b, c) <= 0 ==> CompareEnvelopes(a, c) <= 0
  {
  }
}
