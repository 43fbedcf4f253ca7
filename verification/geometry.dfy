/**
 * `is_within_polygon` (alertas.py:52-65).  The alert's coordinate list is closed in place by
 * appending its first vertex, and the closed ring is handed to shapely.  shapely itself
 * (Polygon, Point, contains, over floating point) is not modelled: it is a parameter that
 * either answers or raises, and a raise is caught and read as "not inside".
 */
module Geometry {
  import opened Optional

  /** A (longitude, latitude) pair, as the feed and the command line give them. */
  datatype Coord = Coord(lon: real, lat: real)

  /** `Polygon(ring).contains(Point(p))` seen from outside: `Some(answer)`, or `None` when
      shapely raises. */
  type Shapely = (seq<Coord>, Coord) -> Option<bool>

  /** One alert as `get_alerts` builds it: a record of text fields and a coordinate list
      that `is_within_polygon` changes in place. */
  class Alert {
    const title: string
    const summary: string
    const link: string
    const description: string
    var coords: seq<Coord>

    constructor (title: string, summary: string, link: string, description: string, coords: seq<Coord>)
      ensures this.title == title && this.summary == summary
      ensures this.link == link && this.description == description
      ensures this.coords == coords
    {
      this.title := title;
      this.summary := summary;
      this.link := link;
      this.description := description;
      this.coords := coords;
    }
  }

  /** A ring whose last vertex repeats its first. */
  predicate IsClosed(ring: seq<Coord>)
  {
    |ring| >= 2 && ring[|ring| - 1] == ring[0]
  }

  /** The ring after `coords.append(coords[0])`. */
  function Closed(ring: seq<Coord>): (r: seq<Coord>)
    requires ring != []
    ensures IsClosed(r)
    ensures |r| == |ring| + 1 && r[..|ring|] == ring
  {
    ring + [ring[0]]
  }

  /** The coordinate list as `is_within_polygon` leaves it: closed when it had a vertex,
      untouched when it was empty. */
  function AfterCheck(ring: seq<Coord>): (r: seq<Coord>)
    ensures ring == [] ==> r == []
    ensures ring != [] ==> IsClosed(r) && |r| == |ring| + 1 && r[..|ring|] == ring
  {
    if ring == [] then [] else Closed(ring)
  }

  /** The answer `is_within_polygon` gives for a coordinate list as it stands: never inside
      for an empty list or when shapely raises, and otherwise shapely's answer on the ring
      the check leaves behind, which is closed. */
  function Contains(ring: seq<Coord>, user: Coord, shapely: Shapely): (inside: bool)
    ensures ring == [] ==> !inside
    ensures shapely(AfterCheck(ring), user).None? ==> !inside
    ensures inside <==> IsClosed(AfterCheck(ring)) && shapely(AfterCheck(ring), user) == Some(true)
  {
    ring != [] && shapely(Closed(ring), user) == Some(true)
  }

  /** `is_within_polygon(alert, user_location)`. */
  method IsWithinPolygon(alert: Alert, user: Coord, shapely: Shapely) returns (inside: bool)
    modifies alert
    ensures alert.coords == AfterCheck(old(alert.coords))
    ensures inside == Contains(old(alert.coords), user, shapely)
    ensures old(alert.coords) == [] ==> !inside && alert.coords == []
  {
    var coords := alert.coords;
    if coords == [] {
      return false;
    }
    alert.coords := coords + [coords[0]];
    match shapely(alert.coords, user)
    case Some(answer) =>
      inside := answer;
    case None =>
      inside := false;
  }
}
