/**
 * The geometry the tracks travel along, and the two turf.js operations the
 * simulation calls on it.  A track's geometry is a GeoJSON LineString
 * (section 3.1.4 of RFC 7946): two or more positions.  The arc-length
 * computations of `turf.length` and `turf.along` are not modelled; they are
 * taken as parameters, about which only what the simulation needs is known:
 * a length is never negative.
 */
module Turf {

  /** A GeoJSON position: longitude then latitude, in degrees. */
  datatype Position = Position(lon: real, lat: real)

  datatype Geometry = Geometry(coordinates: seq<Position>)

  /** Section 3.1.4 of RFC 7946: the coordinates of a LineString are two or more positions. */
  type LineString = g: Geometry | 2 <= |g.coordinates|
    witness Geometry([Position(0.0, 0.0), Position(0.0, 0.0)])

  type NonNegReal = r: real | 0.0 <= r

  /**
   * `length(g)` is `turf.length(g, {units: 'miles'})`, the arc length of `g`;
   * `along(g, d)` is the coordinates of `turf.along(g, d, {units: 'miles'})`,
   * the point reached after walking `d` miles along `g` from its first position.
   */
  datatype GeometryService = GeometryService(
    length: LineString -> NonNegReal,
    along: (LineString, real) -> Position)

}
