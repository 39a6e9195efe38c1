/** Geographic points as the track file and the routing service give them. */
module Geo {

  /** A WGS84 position in (longitude, latitude) order, as the geometry library stores it. */
  datatype Coord = Coord(lon: real, lat: real)
}
