/** Values shared by every stage of the build: positions, photo records,
    gazetteer settlements and the opaque geodesic distance. */
module Common {

  datatype Option<T> = None | Some(value: T)

  /** A position in decimal degrees (latitude, longitude), WGS84. */
  datatype Point = Point(lat: real, lon: real)

  /** A capture time as an ordinal. Python's `datetime.min`, the value
      `extract_datetime` falls back to, is the least one: 0. */
  type Timestamp = nat

  const MinTimestamp: Timestamp := 0

  /** A loaded photo: its file name (the last path component), its GPS
      position and its capture time. The decoded image handle is not modelled. */
  datatype Photo = Photo(name: string, coords: Point, taken: Timestamp)

  /** One gazetteer record `{name, lat, lon, place}`. */
  datatype Settlement = Settlement(name: string, lat: real, lon: real, place: string)

  function Location(s: Settlement): Point
  {
    Point(s.lat, s.lon)
  }

  /** The geodesic distance in kilometres (`geodesic(p, q).km`), taken as an
      uninterpreted function: nothing about it (symmetry, triangle
      inequality, zero on the diagonal) is assumed anywhere. */
  type Distance = (Point, Point) -> real
}
