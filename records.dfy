/**
 * The already-parsed JSON shapes the dashboard works on: recording files, a level's
 * placed beacons, GeoJSON features, and the canonical beacon triple.
 */
module Records {
  import opened Wrappers

  /** A field of a parsed JSON object, as the Python code sees it. */
  datatype Value =
    | Null                    // key absent or JSON null: `dict.get` yields None for both
    | Num(n: int)             // a JSON integer
    | Text(s: string)         // a JSON string
    | Numbers(xs: seq<real>)  // a JSON array of numbers, such as a [lon, lat] position
    | Other                   // any other array or object: unhashable, unordered, not convertible

  /** One element of `beaconData` or `placedBeacons`. */
  datatype Entry =
    | Object(uuid: Value, major: Value, minor: Value, coordinates: Option<Value>)  // coordinates: None when the key is absent
    | NotObject   // an array, string or number where an object was expected

  /**
   * The value of a top-level key that should hold a list, read with `data.get(key, [])`.
   * NotList.size is Some(n) for an object with n keys or a string of n characters
   * (`len` works on those), and None for null, a number or a boolean (`len` raises).
   */
  datatype Section<T> = Absent | Items(items: seq<T>) | NotList(size: Option<nat>)

  /**
   * `len(data.get(key, []))`, or None where `len` raises. Whenever a loop over the same
   * value runs, the count is the number of items that loop visits.
   */
  function Length<T>(sec: Section<T>): (r: Option<nat>)
    ensures ItemsOf(sec).Some? ==> r == Some(|ItemsOf(sec).value|)
  {
    match sec
    case Absent => Some(0)
    case Items(xs) => Some(|xs|)
    case NotList(size) => size
  }

  /**
   * The objects that `for x in data.get(key, [])` hands to a loop body that subscripts
   * `x` with a string key; None where that raises (iterating a number or null, or
   * subscripting the first key or character of a non-empty object or string).
   */
  function ItemsOf<T>(sec: Section<T>): (r: Option<seq<T>>)
    ensures sec.Absent? ==> r == Some([])
    ensures sec.Items? ==> r == Some(sec.items)
    ensures sec.NotList? ==> (r.Some? <==> sec.size == Some(0))
  {
    match sec
    case Absent => Some([])
    case Items(xs) => Some(xs)
    case NotList(size) => if size == Some(0) then Some([]) else None
  }

  /** The canonical beacon identifier: equality and set membership are on this triple. */
  datatype Beacon = Beacon(uuid: string, major: int, minor: int)

  /** A beacon as declared in a level's map data; coordinates are the stored value, unchanged. */
  datatype PlacedBeacon = PlacedBeacon(beacon: Beacon, coordinates: Value)

  /** A first GPS fix; a field is None when its key is absent. */
  datatype GpsPoint = GpsPoint(latitude: Option<real>, longitude: Option<real>) | NotAPoint

  /** An uploaded recording file. The summary fields (recordingInfo, optionalNotes) are not modelled. */
  datatype Recording = Recording(gpsData: Section<GpsPoint>, sensorData: Section<()>, beaconData: Section<Entry>)

  /** A level of a building as returned by the levels endpoint. */
  datatype Level = Level(id: string, shortName: string, longName: string, placedBeacons: Section<Entry>)

  /** A (latitude, longitude) pair, the order folium expects. */
  datatype LatLon = LatLon(lat: real, lon: real)

  /**
   * A GeoJSON feature's geometry. Positions are [lon, lat, ...] number arrays.
   * OtherGeometry covers every other type, so its kind is never "Point", "LineString"
   * or "Polygon"; hasCoordinates is false for a type such as GeometryCollection that has
   * no `coordinates` key.
   */
  datatype Geometry =
    | Point(position: seq<real>)
    | LineString(positions: seq<seq<real>>)
    | Polygon(rings: seq<seq<seq<real>>>)
    | OtherGeometry(kind: string, hasCoordinates: bool)

  /** The `geoJson` part of a level document, as far as `"features" in geojson` can tell. */
  datatype FeatureLayer = NoGeoJson | NoFeatures | Features(geometries: seq<Geometry>)

  /**
   * The document fetched for one level: its feature layer, its `placedBeacons`, and the
   * remaining keys, which are only copied.
   */
  datatype LevelDocument = LevelDocument(layer: FeatureLayer, placedBeacons: Section<Entry>, others: map<string, Value>)

  /** A document with no keys at all, which Python treats as false. */
  predicate EmptyDocument(doc: LevelDocument) {
    doc.layer == NoGeoJson && doc.placedBeacons == Absent && doc.others == map[]
  }
}
