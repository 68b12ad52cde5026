/**
 * The "Unheard Map" screen: the placed beacons of one level document are projected with
 * their coordinates, filtered against the observed set of the uploaded recordings, written
 * back into a copy of the document, and drawn as markers over the document's features,
 * whose positions give the map bounds.
 */
module UnheardMapView {
  import opened Wrappers
  import opened Records
  import Text
  import UnheardList

  // ---------------------------------------------------------------- extract_beacons_from_geojson

  /** One placed entry: the canonical triple plus `coordinates` copied unchanged (a KeyError when absent). */
  function PlacedOf(e: Entry): Option<PlacedBeacon> {
    match UnheardList.BeaconOf(e)
    case None => None
    case Some(b) =>
      match e.coordinates
      case None => None
      case Some(c) => Some(PlacedBeacon(b, c))
  }

  /** extract_beacons_from_geojson: one record per placed entry, in order, unless some entry raises. */
  function ExtractPlaced(entries: seq<Entry>): (r: Option<seq<PlacedBeacon>>)
    ensures r.Some? <==> forall i | 0 <= i < |entries| :: PlacedOf(entries[i]).Some?
    ensures r.Some? ==> |r.value| == |entries|
    ensures r.Some? ==> forall i | 0 <= i < |entries| ::
      r.value[i].beacon == UnheardList.BeaconOf(entries[i]).value && Some(r.value[i].coordinates) == entries[i].coordinates
  {
    if entries == [] then Some([])
    else
      var init := entries[..|entries| - 1];
      assert forall i | 0 <= i < |init| :: init[i] == entries[i];
      match (ExtractPlaced(init), PlacedOf(entries[|entries| - 1]))
      case (Some(ps), Some(p)) => Some(ps + [p])
      case _ => None
  }

  /** The placed beacons of a document, read with `.get("placedBeacons", [])`. */
  function DocumentBeacons(doc: LevelDocument): Option<seq<PlacedBeacon>> {
    match ItemsOf(doc.placedBeacons)
    case None => None
    case Some(es) => ExtractPlaced(es)
  }

  // ---------------------------------------------------------------- the missing filter

  /** The comprehension keeping the placed beacons whose triple was not observed, in order. */
  function MissingPlaced(placed: seq<PlacedBeacon>, observed: set<Beacon>): (r: seq<PlacedBeacon>)
    ensures |r| <= |placed|
    ensures forall i | 0 <= i < |r| :: r[i].beacon !in observed
  {
    if placed == [] then []
    else
      var init := placed[..|placed| - 1];
      var last := placed[|placed| - 1];
      MissingPlaced(init, observed) + (if last.beacon in observed then [] else [last])
  }

  /**
   * The filter keeps duplicates: a placed beacon occurs in the result as often as in the
   * declared list when its triple was not observed, and not at all otherwise.
   */
  lemma {:induction false} MissingPlacedCounts(placed: seq<PlacedBeacon>, observed: set<Beacon>, p: PlacedBeacon)
    ensures multiset(MissingPlaced(placed, observed))[p] == if p.beacon in observed then 0 else multiset(placed)[p]
    decreases |placed|
  {
    if placed != [] {
      var init := placed[..|placed| - 1];
      var last := placed[|placed| - 1];
      assert placed == init + [last];
      MissingPlacedCounts(init, observed, p);
    }
  }

  /** The filter commutes with concatenation, so it keeps the declared order. */
  lemma {:induction false} MissingPlacedConcat(a: seq<PlacedBeacon>, b: seq<PlacedBeacon>, observed: set<Beacon>)
    ensures MissingPlaced(a + b, observed) == MissingPlaced(a, observed) + MissingPlaced(b, observed)
    decreases |b|
  {
    if b == [] {
      assert a + b == a;
    } else {
      var b0 := b[..|b| - 1];
      var last := b[|b| - 1];
      assert (a + b)[..|a + b| - 1] == a + b0;
      assert (a + b)[|a + b| - 1] == last;
      MissingPlacedConcat(a, b0, observed);
      var tail := if last.beacon in observed then [] else [last];
      assert MissingPlaced(a, observed) + MissingPlaced(b0, observed) + tail
        == MissingPlaced(a, observed) + (MissingPlaced(b0, observed) + tail);
    }
  }

  /** A placed beacon is missing exactly when it is declared and its triple was not observed. */
  lemma MissingMembership(placed: seq<PlacedBeacon>, observed: set<Beacon>, p: PlacedBeacon)
    ensures p in MissingPlaced(placed, observed) <==> p in placed && p.beacon !in observed
  {
    var r := MissingPlaced(placed, observed);
    MissingPlacedCounts(placed, observed, p);
    assert p in r <==> multiset(r)[p] > 0;
    assert p in placed <==> multiset(placed)[p] > 0;
  }

  // ---------------------------------------------------------------- updated_geojson

  /** A placed beacon written back as the dictionary the extraction built. */
  function ToEntry(p: PlacedBeacon): Entry {
    Object(Text(p.beacon.uuid), Num(p.beacon.major), Num(p.beacon.minor), Some(p.coordinates))
  }

  /** `levelGeoJson.copy()` with `placedBeacons` replaced by the missing beacons. */
  function UpdatedDocument(doc: LevelDocument, missing: seq<PlacedBeacon>): (r: LevelDocument)
    ensures r.layer == doc.layer && r.others == doc.others
    ensures r.placedBeacons.Items? && |r.placedBeacons.items| == |missing|
  {
    doc.(placedBeacons := Items(seq(|missing|, i requires 0 <= i < |missing| => ToEntry(missing[i]))))
  }

  /** Extracted uuids are upper case, so they survive a second upper-casing. */
  predicate UpperUuid(p: PlacedBeacon) {
    forall i | 0 <= i < |p.beacon.uuid| :: !Text.IsLower(p.beacon.uuid[i])
  }

  lemma ExtractedUuidsAreUpper(entries: seq<Entry>)
    requires ExtractPlaced(entries).Some?
    ensures forall i | 0 <= i < |entries| :: UpperUuid(ExtractPlaced(entries).value[i])
  {
  }

  /** Extracting the beacons of the updated document gives back the missing beacons. */
  lemma UpdatedDocumentRoundTrip(doc: LevelDocument, missing: seq<PlacedBeacon>)
    requires forall i | 0 <= i < |missing| :: UpperUuid(missing[i])
    ensures DocumentBeacons(UpdatedDocument(doc, missing)) == Some(missing)
  {
    var es := UpdatedDocument(doc, missing).placedBeacons.items;
    forall i | 0 <= i < |missing| ensures PlacedOf(es[i]) == Some(missing[i]) {
      var u := missing[i].beacon.uuid;
      assert Text.Upper(u) == u;
    }
    var r := ExtractPlaced(es);
    assert r.value == missing;
  }

  // ---------------------------------------------------------------- the bounds loop

  /** `[(c[1], c[0]) for c in coords]`, None when some position has fewer than two numbers. */
  function SwapAll(coords: seq<seq<real>>): (r: Option<seq<LatLon>>)
    ensures r.Some? <==> forall i | 0 <= i < |coords| :: |coords[i]| >= 2
    ensures r.Some? ==> |r.value| == |coords|
    ensures r.Some? ==> forall i | 0 <= i < |coords| :: r.value[i] == LatLon(coords[i][1], coords[i][0])
  {
    if coords == [] then Some([])
    else
      var init := coords[..|coords| - 1];
      var last := coords[|coords| - 1];
      assert forall i | 0 <= i < |init| :: init[i] == coords[i];
      match SwapAll(init)
      case None => None
      case Some(ps) => if |last| >= 2 then Some(ps + [LatLon(last[1], last[0])]) else None
  }

  /** The pairs a Polygon contributes: every ring's positions, swapped, ring after ring. */
  function RingPairs(rings: seq<seq<seq<real>>>): Option<seq<LatLon>> {
    if rings == [] then Some([])
    else
      match (RingPairs(rings[..|rings| - 1]), SwapAll(rings[|rings| - 1]))
      case (Some(a), Some(b)) => Some(a + b)
      case _ => None
  }

  /**
   * The pairs one feature contributes. Every feature's `coordinates` is read before its
   * type is tested, so a type without coordinates raises; other types add nothing.
   */
  function FeaturePairs(g: Geometry): Option<seq<LatLon>> {
    match g
    case Point(p) => if |p| >= 2 then Some([LatLon(p[1], p[0])]) else None
    case LineString(ps) => SwapAll(ps)
    case Polygon(rings) => RingPairs(rings)
    case OtherGeometry(_, hasCoordinates) => if hasCoordinates then Some([]) else None
  }

  /** The bounds list after the loop over the features, None when the loop raises. */
  function Bounds(features: seq<Geometry>): Option<seq<LatLon>> {
    if features == [] then Some([])
    else
      match (Bounds(features[..|features| - 1]), FeaturePairs(features[|features| - 1]))
      case (Some(a), Some(b)) => Some(a + b)
      case _ => None
  }

  /** The positions of the features in order: one per Point, all of a LineString, all rings of a Polygon. */
  function Positions(features: seq<Geometry>): Option<seq<seq<real>>> {
    if features == [] then Some([])
    else
      var init := Positions(features[..|features| - 1]);
      match (init, features[|features| - 1])
      case (None, _) => None
      case (Some(a), Point(p)) => Some(a + [p])
      case (Some(a), LineString(ps)) => Some(a + ps)
      case (Some(a), Polygon(rings)) => Some(a + Flatten(rings))
      case (Some(a), OtherGeometry(_, has)) => if has then Some(a) else None
  }

  function Flatten(rings: seq<seq<seq<real>>>): seq<seq<real>> {
    if rings == [] then [] else Flatten(rings[..|rings| - 1]) + rings[|rings| - 1]
  }

  lemma SwapAllConcat(a: seq<seq<real>>, b: seq<seq<real>>)
    ensures SwapAll(a + b).Some? <==> SwapAll(a).Some? && SwapAll(b).Some?
    ensures SwapAll(a + b).Some? ==> SwapAll(a + b).value == SwapAll(a).value + SwapAll(b).value
  {
    var ab := a + b;
    assert forall i | 0 <= i < |a| :: ab[i] == a[i];
    assert forall i | 0 <= i < |b| :: ab[|a| + i] == b[i];
    if SwapAll(ab).Some? {
      assert SwapAll(ab).value == SwapAll(a).value + SwapAll(b).value;
    }
  }

  lemma {:induction false} RingPairsSwapFlatten(rings: seq<seq<seq<real>>>)
    ensures RingPairs(rings) == SwapAll(Flatten(rings))
    decreases |rings|
  {
    if rings != [] {
      RingPairsSwapFlatten(rings[..|rings| - 1]);
      SwapAllConcat(Flatten(rings[..|rings| - 1]), rings[|rings| - 1]);
    }
  }

  /**
   * The bounds loop swaps every position of the features to (lat, lon), in feature order,
   * and raises exactly when a position is too short or a feature lacks coordinates.
   */
  lemma {:induction false} BoundsSwapPositions(features: seq<Geometry>)
    ensures Bounds(features) == match Positions(features) case None => None case Some(ps) => SwapAll(ps)
    decreases |features|
  {
    if features != [] {
      var init := features[..|features| - 1];
      var g := features[|features| - 1];
      BoundsSwapPositions(init);
      if Positions(init).Some? {
        var a := Positions(init).value;
        match g
        case Point(p) => SwapAllConcat(a, [p]);
        case LineString(ps) => SwapAllConcat(a, ps);
        case Polygon(rings) =>
          RingPairsSwapFlatten(rings);
          SwapAllConcat(a, Flatten(rings));
        case OtherGeometry(_, _) =>
          if Bounds(init).Some? {
            assert Bounds(init).value + [] == Bounds(init).value;
          }
      }
    }
  }

  lemma {:induction false} BoundsPrefixFails(features: seq<Geometry>, i: int)
    requires 0 <= i <= |features| && Bounds(features[..i]).None?
    ensures Bounds(features).None?
    decreases |features|
  {
    if i < |features| {
      var init := features[..|features| - 1];
      assert init[..i] == features[..i];
      BoundsPrefixFails(init, i);
    } else {
      assert features[..i] == features;
    }
  }

  lemma {:induction false} RingPairsPrefixFails(rings: seq<seq<seq<real>>>, j: int)
    requires 0 <= j <= |rings| && RingPairs(rings[..j]).None?
    ensures RingPairs(rings).None?
    decreases |rings|
  {
    if j < |rings| {
      var init := rings[..|rings| - 1];
      assert init[..j] == rings[..j];
      RingPairsPrefixFails(init, j);
    } else {
      assert rings[..j] == rings;
    }
  }

  /** The loop over a Polygon's rings, extending with each ring's swapped positions. */
  method PolygonPairs(rings: seq<seq<seq<real>>>) returns (pairs: Option<seq<LatLon>>)
    ensures pairs == RingPairs(rings)
  {
    var out: seq<LatLon> := [];
    var j := 0;
    assert rings[..0] == [];
    while j < |rings|
      invariant 0 <= j <= |rings|
      invariant RingPairs(rings[..j]) == Some(out)
    {
      assert rings[..j + 1][..j] == rings[..j];
      var ring := SwapAll(rings[j]);
      if ring.None? {
        RingPairsPrefixFails(rings, j + 1);
        return None;
      }
      out := out + ring.value;
      j := j + 1;
    }
    assert rings[..j] == rings;
    return Some(out);
  }

  /** The loop that fills `bounds`: append for a Point, extend for a LineString and for each ring of a Polygon. */
  method ComputeBounds(features: seq<Geometry>) returns (bounds: Option<seq<LatLon>>)
    ensures bounds == Bounds(features)
  {
    var out: seq<LatLon> := [];
    var i := 0;
    assert features[..0] == [];
    while i < |features|
      invariant 0 <= i <= |features|
      invariant Bounds(features[..i]) == Some(out)
    {
      assert features[..i + 1][..i] == features[..i];
      var added: Option<seq<LatLon>>;
      match features[i] {
        case Point(p) =>
          added := if |p| >= 2 then Some([LatLon(p[1], p[0])]) else None;
        case LineString(ps) =>
          added := SwapAll(ps);
        case Polygon(rings) =>
          added := PolygonPairs(rings);
        case OtherGeometry(_, hasCoordinates) =>
          added := if hasCoordinates then Some([]) else None;
      }
      if added.None? {
        BoundsPrefixFails(features, i + 1);
        return None;
      }
      out := out + added.value;
      i := i + 1;
    }
    assert features[..i] == features;
    return Some(out);
  }

  /** What the bounds step shows for a feature layer, None when the bounds loop raises. */
  function BoundsViewOf(layer: FeatureLayer): Option<BoundsView> {
    match layer
    case Features(fs) =>
      (match Bounds(fs)
       case None => None
       case Some(bs) => Some(if bs != [] then Fitted(bs) else InvalidGeometries))
    case _ => Some(NoFeatureLayer)
  }

  /** `if "features" in geojson`: fit the bounds, or report invalid geometries when there are none. */
  method FitBounds(layer: FeatureLayer) returns (view: Option<BoundsView>)
    ensures view == BoundsViewOf(layer)
  {
    if !layer.Features? {
      return Some(NoFeatureLayer);
    }
    var bounds := ComputeBounds(layer.geometries);
    if bounds.None? {
      return None;
    }
    if bounds.value != [] {
      return Some(Fitted(bounds.value));
    }
    return Some(InvalidGeometries);
  }

  // ---------------------------------------------------------------- markers

  datatype Marker = Marker(location: LatLon, beacon: Beacon)

  /** A marker at `[coordinates[1], coordinates[0]]`, None where that subscript raises. */
  function MarkerOf(p: PlacedBeacon): Option<Marker> {
    match p.coordinates
    case Numbers(xs) => if |xs| >= 2 then Some(Marker(LatLon(xs[1], xs[0]), p.beacon)) else None
    case _ => None
  }

  /** The marker loop over the updated placed beacons: one marker per missing beacon, in order. */
  method PlaceMarkers(missing: seq<PlacedBeacon>) returns (markers: Option<seq<Marker>>)
    ensures markers == Markers(missing)
  {
    var out: seq<Marker> := [];
    var i := 0;
    assert missing[..0] == [];
    while i < |missing|
      invariant 0 <= i <= |missing|
      invariant Markers(missing[..i]) == Some(out)
    {
      assert missing[..i + 1][..i] == missing[..i];
      var m := MarkerOf(missing[i]);
      if m.None? {
        assert !Markers(missing).Some?;
        return None;
      }
      out := out + [m.value];
      i := i + 1;
    }
    assert missing[..i] == missing;
    return Some(out);
  }

  // ---------------------------------------------------------------- the screen

  /** What happens to the map's bounds. */
  datatype BoundsView = NoFeatureLayer | Fitted(bounds: seq<LatLon>) | InvalidGeometries

  datatype MapView =
    | NoGeoJsonData     // the fetched document is empty
    | MapCrash          // an exception ends the script
    | PromptUpload      // "Please upload one or more JSON files."
    | NothingMissing    // "No beacons are missing."
    | UnheardMap(missing: seq<PlacedBeacon>, document: LevelDocument, view: BoundsView, markers: seq<Marker>)

  /** The map screen after "Check for Missing Beacons" is pressed, as a function of its inputs. */
  function MapScreen(doc: LevelDocument, files: seq<Recording>): MapView {
    if EmptyDocument(doc) then NoGeoJsonData
    else
      match DocumentBeacons(doc)
      case None => MapCrash
      case Some(placed) =>
        if files == [] then PromptUpload
        else
          match UnheardList.Observed(files)
          case None => MapCrash
          case Some(obs) =>
            var missing := MissingPlaced(placed, obs);
            if missing == [] then NothingMissing
            else
              var updated := UpdatedDocument(doc, missing);
              match (BoundsViewOf(updated.layer), Markers(missing))
              case (Some(v), Some(ms)) => UnheardMap(missing, updated, v, ms)
              case _ => MapCrash
  }

  /** The markers of a list of placed beacons, None when one cannot be placed. */
  function Markers(missing: seq<PlacedBeacon>): (r: Option<seq<Marker>>)
    ensures r.Some? <==> forall i | 0 <= i < |missing| :: MarkerOf(missing[i]).Some?
    ensures r.Some? ==> |r.value| == |missing| && forall i | 0 <= i < |missing| :: r.value[i] == MarkerOf(missing[i]).value
  {
    if missing == [] then Some([])
    else
      var init := missing[..|missing| - 1];
      assert forall i | 0 <= i < |init| :: init[i] == missing[i];
      match (Markers(init), MarkerOf(missing[|missing| - 1]))
      case (Some(ms), Some(m)) => Some(ms + [m])
      case _ => None
  }

  /** The button handler: the extraction runs when the page loads, the comparison on the button. */
  method CheckMissingBeacons(doc: LevelDocument, files: seq<Recording>) returns (view: MapView)
    ensures view == MapScreen(doc, files)
  {
    if EmptyDocument(doc) {
      return NoGeoJsonData;
    }
    var placed := DocumentBeacons(doc);
    if placed.None? {
      return MapCrash;
    }
    if files == [] {
      return PromptUpload;
    }
    var observed := UnheardList.Observed(files);
    if observed.None? {
      return MapCrash;
    }
    var missing := MissingPlaced(placed.value, observed.value);
    if missing == [] {
      return NothingMissing;
    }
    var updated := UpdatedDocument(doc, missing);
    var boundsView := FitBounds(updated.layer);
    if boundsView.None? {
      return MapCrash;
    }
    var markers := PlaceMarkers(missing);
    if markers.None? {
      return MapCrash;
    }
    return UnheardMap(missing, updated, boundsView.value, markers.value);
  }

  // ---------------------------------------------------------------- properties of the screen

  /** The filter is empty exactly when every placed beacon was observed. */
  lemma NothingMissingWhenAllHeard(placed: seq<PlacedBeacon>, observed: set<Beacon>)
    ensures MissingPlaced(placed, observed) == [] <==> forall i | 0 <= i < |placed| :: placed[i].beacon in observed
  {
    var r := MissingPlaced(placed, observed);
    if r == [] {
      forall i | 0 <= i < |placed| ensures placed[i].beacon in observed {
        MissingMembership(placed, observed, placed[i]);
      }
    }
    if forall i | 0 <= i < |placed| :: placed[i].beacon in observed {
      if r != [] {
        MissingMembership(placed, observed, r[0]);
      }
    }
  }

  /** The messages of the screen: empty document, failing extraction, no files, nothing missing. */
  lemma MapScreenMessages(doc: LevelDocument, files: seq<Recording>)
    ensures EmptyDocument(doc) ==> MapScreen(doc, files) == NoGeoJsonData
    ensures !EmptyDocument(doc) && DocumentBeacons(doc).None? ==> MapScreen(doc, files) == MapCrash
    ensures !EmptyDocument(doc) && DocumentBeacons(doc).Some? && files == [] ==> MapScreen(doc, files) == PromptUpload
    ensures !EmptyDocument(doc) && DocumentBeacons(doc).Some? && files != [] && UnheardList.Observed(files).Some? ==>
      (MapScreen(doc, files) == NothingMissing <==>
       forall i | 0 <= i < |DocumentBeacons(doc).value| :: DocumentBeacons(doc).value[i].beacon in UnheardList.Observed(files).value)
  {
    if !EmptyDocument(doc) && DocumentBeacons(doc).Some? && files != [] && UnheardList.Observed(files).Some? {
      NothingMissingWhenAllHeard(DocumentBeacons(doc).value, UnheardList.Observed(files).value);
    }
  }

  /** How a drawn map is assembled from the inputs. */
  lemma UnheardMapShape(doc: LevelDocument, files: seq<Recording>, view: MapView)
    requires view == MapScreen(doc, files) && view.UnheardMap?
    ensures DocumentBeacons(doc).Some? && UnheardList.Observed(files).Some?
    ensures view.missing == MissingPlaced(DocumentBeacons(doc).value, UnheardList.Observed(files).value)
    ensures view.missing != []
    ensures view.document == UpdatedDocument(doc, view.missing)
    ensures Markers(view.missing) == Some(view.markers)
  {
  }

  /** A drawn map lists exactly the declared beacons left unheard, and at least one. */
  lemma UnheardMapMissing(doc: LevelDocument, files: seq<Recording>, view: MapView)
    requires view == MapScreen(doc, files) && view.UnheardMap?
    ensures DocumentBeacons(doc).Some? && UnheardList.Observed(files).Some?
    ensures view.missing != []
    ensures forall p :: p in view.missing <==> p in DocumentBeacons(doc).value && p.beacon !in UnheardList.Observed(files).value
  {
    UnheardMapShape(doc, files, view);
    var placed := DocumentBeacons(doc).value;
    var obs := UnheardList.Observed(files).value;
    forall p: PlacedBeacon ensures p in view.missing <==> p in placed && p.beacon !in obs {
      MissingMembership(placed, obs, p);
    }
  }

  /**
   * The drawn map's document differs from the fetched one only in `placedBeacons`,
   * which holds exactly the missing beacons.
   */
  lemma UnheardMapDocument(doc: LevelDocument, files: seq<Recording>, view: MapView)
    requires view == MapScreen(doc, files) && view.UnheardMap?
    ensures view.document == doc.(placedBeacons := view.document.placedBeacons)
    ensures DocumentBeacons(view.document) == Some(view.missing)
  {
    UnheardMapShape(doc, files, view);
    var placed := DocumentBeacons(doc).value;
    ExtractedUuidsAreUpper(ItemsOf(doc.placedBeacons).value);
    MissingKeepsUpper(placed, UnheardList.Observed(files).value);
    UpdatedDocumentRoundTrip(doc, view.missing);
  }

  /** The missing filter keeps only placed beacons, so their uuids stay upper-case. */
  lemma MissingKeepsUpper(placed: seq<PlacedBeacon>, observed: set<Beacon>)
    requires forall i | 0 <= i < |placed| :: UpperUuid(placed[i])
    ensures forall i | 0 <= i < |MissingPlaced(placed, observed)| :: UpperUuid(MissingPlaced(placed, observed)[i])
  {
    var missing := MissingPlaced(placed, observed);
    forall i | 0 <= i < |missing| ensures UpperUuid(missing[i]) {
      MissingMembership(placed, observed, missing[i]);
      var j :| 0 <= j < |placed| && placed[j] == missing[i];
    }
  }

  /** One marker per missing beacon, in order, at its stored coordinates swapped to (lat, lon). */
  lemma UnheardMapMarkers(doc: LevelDocument, files: seq<Recording>, view: MapView)
    requires view == MapScreen(doc, files) && view.UnheardMap?
    ensures |view.markers| == |view.missing|
    ensures forall i | 0 <= i < |view.missing| ::
      view.missing[i].coordinates.Numbers? && |view.missing[i].coordinates.xs| >= 2 &&
      view.markers[i] == Marker(LatLon(view.missing[i].coordinates.xs[1], view.missing[i].coordinates.xs[0]), view.missing[i].beacon)
  {
    UnheardMapShape(doc, files, view);
    MarkersPlaced(view.missing, view.markers);
  }

  /** Markers that could all be placed sit at their beacons' coordinates swapped to (lat, lon). */
  lemma MarkersPlaced(missing: seq<PlacedBeacon>, markers: seq<Marker>)
    requires Markers(missing) == Some(markers)
    ensures |markers| == |missing|
    ensures forall i | 0 <= i < |missing| ::
      missing[i].coordinates.Numbers? && |missing[i].coordinates.xs| >= 2 &&
      markers[i] == Marker(LatLon(missing[i].coordinates.xs[1], missing[i].coordinates.xs[0]), missing[i].beacon)
  {
    forall i | 0 <= i < |missing|
      ensures missing[i].coordinates.Numbers? && |missing[i].coordinates.xs| >= 2
      ensures markers[i] == Marker(LatLon(missing[i].coordinates.xs[1], missing[i].coordinates.xs[0]), missing[i].beacon)
    {
      assert MarkerOf(missing[i]).Some?;
    }
  }
}
