/**
 * The "Basic Beacon Data Viewer": for one uploaded recording it looks up the first GPS
 * fix, counts the three data sections, and flattens the grouped beacon readings into one
 * row per (uuid, major) with the minors sorted and joined by ", ".
 */
module BasicProfiler {
  import opened Wrappers
  import opened Records
  import Text
  import Utils

  // ---------------------------------------------------------------- rows of the beacon table

  /** A row of the table: uuid as grouped, major, and the minors text. */
  datatype Row = Row(uuid: Value, major: int, minors: string)

  /** `", ".join(map(str, sorted(minors)))`. */
  function MinorsText(minors: set<int>): string {
    Text.JoinInts(Text.AscendingInts(minors))
  }

  /** The rows list every (uuid, major) of g among uuids `us` once, with its minors text. */
  ghost predicate ListsGroups(rows: seq<Row>, g: Utils.Grouped, us: set<Value>) {
    && (forall i | 0 <= i < |rows| ::
          rows[i].uuid in us && rows[i].uuid in g && rows[i].major in g[rows[i].uuid] &&
          rows[i].minors == MinorsText(g[rows[i].uuid][rows[i].major]))
    && (forall i, j | 0 <= i < j < |rows| :: (rows[i].uuid, rows[i].major) != (rows[j].uuid, rows[j].major))
    && (forall u, mj | u in us && u in g && mj in g[u] :: exists i | 0 <= i < |rows| :: rows[i].uuid == u && rows[i].major == mj)
  }

  /** The rows of one uuid that RowsForUuid produces. */
  ghost predicate ListsMajors(block: seq<Row>, u: Value, majors: map<int, set<int>>) {
    && (forall i | 0 <= i < |block| ::
          block[i].uuid == u && block[i].major in majors && block[i].minors == MinorsText(majors[block[i].major]))
    && (forall i, j | 0 <= i < j < |block| :: block[i].major != block[j].major)
    && (forall mj | mj in majors :: exists i | 0 <= i < |block| :: block[i].major == mj)
  }

  /** The rows produced so far for uuid u: one per major no longer in `remaining`. */
  ghost predicate MajorsSoFar(block: seq<Row>, u: Value, majors: map<int, set<int>>, remaining: set<int>) {
    && remaining <= majors.Keys
    && (forall i | 0 <= i < |block| ::
          block[i].uuid == u && block[i].major in majors && block[i].major !in remaining &&
          block[i].minors == MinorsText(majors[block[i].major]))
    && (forall i, j | 0 <= i < j < |block| :: block[i].major != block[j].major)
    && (forall mj | mj in majors && mj !in remaining :: exists i | 0 <= i < |block| :: block[i].major == mj)
  }

  /** One step of the inner loop: the row for a remaining major keeps the rows exact. */
  lemma MajorsSoFarStep(block: seq<Row>, u: Value, majors: map<int, set<int>>, remaining: set<int>, mj: int)
    requires MajorsSoFar(block, u, majors, remaining) && mj in remaining
    ensures MajorsSoFar(block + [Row(u, mj, MinorsText(majors[mj]))], u, majors, remaining - {mj})
  {
    var row := Row(u, mj, MinorsText(majors[mj]));
    RowsStayListed(block, row, u, majors, remaining);
    MajorsStayDistinct(block, row, remaining);
    MajorsStayCovered(block, row, majors, remaining);
  }

  lemma RowsStayListed(block: seq<Row>, row: Row, u: Value, majors: map<int, set<int>>, remaining: set<int>)
    requires forall i | 0 <= i < |block| ::
      block[i].uuid == u && block[i].major in majors && block[i].major !in remaining &&
      block[i].minors == MinorsText(majors[block[i].major])
    requires row.major in remaining && row.major in majors && row.uuid == u && row.minors == MinorsText(majors[row.major])
    ensures forall i | 0 <= i < |block + [row]| ::
      (block + [row])[i].uuid == u && (block + [row])[i].major in majors && (block + [row])[i].major !in remaining - {row.major} &&
      (block + [row])[i].minors == MinorsText(majors[(block + [row])[i].major])
  {
    var next := block + [row];
    forall i | 0 <= i < |next|
      ensures next[i].uuid == u && next[i].major in majors && next[i].major !in remaining - {row.major}
      ensures next[i].minors == MinorsText(majors[next[i].major])
    {
      if i < |block| { assert next[i] == block[i]; } else { assert next[i] == row; }
    }
  }

  lemma MajorsStayDistinct(block: seq<Row>, row: Row, remaining: set<int>)
    requires forall i | 0 <= i < |block| :: block[i].major !in remaining
    requires forall i, j | 0 <= i < j < |block| :: block[i].major != block[j].major
    requires row.major in remaining
    ensures forall i, j | 0 <= i < j < |block + [row]| :: (block + [row])[i].major != (block + [row])[j].major
  {
    var next := block + [row];
    forall i, j | 0 <= i < j < |next| ensures next[i].major != next[j].major {
      assert next[i] == block[i];
      if j < |block| { assert next[j] == block[j]; } else { assert next[j] == row; }
    }
  }

  lemma MajorsStayCovered(block: seq<Row>, row: Row, majors: map<int, set<int>>, remaining: set<int>)
    requires forall mj | mj in majors && mj !in remaining :: exists i | 0 <= i < |block| :: block[i].major == mj
    ensures forall m | m in majors && m !in remaining - {row.major} :: exists i | 0 <= i < |block + [row]| :: (block + [row])[i].major == m
  {
    var next := block + [row];
    forall m | m in majors && m !in remaining - {row.major} ensures exists i | 0 <= i < |next| :: next[i].major == m {
      if m == row.major {
        assert next[|block|] == row;
      } else {
        var i :| 0 <= i < |block| && block[i].major == m;
        assert next[i] == block[i];
      }
    }
  }

  /** The inner loop for one uuid: one row per major, in the order the set iteration gives. */
  method RowsForUuid(u: Value, majors: map<int, set<int>>) returns (block: seq<Row>)
    ensures ListsMajors(block, u, majors)
  {
    block := [];
    var remaining := majors.Keys;
    while remaining != {}
      invariant MajorsSoFar(block, u, majors, remaining)
      decreases |remaining|
    {
      ghost var some := Text.Pick(remaining);  // names a member, so the choice below exists
      var mj :| mj in remaining;
      MajorsSoFarStep(block, u, majors, remaining, mj);
      block := block + [Row(u, mj, MinorsText(majors[mj]))];
      remaining := remaining - {mj};
    }
  }

  /** Appending the rows of a new uuid extends the listing to that uuid. */
  lemma ListsGroupsExtend(rows: seq<Row>, block: seq<Row>, g: Utils.Grouped, us: set<Value>, u: Value)
    requires u in g && u !in us && ListsGroups(rows, g, us) && ListsMajors(block, u, g[u])
    ensures ListsGroups(rows + block, g, us + {u})
  {
    var all := rows + block;
    forall i | 0 <= i < |all|
      ensures all[i].uuid in us + {u} && all[i].uuid in g && all[i].major in g[all[i].uuid]
      ensures all[i].minors == MinorsText(g[all[i].uuid][all[i].major])
    {
      if i >= |rows| {
        assert all[i] == block[i - |rows|];
      } else {
        assert all[i] == rows[i];
      }
    }
    forall i, j | 0 <= i < j < |all| ensures (all[i].uuid, all[i].major) != (all[j].uuid, all[j].major) {
      if j < |rows| {
        assert all[i] == rows[i] && all[j] == rows[j];
      } else if i >= |rows| {
        assert all[i] == block[i - |rows|] && all[j] == block[j - |rows|];
      } else {
        assert all[i] == rows[i] && all[j] == block[j - |rows|];
      }
    }
    forall v, mj | v in us + {u} && v in g && mj in g[v]
      ensures exists i | 0 <= i < |all| :: all[i].uuid == v && all[i].major == mj
    {
      if v == u {
        var k :| 0 <= k < |block| && block[k].major == mj;
        assert all[|rows| + k] == block[k];
      } else {
        var k :| 0 <= k < |rows| && rows[k].uuid == v && rows[k].major == mj;
        assert all[k] == rows[k];
      }
    }
  }

  /** The nested loop over the grouped map: one row per (uuid, major) pair, and no others. */
  method FlattenRows(g: Utils.Grouped) returns (rows: seq<Row>)
    ensures ListsGroups(rows, g, g.Keys)
  {
    rows := [];
    var remaining := g.Keys;
    while remaining != {}
      invariant remaining <= g.Keys
      invariant ListsGroups(rows, g, g.Keys - remaining)
      decreases |remaining|
    {
      var u :| u in remaining;
      var block := RowsForUuid(u, g[u]);
      ListsGroupsExtend(rows, block, g, g.Keys - remaining, u);
      assert g.Keys - (remaining - {u}) == (g.Keys - remaining) + {u};
      rows := rows + block;
      remaining := remaining - {u};
    }
    assert g.Keys - remaining == g.Keys;
  }

  /** Every row's minors text parses back to the group's minors, ascending and each once. */
  lemma RowMinorsRecoverGroup(rows: seq<Row>, g: Utils.Grouped, i: int)
    requires ListsGroups(rows, g, g.Keys) && 0 <= i < |rows|
    ensures rows[i].uuid in g && rows[i].major in g[rows[i].uuid]
    ensures Text.SplitInts(rows[i].minors).Some?
    ensures var xs := Text.SplitInts(rows[i].minors).value;
      Text.StrictlyIncreasing(xs) && forall x :: x in xs <==> x in g[rows[i].uuid][rows[i].major]
  {
    Text.SplitJoinInts(Text.AscendingInts(g[rows[i].uuid][rows[i].major]));
  }

  /** The table has exactly as many rows as the grouping has (uuid, major) pairs. */
  lemma RowCount(rows: seq<Row>, g: Utils.Grouped)
    requires ListsGroups(rows, g, g.Keys)
    ensures |rows| == |Pairs(g)|
  {
    var keys := set i | 0 <= i < |rows| :: (rows[i].uuid, rows[i].major);
    assert keys == Pairs(g);
    IndexImageSize(rows);
  }

  /** The (uuid, major) pairs of a grouping. */
  ghost function Pairs(g: Utils.Grouped): set<(Value, int)> {
    set u, mj | u in g && mj in g[u] :: (u, mj)
  }

  /** Distinct (uuid, major) keys: the set of keys has one element per row. */
  lemma {:induction false} IndexImageSize(rows: seq<Row>)
    requires forall i, j | 0 <= i < j < |rows| :: (rows[i].uuid, rows[i].major) != (rows[j].uuid, rows[j].major)
    ensures |set i | 0 <= i < |rows| :: (rows[i].uuid, rows[i].major)| == |rows|
    decreases |rows|
  {
    if rows != [] {
      var init := rows[..|rows| - 1];
      var last := rows[|rows| - 1];
      IndexImageSize(init);
      var a := set i | 0 <= i < |init| :: (init[i].uuid, init[i].major);
      var b := set i | 0 <= i < |rows| :: (rows[i].uuid, rows[i].major);
      assert b == a + {(last.uuid, last.major)} by {
        forall k | k in b ensures k in a + {(last.uuid, last.major)} {
          var i :| 0 <= i < |rows| && k == (rows[i].uuid, rows[i].major);
          if i < |init| {
            assert k == (init[i].uuid, init[i].major);
          }
        }
        forall k | k in a ensures k in b {
          var i :| 0 <= i < |init| && k == (init[i].uuid, init[i].major);
          assert k == (rows[i].uuid, rows[i].major);
        }
      }
      assert (last.uuid, last.major) !in a;
    }
  }

  // ---------------------------------------------------------------- the report

  /** The location lookup: none without GPS data, else the first fix's coordinates. */
  datatype GpsLookup = NoGpsFix | LocationOf(latitude: real, longitude: real)

  datatype Counts = Counts(sensor: nat, gps: nat, beacon: nat)

  /** The beacon part of the page: the non-list error, or the table and the loop's notices. */
  datatype BeaconTable = NotAList | Table(rows: seq<Row>, notices: seq<Utils.Notice>)

  /** Everything raised inside the page's `try` becomes one error message. */
  datatype Profile = ProfileError | Report(gps: GpsLookup, counts: Counts, beacons: BeaconTable)

  /** `gps_data[0]['latitude']`, `gps_data[0]['longitude']` on a non-empty section. */
  function FirstFix(gpsData: Section<GpsPoint>): Option<GpsLookup> {
    match gpsData
    case Items(points) =>
      if points != [] && points[0].GpsPoint? && points[0].latitude.Some? && points[0].longitude.Some?
      then Some(LocationOf(points[0].latitude.value, points[0].longitude.value))
      else None
    case _ => None
  }

  /** `len` of the three sections, None where one raises. */
  function CountsOf(rec: Recording): (r: Option<Counts>)
    ensures r.Some? <==> Length(rec.sensorData).Some? && Length(rec.gpsData).Some? && Length(rec.beaconData).Some?
    ensures r.Some? ==> r.value == Counts(Length(rec.sensorData).value, Length(rec.gpsData).value, Length(rec.beaconData).value)
  {
    match (Length(rec.sensorData), Length(rec.gpsData), Length(rec.beaconData))
    case (Some(s), Some(g), Some(b)) => Some(Counts(s, g, b))
    case _ => None
  }

  /** The entries handed to the grouping: a list, or the `[]` default; None when not a list. */
  function BeaconList(sec: Section<Entry>): Option<seq<Entry>> {
    match sec
    case Absent => Some([])
    case Items(es) => Some(es)
    case NotList(_) => None
  }

  /** The report, before the set iteration order of the rows is fixed. */
  ghost predicate Reports(p: Profile, rec: Recording) {
    match Length(rec.gpsData)
    case None => p == ProfileError
    case Some(n) =>
      var gps := if n == 0 then Some(NoGpsFix) else FirstFix(rec.gpsData);
      if gps.None? || CountsOf(rec).None? then p == ProfileError
      else
        && p.Report? && p.gps == gps.value && p.counts == CountsOf(rec).value
        && match BeaconList(rec.beaconData)
           case None => p.beacons == NotAList
           case Some(es) =>
             && p.beacons.Table?
             && p.beacons.notices == Utils.NoticesOf(es)
             && ListsGroups(p.beacons.rows, Utils.Grouping(es), Utils.Grouping(es).Keys)
  }

  /** The page for an uploaded recording, from the GPS lookup to the beacon table. */
  method ProfileRecording(rec: Recording) returns (p: Profile)
    ensures Reports(p, rec)
  {
    var gpsCount := Length(rec.gpsData);
    if gpsCount.None? {
      return ProfileError;
    }
    var fix: GpsLookup := NoGpsFix;
    if gpsCount.value > 0 {
      var first := FirstFix(rec.gpsData);
      if first.None? {
        return ProfileError;
      }
      fix := first.value;
    }
    var counts := CountsOf(rec);
    if counts.None? {
      return ProfileError;
    }
    var entries := BeaconList(rec.beaconData);
    if entries.None? {
      return Report(fix, counts.value, NotAList);
    }
    var grouped, notices := Utils.GroupAndSortBeaconData(entries.value);
    var rows := FlattenRows(grouped);
    return Report(fix, counts.value, Table(rows, notices));
  }

  /** The counts are the section lengths, with 0 for a missing section. */
  lemma CountsAreLengths(rec: Recording, p: Profile)
    requires Reports(p, rec) && p.Report?
    ensures rec.sensorData.Absent? ==> p.counts.sensor == 0
    ensures rec.gpsData.Absent? ==> p.counts.gps == 0
    ensures rec.beaconData.Absent? ==> p.counts.beacon == 0
    ensures rec.beaconData.Items? ==> p.counts.beacon == |rec.beaconData.items|
    ensures rec.gpsData.Items? ==> p.counts.gps == |rec.gpsData.items|
    ensures rec.sensorData.Items? ==> p.counts.sensor == |rec.sensorData.items|
  {
  }

  /** Without GPS data there is no lookup; with it, only the first point is looked up. */
  lemma GpsUsesFirstPoint(rec: Recording, p: Profile)
    requires Reports(p, rec) && p.Report?
    ensures Length(rec.gpsData) == Some(0) ==> p.gps == NoGpsFix
    ensures rec.gpsData.Items? && rec.gpsData.items != [] ==>
      var first := rec.gpsData.items[0];
      first.GpsPoint? && first.latitude.Some? && first.longitude.Some? &&
      p.gps == LocationOf(first.latitude.value, first.longitude.value)
  {
  }

  /** A `beaconData` that is an object or a string gives the list error and no rows. */
  lemma NonListBeaconData(rec: Recording, p: Profile)
    requires Reports(p, rec) && p.Report?
    ensures rec.beaconData.NotList? <==> p.beacons == NotAList
  {
  }
}
