/**
 * The "Unheard List" screen: recordings and a level's placed beacons are projected to
 * canonical beacon triples, the observed set is the union over all uploaded files, and
 * the missing beacons of the selected level (or of every level, in "All" mode) are listed
 * as rows tagged with a level name.
 */
module UnheardList {
  import opened Wrappers
  import opened Records
  import Text
  import Selection

  // ---------------------------------------------------------------- projection to triples

  /** `int(x)` on a field: a JSON integer as is, a string through Python's integer syntax. */
  function IntOf(v: Value): Option<int> {
    match v
    case Num(n) => Some(n)
    case Text(s) => Text.ParseInt(s)
    case _ => None
  }

  /**
   * `{"uuid": b["uuid"].upper(), "major": int(b["major"]), "minor": int(b["minor"])}`,
   * or None where a subscript, `.upper()` or `int` raises.
   */
  function BeaconOf(e: Entry): Option<Beacon> {
    match e
    case NotObject => None
    case Object(u, mj, mn, _) =>
      if !u.Text? then None
      else
        match (IntOf(mj), IntOf(mn))
        case (Some(a), Some(b)) => Some(Beacon(Text.Upper(u.s), a, b))
        case _ => None
  }

  /** The list comprehension over entries: one triple per entry, in order, unless some entry raises. */
  function BeaconsOf(entries: seq<Entry>): (r: Option<seq<Beacon>>)
    ensures r.Some? <==> forall i | 0 <= i < |entries| :: BeaconOf(entries[i]).Some?
    ensures r.Some? ==> |r.value| == |entries|
    ensures r.Some? ==> forall i | 0 <= i < |entries| :: r.value[i] == BeaconOf(entries[i]).value
  {
    if entries == [] then Some([])
    else
      match (BeaconOf(entries[0]), BeaconsOf(entries[1..]))
      case (Some(b), Some(rest)) =>
        assert forall i | 1 <= i < |entries| :: entries[i] == entries[1..][i - 1];
        Some([b] + rest)
      case (None, _) => None
      case (_, None) =>
        assert forall i | 0 <= i < |entries| - 1 :: entries[1..][i] == entries[i + 1];
        None
  }

  /** The projection of a whole section read with `.get(key, [])`. */
  function ProjectSection(sec: Section<Entry>): (r: Option<seq<Beacon>>)
    ensures sec.Absent? ==> r == Some([])
    ensures sec.Items? ==> r == BeaconsOf(sec.items)
  {
    match ItemsOf(sec)
    case None => None
    case Some(es) => BeaconsOf(es)
  }

  /** extract_beacons_from_json: the triples of a recording's `beaconData`. */
  function ExtractBeacons(rec: Recording): Option<seq<Beacon>> {
    ProjectSection(rec.beaconData)
  }

  /** The set of triples a sequence holds. */
  function Elements(bs: seq<Beacon>): (r: set<Beacon>)
    ensures forall b :: b in r <==> b in bs
  {
    set b | b in bs
  }

  /** File `rec` extracts without raising and its triples include b. */
  predicate Heard(rec: Recording, b: Beacon) {
    match ExtractBeacons(rec)
    case Some(bs) => b in bs
    case None => false
  }

  /** The observed set: the union of the extracted triples over all files, None if any file raises. */
  function Observed(files: seq<Recording>): (r: Option<set<Beacon>>)
    ensures r.Some? <==> forall f | 0 <= f < |files| :: ExtractBeacons(files[f]).Some?
    ensures r.Some? ==> forall b :: b in r.value <==> exists f | 0 <= f < |files| :: Heard(files[f], b)
  {
    if files == [] then Some({})
    else
      var init := files[..|files| - 1];
      var last := files[|files| - 1];
      assert forall f | 0 <= f < |init| :: init[f] == files[f];
      match (Observed(init), ExtractBeacons(last))
      case (Some(o), Some(bs)) => Some(o + Elements(bs))
      case (None, _) => None
      case (_, None) => None
  }

  /** The set of triples a level declares in `placedBeacons`, None if an entry raises. */
  function Declared(level: Level): (r: Option<set<Beacon>>)
    ensures r.Some? <==> ProjectSection(level.placedBeacons).Some?
    ensures r.Some? ==> forall b :: b in r.value <==> b in ProjectSection(level.placedBeacons).value
  {
    match ProjectSection(level.placedBeacons)
    case None => None
    case Some(bs) => Some(Elements(bs))
  }

  /**
   * A level's declared set is defined exactly when every entry of its `placedBeacons`
   * converts, and then holds exactly the triples of those entries.
   */
  lemma DeclaredIsEntryTriples(level: Level)
    ensures Declared(level).Some? <==>
      ItemsOf(level.placedBeacons).Some? &&
      forall e | e in ItemsOf(level.placedBeacons).value :: BeaconOf(e).Some?
    ensures Declared(level).Some? ==> forall b :: b in Declared(level).value <==>
      exists e | e in ItemsOf(level.placedBeacons).value :: BeaconOf(e) == Some(b)
  {
    match ItemsOf(level.placedBeacons)
    case None =>
    case Some(es) =>
      assert forall e | e in es :: exists i | 0 <= i < |es| :: es[i] == e;
      if Declared(level).Some? {
        var bs := BeaconsOf(es).value;
        forall b ensures b in Declared(level).value <==> exists e | e in es :: BeaconOf(e) == Some(b) {
          if b in bs {
            var i :| 0 <= i < |bs| && bs[i] == b;
            assert es[i] in es;
          }
          if e :| e in es && BeaconOf(e) == Some(b) {
            var i :| 0 <= i < |es| && es[i] == e;
            assert bs[i] == b;
          }
        }
      }
  }

  // ---------------------------------------------------------------- what the table must hold

  /** One block of the table per compared level: its tag and its missing set. */
  type Block = (string, set<Beacon>)

  /** The per-level missing sets in `levels` order, or None when some level's beacons raise. */
  function MissingBlocks(levels: seq<Level>, observed: set<Beacon>): (r: Option<seq<Block>>)
    ensures r.Some? <==> forall i | 0 <= i < |levels| :: Declared(levels[i]).Some?
    ensures r.Some? ==> |r.value| == |levels|
    ensures r.Some? ==> forall i | 0 <= i < |levels| ::
      r.value[i] == (levels[i].shortName, Declared(levels[i]).value - observed)
  {
    if levels == [] then Some([])
    else
      var init := levels[..|levels| - 1];
      var last := levels[|levels| - 1];
      assert forall i | 0 <= i < |init| :: init[i] == levels[i];
      match (MissingBlocks(init, observed), Declared(last))
      case (Some(bl), Some(d)) => Some(bl + [(last.shortName, d - observed)])
      case (None, _) => None
      case (_, None) => None
  }

  /**
   * The single-level blocks: the name is looked up in the shortName -> _id dictionary
   * (a KeyError when absent), then the first level with that id supplies the declared set;
   * when no level has the id, the `{}` default declares nothing and there are no blocks.
   */
  function SelectedBlocks(levels: seq<Level>, selected: string, observed: set<Beacon>): Option<seq<Block>> {
    var index := Selection.NameIndex(Selection.ShortNamePairs(levels));
    if selected !in index then None
    else
      match Selection.FirstWithId(levels, index[selected])
      case None => Some([])
      case Some(k) =>
        match Declared(levels[k])
        case None => None
        case Some(d) => Some([(selected, d - observed)])
  }

  /** What a correct run produces, before the order of set iteration is fixed. */
  datatype Plan = PlanNoLevels | PlanPrompt | PlanCrash | PlanTable(blocks: seq<Block>)

  /**
   * The screen after "Unheard List" is pressed: no levels, no files, a failing projection,
   * or the blocks of the table; "All" compares every level, any other name one level.
   */
  function ListPlan(levels: seq<Level>, selected: string, files: seq<Recording>): Plan {
    if levels == [] then PlanNoLevels
    else if files == [] then PlanPrompt
    else
      match Observed(files)
      case None => PlanCrash
      case Some(obs) =>
        var blocks := if selected == "All" then MissingBlocks(levels, obs) else SelectedBlocks(levels, selected, obs);
        match blocks
        case None => PlanCrash
        case Some(bl) => PlanTable(bl)
  }

  // ---------------------------------------------------------------- the rows

  datatype ListRow = ListRow(level: string, beacon: Beacon)

  datatype ListView = NoLevels | UploadPrompt | ListCrash | MissingTable(rows: seq<ListRow>)

  /** A block of rows lists every triple of s exactly once, each tagged with `tag`. */
  ghost predicate ListsExactly(block: seq<ListRow>, tag: string, s: set<Beacon>) {
    && |block| == |s|
    && (forall i | 0 <= i < |block| :: block[i].level == tag)
    && (forall i, j | 0 <= i < j < |block| :: block[i].beacon != block[j].beacon)
    && (forall b :: b in s <==> exists i | 0 <= i < |block| :: block[i].beacon == b)
  }

  /** The rows are the blocks' listings, one after another, in block order. */
  ghost predicate Tabulates(rows: seq<ListRow>, blocks: seq<Block>)
    decreases |blocks|
  {
    if blocks == [] then rows == []
    else
      var last := blocks[|blocks| - 1];
      exists k | 0 <= k <= |rows| ::
        Tabulates(rows[..k], blocks[..|blocks| - 1]) && ListsExactly(rows[k..], last.0, last.1)
  }

  /** The view realises the plan. */
  ghost predicate Shows(view: ListView, plan: Plan) {
    match plan
    case PlanNoLevels => view == NoLevels
    case PlanPrompt => view == UploadPrompt
    case PlanCrash => view == ListCrash
    case PlanTable(bl) => view.MissingTable? && Tabulates(view.rows, bl)
  }

  lemma TabulatesExtend(rows: seq<ListRow>, blocks: seq<Block>, more: seq<ListRow>, tag: string, s: set<Beacon>)
    requires Tabulates(rows, blocks)
    requires ListsExactly(more, tag, s)
    ensures Tabulates(rows + more, blocks + [(tag, s)])
  {
    var all := rows + more;
    assert all[..|rows|] == rows;
    assert all[|rows|..] == more;
    assert (blocks + [(tag, s)])[..|blocks|] == blocks;
  }

  lemma ListsExactlyStep(block: seq<ListRow>, tag: string, done: set<Beacon>, b: Beacon)
    requires ListsExactly(block, tag, done) && b !in done
    ensures ListsExactly(block + [ListRow(tag, b)], tag, done + {b})
  {
    var more := block + [ListRow(tag, b)];
    assert |done + {b}| == |done| + 1;
    forall x ensures x in done + {b} <==> exists i | 0 <= i < |more| :: more[i].beacon == x {
      if x in done {
        var i :| 0 <= i < |block| && block[i].beacon == x;
        assert more[i].beacon == x;
      }
      if x == b {
        assert more[|block|].beacon == x;
      }
      if i :| 0 <= i < |more| && more[i].beacon == x {
        if i < |block| {
          assert block[i].beacon == x;
        }
      }
    }
  }

  /** The loop over a missing set: one row per triple, each triple once, all tagged alike. */
  method MissingRows(tag: string, missing: set<Beacon>) returns (block: seq<ListRow>)
    ensures ListsExactly(block, tag, missing)
  {
    block := [];
    var remaining := missing;
    while remaining != {}
      invariant remaining <= missing
      invariant ListsExactly(block, tag, missing - remaining)
      decreases |remaining|
    {
      var b :| b in remaining;
      ListsExactlyStep(block, tag, missing - remaining, b);
      assert missing - (remaining - {b}) == (missing - remaining) + {b};
      block := block + [ListRow(tag, b)];
      remaining := remaining - {b};
    }
    assert missing - remaining == missing;
  }

  lemma MissingBlocksSnoc(levels: seq<Level>, i: int, obs: set<Beacon>)
    requires 0 <= i < |levels|
    requires MissingBlocks(levels[..i], obs).Some? && Declared(levels[i]).Some?
    ensures MissingBlocks(levels[..i + 1], obs)
      == Some(MissingBlocks(levels[..i], obs).value + [(levels[i].shortName, Declared(levels[i]).value - obs)])
  {
    assert levels[..i + 1][..i] == levels[..i];
  }

  /** The "All" loop: each level's missing rows in `levels` order, or None when a level raises. */
  method AllLevelsRows(levels: seq<Level>, obs: set<Beacon>) returns (r: Option<seq<ListRow>>)
    ensures r.Some? <==> MissingBlocks(levels, obs).Some?
    ensures r.Some? ==> Tabulates(r.value, MissingBlocks(levels, obs).value)
  {
    var rows: seq<ListRow> := [];
    ghost var blocks: seq<Block> := [];
    var i := 0;
    assert levels[..0] == [];
    while i < |levels|
      invariant 0 <= i <= |levels|
      invariant MissingBlocks(levels[..i], obs) == Some(blocks)
      invariant Tabulates(rows, blocks)
    {
      var declared := Declared(levels[i]);
      if declared.None? {
        return None;
      }
      var missing := declared.value - obs;
      var more := MissingRows(levels[i].shortName, missing);
      TabulatesExtend(rows, blocks, more, levels[i].shortName, missing);
      MissingBlocksSnoc(levels, i, obs);
      rows := rows + more;
      blocks := blocks + [(levels[i].shortName, missing)];
      i := i + 1;
    }
    assert levels[..i] == levels;
    return Some(rows);
  }

  /** The single-level branch: rows for the level the name resolves to, None where it raises. */
  method SelectedLevelRows(levels: seq<Level>, selected: string, obs: set<Beacon>) returns (r: Option<seq<ListRow>>)
    ensures r.Some? <==> SelectedBlocks(levels, selected, obs).Some?
    ensures r.Some? ==> Tabulates(r.value, SelectedBlocks(levels, selected, obs).value)
  {
    var index := Selection.NameIndex(Selection.ShortNamePairs(levels));
    if selected !in index {
      return None;
    }
    var k := Selection.FirstWithId(levels, index[selected]);
    if k.None? {
      return Some([]);
    }
    var declared := Declared(levels[k.value]);
    if declared.None? {
      return None;
    }
    var rows := MissingRows(selected, declared.value - obs);
    TabulatesExtend([], [], rows, selected, declared.value - obs);
    assert [] + rows == rows;
    return Some(rows);
  }

  /** The "Unheard List" button handler: the table realises ListPlan. */
  method UnheardList(levels: seq<Level>, selected: string, files: seq<Recording>) returns (view: ListView)
    ensures levels == [] ==> view == NoLevels
    ensures levels != [] && files == [] ==> view == UploadPrompt
    ensures Shows(view, ListPlan(levels, selected, files))
  {
    if levels == [] {
      return NoLevels;
    }
    if files == [] {
      return UploadPrompt;
    }
    var observed := Observed(files);
    if observed.None? {
      return ListCrash;
    }
    var rows: Option<seq<ListRow>>;
    if selected == "All" {
      rows := AllLevelsRows(levels, observed.value);
    } else {
      rows := SelectedLevelRows(levels, selected, observed.value);
    }
    if rows.None? {
      return ListCrash;
    }
    return MissingTable(rows.value);
  }

  // ---------------------------------------------------------------- properties of the table

  /** The split point of the last block. */
  lemma LastBlockStart(rows: seq<ListRow>, blocks: seq<Block>) returns (k: int)
    requires blocks != [] && Tabulates(rows, blocks)
    ensures 0 <= k <= |rows|
    ensures Tabulates(rows[..k], blocks[..|blocks| - 1])
    ensures ListsExactly(rows[k..], blocks[|blocks| - 1].0, blocks[|blocks| - 1].1)
  {
    var last := blocks[|blocks| - 1];
    k :| 0 <= k <= |rows| && Tabulates(rows[..k], blocks[..|blocks| - 1]) && ListsExactly(rows[k..], last.0, last.1);
  }

  /** A row is in a block exactly when it carries the block's tag and a triple of its set. */
  lemma BlockMembership(block: seq<ListRow>, tag: string, s: set<Beacon>, row: ListRow)
    requires ListsExactly(block, tag, s)
    ensures row in block <==> row.level == tag && row.beacon in s
  {
    if row in block {
      var j :| 0 <= j < |block| && block[j] == row;
      assert block[j].beacon == row.beacon;
    }
    if row.level == tag && row.beacon in s {
      var j :| 0 <= j < |block| && block[j].beacon == row.beacon;
      assert block[j] == row;
    }
  }

  /** A row is in the table exactly when its triple is in the missing set of a block with its tag. */
  lemma {:induction false} TableMembership(rows: seq<ListRow>, blocks: seq<Block>, row: ListRow)
    requires Tabulates(rows, blocks)
    ensures row in rows <==> exists i | 0 <= i < |blocks| :: blocks[i].0 == row.level && row.beacon in blocks[i].1
    decreases |blocks|
  {
    if blocks != [] {
      var k := LastBlockStart(rows, blocks);
      var init := blocks[..|blocks| - 1];
      var last := blocks[|blocks| - 1];
      TableMembership(rows[..k], init, row);
      BlockMembership(rows[k..], last.0, last.1, row);
      assert rows == rows[..k] + rows[k..];
      assert row in rows <==> row in rows[..k] || row in rows[k..];
      assert forall i | 0 <= i < |init| :: init[i] == blocks[i];
    }
  }

  /** How many rows report triple b. */
  function Count(rows: seq<ListRow>, b: Beacon): nat {
    if rows == [] then 0
    else Count(rows[..|rows| - 1], b) + (if rows[|rows| - 1].beacon == b then 1 else 0)
  }

  /** How many blocks have b in their missing set. */
  function Holding(blocks: seq<Block>, b: Beacon): nat {
    if blocks == [] then 0
    else Holding(blocks[..|blocks| - 1], b) + (if b in blocks[|blocks| - 1].1 then 1 else 0)
  }

  lemma {:induction false} CountConcat(a: seq<ListRow>, c: seq<ListRow>, b: Beacon)
    ensures Count(a + c, b) == Count(a, b) + Count(c, b)
    decreases |c|
  {
    if c == [] {
      assert a + c == a;
    } else {
      var c0 := c[..|c| - 1];
      assert (a + c)[..|a + c| - 1] == a + c0;
      assert (a + c)[|a + c| - 1] == c[|c| - 1];
      CountConcat(a, c0, b);
    }
  }

  lemma {:induction false} CountInBlock(block: seq<ListRow>, tag: string, s: set<Beacon>, b: Beacon)
    requires forall i, j | 0 <= i < j < |block| :: block[i].beacon != block[j].beacon
    requires forall x :: x in s <==> exists i | 0 <= i < |block| :: block[i].beacon == x
    ensures Count(block, b) == if b in s then 1 else 0
    decreases |block|
  {
    if block != [] {
      var init := block[..|block| - 1];
      var last := block[|block| - 1];
      var s0 := set i | 0 <= i < |init| :: init[i].beacon;
      forall x ensures x in s0 <==> exists i | 0 <= i < |init| :: init[i].beacon == x {
        if x in s0 {
          var i :| 0 <= i < |init| && init[i].beacon == x;
        }
      }
      CountInBlock(init, tag, s0, b);
      if last.beacon == b {
        assert b in s;
        assert b !in s0;
      } else if b in s {
        var i :| 0 <= i < |block| && block[i].beacon == b;
        assert init[i].beacon == b;
      } else {
        assert b !in s0;
      }
    }
  }

  /** Each triple is reported once per block whose missing set holds it. */
  lemma {:induction false} RowsPerBlock(rows: seq<ListRow>, blocks: seq<Block>, b: Beacon)
    requires Tabulates(rows, blocks)
    ensures Count(rows, b) == Holding(blocks, b)
    decreases |blocks|
  {
    if blocks != [] {
      var k := LastBlockStart(rows, blocks);
      var last := blocks[|blocks| - 1];
      RowsPerBlock(rows[..k], blocks[..|blocks| - 1], b);
      assert rows == rows[..k] + rows[k..];
      CountConcat(rows[..k], rows[k..], b);
      CountInBlock(rows[k..], last.0, last.1, b);
    }
  }

  /** How many levels declare triple b; every level's beacons must project. */
  function DeclaringLevels(levels: seq<Level>, b: Beacon): nat
    requires forall i | 0 <= i < |levels| :: Declared(levels[i]).Some?
  {
    if levels == [] then 0
    else
      var init := levels[..|levels| - 1];
      assert forall i | 0 <= i < |init| :: init[i] == levels[i];
      DeclaringLevels(init, b) + (if b in Declared(levels[|levels| - 1]).value then 1 else 0)
  }

  /** Blocks that hold each level's declared set minus obs, level by level. */
  lemma {:induction false} HoldingPerLevel(bl: seq<Block>, levels: seq<Level>, obs: set<Beacon>, b: Beacon)
    requires forall i | 0 <= i < |levels| :: Declared(levels[i]).Some?
    requires |bl| == |levels|
    requires forall i | 0 <= i < |levels| :: bl[i].1 == Declared(levels[i]).value - obs
    ensures Holding(bl, b) == if b in obs then 0 else DeclaringLevels(levels, b)
    decreases |levels|
  {
    if levels != [] {
      var n := |levels| - 1;
      assert forall i | 0 <= i < n :: levels[..n][i] == levels[i] && bl[..n][i] == bl[i];
      HoldingPerLevel(bl[..n], levels[..n], obs, b);
    }
  }

  /** An unobserved triple is in the missing set of each level declaring it, an observed one in none. */
  lemma HoldingCountsLevels(levels: seq<Level>, obs: set<Beacon>, b: Beacon)
    requires MissingBlocks(levels, obs).Some?
    ensures Holding(MissingBlocks(levels, obs).value, b) == if b in obs then 0 else DeclaringLevels(levels, b)
  {
    HoldingPerLevel(MissingBlocks(levels, obs).value, levels, obs, b);
  }

  /**
   * In "All" mode an unobserved triple is reported once for every level that declares
   * it, and an observed one never: there is no deduplication across levels.
   */
  lemma AllModeReportsPerDeclaringLevel(levels: seq<Level>, files: seq<Recording>, view: ListView, b: Beacon)
    requires Shows(view, ListPlan(levels, "All", files))
    requires ListPlan(levels, "All", files).PlanTable?
    ensures Observed(files).Some?
    ensures forall i | 0 <= i < |levels| :: Declared(levels[i]).Some?
    ensures Count(view.rows, b) == if b in Observed(files).value then 0 else DeclaringLevels(levels, b)
  {
    var obs := Observed(files).value;
    RowsPerBlock(view.rows, MissingBlocks(levels, obs).value, b);
    HoldingCountsLevels(levels, obs, b);
  }

  /**
   * In "All" mode a row (tag, b) is shown exactly when some level with short name tag
   * declares b and no uploaded file observed it.
   */
  lemma AllModeRows(levels: seq<Level>, files: seq<Recording>, view: ListView, row: ListRow)
    requires Shows(view, ListPlan(levels, "All", files))
    requires ListPlan(levels, "All", files).PlanTable?
    ensures Observed(files).Some?
    ensures forall i | 0 <= i < |levels| :: Declared(levels[i]).Some?
    ensures row in view.rows <==> (row.beacon !in Observed(files).value &&
      exists i | 0 <= i < |levels| :: levels[i].shortName == row.level && row.beacon in Declared(levels[i]).value)
  {
    var obs := Observed(files).value;
    var bl := MissingBlocks(levels, obs).value;
    TableMembership(view.rows, bl, row);
    if row in view.rows {
      var i :| 0 <= i < |bl| && bl[i].0 == row.level && row.beacon in bl[i].1;
      assert levels[i].shortName == row.level && row.beacon in Declared(levels[i]).value;
    }
    if row.beacon !in obs && exists i | 0 <= i < |levels| :: levels[i].shortName == row.level && row.beacon in Declared(levels[i]).value {
      var i :| 0 <= i < |levels| && levels[i].shortName == row.level && row.beacon in Declared(levels[i]).value;
      assert bl[i].0 == row.level && row.beacon in bl[i].1;
    }
  }

  /**
   * With unique level ids, choosing a short name compares the last level carrying that
   * name, and the rows are tagged with the chosen name.
   */
  lemma SingleModeUsesLastLevel(levels: seq<Level>, files: seq<Recording>, k: int)
    requires forall i, j | 0 <= i < j < |levels| :: levels[i].id != levels[j].id
    requires 0 <= k < |levels| && levels[k].shortName != "All"
    requires forall j | k < j < |levels| :: levels[j].shortName != levels[k].shortName
    requires files != [] && Observed(files).Some? && Declared(levels[k]).Some?
    ensures ListPlan(levels, levels[k].shortName, files)
      == PlanTable([(levels[k].shortName, Declared(levels[k]).value - Observed(files).value)])
  {
    Selection.SelectionPicksLastLevel(levels, k);
  }

  /** A block that lists a one-element set is that one row. */
  lemma SingletonBlock(block: seq<ListRow>, tag: string, b: Beacon)
    requires ListsExactly(block, tag, {b})
    ensures block == [ListRow(tag, b)]
  {
    assert b in {b};
    var i :| 0 <= i < |block| && block[i].beacon == b;
  }

  /** The levels of the two-level example: L1 declares A and B, L2 declares B and C. */
  function ExampleLevels(): seq<Level> {
    [Level("1", "L1", "First", Items([Placed("A", 1), Placed("B", 2)])),
     Level("2", "L2", "Second", Items([Placed("B", 2), Placed("C", 3)]))]
  }

  /** The one recording of the example, which hears B. */
  function ExampleRecording(): Recording {
    Recording(Absent, Absent, Items([Placed("B", 2)]))
  }

  lemma TwoPlacedProject(x: string, m: int, y: string, n: int)
    requires forall i | 0 <= i < |x| :: !Text.IsLower(x[i])
    requires forall i | 0 <= i < |y| :: !Text.IsLower(y[i])
    ensures BeaconsOf([Placed(x, m), Placed(y, n)]) == Some([Beacon(x, 1, m), Beacon(y, 1, n)])
  {
    PlacedProjects(x, 1, m, None);
    PlacedProjects(y, 1, n, None);
    var es := [Placed(x, m), Placed(y, n)];
    assert BeaconOf(es[0]).Some? && BeaconOf(es[1]).Some?;
    var r := BeaconsOf(es);
    assert r.value == [Beacon(x, 1, m), Beacon(y, 1, n)];
  }

  /** The example's declared sets: {A, B} for L1 and {B, C} for L2. */
  lemma ExampleDeclared()
    ensures Declared(ExampleLevels()[0]) == Some({Beacon("A", 1, 1), Beacon("B", 1, 2)})
    ensures Declared(ExampleLevels()[1]) == Some({Beacon("B", 1, 2), Beacon("C", 1, 3)})
  {
    var a, b, c := Beacon("A", 1, 1), Beacon("B", 1, 2), Beacon("C", 1, 3);
    var levels := ExampleLevels();
    TwoPlacedProject("A", 1, "B", 2);
    TwoPlacedProject("B", 2, "C", 3);
    assert Declared(levels[0]) == Some(Elements([a, b]));
    assert Elements([a, b]) == {a, b};
    assert Declared(levels[1]) == Some(Elements([b, c]));
    assert Elements([b, c]) == {b, c};
  }

  /** The example's observed set: the one recording hears B. */
  lemma ExampleObserved()
    ensures Observed([ExampleRecording()]) == Some({Beacon("B", 1, 2)})
  {
    var b := Beacon("B", 1, 2);
    var rec := ExampleRecording();
    PlacedProjects("B", 1, 2, None);
    var bs := BeaconsOf([Placed("B", 2)]);
    assert bs.value == [b];
    assert ExtractBeacons(rec) == Some([b]);
    assert [rec][..0] == [];
    assert Observed([rec]) == Some({} + Elements([b]));
    assert Elements([b]) == {b};
    assert {} + {b} == {b};
  }

  /** The example's missing blocks: A for L1 and C for L2. */
  lemma ExampleBlocks()
    ensures MissingBlocks(ExampleLevels(), {Beacon("B", 1, 2)})
      == Some([("L1", {Beacon("A", 1, 1)}), ("L2", {Beacon("C", 1, 3)})])
  {
    var a, b, c := Beacon("A", 1, 1), Beacon("B", 1, 2), Beacon("C", 1, 3);
    ExampleDeclared();
    assert {a, b} - {b} == {a};
    assert {b, c} - {b} == {c};
    var bl := MissingBlocks(ExampleLevels(), {b});
    assert bl.Some? && |bl.value| == 2;
    assert bl.value[0] == ("L1", {a});
    assert bl.value[1] == ("L2", {c});
    assert bl.value == [("L1", {a}), ("L2", {c})];
  }

  /** The example's plan in "All" mode: L1 misses A, L2 misses C. */
  lemma ExamplePlan()
    ensures ListPlan(ExampleLevels(), "All", [ExampleRecording()])
      == PlanTable([("L1", {Beacon("A", 1, 1)}), ("L2", {Beacon("C", 1, 3)})])
  {
    ExampleObserved();
    ExampleBlocks();
  }

  /**
   * Two levels: L1 declares A and B, L2 declares B and C, and the one recording hears B.
   * "All" mode shows exactly (L1, A) then (L2, C): B is excluded from both levels.
   */
  lemma TwoLevelExample(view: ListView)
    requires Shows(view, ListPlan(ExampleLevels(), "All", [ExampleRecording()]))
    ensures view == MissingTable([ListRow("L1", Beacon("A", 1, 1)), ListRow("L2", Beacon("C", 1, 3))])
  {
    ExamplePlan();
    TwoSingletonBlocks(view.rows, "L1", Beacon("A", 1, 1), "L2", Beacon("C", 1, 3));
  }

  /** One one-element block is tabulated by exactly one row. */
  lemma OneSingletonBlock(rows: seq<ListRow>, t1: string, a: Beacon)
    requires Tabulates(rows, [(t1, {a})])
    ensures rows == [ListRow(t1, a)]
  {
    var blocks := [(t1, {a})];
    var k := LastBlockStart(rows, blocks);
    assert blocks[..0] == [];
    SingletonBlock(rows[k..], t1, a);
    assert rows == rows[..k] + rows[k..];
  }

  /** Two one-element blocks are tabulated by exactly two rows, in block order. */
  lemma TwoSingletonBlocks(rows: seq<ListRow>, t1: string, a: Beacon, t2: string, c: Beacon)
    requires Tabulates(rows, [(t1, {a}), (t2, {c})])
    ensures rows == [ListRow(t1, a), ListRow(t2, c)]
  {
    var blocks := [(t1, {a}), (t2, {c})];
    var k := LastBlockStart(rows, blocks);
    SingletonBlock(rows[k..], t2, c);
    assert blocks[..1] == [(t1, {a})];
    var head := rows[..k];
    OneSingletonBlock(head, t1, a);
    assert rows == head + rows[k..];
  }

  /** A placed-beacon entry with uuid `u`, major 1 and the given minor, without coordinates. */
  function Placed(u: string, minor: int): Entry {
    Object(Text(u), Num(1), Num(minor), None)
  }

  /** An entry with an upper-case uuid and integer major and minor projects to its own triple. */
  lemma PlacedProjects(u: string, major: int, minor: int, coordinates: Option<Value>)
    requires forall i | 0 <= i < |u| :: !Text.IsLower(u[i])
    ensures BeaconOf(Object(Text(u), Num(major), Num(minor), coordinates)) == Some(Beacon(u, major, minor))
  {
    assert Text.Upper(u) == u;
  }
}
