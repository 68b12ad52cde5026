/**
 * The drill-down dropdowns: a name -> id dictionary built by a comprehension over the
 * fetched nodes (a later node with the same name overwrites an earlier one), the sorted
 * option list shown to the user, and the lookup of a level by id.
 */
module Selection {
  import opened Wrappers
  import opened Records
  import Text

  /** No later pair carries the same name as pair i. */
  predicate LastWithName(pairs: seq<(string, string)>, i: int)
    requires 0 <= i < |pairs|
  {
    forall j | i < j < |pairs| :: pairs[j].0 != pairs[i].0
  }

  /** `{name: id for node in nodes}` over the (name, id) pairs in list order. */
  function NameIndex(pairs: seq<(string, string)>): (m: map<string, string>)
    ensures forall n :: n in m <==> exists i | 0 <= i < |pairs| :: pairs[i].0 == n
  {
    if pairs == [] then map[]
    else
      var init := pairs[..|pairs| - 1];
      var last := pairs[|pairs| - 1];
      var m := NameIndex(init)[last.0 := last.1];
      assert forall n :: n in m <==> exists i | 0 <= i < |pairs| :: pairs[i].0 == n by {
        forall n ensures n in m ==> exists i | 0 <= i < |pairs| :: pairs[i].0 == n {
          if n in m && n != last.0 {
            var i :| 0 <= i < |init| && init[i].0 == n;
            assert pairs[i].0 == n;
          }
        }
        forall n ensures (exists i | 0 <= i < |pairs| :: pairs[i].0 == n) ==> n in m {
          if i :| 0 <= i < |pairs| && pairs[i].0 == n {
            if i < |init| {
              assert init[i].0 == n;
            }
          }
        }
      }
      m
  }

  /** A later duplicate name overwrites an earlier one: the last pair with a name gives its id. */
  lemma {:induction false} LastDuplicateWins(pairs: seq<(string, string)>, i: int)
    requires 0 <= i < |pairs| && LastWithName(pairs, i)
    ensures NameIndex(pairs)[pairs[i].0] == pairs[i].1
  {
    var init := pairs[..|pairs| - 1];
    if i < |pairs| - 1 {
      assert init[i] == pairs[i];
      assert LastWithName(init, i) by {
        forall j | i < j < |init| ensures init[j].0 != init[i].0 {
          assert init[j] == pairs[j];
        }
      }
      LastDuplicateWins(init, i);
    }
  }

  /** `sorted(index.keys())`: every name once, in Python's string order. */
  ghost function NameOptions(pairs: seq<(string, string)>): (r: seq<string>)
    ensures Text.StrictlySorted(r)
    ensures forall n :: n in r <==> exists i | 0 <= i < |pairs| :: pairs[i].0 == n
  {
    Text.SortedNames(NameIndex(pairs).Keys)
  }

  /** The (shortName, _id) pairs of the list screen's level dictionary. */
  function ShortNamePairs(levels: seq<Level>): (r: seq<(string, string)>)
    ensures |r| == |levels|
    ensures forall i | 0 <= i < |levels| :: r[i] == (levels[i].shortName, levels[i].id)
  {
    seq(|levels|, i requires 0 <= i < |levels| => (levels[i].shortName, levels[i].id))
  }

  /** The list screen's level options: "All" first, then the sorted distinct short names. */
  ghost function LevelOptions(levels: seq<Level>): (r: seq<string>)
    ensures |r| >= 1 && r[0] == "All"
    ensures Text.StrictlySorted(r[1..])
    ensures forall n :: n in r[1..] <==> exists i | 0 <= i < |levels| :: levels[i].shortName == n
  {
    var names := NameOptions(ShortNamePairs(levels));
    assert forall n :: n in names <==> exists i | 0 <= i < |levels| :: levels[i].shortName == n by {
      forall n ensures n in names ==> exists i | 0 <= i < |levels| :: levels[i].shortName == n {
        if n in names {
          var i :| 0 <= i < |levels| && ShortNamePairs(levels)[i].0 == n;
        }
      }
      forall n ensures (exists i | 0 <= i < |levels| :: levels[i].shortName == n) ==> n in names {
        if i :| 0 <= i < |levels| && levels[i].shortName == n {
          assert ShortNamePairs(levels)[i].0 == n;
        }
      }
    }
    ["All"] + names
  }

  /** The map screen's label for a level. */
  function Label(level: Level): string {
    level.shortName + " (" + level.longName + ")"
  }

  /** The (label, _id) pairs of the map screen's level dictionary. */
  function LabelPairs(levels: seq<Level>): (r: seq<(string, string)>)
    ensures |r| == |levels|
    ensures forall i | 0 <= i < |levels| :: r[i] == (Label(levels[i]), levels[i].id)
  {
    seq(|levels|, i requires 0 <= i < |levels| => (Label(levels[i]), levels[i].id))
  }

  /** The map screen's level options: the sorted distinct labels. */
  ghost function LabelOptions(levels: seq<Level>): (r: seq<string>)
    ensures Text.StrictlySorted(r)
    ensures forall n :: n in r <==> exists i | 0 <= i < |levels| :: Label(levels[i]) == n
  {
    var names := NameOptions(LabelPairs(levels));
    assert forall n :: n in names <==> exists i | 0 <= i < |levels| :: Label(levels[i]) == n by {
      forall n ensures n in names ==> exists i | 0 <= i < |levels| :: Label(levels[i]) == n {
        if n in names {
          var i :| 0 <= i < |levels| && LabelPairs(levels)[i].0 == n;
        }
      }
      forall n ensures (exists i | 0 <= i < |levels| :: Label(levels[i]) == n) ==> n in names {
        if i :| 0 <= i < |levels| && Label(levels[i]) == n {
          assert LabelPairs(levels)[i].0 == n;
        }
      }
    }
    names
  }

  /** On the map screen a label shared by several levels selects the id of the last of them. */
  lemma LastLabelWins(levels: seq<Level>, k: int)
    requires 0 <= k < |levels|
    requires forall j | k < j < |levels| :: Label(levels[j]) != Label(levels[k])
    ensures Label(levels[k]) in NameIndex(LabelPairs(levels))
    ensures NameIndex(LabelPairs(levels))[Label(levels[k])] == levels[k].id
  {
    var pairs := LabelPairs(levels);
    assert LastWithName(pairs, k);
    LastDuplicateWins(pairs, k);
  }

  /** `next((level for level in levels if level["_id"] == id), {})`, as the index it stops at. */
  function FirstWithId(levels: seq<Level>, id: string): (r: Option<nat>)
    ensures r.Some? ==> r.value < |levels| && levels[r.value].id == id
    ensures r.Some? ==> forall j | 0 <= j < r.value :: levels[j].id != id
    ensures r.None? ==> forall j | 0 <= j < |levels| :: levels[j].id != id
  {
    if levels == [] then None
    else if levels[0].id == id then Some(0)
    else
      match FirstWithId(levels[1..], id)
      case None => None
      case Some(k) => Some(k + 1)
  }

  /** The id found in the dictionary always belongs to some level, so the `{}` default is never used. */
  lemma IndexedIdIsFound(levels: seq<Level>, name: string)
    requires name in NameIndex(ShortNamePairs(levels))
    ensures FirstWithId(levels, NameIndex(ShortNamePairs(levels))[name]).Some?
  {
    var pairs := ShortNamePairs(levels);
    var i :| 0 <= i < |pairs| && pairs[i].0 == name;
    var k := LastNameIndex(pairs, i);
    LastDuplicateWins(pairs, k);
    assert levels[k].id == NameIndex(pairs)[name];
  }

  /** From any pair with a given name, the last pair with that name. */
  lemma {:induction false} LastNameIndex(pairs: seq<(string, string)>, i: int) returns (k: int)
    requires 0 <= i < |pairs|
    ensures i <= k < |pairs| && pairs[k].0 == pairs[i].0 && LastWithName(pairs, k)
    decreases |pairs| - i
  {
    if LastWithName(pairs, i) {
      k := i;
    } else {
      var j :| i < j < |pairs| && pairs[j].0 == pairs[i].0;
      k := LastNameIndex(pairs, j);
    }
  }

  /**
   * When level ids are unique, choosing a short name selects the last level with that
   * short name: the dictionary keeps its id, and that id is found at its own position.
   */
  lemma SelectionPicksLastLevel(levels: seq<Level>, k: int)
    requires forall i, j | 0 <= i < j < |levels| :: levels[i].id != levels[j].id
    requires 0 <= k < |levels|
    requires forall j | k < j < |levels| :: levels[j].shortName != levels[k].shortName
    ensures levels[k].shortName in NameIndex(ShortNamePairs(levels))
    ensures FirstWithId(levels, NameIndex(ShortNamePairs(levels))[levels[k].shortName]) == Some(k)
  {
    var pairs := ShortNamePairs(levels);
    assert LastWithName(pairs, k);
    LastDuplicateWins(pairs, k);
  }
}
