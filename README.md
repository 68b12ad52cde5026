# OPSToolKIT beacon dashboard: a Dafny model of its data shaping

OPSToolKIT is a Streamlit dashboard for checking BLE beacon deployments. Field
engineers upload JSON recordings taken on site. The dashboard:

- groups the beacon readings of one recording by uuid and major;
- compares the readings of several recordings with the beacons placed on a building's
  levels, and reports the placed beacons that no recording heard ("unheard"), either as a
  table or drawn on a map of the level;
- builds the dropdown option lists of the client / site / building / level drill-down;
- checks the shape of an e-mail address before login.

The model takes the already-parsed JSON documents as values and states what each screen
computes from them:

| module | file | what it models |
|---|---|---|
| `Wrappers` | wrappers.dfy | `Option` |
| `Records` | records.dfy | parsed JSON shapes: field values, beacon entries, recordings, levels, GeoJSON geometries, the level document |
| `Text` | text.dfy | `str.upper`, `str(int)`, `int(str)`, `", ".join`, and `sorted` on sets of ints and of strings |
| `Selection` | selection.dfy | the `{name: _id}` dropdown dictionaries, their sorted option lists, and the first-level-with-id lookup |
| `Utils` | utils.dfy | `group_and_sort_beacon_data`, a loop into a nested map; and `validate_email`, a regular-expression prefix match with a scanner that decides it |
| `UnheardList` | unheard_list.dfy | the "Unheard List" screen: projection to canonical triples, the observed set, the per-level set differences, and the loops that append the table rows |
| `UnheardMapView` | unheard_map_view.dfy | the "Unheard Map" screen: the placed-beacon extraction, the order-preserving missing filter, the updated document, the bounds loop over the features, and the markers |
| `BasicProfiler` | basic_profiler.dfy | the "Basic Beacon Data Viewer": the GPS lookup, the section counts, the non-list guard, and the nested loop that flattens the grouping into rows |

Where the source works by loops that append to a list or a nested dict, the model has a
method with a `while` loop. The loop is proved against a function of its inputs, such as
`Grouping`, `Bounds` or `Markers`, or against a relation where the source iterates a set
in an unspecified order (`Tabulates`, `ListsGroups`). Lemmas then state what the source
promises about those functions.

Exceptions raised inside a screen are modelled as explicit outcomes:
- `None` from a projection;
- `ListCrash` / `MapCrash` for a screen that stops with a traceback;
- `ProfileError` for the try/except of the profiler page;
- `Notice` values for the per-entry `st.warning` / `st.error` of the grouping loop.

The negative-value adjustment adds 65336, as the code in utils.py:39-42 does. A 16-bit
reading would add 65536; the model follows the code. `Utils.AdjustCollides` exhibits the
consequence: two different raw minors land on the same stored value.

## Model

| member | source | states |
|---|---|---|
| `Utils.Grouping` | utils.py:30-43 | the nested map the loop builds, entry by entry; the lemmas below state which triples it holds and that order and duplicates do not change it, and the loop is proved to compute it |
| `Utils.GroupAndSortBeaconData` | utils.py:29-50 | the loop leaves exactly the grouping of all entries, taken one at a time (`Grouping`), and emits one warning per entry with a missing key and one error per entry whose processing raises, in order |
| `Utils.Classify` | utils.py:33-48 | an accepted entry is an object and its uuid is the key verbatim |
| `Utils.InsertTriples` | utils.py:43 | adding into the nested defaultdict adds exactly one (uuid, major, minor) triple |
| `Utils.GroupingHoldsContributions` | utils.py:32-43 | the stored triples are exactly the adjusted triples of the accepted entries, and no uuid or major is left with an empty group |
| `Utils.AcceptedEntryStored` | utils.py:38-43 | every accepted entry's adjusted minor is in `grouped[uuid][adjusted major]` |
| `Utils.StoredMinorHasSource` | utils.py:38-43 | every stored minor comes from some accepted entry with that uuid and adjusted major |
| `Utils.SameTriplesSameGrouping` | utils.py:30 | nested maps without empty groups are determined by the triples they store |
| `Utils.GroupingOrderIndependent` | utils.py:30-43 | the grouping depends only on which entries occur: order and duplicates do not matter |
| `Utils.SkippedEntryIgnored` | utils.py:44-48 | an entry with a missing key or whose processing raises leaves the grouping unchanged, and the loop goes on with the entries after it |
| `Utils.MissingKeySkipped` | utils.py:38-45 | an object with a None uuid, major or minor adds nothing and emits one missing-key warning |
| `Utils.UuidKeptVerbatim` | utils.py:34-43 | the uuid is not upper-cased: "ab" and "AB" form two groups |
| `Utils.Adjust` | utils.py:39-42 | the stored value of a major or minor; the three lemmas below state its properties, including the collision the 65336 constant causes |
| `Utils.AdjustAddsOnce` | utils.py:39-42 | a negative value gets 65336 added once, and stays negative exactly when it was below -65336 |
| `Utils.AdjustIdempotentWhenNonNegative` | utils.py:39-42 | non-negative values are stored unchanged; adjusting twice equals adjusting once exactly when the value is at least -65336 |
| `Utils.AdjustCollides` | utils.py:39-42 | some negative 16-bit value and some non-negative one below 65536 are stored as the same number |
| `Utils.ValidateEmail` | utils.py:98-104 | `validate_email`: some prefix of the text is a local part, an '@', a domain, a '.' and a top-level part of two or more class characters ending at a word boundary; the lemmas below decide it by a scan and give accepted and rejected cases |
| `Utils.ScanEmail` | utils.py:101-102 | a left-to-right scan over the character-class runs; `Utils.ScanDecidesEmail` proves it accepts exactly the texts `Utils.ValidateEmail` accepts |
| `Utils.RunEnd` | utils.py:101 | the end of the longest run of one character class from a position |
| `Utils.ScanDecidesEmail` | utils.py:98-104 | the left-to-right scan accepts exactly the strings that have a prefix matching the pattern |
| `Utils.ScanSound` | utils.py:101-102 | a string the scan accepts has a matching prefix |
| `Utils.ScanComplete` | utils.py:101-102 | a string with a matching prefix is accepted by the scan |
| `Utils.NoAtRejected` | utils.py:101-102 | a string without '@' is rejected |
| `Utils.FirstCharacterRejected` | utils.py:101-102 | a string whose first character is not a letter, digit or underscore is rejected |
| `Utils.TrailingTextAllowed` | utils.py:101-102 | text after a matching prefix is allowed |
| `Utils.TopLevelClassAccepted` | utils.py:101 | any top-level part of two or more characters from the class, ending in a letter, is accepted |
| `Utils.PipeInTopLevelAccepted` | utils.py:101 | the top-level class admits the pipe character as well as letters |
| `Utils.DoubledAtRejected` | utils.py:101-102 | a first '@' followed by a second '@' leaves no domain, so the string is rejected |
| `Utils.DoubledAtExample` | utils.py:101-102 | "ann@@example.com" is rejected |
| `Utils.ShortTopLevelRejected` | utils.py:101 | "ann@example.c" is rejected: its only dot after the '@' is followed by a single letter |
| `Records.Length` | basicProfiler.py:66-68 | whenever a loop over the same `data.get(key, [])` value runs, `len` of it is the number of items that loop visits |
| `Text.Upper` | unheardList.py:11 | upper-casing keeps length, leaves no lower-case letter and changes nothing else |
| `Text.UpperIdempotent` | unheardList.py:111-112 | upper-casing an already extracted uuid again changes nothing |
| `Text.ParseInt` | unheardList.py:12-13 | `int(s)` on text: an optional sign and ASCII digits, None where `int` raises; a result needs a non-empty text, and `Text.ParseIntOfDecimalText` proves it inverts `str(n)` |
| `Text.DecimalText` | basicProfiler.py:102 | `str(n)` is non-empty and contains no comma or space |
| `Text.ParseIntOfDecimalText` | unheardList.py:12-13 | `int(str(n)) == n` |
| `Text.JoinInts` | basicProfiler.py:102 | `", ".join(map(str, xs))`: non-empty for a non-empty list; `Text.SplitJoinInts` proves `Text.SplitInts` recovers the list |
| `Text.SplitInts` | basicProfiler.py:102 | reads a ", "-separated list of integers back; with `Text.SplitJoinInts` it is the inverse of `Text.JoinInts` |
| `Text.SplitJoinInts` | basicProfiler.py:101-102 | the ", "-joined minors text splits back to the list it was joined from |
| `Text.AscendingInts` | basicProfiler.py:101 | `sorted` of a set of ints lists each element once, in ascending order |
| `Text.LeastThenRest` | basicProfiler.py:101 | the least element in front of a strictly ascending listing of the rest of the set is a strictly ascending listing of the whole set |
| `Text.AscendingIntsUnique` | basicProfiler.py:101 | any strictly increasing list of exactly the set's elements is `sorted` of that set |
| `Text.Before` | unheardList.py:33 | Python's `<` on str, lexicographic by code point with a proper prefix first; the two lemmas below make it a strict total order, which `Text.SortedNames` sorts by |
| `Text.BeforeTransitive` | unheardList.py:33 | Python's string order is transitive |
| `Text.BeforeTotal` | unheardList.py:33 | Python's string order is total on distinct strings |
| `Text.SortedNames` | unheardList.py:33 | `sorted` of a set of strings lists each element once, in strictly increasing string order |
| `Selection.NameIndex` | unheardList.py:32 | the dictionary's keys are exactly the names of the nodes |
| `Selection.LastDuplicateWins` | unheardList.py:83 | a name shared by several nodes maps to the id of the last of them |
| `Selection.NameOptions` | unheardList.py:32-33 | the options are the distinct names, each once, sorted |
| `Selection.LevelOptions` | unheardList.py:83-85 | "All" comes first, followed by the distinct short names, sorted |
| `Selection.Label` | UnheardMapView.py:96 | the map screen's option text "shortName (longName)"; `Selection.LabelOptions` and `Selection.LastLabelWins` state what the dropdown built from it holds |
| `Selection.LabelOptions` | UnheardMapView.py:96-97 | the map screen's options are the distinct labels, sorted |
| `Selection.LastLabelWins` | UnheardMapView.py:96 | a label shared by several levels maps to the id of the last of them |
| `Selection.FirstWithId` | unheardList.py:126 | the index of the first level with the id, or None when no level has it |
| `Selection.IndexedIdIsFound` | unheardList.py:125-126 | an id taken from the level dictionary always belongs to some level, so the `{}` default is never used |
| `Selection.LastNameIndex` | unheardList.py:83 | every name has a last pair carrying it |
| `Selection.SelectionPicksLastLevel` | unheardList.py:125-126 | with unique ids, choosing a short name finds the last level with that short name |
| `UnheardList.IntOf` | unheardList.py:12-13 | `int(x)`: a JSON integer as is, a text through `Text.ParseInt`, None for anything else; `UnheardList.PlacedProjects` shows integers pass unchanged |
| `UnheardList.BeaconOf` | unheardList.py:10-14 | one entry's canonical triple: upper-cased uuid, int major and minor, None where a subscript, `.upper()` or `int` raises; `UnheardList.BeaconsOf` carries it over a list |
| `UnheardList.BeaconsOf` | unheardList.py:9-16 | one triple per entry, in order, with the uuid upper-cased and major and minor converted to int; None exactly when some entry cannot be converted |
| `UnheardList.ProjectSection` | unheardList.py:15 | an absent `beaconData` gives an empty list |
| `UnheardList.ExtractBeacons` | unheardList.py:7-16 | `extract_beacons_from_json` on a recording's `beaconData`; `UnheardList.Observed` unions it over the files |
| `UnheardList.Observed` | unheardList.py:98-102 | the observed set is exactly the union of the extracted triples over all uploaded files, and the whole comprehension raises when one file does |
| `UnheardList.DeclaredIsEntryTriples` | unheardList.py:111-114 | a level's declared set exists exactly when every entry of its `placedBeacons` converts, and then holds exactly the triples of those entries |
| `UnheardList.MissingBlocks` | unheardList.py:108-115 | in "All" mode one block per level, in level order, tagged with its shortName, holding declared minus observed |
| `UnheardList.SelectedBlocks` | unheardList.py:124-131 | the single-level blocks: the name lookup (raising when absent), the first level with that id, or no blocks for the `{}` default; `UnheardList.SelectedLevelRows` and `UnheardList.SingleModeUsesLastLevel` state what follows from it |
| `UnheardList.ListPlan` | unheardList.py:82-143 | the outcome of pressing "Unheard List": no levels, no files, a raise, or the blocks of the table; `UnheardList.UnheardList` is proved to realise it |
| `UnheardList.MissingRows` | unheardList.py:116-122 | the loop over one missing set gives exactly one row per missing triple, each tagged with the level name, none twice |
| `UnheardList.AllLevelsRows` | unheardList.py:110-122 | the "All" loop's rows are the level blocks one after another, in level order |
| `UnheardList.SelectedLevelRows` | unheardList.py:124-138 | the single-level rows tabulate the selected level's missing set under the chosen name; a failed lookup raises, and an unknown id gives no rows |
| `UnheardList.UnheardList` | unheardList.py:95-143 | no levels gives the no-levels message; no files gives only the upload prompt; otherwise the table realises the plan |
| `UnheardList.TabulatesExtend` | unheardList.py:117 | appending a block's rows tabulates one more block |
| `UnheardList.ListsExactlyStep` | unheardList.py:116-117 | appending a row for a new triple keeps the block exact |
| `UnheardList.MissingBlocksSnoc` | unheardList.py:110-115 | the blocks of one more level are the earlier blocks plus that level's |
| `UnheardList.LastBlockStart` | unheardList.py:110-122 | a tabulated table splits into the earlier blocks' rows and the last block's rows |
| `UnheardList.BlockMembership` | unheardList.py:116-122 | a row is in a block exactly when it has the block's tag and a triple of its set |
| `UnheardList.TableMembership` | unheardList.py:110-122 | a row is in the table exactly when its triple is in the missing set of a block with its tag |
| `UnheardList.CountConcat` | unheardList.py:117 | counts add over concatenation |
| `UnheardList.CountInBlock` | unheardList.py:116-122 | within one block each triple is reported at most once |
| `UnheardList.RowsPerBlock` | unheardList.py:110-122 | each triple is reported once per block holding it |
| `UnheardList.HoldingPerLevel` | unheardList.py:110-115 | blocks holding each level's declared set minus the observed set hold a triple once per declaring level, or never when it was observed |
| `UnheardList.HoldingCountsLevels` | unheardList.py:110-115 | an unobserved triple is in the missing set of each level that declares it; an observed one in none |
| `UnheardList.AllModeReportsPerDeclaringLevel` | unheardList.py:108-122 | in "All" mode an unheard triple is reported once per declaring level, and a heard one never |
| `UnheardList.AllModeRows` | unheardList.py:108-122 | in "All" mode a row (tag, triple) is shown exactly when no file heard the triple and some level with that shortName declares it |
| `UnheardList.SingleModeUsesLastLevel` | unheardList.py:124-131 | with unique ids, choosing a short name compares the last level with that name, and the rows carry the chosen name |
| `UnheardList.SingletonBlock` | unheardList.py:116-122 | a block for a one-element set is that one row |
| `UnheardList.OneSingletonBlock` | unheardList.py:110-122 | one one-element block is tabulated by its one row |
| `UnheardList.TwoSingletonBlocks` | unheardList.py:110-122 | two one-element blocks are tabulated by two rows, in block order |
| `UnheardList.PlacedProjects` | unheardList.py:11-13 | an entry with an upper-case uuid and integer major and minor projects to that triple, whatever its coordinates |
| `UnheardList.TwoPlacedProject` | unheardList.py:9-16 | a two-entry list projects entry by entry |
| `UnheardList.ExampleDeclared` | unheardList.py:111-114 | in the example L1 declares {A, B} and L2 declares {B, C} |
| `UnheardList.ExampleObserved` | unheardList.py:98-102 | in the example the one recording observes {B} |
| `UnheardList.ExampleBlocks` | unheardList.py:110-115 | in the example the missing blocks are (L1, {A}) and (L2, {C}) |
| `UnheardList.ExamplePlan` | unheardList.py:98-115 | levels L1 {A, B} and L2 {B, C} with B heard give the blocks (L1, {A}) and (L2, {C}) |
| `UnheardList.TwoLevelExample` | unheardList.py:108-122 | in that example the table is exactly (L1, A) then (L2, C) |
| `UnheardMapView.PlacedOf` | UnheardMapView.py:13-18 | one placed entry: the canonical triple of `UnheardList.BeaconOf` and the coordinates copied unchanged; `UnheardMapView.ExtractPlaced` carries it over the list |
| `UnheardMapView.ExtractPlaced` | UnheardMapView.py:10-20 | one record per placed beacon, in order: canonical triple and coordinates copied unchanged; None exactly when one raises |
| `UnheardMapView.DocumentBeacons` | UnheardMapView.py:116-117 | the placed beacons of the fetched document, read with `.get("placedBeacons", [])`; `UnheardMapView.UpdatedDocumentRoundTrip` shows the updated document gives back the missing list |
| `UnheardMapView.MissingPlaced` | UnheardMapView.py:138-141 | the filter is no longer than its input and keeps only unheard beacons |
| `UnheardMapView.MissingPlacedCounts` | UnheardMapView.py:138-141 | each unheard placed beacon is kept as often as it is declared, and each heard one is dropped |
| `UnheardMapView.MissingPlacedConcat` | UnheardMapView.py:138-141 | the filter keeps the declared order |
| `UnheardMapView.MissingMembership` | UnheardMapView.py:138-141 | a placed beacon is missing exactly when it is declared and unheard |
| `UnheardMapView.NothingMissingWhenAllHeard` | UnheardMapView.py:138-143 | the missing list is empty exactly when every placed beacon was heard |
| `UnheardMapView.UpdatedDocument` | UnheardMapView.py:150-151 | the copy keeps the feature layer and every other key, and its `placedBeacons` has one entry per missing beacon |
| `UnheardMapView.ExtractedUuidsAreUpper` | UnheardMapView.py:14 | extracted uuids contain no lower-case letter |
| `UnheardMapView.UpdatedDocumentRoundTrip` | UnheardMapView.py:145-151 | extracting the updated document's placed beacons gives back the missing list |
| `UnheardMapView.FeaturePairs` | UnheardMapView.py:164-173 | the pairs one feature adds to the bounds, by geometry type; `UnheardMapView.BoundsSwapPositions` states them as swapped positions |
| `UnheardMapView.Bounds` | UnheardMapView.py:162-173 | the bounds list after the feature loop, None when it raises; `UnheardMapView.ComputeBounds` is proved to compute it and `UnheardMapView.BoundsSwapPositions` states its contents |
| `UnheardMapView.SwapAll` | UnheardMapView.py:170 | each (lon, lat) position becomes (lat, lon), in order; a position with fewer than two numbers raises |
| `UnheardMapView.SwapAllConcat` | UnheardMapView.py:170-173 | swapping commutes with concatenation |
| `UnheardMapView.RingPairsSwapFlatten` | UnheardMapView.py:171-173 | a Polygon contributes the swapped positions of all its rings, ring after ring |
| `UnheardMapView.BoundsSwapPositions` | UnheardMapView.py:162-173 | the bounds are every position of the features in feature order, swapped: one per Point, all of a LineString, all rings of a Polygon, nothing for other types |
| `UnheardMapView.BoundsPrefixFails` | UnheardMapView.py:162-173 | once a feature raises, the loop raises |
| `UnheardMapView.RingPairsPrefixFails` | UnheardMapView.py:172-173 | once a ring raises, the Polygon raises |
| `UnheardMapView.PolygonPairs` | UnheardMapView.py:172-173 | the ring loop computes the Polygon's pairs |
| `UnheardMapView.ComputeBounds` | UnheardMapView.py:162-173 | the feature loop computes the bounds list, or raises as the source does |
| `UnheardMapView.BoundsViewOf` | UnheardMapView.py:157-177 | what the bounds step shows for a feature layer; `UnheardMapView.FitBounds` is proved to produce it |
| `UnheardMapView.FitBounds` | UnheardMapView.py:157-177 | without a features key nothing is fitted; with features the bounds are fitted when non-empty, and otherwise the invalid-geometry error is shown |
| `UnheardMapView.MarkerOf` | UnheardMapView.py:180-182 | one marker at `[coordinates[1], coordinates[0]]`, None where that subscript raises; `UnheardMapView.MarkersPlaced` states it per missing beacon |
| `UnheardMapView.Markers` | UnheardMapView.py:180-182 | one marker per missing beacon, in order, at `[coordinates[1], coordinates[0]]` |
| `UnheardMapView.PlaceMarkers` | UnheardMapView.py:180-182 | the marker loop places exactly those markers |
| `UnheardMapView.MapScreen` | UnheardMapView.py:113-222 | the map screen after the button press: no data, a raise, the upload prompt, no missing beacons, or the drawn map; the lemmas below state each outcome |
| `UnheardMapView.CheckMissingBeacons` | UnheardMapView.py:113-222 | the button handler produces the screen `MapScreen` describes |
| `UnheardMapView.MapScreenMessages` | UnheardMapView.py:113-143 | an empty document gives the no-data message; no files give only the upload prompt; "No beacons are missing." appears exactly when every placed beacon was heard |
| `UnheardMapView.UnheardMapShape` | UnheardMapView.py:131-182 | a drawn map carries the filter's result, the updated document and its markers |
| `UnheardMapView.UnheardMapMissing` | UnheardMapView.py:138-143 | a drawn map lists exactly the declared beacons left unheard, and at least one |
| `UnheardMapView.UnheardMapDocument` | UnheardMapView.py:145-151 | the drawn document equals the fetched one except `placedBeacons`, which holds exactly the missing beacons |
| `UnheardMapView.UnheardMapMarkers` | UnheardMapView.py:180-182 | one marker per missing beacon, at its coordinates swapped to (lat, lon) |
| `UnheardMapView.MarkersPlaced` | UnheardMapView.py:180-182 | when the markers can be built, each missing beacon has at least two coordinates and its marker sits at (second, first) and carries that beacon |
| `BasicProfiler.MinorsText` | basicProfiler.py:101-102 | a group's minors text; `BasicProfiler.RowMinorsRecoverGroup` proves it lists that group's minors in ascending order, each once |
| `BasicProfiler.MajorsSoFarStep` | basicProfiler.py:100-103 | appending the row of a major not yet listed keeps the inner loop's rows exact: one per listed major, none twice, each with its minors text |
| `BasicProfiler.RowsForUuid` | basicProfiler.py:100-103 | the inner loop gives one row per major of a uuid, with that major's minors text, no major twice |
| `BasicProfiler.ListsGroupsExtend` | basicProfiler.py:99-103 | appending a new uuid's rows extends the listing to that uuid |
| `BasicProfiler.FlattenRows` | basicProfiler.py:98-103 | the nested loop gives one row per (uuid, major) of the grouping, and no others, each with its minors text |
| `BasicProfiler.RowMinorsRecoverGroup` | basicProfiler.py:101-102 | a row's minors text lists that group's minors in ascending order, each once |
| `BasicProfiler.RowCount` | basicProfiler.py:98-103 | there are as many rows as (uuid, major) pairs |
| `BasicProfiler.IndexImageSize` | basicProfiler.py:103 | rows with distinct (uuid, major) keys have as many keys as rows |
| `BasicProfiler.FirstFix` | basicProfiler.py:29-33 | the lookup request for the first GPS point, None where a subscript raises; `BasicProfiler.GpsUsesFirstPoint` states it |
| `BasicProfiler.BeaconList` | basicProfiler.py:89-92 | the `isinstance(beacon_data, list)` guard on `data.get("beaconData", [])`; `BasicProfiler.NonListBeaconData` states it as an iff |
| `BasicProfiler.Reports` | basicProfiler.py:18-103 | a report of the page, up to the iteration order of the rows; `BasicProfiler.ProfileRecording` is proved to produce one |
| `BasicProfiler.ProfileRecording` | basicProfiler.py:18-103 | the page produces the report: GPS lookup, counts, and the beacon table or the non-list error; anything raised by the GPS lookup, the counts or the beacon section gives the error message |
| `BasicProfiler.CountsAreLengths` | basicProfiler.py:66-68 | the counts are the list lengths, with 0 for a missing key |
| `BasicProfiler.GpsUsesFirstPoint` | basicProfiler.py:25-33 | no GPS data means no lookup; otherwise only the first point's coordinates are looked up |
| `BasicProfiler.NonListBeaconData` | basicProfiler.py:89-92 | a non-list `beaconData` gives the error and no grouping or rows, and only then |

## Left out

- HTTP calls (api_utils.py), login and session state (opsToolKit.py): these are network and UI plumbing. The fetched nodes, levels and level document are inputs. The copy of `validate_email` in opsToolKit.py is the same pattern and is modelled once. Likewise `extract_beacons_from_json` in UnheardMapView.py:22-31 is the same code as unheardList.py:7-16 and is modelled once, by `UnheardList.ExtractBeacons`.
- Streamlit widgets, caching, spinners and reruns: the "Unheard List" and "Check for Missing Beacons" buttons are modelled as pressed, and the selected names as inputs.
- The client, site and building dropdowns are the same `{name: _id}` construction and `sorted` as the level dropdown. `Selection.NameIndex` and `Selection.NameOptions` model all of them; the per-screen wiring is not repeated.
- File reading and `json.loads`: recordings are parsed values, and every recording is a JSON object. A non-object recording, and the `if data:` test on an empty `{}` recording, are not modelled.
- `format_timestamp`, the recording-summary table, optional notes and the `:.2f` duration formatting: these depend on `datetime`, the local time zone and float formatting.
- BasicProfiler.ProfileRecording: the errors raised while building the recording-summary table (basicProfiler.py:35-63) are not modelled. A non-object `recordingInfo`, a non-number `recordingDuration`, non-text `uuids`, or a text timestamp that `format_timestamp` divides, shows only the error message in the source; the model gives the report for such a recording.
- `get_location_from_coordinates`: a Nominatim network call. The model returns the lookup request (`LocationOf(lat, lon)`), not the resulting text.
- folium map rendering, DivIcon HTML, popups, pandas DataFrames, the accordion markdown and CSV export: rendering by libraries. Rows and markers are sequences of values.
- The iteration order of Python sets and of dict insertion order for the grouped rows: the model specifies the rows up to that order (`Tabulates`, `ListsGroups`) and proves that every order satisfying it has the same contents and counts.
- Text.ParseInt: `int(str)` is taken as an optional sign followed by ASCII digits. Surrounding whitespace, underscores between digits and non-ASCII digits, which Python also accepts, are not modelled.
- Text.Upper: only ASCII letters are upper-cased. Unicode case mapping is not modelled.
- Utils.ValidateEmail: `\w` and `\b` are taken over ASCII text. Python's Unicode word characters are not modelled.
- JSON floats and booleans as beacon field values are not modelled (`Value.Other` stands for any array or object). A float major, which Python would compare and store, is not covered.
- Marker coordinates must be a number array; a string or other value is treated as raising.
- GeoJSON features lacking `geometry` or `type` are not modelled; a geometry's coordinates are taken as already-parsed number arrays.
- Inputs of the wrong JSON type are not modelled: a `geoJson` that is a string (where `"features" in` is a substring test) or a number (where it raises), a `features` value that is not a list (UnheardMapView.py:163), and a level without `shortName` or `_id` or with a non-text name (the dictionary and `sorted` at unheardList.py:32-33 and 83-84 raise).
- A `"geoJson": null` document cannot be written as a `FeatureLayer`; the source raises on it at the `"features" in` test (UnheardMapView.py:158).
- A `null` or text latitude or longitude of the first GPS point cannot be written as a `GpsPoint` except as a missing key. The source hands such a value to the geocoder instead of raising, while the model reads it as a KeyError.
