/**
 * utils.py: `group_and_sort_beacon_data`, which folds raw beacon readings into
 * uuid -> major -> set of minors, and `validate_email`, a prefix match of a fixed
 * regular expression.
 */
module Utils {
  import opened Wrappers
  import opened Records
  import Text

  // ================================================================ grouping

  /** The constant the source adds to a negative major or minor. */
  const Offset: int := 65336

  /** `if v < 0: v += 65336`: a single addition, whatever the sum. */
  function Adjust(v: int): int {
    if v < 0 then v + Offset else v
  }

  /** The nested `defaultdict`: uuid (verbatim) -> major -> minors. */
  type Grouped = map<Value, map<int, set<int>>>

  /** What one iteration does with an entry. */
  datatype Outcome = Accepted(uuid: Value, major: int, minor: int) | MissingKey | Raises

  /** What the loop reports through `st.warning` / `st.error` for a skipped entry. */
  datatype Notice = MissingKeyWarning(entry: Entry) | ProcessingError(entry: Entry)

  /** A uuid usable as a dict key: JSON arrays and objects are unhashable. */
  predicate Hashable(v: Value) {
    !v.Numbers? && !v.Other?
  }

  /**
   * One iteration of the loop: `entry.get` raises on a non-object; a None uuid, major or
   * minor is a missing key; `minor < 0` and `major < 0` raise on a non-number, and the
   * dict lookup raises on an unhashable uuid; otherwise both numbers are adjusted.
   */
  function Classify(e: Entry): (o: Outcome)
    ensures o.Accepted? ==> e.Object? && e.uuid == o.uuid
  {
    match e
    case NotObject => Raises
    case Object(u, mj, mn, _) =>
      if u.Null? || mj.Null? || mn.Null? then MissingKey
      else if !mn.Num? || !mj.Num? || !Hashable(u) then Raises
      else Accepted(u, Adjust(mj.n), Adjust(mn.n))
  }

  /** `grouped_data[u][major].add(minor)` on the nested defaultdict. */
  function Insert(g: Grouped, u: Value, major: int, minor: int): Grouped {
    var inner := if u in g then g[u] else map[];
    var minors := if major in inner then inner[major] else {};
    g[u := inner[major := minors + {minor}]]
  }

  /** The grouping after the loop has seen `entries`, one entry at a time. */
  function Grouping(entries: seq<Entry>): Grouped
    decreases |entries|
  {
    if entries == [] then map[]
    else
      var g := Grouping(entries[..|entries| - 1]);
      match Classify(entries[|entries| - 1])
      case Accepted(u, mj, mn) => Insert(g, u, mj, mn)
      case _ => g
  }

  /** The notices the loop emits, in order. */
  function NoticesOf(entries: seq<Entry>): seq<Notice>
    decreases |entries|
  {
    if entries == [] then []
    else
      var e := entries[|entries| - 1];
      NoticesOf(entries[..|entries| - 1]) +
      match Classify(e)
      case Accepted(_, _, _) => []
      case MissingKey => [MissingKeyWarning(e)]
      case Raises => [ProcessingError(e)]
  }

  /**
   * group_and_sort_beacon_data: the loop over the entries, adjusting negative numbers in
   * place and adding into the nested dict; a skipped entry leaves the dict as it was and
   * the loop goes on with the next.
   */
  method GroupAndSortBeaconData(beaconData: seq<Entry>) returns (grouped: Grouped, notices: seq<Notice>)
    ensures grouped == Grouping(beaconData)
    ensures notices == NoticesOf(beaconData)
  {
    grouped, notices := map[], [];
    var i := 0;
    while i < |beaconData|
      invariant 0 <= i <= |beaconData|
      invariant grouped == Grouping(beaconData[..i])
      invariant notices == NoticesOf(beaconData[..i])
    {
      var entry := beaconData[i];
      assert beaconData[..i + 1][..i] == beaconData[..i];
      match entry {
        case NotObject =>
          notices := notices + [ProcessingError(entry)];
        case Object(uuid, major, minor, _) =>
          if !uuid.Null? && !major.Null? && !minor.Null? {
            if minor.Num? && major.Num? && Hashable(uuid) {
              var mn := minor.n;
              if mn < 0 {
                mn := mn + Offset;
              }
              var mj := major.n;
              if mj < 0 {
                mj := mj + Offset;
              }
              var inner := if uuid in grouped then grouped[uuid] else map[];
              var minors := if mj in inner then inner[mj] else {};
              grouped := grouped[uuid := inner[mj := minors + {mn}]];
            } else {
              notices := notices + [ProcessingError(entry)];
            }
          } else {
            notices := notices + [MissingKeyWarning(entry)];
          }
      }
      i := i + 1;
    }
    assert beaconData[..i] == beaconData;
  }

  // ---------------------------------------------------------------- what the grouping holds

  /** The (uuid, major, minor) triples stored in a grouping. */
  function Triples(g: Grouped): set<(Value, int, int)> {
    set u, mj, mn | u in g && mj in g[u] && mn in g[u][mj] :: (u, mj, mn)
  }

  /** The triples the accepted entries contribute. */
  function Contributions(entries: seq<Entry>): set<(Value, int, int)> {
    set e | e in entries && Classify(e).Accepted? :: (Classify(e).uuid, Classify(e).major, Classify(e).minor)
  }

  /** No uuid without a major and no major without a minor. */
  ghost predicate NoEmptyGroups(g: Grouped) {
    forall u | u in g :: g[u].Keys != {} && forall mj | mj in g[u] :: g[u][mj] != {}
  }

  lemma InsertTriples(g: Grouped, u: Value, mj: int, mn: int)
    ensures Triples(Insert(g, u, mj, mn)) == Triples(g) + {(u, mj, mn)}
  {
    var h := Insert(g, u, mj, mn);
    forall t | t in Triples(h) ensures t in Triples(g) + {(u, mj, mn)} {
      var (a, b, c) := t;
      assert a in h && b in h[a] && c in h[a][b];
      if t != (u, mj, mn) {
        assert a in g && b in g[a] && c in g[a][b];
      }
    }
    forall t | t in Triples(g) + {(u, mj, mn)} ensures t in Triples(h) {
      var (a, b, c) := t;
      assert a in h && b in h[a] && c in h[a][b];
    }
  }

  lemma {:induction false} ContributionsSnoc(entries: seq<Entry>, e: Entry)
    ensures Contributions(entries + [e]) ==
      Contributions(entries) + (if Classify(e).Accepted? then {(Classify(e).uuid, Classify(e).major, Classify(e).minor)} else {})
  {
    assert forall x :: x in entries + [e] <==> x in entries || x == e;
  }

  /**
   * A triple is stored exactly when some entry is accepted with that uuid and those
   * adjusted numbers; and every stored uuid and major has at least one minor.
   */
  lemma {:induction false} GroupingHoldsContributions(entries: seq<Entry>)
    ensures Triples(Grouping(entries)) == Contributions(entries)
    ensures NoEmptyGroups(Grouping(entries))
    decreases |entries|
  {
    if entries != [] {
      var init, e := entries[..|entries| - 1], entries[|entries| - 1];
      assert entries == init + [e];
      GroupingHoldsContributions(init);
      ContributionsSnoc(init, e);
      match Classify(e)
      case Accepted(u, mj, mn) => {
        InsertTriples(Grouping(init), u, mj, mn);
        var g := Grouping(init);
        var h := Insert(g, u, mj, mn);
        forall v | v in h ensures h[v].Keys != {} && forall b | b in h[v] :: h[v][b] != {} {
          if v == u {
            assert mj in h[v];
            assert mn in h[v][mj];
          }
        }
      }
      case _ =>
    }
  }

  /** Every accepted entry's adjusted minor is stored under its uuid and adjusted major. */
  lemma AcceptedEntryStored(entries: seq<Entry>, k: nat)
    requires k < |entries| && Classify(entries[k]).Accepted?
    ensures var o := Classify(entries[k]);
      var g := Grouping(entries);
      o.uuid in g && o.major in g[o.uuid] && o.minor in g[o.uuid][o.major]
  {
    GroupingHoldsContributions(entries);
    var o := Classify(entries[k]);
    assert (o.uuid, o.major, o.minor) in Contributions(entries);
  }

  /** Every stored minor comes from some accepted entry. */
  lemma StoredMinorHasSource(entries: seq<Entry>, u: Value, mj: int, mn: int)
    requires u in Grouping(entries) && mj in Grouping(entries)[u] && mn in Grouping(entries)[u][mj]
    ensures exists k :: 0 <= k < |entries| && Classify(entries[k]) == Accepted(u, mj, mn)
  {
    GroupingHoldsContributions(entries);
    assert (u, mj, mn) in Triples(Grouping(entries));
    var e :| e in entries && Classify(e).Accepted? && (Classify(e).uuid, Classify(e).major, Classify(e).minor) == (u, mj, mn);
    var k :| 0 <= k < |entries| && entries[k] == e;
  }

  /** Two groupings without empty groups that store the same triples are equal. */
  lemma SameTriplesSameGrouping(g: Grouped, h: Grouped)
    requires NoEmptyGroups(g) && NoEmptyGroups(h)
    requires Triples(g) == Triples(h)
    ensures g == h
  {
    forall u | u in g ensures u in h {
      var mj := Text.Pick(g[u].Keys);
      var mn := Text.Pick(g[u][mj]);
      assert (u, mj, mn) in Triples(g);
    }
    forall u | u in h ensures u in g {
      var mj := Text.Pick(h[u].Keys);
      var mn := Text.Pick(h[u][mj]);
      assert (u, mj, mn) in Triples(h);
    }
    forall u | u in g ensures g[u] == h[u] {
      forall mj | mj in g[u] ensures mj in h[u] {
        var mn := Text.Pick(g[u][mj]);
        assert (u, mj, mn) in Triples(g);
      }
      forall mj | mj in h[u] ensures mj in g[u] {
        var mn := Text.Pick(h[u][mj]);
        assert (u, mj, mn) in Triples(h);
      }
      forall mj | mj in g[u] ensures g[u][mj] == h[u][mj] {
        forall mn | mn in g[u][mj] ensures mn in h[u][mj] {
          assert (u, mj, mn) in Triples(g);
        }
        forall mn | mn in h[u][mj] ensures mn in g[u][mj] {
          assert (u, mj, mn) in Triples(h);
        }
      }
    }
  }

  /**
   * The grouping depends only on which entries occur, not on their order or on how
   * often each occurs: duplicate readings collapse into one minor.
   */
  lemma GroupingOrderIndependent(a: seq<Entry>, b: seq<Entry>)
    requires forall e :: e in a <==> e in b
    ensures Grouping(a) == Grouping(b)
  {
    GroupingHoldsContributions(a);
    GroupingHoldsContributions(b);
    assert Contributions(a) == Contributions(b);
    SameTriplesSameGrouping(Grouping(a), Grouping(b));
  }

  /** A skipped entry (missing key or raising) changes nothing, wherever it stands. */
  lemma SkippedEntryIgnored(a: seq<Entry>, e: Entry, b: seq<Entry>)
    requires !Classify(e).Accepted?
    ensures Grouping(a + [e] + b) == Grouping(a + b)
  {
    GroupingHoldsContributions(a + [e] + b);
    GroupingHoldsContributions(a + b);
    assert forall x :: x in a + [e] + b <==> x in a + b || x == e;
    assert forall x :: x in a + b <==> x in a || x in b;
    assert Contributions(a + [e] + b) == Contributions(a + b);
    SameTriplesSameGrouping(Grouping(a + [e] + b), Grouping(a + b));
  }

  /** An entry contributes only if uuid, major and minor are all present. */
  lemma MissingKeySkipped(entries: seq<Entry>, e: Entry)
    requires e.Object? && (e.uuid.Null? || e.major.Null? || e.minor.Null?)
    ensures Grouping(entries + [e]) == Grouping(entries)
    ensures NoticesOf(entries + [e]) == NoticesOf(entries) + [MissingKeyWarning(e)]
  {
    assert (entries + [e])[..|entries|] == entries;
  }

  /** The uuid is the key verbatim: no upper-casing, so "ab" and "AB" are two groups. */
  lemma UuidKeptVerbatim(s: string, major: int, minor: int)
    requires s != Text.Upper(s)
    ensures var g := Grouping([Object(Text(s), Num(major), Num(minor), None),
                               Object(Text(Text.Upper(s)), Num(major), Num(minor), None)]);
      g.Keys == {Text(s), Text(Text.Upper(s))}
  {
    var e1 := Object(Text(s), Num(major), Num(minor), None);
    var e2 := Object(Text(Text.Upper(s)), Num(major), Num(minor), None);
    assert [e1, e2][..1] == [e1];
    assert [e1][..0] == [];
    assert Classify(e1) == Accepted(Text(s), Adjust(major), Adjust(minor));
    assert Classify(e2) == Accepted(Text(Text.Upper(s)), Adjust(major), Adjust(minor));
    assert Grouping([]) == map[];
    var g1 := Grouping([e1]);
    assert g1 == Insert(map[], Text(s), Adjust(major), Adjust(minor));
    assert Grouping([e1, e2]) == Insert(g1, Text(Text.Upper(s)), Adjust(major), Adjust(minor));
  }

  /** A negative number gets 65336 added exactly once, even when the sum stays negative. */
  lemma AdjustAddsOnce(v: int)
    requires v < 0
    ensures Adjust(v) == v + 65336
    ensures Adjust(v) < 0 <==> v < -65336
  {
  }

  /** Adjusting is a no-op on non-negative values, so adjusting twice equals adjusting once exactly when the first result is non-negative. */
  lemma AdjustIdempotentWhenNonNegative(v: int)
    ensures v >= 0 ==> Adjust(v) == v
    ensures Adjust(Adjust(v)) == Adjust(v) <==> v >= -65336
  {
  }

  /**
   * With 65336, a raw minor of -200 and a raw minor of 65136 land on the same value, so two
   * different readings collapse; reading the value as 16-bit would add 65536 instead.
   */
  lemma AdjustCollides()
    ensures exists a, b :: a != b && 0 <= b < 65536 && -32768 <= a < 0 && Adjust(a) == Adjust(b)
  {
    assert Adjust(-200) == Adjust(65136);
  }

  // ================================================================ validate_email

  /** The pattern's three classes: [A-Za-z0-9._%+-], [A-Za-z0-9.-] and [A-Z|a-z]. */
  datatype CharClass = LocalPart | DomainPart | TopLevel

  predicate IsLetter(c: char) { 'A' <= c <= 'Z' || 'a' <= c <= 'z' }

  predicate IsAsciiDigit(c: char) { '0' <= c <= '9' }

  predicate InClass(c: char, k: CharClass) {
    match k
    case LocalPart => IsLetter(c) || IsAsciiDigit(c) || c == '.' || c == '_' || c == '%' || c == '+' || c == '-'
    case DomainPart => IsLetter(c) || IsAsciiDigit(c) || c == '.' || c == '-'
    case TopLevel => IsLetter(c) || c == '|'
  }

  /** `\w` on ASCII text. */
  predicate IsWordChar(c: char) { IsLetter(c) || IsAsciiDigit(c) || c == '_' }

  /** `\b` at position k: a word character on exactly one side. */
  predicate WordBoundary(s: string, k: int)
    requires 0 <= k <= |s|
  {
    (k > 0 && IsWordChar(s[k - 1])) != (k < |s| && IsWordChar(s[k]))
  }

  predicate AllInClass(s: string, lo: int, hi: int, k: CharClass)
    requires 0 <= lo <= hi <= |s|
  {
    forall p | lo <= p < hi :: InClass(s[p], k)
  }

  /**
   * The prefix s[..end] matches `^\b[A-Za-z0-9._%+-]+@[A-Za-z0-9.-]+\.[A-Z|a-z]{2,}\b`,
   * with the '@' at index `at` and the '.' before the top-level part at index `dot`.
   */
  predicate MatchesAt(s: string, at: int, dot: int, end: int) {
    && 1 <= at && at + 2 <= dot && dot + 3 <= end <= |s|
    && s[at] == '@' && s[dot] == '.'
    && WordBoundary(s, 0)
    && AllInClass(s, 0, at, LocalPart)
    && AllInClass(s, at + 1, dot, DomainPart)
    && AllInClass(s, dot + 1, end, TopLevel)
    && WordBoundary(s, end)
  }

  /** validate_email: `re.match` succeeds, i.e. some prefix of the text matches the pattern. */
  predicate ValidateEmail(email: string) {
    exists at, dot, end | 0 <= at < dot < end <= |email| :: MatchesAt(email, at, dot, end)
  }

  // ---------------------------------------------------------------- a scanning decision procedure

  /** The end of the longest run of class-k characters that starts at i. */
  function RunEnd(s: string, i: int, k: CharClass): (e: int)
    requires 0 <= i <= |s|
    ensures i <= e <= |s| && AllInClass(s, i, e, k)
    ensures e < |s| ==> !InClass(s[e], k)
    decreases |s| - i
  {
    if i < |s| && InClass(s[i], k) then RunEnd(s, i + 1, k) else i
  }

  /** Some position in [k, t] is a word boundary. */
  function SomeBoundary(s: string, k: int, t: int): bool
    requires 0 <= k && t <= |s|
    decreases t + 1 - k
  {
    if k > t then false else WordBoundary(s, k) || SomeBoundary(s, k + 1, t)
  }

  /** Some '.' at a position in [j, e) is followed by at least two top-level characters and a boundary. */
  function SomeDot(s: string, j: int, e: int): bool
    requires 0 <= j && e <= |s|
    decreases e - j
  {
    if j >= e then false
    else (s[j] == '.' && SomeBoundary(s, j + 3, RunEnd(s, j + 1, TopLevel))) || SomeDot(s, j + 1, e)
  }

  /**
   * A left-to-right scan: the local part can only end at the first character outside its
   * class, which must be the '@'; the '.' is then searched among the domain run, and the
   * end among the top-level run that follows it.
   */
  function ScanEmail(s: string): bool {
    if |s| == 0 || !IsWordChar(s[0]) then false
    else
      var at := RunEnd(s, 0, LocalPart);
      at < |s| && s[at] == '@' && SomeDot(s, at + 2, RunEnd(s, at + 1, DomainPart))
  }

  lemma {:induction false} RunEndAtLeast(s: string, i: int, x: int, k: CharClass)
    requires 0 <= i <= x <= |s| && AllInClass(s, i, x, k)
    ensures RunEnd(s, i, k) >= x
    decreases |s| - i
  {
    if i < x {
      RunEndAtLeast(s, i + 1, x, k);
    }
  }

  lemma {:induction false} SomeBoundaryWitness(s: string, k: int, t: int)
    requires 0 <= k && t <= |s| && SomeBoundary(s, k, t)
    ensures exists x :: k <= x <= t && WordBoundary(s, x)
    decreases t + 1 - k
  {
    if !WordBoundary(s, k) {
      SomeBoundaryWitness(s, k + 1, t);
    }
  }

  lemma {:induction false} SomeBoundaryFrom(s: string, k: int, t: int, x: int)
    requires 0 <= k <= x <= t <= |s| && WordBoundary(s, x)
    ensures SomeBoundary(s, k, t)
    decreases t + 1 - k
  {
    if k < x {
      SomeBoundaryFrom(s, k + 1, t, x);
    }
  }

  lemma {:induction false} SomeDotWitness(s: string, j: int, e: int)
    requires 0 <= j && e <= |s| && SomeDot(s, j, e)
    ensures exists d :: j <= d < e && s[d] == '.' && SomeBoundary(s, d + 3, RunEnd(s, d + 1, TopLevel))
    decreases e - j
  {
    if !(s[j] == '.' && SomeBoundary(s, j + 3, RunEnd(s, j + 1, TopLevel))) {
      SomeDotWitness(s, j + 1, e);
    }
  }

  lemma {:induction false} SomeDotFrom(s: string, j: int, e: int, d: int)
    requires 0 <= j <= d < e <= |s| && s[d] == '.' && SomeBoundary(s, d + 3, RunEnd(s, d + 1, TopLevel))
    ensures SomeDot(s, j, e)
    decreases e - j
  {
    if j < d {
      SomeDotFrom(s, j + 1, e, d);
    }
  }

  lemma ScanSound(s: string)
    requires ScanEmail(s)
    ensures ValidateEmail(s)
  {
    var at := RunEnd(s, 0, LocalPart);
    var e := RunEnd(s, at + 1, DomainPart);
    SomeDotWitness(s, at + 2, e);
    var d :| at + 2 <= d < e && s[d] == '.' && SomeBoundary(s, d + 3, RunEnd(s, d + 1, TopLevel));
    var t := RunEnd(s, d + 1, TopLevel);
    SomeBoundaryWitness(s, d + 3, t);
    var end :| d + 3 <= end <= t && WordBoundary(s, end);
    assert AllInClass(s, at + 1, d, DomainPart);
    assert AllInClass(s, d + 1, end, TopLevel);
    assert MatchesAt(s, at, d, end);
  }

  lemma ScanComplete(s: string, at: int, dot: int, end: int)
    requires 0 <= at < dot < end <= |s| && MatchesAt(s, at, dot, end)
    ensures ScanEmail(s)
  {
    RunEndAtLeast(s, 0, at, LocalPart);
    assert RunEnd(s, 0, LocalPart) == at;
    assert AllInClass(s, at + 1, dot + 1, DomainPart);
    RunEndAtLeast(s, at + 1, dot + 1, DomainPart);
    var t := RunEnd(s, dot + 1, TopLevel);
    RunEndAtLeast(s, dot + 1, end, TopLevel);
    SomeBoundaryFrom(s, dot + 3, t, end);
    SomeDotFrom(s, at + 2, RunEnd(s, at + 1, DomainPart), dot);
  }

  /** The scan accepts exactly the texts the pattern matches a prefix of. */
  lemma ScanDecidesEmail(s: string)
    ensures ScanEmail(s) <==> ValidateEmail(s)
  {
    if ScanEmail(s) {
      ScanSound(s);
    }
    if ValidateEmail(s) {
      var at, dot, end :| 0 <= at < dot < end <= |s| && MatchesAt(s, at, dot, end);
      ScanComplete(s, at, dot, end);
    }
  }

  /** Text without an '@' is rejected. */
  lemma NoAtRejected(s: string)
    requires forall i | 0 <= i < |s| :: s[i] != '@'
    ensures !ValidateEmail(s)
  {
  }

  /** Text whose first character is not a letter, digit or underscore is rejected. */
  lemma FirstCharacterRejected(s: string)
    requires |s| == 0 || !IsWordChar(s[0])
    ensures !ValidateEmail(s)
  {
  }

  /** The match is a prefix match: text after a matching prefix does not matter. */
  lemma TrailingTextAllowed()
    ensures ValidateEmail("ann@example.com, then anything")
  {
    assert MatchesAt("ann@example.com, then anything", 3, 11, 15);
  }

  /**
   * Any top-level part of at least two characters of the class `[A-Z|a-z]` ending in a
   * letter is accepted: the class admits '|' as well as letters.
   */
  lemma TopLevelClassAccepted(tld: string)
    requires |tld| >= 2 && IsLetter(tld[|tld| - 1])
    requires forall i | 0 <= i < |tld| :: InClass(tld[i], TopLevel)
    ensures ValidateEmail("ann@example." + tld)
  {
    var s := "ann@example." + tld;
    assert forall p | 12 <= p < |s| :: s[p] == tld[p - 12];
    assert MatchesAt(s, 3, 11, |s|);
  }

  lemma PipeInTopLevelAccepted()
    ensures ValidateEmail("ann@example.c|m")
  {
    TopLevelClassAccepted("c|m");
    assert "ann@example." + "c|m" == "ann@example.c|m";
  }

  /** The local part ends at the first '@', so a second '@' right after it leaves no domain. */
  lemma DoubledAtRejected(s: string, i: int)
    requires 0 <= i && i + 1 < |s| && s[i] == '@' && s[i + 1] == '@'
    requires forall j | 0 <= j < i :: s[j] != '@'
    ensures !ValidateEmail(s)
  {
    forall at, dot, end | 0 <= at < dot < end <= |s|
      ensures !MatchesAt(s, at, dot, end)
    {
      assert !InClass(s[i], LocalPart) && !InClass(s[i + 1], DomainPart);
    }
  }

  lemma DoubledAtExample()
    ensures !ValidateEmail("ann@@example.com")
  {
    DoubledAtRejected("ann@@example.com", 3);
  }

  /** The top-level part needs at least two characters. */
  lemma ShortTopLevelRejected()
    ensures !ValidateEmail("ann@example.c")
  {
    var s := "ann@example.c";
    forall at, dot, end | 0 <= at < dot < end <= |s|
      ensures !MatchesAt(s, at, dot, end)
    {
      assert forall i | 0 <= i < |s| :: s[i] == '.' ==> i + 3 > |s|;
    }
  }
}
