/**
 * The few Python string and ordering builtins the dashboard relies on:
 * `str.upper`, `str(int)`, `int(str)`, `", ".join`, and `sorted` on sets of
 * integers and of strings.
 */
module Text {
  import opened Wrappers

  // ---------------------------------------------------------------- upper case

  predicate IsLower(c: char) { 'a' <= c <= 'z' }

  function UpperChar(c: char): (u: char)
    ensures !IsLower(u)
    ensures !IsLower(c) ==> u == c
  {
    if IsLower(c) then (c as int - 32) as char else c
  }

  /** `s.upper()` on ASCII text. */
  function Upper(s: string): (r: string)
    ensures |r| == |s|
    ensures forall i | 0 <= i < |r| :: !IsLower(r[i])
    ensures forall i | 0 <= i < |s| :: !IsLower(s[i]) ==> r[i] == s[i]
  {
    seq(|s|, i requires 0 <= i < |s| => UpperChar(s[i]))
  }

  /** Upper-casing twice is upper-casing once. */
  lemma UpperIdempotent(s: string)
    ensures Upper(Upper(s)) == Upper(s)
  {
    var u := Upper(s);
    assert forall i | 0 <= i < |u| :: Upper(u)[i] == u[i];
  }

  // ---------------------------------------------------------------- str(int) and int(str)

  predicate IsDigit(c: char) { 48 <= c as int <= 57 }

  predicate AllDigits(s: string) { forall i | 0 <= i < |s| :: IsDigit(s[i]) }

  function DigitChar(d: nat): (c: char)
    requires d < 10
    ensures IsDigit(c)
  {
    (48 + d) as char
  }

  function DigitValue(c: char): nat
    requires IsDigit(c)
  {
    c as int - 48
  }

  /** The decimal digits of n, most significant first, without leading zeros. */
  function Digits(n: nat): (r: string)
    ensures |r| >= 1 && AllDigits(r)
    decreases n
  {
    if n < 10 then [DigitChar(n)] else Digits(n / 10) + [DigitChar(n % 10)]
  }

  /** `str(n)` for an int. */
  function DecimalText(n: int): (r: string)
    ensures |r| >= 1
    ensures forall i | 0 <= i < |r| :: r[i] != ',' && r[i] != ' '
  {
    if n < 0 then "-" + Digits(-n) else Digits(n)
  }

  function DigitsValue(s: string): nat
    requires AllDigits(s)
    decreases |s|
  {
    if s == [] then 0 else DigitsValue(s[..|s| - 1]) * 10 + DigitValue(s[|s| - 1])
  }

  /**
   * `int(s)` for text: an optional sign followed by ASCII digits; None where `int`
   * raises ValueError.
   */
  function ParseInt(s: string): (r: Option<int>)
    ensures r.Some? ==> 1 <= |s|
  {
    if |s| >= 2 && s[0] == '-' && AllDigits(s[1..]) then Some(0 - DigitsValue(s[1..]))
    else if |s| >= 2 && s[0] == '+' && AllDigits(s[1..]) then Some(DigitsValue(s[1..]))
    else if |s| >= 1 && AllDigits(s) then Some(DigitsValue(s))
    else None
  }

  lemma {:induction false} DigitsValueOfDigits(n: nat)
    ensures DigitsValue(Digits(n)) == n
    decreases n
  {
    if n >= 10 {
      DigitsValueOfDigits(n / 10);
      var d := Digits(n / 10) + [DigitChar(n % 10)];
      assert d[..|d| - 1] == Digits(n / 10);
    }
  }

  /** `int(str(n)) == n`. */
  lemma ParseIntOfDecimalText(n: int)
    ensures ParseInt(DecimalText(n)) == Some(n)
  {
    if n < 0 {
      DigitsValueOfDigits(-n);
      assert DecimalText(n)[1..] == Digits(-n);
    } else {
      DigitsValueOfDigits(n);
    }
  }

  // ---------------------------------------------------------------- ", ".join

  /** `", ".join(map(str, xs))`. */
  function JoinInts(xs: seq<int>): (r: string)
    ensures xs != [] ==> |r| >= 1
    decreases |xs|
  {
    if xs == [] then ""
    else if |xs| == 1 then DecimalText(xs[0])
    else DecimalText(xs[0]) + ", " + JoinInts(xs[1..])
  }

  /** The index of the first comma in s, or |s| when there is none. */
  function CommaAt(s: string): (c: nat)
    ensures c <= |s|
    ensures c < |s| ==> s[c] == ','
    ensures forall i | 0 <= i < c :: s[i] != ','
    decreases |s|
  {
    if s == [] then 0 else if s[0] == ',' then 0 else 1 + CommaAt(s[1..])
  }

  /** Reads a ", "-separated list of integers, the inverse of JoinInts. */
  function SplitInts(text: string): (r: Option<seq<int>>)
    decreases |text|
  {
    if text == [] then Some([])
    else
      var c := CommaAt(text);
      var head := ParseInt(text[..c]);
      if head.None? then None
      else if c == |text| then Some([head.value])
      else if c + 2 < |text| && text[c + 1] == ' ' then
        match SplitInts(text[c + 2..])
        case Some(rest) => Some([head.value] + rest)
        case None => None
      else None
  }

  /** The first comma of `d + ", " + rest` ends d when d has none. */
  lemma {:induction false} CommaAfter(d: string, rest: string)
    requires forall i | 0 <= i < |d| :: d[i] != ','
    ensures CommaAt(d + ", " + rest) == |d|
    decreases |d|
  {
    var t := d + ", " + rest;
    if d != [] {
      assert t[1..] == d[1..] + ", " + rest;
      CommaAfter(d[1..], rest);
    }
  }

  /** One step of the split: a decimal head, the separator, and the remaining text. */
  lemma SplitStep(x: int, rest: string, tail: seq<int>)
    requires rest != [] && SplitInts(rest) == Some(tail)
    ensures SplitInts(DecimalText(x) + ", " + rest) == Some([x] + tail)
  {
    var d := DecimalText(x);
    var t := d + ", " + rest;
    ParseIntOfDecimalText(x);
    CommaAfter(d, rest);
    assert t[..|d|] == d;
    assert t[|d| + 2..] == rest;
  }

  /** The text of one integer splits back to that integer. */
  lemma SplitSingle(x: int)
    ensures SplitInts(DecimalText(x)) == Some([x])
  {
    var d := DecimalText(x);
    ParseIntOfDecimalText(x);
    assert CommaAt(d) == |d|;
    assert d[..|d|] == d;
  }

  /** Splitting the joined text gives back the list. */
  lemma {:induction false} SplitJoinInts(xs: seq<int>)
    ensures SplitInts(JoinInts(xs)) == Some(xs)
    decreases |xs|
  {
    if |xs| == 1 {
      SplitSingle(xs[0]);
      assert xs == [xs[0]];
    } else if |xs| > 1 {
      var rest := JoinInts(xs[1..]);
      SplitJoinInts(xs[1..]);
      SplitStep(xs[0], rest, xs[1..]);
      assert xs == [xs[0]] + xs[1..];
    }
  }

  // ---------------------------------------------------------------- sorted(set of int)

  /** Some element of a non-empty set. */
  ghost function Pick<T>(s: set<T>): (x: T)
    requires s != {}
    ensures x in s
  {
    var x :| x in s; x
  }

  predicate StrictlyIncreasing(r: seq<int>) {
    forall i, j | 0 <= i < j < |r| :: r[i] < r[j]
  }

  predicate Least(m: int, s: set<int>) {
    m in s && forall x | x in s :: m <= x
  }

  lemma {:induction false} LeastExists(s: set<int>)
    requires s != {}
    ensures exists m :: Least(m, s)
    decreases |s|
  {
    var x := Pick(s);
    if s != {x} {
      var t := s - {x};
      LeastExists(t);
      var m :| Least(m, t);
      var least := if m <= x then m else x;
      forall y | y in s ensures least <= y {
        if y != x {
          assert y in t;
        }
      }
      assert Least(least, s);
    } else {
      assert Least(x, s);
    }
  }

  /** `sorted(s)` for a set of integers: each element once, in ascending order. */
  function AscendingInts(s: set<int>): (r: seq<int>)
    ensures |r| == |s| && StrictlyIncreasing(r)
    ensures forall x :: x in r <==> x in s
    decreases |s|
  {
    if s == {} then []
    else
      LeastExists(s);
      var m :| Least(m, s);
      var rest := AscendingInts(s - {m});
      LeastThenRest(m, s, rest);
      [m] + rest
  }

  /** Putting the least element in front of an ascending listing of the rest lists all of s. */
  lemma LeastThenRest(m: int, s: set<int>, rest: seq<int>)
    requires Least(m, s)
    requires |rest| == |s - {m}| && StrictlyIncreasing(rest)
    requires forall x :: x in rest <==> x in s - {m}
    ensures |[m] + rest| == |s| && StrictlyIncreasing([m] + rest)
    ensures forall x :: x in [m] + rest <==> x in s
  {
    var r := [m] + rest;
    assert s == (s - {m}) + {m};
    forall i, j | 0 <= i < j < |r| ensures r[i] < r[j] {
      assert r[j] == rest[j - 1] && r[j] in s - {m};
      if i > 0 { assert r[i] == rest[i - 1]; }
    }
  }

  /** The head of a strictly increasing list is the least element of what it holds. */
  lemma HeadIsLeast(r: seq<int>, s: set<int>)
    requires r != [] && StrictlyIncreasing(r)
    requires forall x :: x in r <==> x in s
    ensures Least(r[0], s)
  {
    forall x | x in s ensures r[0] <= x {
      var j :| 0 <= j < |r| && r[j] == x;
    }
  }

  /** Dropping the head of such a list leaves a list for the rest of the set. */
  lemma TailHoldsRest(r: seq<int>, s: set<int>)
    requires r != [] && StrictlyIncreasing(r)
    requires forall x :: x in r <==> x in s
    ensures forall x :: x in r[1..] <==> x in s - {r[0]}
  {
    forall x ensures x in r[1..] <==> x in s - {r[0]} {
      if x in s - {r[0]} {
        var j :| 0 <= j < |r| && r[j] == x;
        assert r[1..][j - 1] == x;
      }
    }
  }

  lemma HeadIn<T>(r: seq<T>)
    requires r != []
    ensures r[0] in r
  {
  }

  /** Two strictly increasing lists that hold the same elements are equal. */
  lemma {:induction false} IncreasingListsAgree(r: seq<int>, a: seq<int>, s: set<int>)
    requires StrictlyIncreasing(r) && StrictlyIncreasing(a)
    requires forall x :: x in r <==> x in s
    requires forall x :: x in a <==> x in s
    ensures r == a
    decreases |s|
  {
    if r == [] || a == [] {
      if r != [] {
        HeadIn(r);
        assert false;
      }
      if a != [] {
        HeadIn(a);
        assert false;
      }
    } else {
      HeadIsLeast(r, s);
      HeadIsLeast(a, s);
      TailHoldsRest(r, s);
      TailHoldsRest(a, s);
      IncreasingListsAgree(r[1..], a[1..], s - {r[0]});
      assert r == [r[0]] + r[1..] && a == [a[0]] + a[1..];
    }
  }

  /** A strictly increasing list that holds exactly the elements of s is `sorted(s)`. */
  lemma AscendingIntsUnique(r: seq<int>, s: set<int>)
    requires StrictlyIncreasing(r)
    requires forall x :: x in r <==> x in s
    ensures r == AscendingInts(s)
  {
    IncreasingListsAgree(r, AscendingInts(s), s);
  }

  // ---------------------------------------------------------------- sorted(set of str)

  /** Python's `a < b` on str: lexicographic by code point, a proper prefix first. */
  predicate Before(a: string, b: string)
    decreases |a|
  {
    |b| > 0 && (|a| == 0 || a[0] < b[0] || (a[0] == b[0] && Before(a[1..], b[1..])))
  }

  lemma {:induction false} BeforeTransitive(a: string, b: string, c: string)
    requires Before(a, b) && Before(b, c)
    ensures Before(a, c)
    decreases |a|
  {
    if |a| > 0 && a[0] == b[0] && b[0] == c[0] {
      BeforeTransitive(a[1..], b[1..], c[1..]);
    }
  }

  lemma {:induction false} BeforeTotal(a: string, b: string)
    requires a != b
    ensures Before(a, b) || Before(b, a)
    decreases |a|
  {
    if |a| > 0 && |b| > 0 && a[0] == b[0] {
      assert a == [a[0]] + a[1..] && b == [b[0]] + b[1..];
      BeforeTotal(a[1..], b[1..]);
    }
  }

  predicate StrictlySorted(r: seq<string>) {
    forall i, j | 0 <= i < j < |r| :: Before(r[i], r[j])
  }

  ghost predicate LeastName(m: string, s: set<string>) {
    m in s && forall x | x in s && x != m :: Before(m, x)
  }

  lemma {:induction false} LeastNameExists(s: set<string>)
    requires s != {}
    ensures exists m :: LeastName(m, s)
    decreases |s|
  {
    var x := Pick(s);
    if s == {x} {
      assert LeastName(x, s);
    } else {
      LeastNameExists(s - {x});
      var m :| LeastName(m, s - {x});
      if Before(m, x) {
        assert LeastName(m, s);
      } else {
        BeforeTotal(m, x);
        forall y | y in s && y != x ensures Before(x, y) {
          if y != m {
            BeforeTransitive(x, m, y);
          }
        }
        assert LeastName(x, s);
      }
    }
  }

  /** `sorted(s)` for a set of strings: each element once, in Python's string order. */
  ghost function SortedNames(s: set<string>): (r: seq<string>)
    ensures |r| == |s| && StrictlySorted(r)
    ensures forall x :: x in r <==> x in s
    decreases |s|
  {
    if s == {} then []
    else
      LeastNameExists(s);
      var m :| LeastName(m, s);
      var rest := SortedNames(s - {m});
      assert forall j | 0 <= j < |rest| :: Before(m, rest[j]) by {
        forall j | 0 <= j < |rest| ensures Before(m, rest[j]) {
          assert rest[j] in rest;
        }
      }
      [m] + rest
  }
}
