/**
 * Derived fields and display strings of a match: the result computed from
 * the two scores, the score and goalscorer texts, the displayed date and the
 * distinct years present in a list of matches.
 */
module Calculations {
  import opened JsText
  import opened Types
  import opened Dates

  /** The single source of a match's `result`: Win, Draw or Loss from Volta's point of view. */
  function CalculateResult(voltaScore: int, oppositionScore: int): (r: MatchResult)
    ensures r == Win <==> voltaScore > oppositionScore
    ensures r == Draw <==> voltaScore == oppositionScore
    ensures r == Loss <==> voltaScore < oppositionScore
  {
    if voltaScore > oppositionScore then Win
    else if voltaScore == oppositionScore then Draw
    else Loss
  }

  /** The result seen from the other team. */
  function Mirror(r: MatchResult): MatchResult
  {
    match r
    case Win => Loss
    case Draw => Draw
    case Loss => Win
  }

  /** Swapping the scores swaps Win and Loss and keeps Draw. */
  lemma SwappedScores(voltaScore: int, oppositionScore: int)
    ensures CalculateResult(oppositionScore, voltaScore) == Mirror(CalculateResult(voltaScore, oppositionScore))
  {
  }

  /** `${voltaScore}-${oppositionScore}`. */
  function FormatScore(voltaScore: int, oppositionScore: int): (r: string)
  {
    IntToString(voltaScore) + "-" + IntToString(oppositionScore)
  }

  /**
   * For non-negative scores the score text holds exactly one '-', and the
   * digits on each side of it are the two scores.
   */
  lemma FormatScoreSplit(voltaScore: nat, oppositionScore: nat)
    ensures var s := FormatScore(voltaScore, oppositionScore);
            var k := |NatToString(voltaScore)|;
            && k < |s| && s[k] == '-'
            && (forall j :: 0 <= j < |s| && j != k ==> s[j] != '-')
            && AllDigits(s[..k]) && DecimalValue(s[..k]) == voltaScore
            && AllDigits(s[k + 1..]) && DecimalValue(s[k + 1..]) == oppositionScore
  {
    var a, b := NatToString(voltaScore), NatToString(oppositionScore);
    var s := FormatScore(voltaScore, oppositionScore);
    assert s == a + "-" + b;
    assert s[..|a|] == a;
    assert s[|a| + 1..] == b;
    forall j | 0 <= j < |s| && j != |a|
      ensures s[j] != '-'
    {
      if j < |a| {
        assert s[j] == a[j];
      } else {
        assert s[j] == b[j - |a| - 1];
      }
    }
    DecimalOfNatToString(voltaScore);
    DecimalOfNatToString(oppositionScore);
  }

  /** Distinct non-negative score pairs have distinct score texts. */
  lemma FormatScoreInjective(a: nat, b: nat, c: nat, d: nat)
    requires FormatScore(a, b) == FormatScore(c, d)
    ensures a == c && b == d
  {
    assert FormatScore(a, b) == NatToString(a) + ['-'] + NatToString(b);
    assert FormatScore(c, d) == NatToString(c) + ['-'] + NatToString(d);
    SplitAtSeparator(NatToString(a), NatToString(b), NatToString(c), NatToString(d), '-');
    NatToStringInjective(a, c);
    NatToStringInjective(b, d);
  }

  function MonthAbbrev(month: int): (s: string)
    requires 1 <= month <= 12
    ensures |s| == 3
  {
    ["Jan", "Feb", "Mar", "Apr", "May", "Jun", "Jul", "Aug", "Sep", "Oct", "Nov", "Dec"][month - 1]
  }

  lemma MonthAbbrevInjective(m: int, n: int)
    requires 1 <= m <= 12 && 1 <= n <= 12
    requires MonthAbbrev(m) == MonthAbbrev(n)
    ensures m == n
  {
    var s, t := MonthAbbrev(m), MonthAbbrev(n);
    assert s[0] == t[0] && s[1] == t[1] && s[2] == t[2];
  }

  /** The en-US short date, "Mon D, YYYY", of a calendar day. */
  function FormatMatchDate(d: Date): (r: string)
    requires WellFormed(d)
  {
    MonthAbbrev(d.month) + " " + NatToString(d.day) + ", " + NatToString(d.year)
  }

  /** Different days are displayed differently. */
  lemma FormatMatchDateInjective(d: Date, e: Date)
    requires WellFormed(d) && WellFormed(e)
    requires FormatMatchDate(d) == FormatMatchDate(e)
    ensures d == e
  {
    var a := MonthAbbrev(d.month) + " " + NatToString(d.day);
    var b := MonthAbbrev(e.month) + " " + NatToString(e.day);
    var x, y := " " + NatToString(d.year), " " + NatToString(e.year);
    assert FormatMatchDate(d) == a + [','] + x;
    assert FormatMatchDate(e) == b + [','] + y;
    forall i | 0 <= i < |a| ensures a[i] != ',' {
      if i >= 4 { assert a[i] == NatToString(d.day)[i - 4]; }
    }
    forall i | 0 <= i < |b| ensures b[i] != ',' {
      if i >= 4 { assert b[i] == NatToString(e.day)[i - 4]; }
    }
    SplitAtSeparator(a, x, b, y, ',');
    assert a[..3] == MonthAbbrev(d.month) && b[..3] == MonthAbbrev(e.month);
    MonthAbbrevInjective(d.month, e.month);
    assert a[4..] == NatToString(d.day) && b[4..] == NatToString(e.day);
    NatToStringInjective(d.day, e.day);
    assert x[1..] == NatToString(d.year) && y[1..] == NatToString(e.year);
    NatToStringInjective(d.year, e.year);
  }

  predicate StrictlyDescending(s: seq<int>)
  {
    forall i, j :: 0 <= i < j < |s| ==> s[i] > s[j]
  }

  /** Inserts `y` into a strictly descending list unless it is already there. */
  function InsertDescending(y: int, s: seq<int>): (r: seq<int>)
    requires StrictlyDescending(s)
    ensures StrictlyDescending(r)
    ensures forall x :: x in r <==> x == y || x in s
  {
    if s == [] then [y]
    else if y > s[0] then [y] + s
    else if y == s[0] then s
    else
      var t := InsertDescending(y, s[1..]);
      assert forall k :: 0 <= k < |t| ==> t[k] < s[0] by {
        forall k | 0 <= k < |t| ensures t[k] < s[0] {
          var x := t[k];
          assert x in t;
          assert x == y || x in s[1..];
        }
      }
      [s[0]] + t
  }

  /** `Array.from(new Set(ys)).sort((a, b) => b - a)`: the distinct values, largest first. */
  function DistinctDescending(ys: seq<int>): (r: seq<int>)
    ensures StrictlyDescending(r)
    ensures forall x :: x in r <==> x in ys
  {
    if ys == [] then []
    else InsertDescending(ys[|ys| - 1], DistinctDescending(ys[..|ys| - 1]))
  }

  lemma SameElementsBothEmpty(a: seq<int>, b: seq<int>)
    requires forall x :: x in a <==> x in b
    ensures a == [] <==> b == []
  {
    if a != [] {
      var x := a[0];
      assert x in a;
      assert x in b;
    }
    if b != [] {
      var x := b[0];
      assert x in b;
      assert x in a;
    }
  }

  /**
   * A strictly descending list is fixed by its elements, so any
   * deduplicate-then-sort procedure gives the same list as `DistinctDescending`.
   */
  lemma {:induction false} StrictlyDescendingUnique(a: seq<int>, b: seq<int>)
    requires StrictlyDescending(a) && StrictlyDescending(b)
    requires forall x :: x in a <==> x in b
    ensures a == b
    decreases |a|
  {
    SameElementsBothEmpty(a, b);
    if a != [] {
      assert a[0] <= b[0] by {
        assert a[0] in a;
        var j :| 0 <= j < |b| && b[j] == a[0];
        assert j == 0 || b[0] > b[j];
      }
      assert b[0] <= a[0] by {
        assert b[0] in b;
        var j :| 0 <= j < |a| && a[j] == b[0];
        assert j == 0 || a[0] > a[j];
      }
      forall x
        ensures x in a[1..] <==> x in b[1..]
      {
        if x in a[1..] {
          var j :| 1 <= j < |a| && a[j] == x;
          assert x < a[0] && x in b;
          assert x != b[0];
        }
        if x in b[1..] {
          var j :| 1 <= j < |b| && b[j] == x;
          assert x < b[0] && x in a;
          assert x != a[0];
        }
      }
      StrictlyDescendingUnique(a[1..], b[1..]);
      assert a == [a[0]] + a[1..] && b == [b[0]] + b[1..];
    }
  }

  function MatchYears(matches: seq<MatchRecord>): seq<int>
  {
    seq(|matches|, i requires 0 <= i < |matches| => matches[i].matchDate.year)
  }

  /** The years of the matches, each once, most recent first. */
  function GetYearsFromMatches(matches: seq<MatchRecord>): (r: seq<int>)
    ensures StrictlyDescending(r)
    ensures forall y :: y in r <==> exists i :: 0 <= i < |matches| && matches[i].matchDate.year == y
  {
    var years := MatchYears(matches);
    assert forall y :: y in years <==> exists i :: 0 <= i < |matches| && matches[i].matchDate.year == y by {
      forall y | y in years ensures exists i :: 0 <= i < |matches| && matches[i].matchDate.year == y {
        var i :| 0 <= i < |years| && years[i] == y;
      }
      forall y | exists i :: 0 <= i < |matches| && matches[i].matchDate.year == y ensures y in years {
        var i :| 0 <= i < |matches| && matches[i].matchDate.year == y;
        assert years[i] == y;
      }
    }
    DistinctDescending(years)
  }

  /** `["all", ...years]` for a year drop-down. */
  function YearOptions(years: seq<int>): (r: seq<YearOption>)
    ensures |r| >= 1 && r[0] == AllYears
    ensures forall i :: 1 <= i < |r| ==> r[i].InYear?
    ensures forall y :: InYear(y) in r <==> y in years
    ensures forall i, j :: 1 <= i < j < |r| ==> r[i].InYear? && r[j].InYear? && r[i].year > r[j].year
  {
    var ds := DistinctDescending(years);
    var opts := [AllYears] + seq(|ds|, i requires 0 <= i < |ds| => InYear(ds[i]));
    assert forall i :: 1 <= i < |opts| ==> opts[i] == InYear(ds[i - 1]);
    assert forall y :: InYear(y) in opts <==> y in ds by {
      forall y | InYear(y) in opts ensures y in ds {
        var i :| 0 <= i < |opts| && opts[i] == InYear(y);
        assert ds[i - 1] == y;
      }
      forall y | y in ds ensures InYear(y) in opts {
        var i :| 0 <= i < |ds| && ds[i] == y;
        assert opts[i + 1] == InYear(y);
      }
    }
    opts
  }

  function Join(parts: seq<string>, sep: string): string
  {
    if |parts| == 0 then ""
    else if |parts| == 1 then parts[0]
    else parts[0] + sep + Join(parts[1..], sep)
  }

  /** Joining one more part appends the separator and that part. */
  lemma {:induction false} JoinSnoc(parts: seq<string>, p: string, sep: string)
    requires parts != []
    ensures Join(parts + [p], sep) == Join(parts, sep) + sep + p
    decreases |parts|
  {
    if |parts| > 1 {
      assert (parts + [p])[1..] == parts[1..] + [p];
      JoinSnoc(parts[1..], p, sep);
    } else {
      assert (parts + [p])[1..] == [p];
    }
  }

  /** "name (count)". */
  function GoalPiece(g: MatchGoal): string
  {
    g.playerName + " (" + IntToString(g.goalsCount) + ")"
  }

  function Pieces(goals: seq<MatchGoal>): seq<string>
  {
    seq(|goals|, i requires 0 <= i < |goals| => GoalPiece(goals[i]))
  }

  /**
   * "No scorers" for no goal rows, otherwise the pieces "name (count)" in
   * input order separated by ", ".
   */
  function FormatGoalscorers(goals: seq<MatchGoal>): (r: string)
    ensures goals == [] ==> r == "No scorers"
    ensures |goals| == 1 ==> r == GoalPiece(goals[0])
    ensures |goals| > 1 ==> r == FormatGoalscorers(goals[..|goals| - 1]) + ", " + GoalPiece(goals[|goals| - 1])
  {
    if |goals| == 0 then "No scorers"
    else
      var front, last := goals[..|goals| - 1], goals[|goals| - 1];
      assert |goals| > 1 ==> Join(Pieces(goals), ", ") == Join(Pieces(front), ", ") + ", " + GoalPiece(last) by {
        if |goals| > 1 {
          assert Pieces(goals) == Pieces(front) + [GoalPiece(last)];
          JoinSnoc(Pieces(front), GoalPiece(last), ", ");
        }
      }
      Join(Pieces(goals), ", ")
  }
}
