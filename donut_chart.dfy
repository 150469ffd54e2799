/**
 * The results donut: the seed matches narrowed to a chosen year and
 * counted into three slices (wins, draws, losses) and a total.
 */
module DonutChart {
  import opened Wrappers
  import opened Types
  import opened JsText
  import opened Calculations
  import opened Constants

  /** The drop-down's choices: "all", then each year of the matches once, latest first. */
  function ChartYears(ms: seq<MatchRecord>): (r: seq<YearOption>)
    ensures |r| >= 1 && r[0] == AllYears
    ensures forall i :: 1 <= i < |r| ==> r[i].InYear?
    ensures forall y :: InYear(y) in r <==> exists i :: 0 <= i < |ms| && ms[i].matchDate.year == y
    ensures forall i, j :: 1 <= i < j < |r| ==> r[i].InYear? && r[j].InYear? && r[i].year > r[j].year
  {
    var years := MatchYears(ms);
    assert forall y :: y in years <==> exists i :: 0 <= i < |ms| && ms[i].matchDate.year == y by {
      forall y | exists i :: 0 <= i < |ms| && ms[i].matchDate.year == y ensures y in years {
        var i :| 0 <= i < |ms| && ms[i].matchDate.year == y;
        assert years[i] == y;
      }
    }
    YearOptions(years)
  }

  /** The matches played in `year`; `None` stands for `NaN`, which no year equals. */
  function InYearOf(ms: seq<MatchRecord>, year: Option<int>): (r: seq<MatchRecord>)
    ensures |r| <= |ms|
    ensures forall m :: m in r <==> m in ms && year == Some(m.matchDate.year)
  {
    if ms == [] then []
    else if year == Some(ms[0].matchDate.year) then [ms[0]] + InYearOf(ms[1..], year)
    else InYearOf(ms[1..], year)
  }

  /** The year filter keeps the order of the matches it keeps. */
  lemma {:induction false} InYearOfAppend(a: seq<MatchRecord>, b: seq<MatchRecord>, year: Option<int>)
    ensures InYearOf(a + b, year) == InYearOf(a, year) + InYearOf(b, year)
  {
    if a == [] {
      assert a + b == b;
    } else {
      assert (a + b)[1..] == a[1..] + b;
      InYearOfAppend(a[1..], b, year);
    }
  }

  /** When every match is of that year, the filter keeps them all. */
  lemma {:induction false} InYearOfAll(ms: seq<MatchRecord>, year: int)
    requires forall i :: 0 <= i < |ms| ==> ms[i].matchDate.year == year
    ensures InYearOf(ms, Some(year)) == ms
  {
    if ms != [] {
      InYearOfAll(ms[1..], year);
    }
  }

  /** `filteredMatches`: everything for "all", otherwise the matches whose year is `parseInt(selectedYear)`. */
  function FilteredMatches(ms: seq<MatchRecord>, selectedYear: string): (r: seq<MatchRecord>)
    ensures selectedYear == "all" ==> r == ms
    ensures selectedYear != "all" ==> forall m :: m in r <==> m in ms && ParseInt(selectedYear) == Some(m.matchDate.year)
  {
    if selectedYear == "all" then ms else InYearOf(ms, ParseInt(selectedYear))
  }

  /** Choosing a year from the drop-down keeps exactly that year's matches. */
  lemma FilteredByChosenYear(ms: seq<MatchRecord>, year: int)
    ensures FilteredMatches(ms, IntToString(year)) == InYearOf(ms, Some(year))
  {
    ParseIntOfIntToString(year);
    assert IntToString(year) != "all" by {
      assert IsDigit(IntToString(year)[|IntToString(year)| - 1]);
    }
  }

  /** The number of matches with result `res`. */
  function CountResult(ms: seq<MatchRecord>, res: MatchResult): (n: nat)
    ensures n <= |ms|
  {
    if ms == [] then 0
    else CountResult(ms[..|ms| - 1], res) + (if ms[|ms| - 1].result == res then 1 else 0)
  }

  lemma {:induction false} CountResultAppend(a: seq<MatchRecord>, b: seq<MatchRecord>, res: MatchResult)
    ensures CountResult(a + b, res) == CountResult(a, res) + CountResult(b, res)
    decreases |b|
  {
    if b == [] {
      assert a + b == a;
    } else {
      assert (a + b)[..|a + b| - 1] == a + b[..|b| - 1];
      CountResultAppend(a, b[..|b| - 1], res);
    }
  }

  /** Every match is a win, a draw or a loss, so the three counts add up to the number of matches. */
  lemma {:induction false} CountsCoverAll(ms: seq<MatchRecord>)
    ensures CountResult(ms, Win) + CountResult(ms, Draw) + CountResult(ms, Loss) == |ms|
  {
    if ms != [] {
      CountsCoverAll(ms[..|ms| - 1]);
    }
  }

  /** The `reduce` that counts each result into a dictionary; a result that never occurs has no key. */
  method TallyResults(ms: seq<MatchRecord>) returns (acc: map<MatchResult, nat>)
    ensures forall res :: res in acc <==> CountResult(ms, res) > 0
    ensures forall res :: res in acc ==> acc[res] == CountResult(ms, res)
  {
    acc := map[];
    var i := 0;
    while i < |ms|
      invariant 0 <= i <= |ms|
      invariant forall res :: res in acc <==> CountResult(ms[..i], res) > 0
      invariant forall res :: res in acc ==> acc[res] == CountResult(ms[..i], res)
    {
      assert ms[..i + 1][..i] == ms[..i];
      var res := ms[i].result;
      acc := acc[res := (if res in acc then acc[res] else 0) + 1];
      i := i + 1;
    }
    assert ms[..|ms|] == ms;
  }

  /** One slice of the donut. */
  datatype Slice = Slice(result: string, matches: nat, fill: string)

  /** The three slices in the order wins, draws, losses. */
  function Slices(ms: seq<MatchRecord>): (r: seq<Slice>)
  {
    [ Slice("wins", CountResult(ms, Win), "var(--color-wins)"),
      Slice("draws", CountResult(ms, Draw), "var(--color-draws)"),
      Slice("losses", CountResult(ms, Loss), "var(--color-losses)") ]
  }

  /** `chartData`: the tally read back with `|| 0` for a result that never occurs. */
  method ChartData(filtered: seq<MatchRecord>) returns (data: seq<Slice>)
    ensures data == Slices(filtered)
    ensures |data| == 3 && data[0].result == "wins" && data[1].result == "draws" && data[2].result == "losses"
  {
    var results := TallyResults(filtered);
    var wins := if Win in results then results[Win] else 0;
    var draws := if Draw in results then results[Draw] else 0;
    var losses := if Loss in results then results[Loss] else 0;
    data := [
      Slice("wins", wins, "var(--color-wins)"),
      Slice("draws", draws, "var(--color-draws)"),
      Slice("losses", losses, "var(--color-losses)")
    ];
  }

  /** `chartData.reduce((acc, curr) => acc + curr.matches, 0)`. */
  function TotalMatches(data: seq<Slice>): (r: nat)
  {
    if data == [] then 0 else TotalMatches(data[..|data| - 1]) + data[|data| - 1].matches
  }

  /** The total in the middle of the donut is the number of filtered matches. */
  lemma TotalIsMatchCount(ms: seq<MatchRecord>)
    ensures TotalMatches(Slices(ms)) == |ms|
  {
    var s := Slices(ms);
    assert s[..2][..1] == [s[0]] && s[..2] == [s[0], s[1]] && s[..1] == [s[0]] && s[..3] == s;
    assert [s[0]][..0] == [];
    calc {
      TotalMatches(s);
      TotalMatches(s[..2]) + s[2].matches;
      TotalMatches(s[..1]) + s[1].matches + s[2].matches;
      s[0].matches + s[1].matches + s[2].matches;
    }
    CountsCoverAll(ms);
  }

  /** On the seed data only 2024 is on offer. */
  lemma SeedYears()
    ensures GetYearsFromMatches(InitialMatches) == [2024]
    ensures ChartYears(InitialMatches) == [AllYears, InYear(2024)]
  {
    var ms := InitialMatches;
    var years := MatchYears(ms);
    var ds := DistinctDescending(years);
    assert years[0] == 2024;
    assert forall x :: x in years <==> x == 2024;
    StrictlyDescendingUnique(ds, [2024]);
    StrictlyDescendingUnique(GetYearsFromMatches(ms), [2024]);
  }

  /** On the seed data, "all" and the option for 2024 both keep every match. */
  lemma SeedFilters()
    ensures FilteredMatches(InitialMatches, "all") == InitialMatches
    ensures FilteredMatches(InitialMatches, IntToString(2024)) == InitialMatches
  {
    var ms := InitialMatches;
    assert forall i :: 0 <= i < |ms| ==> ms[i].matchDate.year == 2024;
    InYearOfAll(ms, 2024);
    FilteredByChosenYear(ms, 2024);
  }

  lemma CountResultCons(m: MatchRecord, ms: seq<MatchRecord>, res: MatchResult)
    ensures CountResult([m] + ms, res) == (if m.result == res then 1 else 0) + CountResult(ms, res)
  {
    CountResultAppend([m], ms, res);
    assert [m][..0] == [];
  }

  /** The seed count of one result, match by match. */
  lemma SeedCount(res: MatchResult)
    ensures var ms := InitialMatches;
            CountResult(ms, res) ==
              (if ms[0].result == res then 1 else 0) + (if ms[1].result == res then 1 else 0)
            + (if ms[2].result == res then 1 else 0) + (if ms[3].result == res then 1 else 0)
            + (if ms[4].result == res then 1 else 0) + (if ms[5].result == res then 1 else 0)
            + (if ms[6].result == res then 1 else 0) + (if ms[7].result == res then 1 else 0)
  {
    var ms := InitialMatches;
    assert ms[8..] == [];
    assert ms[7..] == [ms[7]] + ms[8..];
    CountResultCons(ms[7], ms[8..], res);
    assert ms[6..] == [ms[6]] + ms[7..];
    CountResultCons(ms[6], ms[7..], res);
    assert ms[5..] == [ms[5]] + ms[6..];
    CountResultCons(ms[5], ms[6..], res);
    assert ms[4..] == [ms[4]] + ms[5..];
    CountResultCons(ms[4], ms[5..], res);
    assert ms[3..] == [ms[3]] + ms[4..];
    CountResultCons(ms[3], ms[4..], res);
    assert ms[2..] == [ms[2]] + ms[3..];
    CountResultCons(ms[2], ms[3..], res);
    assert ms[1..] == [ms[1]] + ms[2..];
    CountResultCons(ms[1], ms[2..], res);
    assert ms[0..] == [ms[0]] + ms[1..];
    CountResultCons(ms[0], ms[1..], res);
    assert ms[0..] == ms;
  }

  /** All time, the seed data counts 3 wins, 2 draws and 3 losses out of 8. */
  lemma SeedChart()
    ensures Slices(InitialMatches) == [
      Slice("wins", 3, "var(--color-wins)"),
      Slice("draws", 2, "var(--color-draws)"),
      Slice("losses", 3, "var(--color-losses)") ]
    ensures TotalMatches(Slices(InitialMatches)) == 8
  {
    SeedCount(Win);
    SeedCount(Draw);
    SeedCount(Loss);
    TotalIsMatchCount(InitialMatches);
  }
}
