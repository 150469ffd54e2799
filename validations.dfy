/**
 * The match form's validity rules and the player-name rule, as predicates
 * over a candidate record. The clock is the parameter `today`.
 */
module Validations {
  import opened Wrappers
  import opened JsText
  import opened Types
  import opened Dates
  import opened Calculations

  /** The values the match form submits. */
  datatype MatchFormValues = MatchFormValues(
    matchDate: string,
    oppositionTeam: string,
    voltaScore: int,
    oppositionScore: int,
    goalscorers: seq<GoalscorerInput>)

  /**
   * The date is present and not after today. A string that does not read as
   * a date is an invalid date, which compares false and so fails the rule.
   */
  predicate MatchDateValid(s: string, today: Date)
  {
    |s| >= 1 && ParseIsoDate(s).Some? && DateLe(ParseIsoDate(s).value, today)
  }

  /** For a written date the rule is exactly "not in the future". */
  lemma MatchDateValidOfWrittenDate(d: Date, today: Date)
    requires WellFormed(d)
    ensures MatchDateValid(FormatIsoDate(d), today) <==> DateLe(d, today)
  {
    ParseFormatIsoDate(d);
  }

  /** The team name is 1 to 100 long, as JavaScript counts length: in UTF-16 code units. */
  predicate OppositionTeamValid(s: string) { 1 <= Utf16Length(s) <= 100 }

  /** A name of 51 emoji is 102 code units long and so too long, though it has only 51 characters. */
  lemma AstralTeamNameTooLong(s: string)
    requires s == seq(51, _ => '\U{1F600}')
    ensures |s| == 51 && Utf16Length(s) == 102
    ensures !OppositionTeamValid(s)
  {
    assert forall i :: 0 <= i < |s| ==> !InBmp(s[i]);
  }

  /** A whole number at least 0 (integrality is carried by the type). */
  predicate ScoreValid(x: int) { x >= 0 }

  predicate GoalscorerValid(g: GoalscorerInput)
  {
    |g.playerId| >= 1 && 1 <= g.goalsCount <= 20
  }

  function PlayerIds(gs: seq<GoalscorerInput>): seq<string>
  {
    seq(|gs|, i requires 0 <= i < |gs| => gs[i].playerId)
  }

  /** `new Set(ids)`. */
  function Elements(ids: seq<string>): (r: set<string>)
    ensures forall x :: x in r <==> x in ids
  {
    if ids == [] then {} else {ids[0]} + Elements(ids[1..])
  }

  /** The duplicate rule as the schema writes it: the id list is as long as its set. */
  predicate NoDuplicatePlayers(gs: seq<GoalscorerInput>)
  {
    |PlayerIds(gs)| == |Elements(PlayerIds(gs))|
  }

  predicate PairwiseDistinct(ids: seq<string>)
  {
    forall i, j :: 0 <= i < j < |ids| ==> ids[i] != ids[j]
  }

  lemma DistinctCons(ids: seq<string>)
    requires ids != []
    ensures PairwiseDistinct(ids) <==> ids[0] !in ids[1..] && PairwiseDistinct(ids[1..])
  {
    var rest := ids[1..];
    if ids[0] !in rest && PairwiseDistinct(rest) {
      forall i, j | 0 <= i < j < |ids| ensures ids[i] != ids[j] {
        assert ids[j] == rest[j - 1];
        if i > 0 {
          assert ids[i] == rest[i - 1];
        }
      }
    }
    if PairwiseDistinct(ids) {
      forall i, j | 0 <= i < j < |rest| ensures rest[i] != rest[j] {
        assert rest[i] == ids[i + 1] && rest[j] == ids[j + 1];
      }
    }
  }

  lemma {:induction false} ElementsSize(ids: seq<string>)
    ensures |Elements(ids)| <= |ids|
    ensures |Elements(ids)| == |ids| <==> PairwiseDistinct(ids)
    decreases |ids|
  {
    if ids != [] {
      var rest := ids[1..];
      ElementsSize(rest);
      DistinctCons(ids);
      if ids[0] in rest {
        assert Elements(ids) == Elements(rest);
      } else {
        assert ids[0] !in Elements(rest);
        assert |Elements(ids)| == 1 + |Elements(rest)|;
      }
    }
  }

  /** The duplicate rule holds exactly when the player ids are pairwise distinct. */
  lemma NoDuplicatePlayersIffDistinct(gs: seq<GoalscorerInput>)
    ensures NoDuplicatePlayers(gs) <==>
      forall i, j :: 0 <= i < j < |gs| ==> gs[i].playerId != gs[j].playerId
  {
    var ids := PlayerIds(gs);
    ElementsSize(ids);
    assert PairwiseDistinct(ids) <==> forall i, j :: 0 <= i < j < |gs| ==> gs[i].playerId != gs[j].playerId by {
      assert forall i :: 0 <= i < |gs| ==> ids[i] == gs[i].playerId;
    }
  }

  /** `goalscorers.reduce((sum, gs) => sum + gs.goals_count, 0)`, folded from the left. */
  function SumGoals(gs: seq<GoalscorerInput>): (r: int)
  {
    if gs == [] then 0 else SumGoals(gs[..|gs| - 1]) + gs[|gs| - 1].goalsCount
  }

  lemma {:induction false} SumGoalsAppend(a: seq<GoalscorerInput>, b: seq<GoalscorerInput>)
    ensures SumGoals(a + b) == SumGoals(a) + SumGoals(b)
    decreases |b|
  {
    if b == [] {
      assert a + b == a;
    } else {
      assert (a + b)[..|a + b| - 1] == a + b[..|b| - 1];
      SumGoalsAppend(a, b[..|b| - 1]);
    }
  }

  /** The total is the sum of the entries counted one by one. */
  lemma {:induction false} SumGoalsCons(g: GoalscorerInput, gs: seq<GoalscorerInput>)
    ensures SumGoals([g] + gs) == g.goalsCount + SumGoals(gs)
  {
    SumGoalsAppend([g], gs);
    assert [g][..0] == [];
  }

  /** Volta scored nothing and no scorer is listed, or the goals add up to Volta's score. */
  predicate GoalTotalMatches(voltaScore: int, gs: seq<GoalscorerInput>)
  {
    if voltaScore == 0 then |gs| == 0 else SumGoals(gs) == voltaScore
  }

  predicate AllGoalscorersValid(gs: seq<GoalscorerInput>)
  {
    forall i :: 0 <= i < |gs| ==> GoalscorerValid(gs[i])
  }

  /** Every rule of the match form holds. */
  predicate ValidMatchForm(f: MatchFormValues, today: Date)
  {
    && MatchDateValid(f.matchDate, today)
    && OppositionTeamValid(f.oppositionTeam)
    && ScoreValid(f.voltaScore)
    && ScoreValid(f.oppositionScore)
    && AllGoalscorersValid(f.goalscorers)
    && NoDuplicatePlayers(f.goalscorers)
    && GoalTotalMatches(f.voltaScore, f.goalscorers)
  }

  lemma {:induction false} SumGoalsBounds(gs: seq<GoalscorerInput>)
    requires AllGoalscorersValid(gs)
    ensures |gs| <= SumGoals(gs) <= 20 * |gs|
    decreases |gs|
  {
    if gs != [] {
      SumGoalsBounds(gs[..|gs| - 1]);
    }
  }

  /**
   * In a valid record Volta's score lies between the number of scorers and
   * twenty times that number, and a positive score has at least one scorer.
   */
  lemma ValidFormGoalBounds(f: MatchFormValues, today: Date)
    requires ValidMatchForm(f, today)
    ensures |f.goalscorers| <= f.voltaScore <= 20 * |f.goalscorers|
    ensures f.voltaScore > 0 ==> f.goalscorers != []
    ensures SumGoals(f.goalscorers) == f.voltaScore
  {
    SumGoalsBounds(f.goalscorers);
  }

  datatype ScoreField = VoltaScore | OppositionScore

  /** One broken rule; `delta` is how many goals are missing (negative: in excess). */
  datatype Violation =
    | DateRequired
    | FutureDate
    | TeamRequired
    | TeamTooLong
    | NegativeScore(field: ScoreField)
    | InvalidGoalscorer(index: nat)
    | DuplicatePlayer
    | GoalSumMismatch(delta: int)

  /** The per-entry reports: entry k, counted from `from`, is reported when it breaks the entry rules. */
  function GoalscorerViolations(gs: seq<GoalscorerInput>, from: nat): (r: set<Violation>)
    ensures forall v :: v in r ==> v.InvalidGoalscorer?
    ensures forall k: nat :: InvalidGoalscorer(k) in r <==> from <= k < from + |gs| && !GoalscorerValid(gs[k - from])
    decreases |gs|
  {
    if gs == [] then {}
    else (if GoalscorerValid(gs[0]) then {} else {InvalidGoalscorer(from)}) + GoalscorerViolations(gs[1..], from + 1)
  }

  /** Which rules a form breaks; `goalGap` is the goal-sum delta when that rule is broken. */
  datatype RuleOutcome = RuleOutcome(
    dateMissing: bool,
    dateInvalid: bool,
    teamEmpty: bool,
    teamTooLong: bool,
    voltaNegative: bool,
    oppositionNegative: bool,
    entryReports: set<Violation>,
    duplicate: bool,
    goalGap: Option<int>)

  /** The outcome of every rule of the form, each evaluated on its own. */
  function Outcome(f: MatchFormValues, today: Date): (o: RuleOutcome)
    ensures forall v :: v in o.entryReports ==> v.InvalidGoalscorer?
  {
    RuleOutcome(
      |f.matchDate| == 0,
      !MatchDateValid(f.matchDate, today),
      Utf16Length(f.oppositionTeam) == 0,
      Utf16Length(f.oppositionTeam) > 100,
      !ScoreValid(f.voltaScore),
      !ScoreValid(f.oppositionScore),
      GoalscorerViolations(f.goalscorers, 0),
      !NoDuplicatePlayers(f.goalscorers),
      if GoalTotalMatches(f.voltaScore, f.goalscorers) then None
      else Some(f.voltaScore - SumGoals(f.goalscorers)))
  }

  /** One report per broken rule. */
  function Reports(o: RuleOutcome): (r: set<Violation>)
  {
    (if o.dateMissing then {DateRequired} else {})
    + (if o.dateInvalid then {FutureDate} else {})
    + (if o.teamEmpty then {TeamRequired} else {})
    + (if o.teamTooLong then {TeamTooLong} else {})
    + (if o.voltaNegative then {NegativeScore(VoltaScore)} else {})
    + (if o.oppositionNegative then {NegativeScore(OppositionScore)} else {})
    + o.entryReports
    + (if o.duplicate then {DuplicatePlayer} else {})
    + (match o.goalGap case None => {} case Some(d) => {GoalSumMismatch(d)})
  }

  /** The outcome marks the rule that report `v` stands for as broken. */
  predicate Marked(o: RuleOutcome, v: Violation)
  {
    match v
    case DateRequired => o.dateMissing
    case FutureDate => o.dateInvalid
    case TeamRequired => o.teamEmpty
    case TeamTooLong => o.teamTooLong
    case NegativeScore(VoltaScore) => o.voltaNegative
    case NegativeScore(OppositionScore) => o.oppositionNegative
    case InvalidGoalscorer(_) => v in o.entryReports
    case DuplicatePlayer => o.duplicate
    case GoalSumMismatch(d) => o.goalGap == Some(d)
  }

  /** A report is present exactly when its rule is marked broken. */
  lemma ReportedIffMarked(o: RuleOutcome, v: Violation)
    requires forall w :: w in o.entryReports ==> w.InvalidGoalscorer?
    ensures v in Reports(o) <==> Marked(o, v)
  {
    if !v.InvalidGoalscorer? {
      assert v !in o.entryReports;
    }
  }

  /**
   * Every broken rule of the form, each reported, so that all of them can be
   * shown at once; the order of the reports is not significant.
   */
  function Violations(f: MatchFormValues, today: Date): (r: set<Violation>)
  {
    Reports(Outcome(f, today))
  }

  /** The rule each kind of report stands for is broken by the form. */
  predicate RuleBroken(f: MatchFormValues, today: Date, v: Violation)
  {
    match v
    case DateRequired => |f.matchDate| == 0
    case FutureDate => !MatchDateValid(f.matchDate, today)
    case TeamRequired => Utf16Length(f.oppositionTeam) == 0
    case TeamTooLong => Utf16Length(f.oppositionTeam) > 100
    case NegativeScore(VoltaScore) => f.voltaScore < 0
    case NegativeScore(OppositionScore) => f.oppositionScore < 0
    case InvalidGoalscorer(k) => k < |f.goalscorers| && !GoalscorerValid(f.goalscorers[k])
    case DuplicatePlayer => !NoDuplicatePlayers(f.goalscorers)
    case GoalSumMismatch(d) =>
      !GoalTotalMatches(f.voltaScore, f.goalscorers) && d == f.voltaScore - SumGoals(f.goalscorers)
  }

  /** The outcome marks a rule exactly when the form breaks it. */
  lemma OutcomeMarksBroken(f: MatchFormValues, today: Date, v: Violation)
    ensures Marked(Outcome(f, today), v) <==> RuleBroken(f, today, v)
  {
  }

  /**
   * A report is present exactly when the rule it stands for is broken, so a
   * form with several broken rules shows every one of them at once, and a
   * goal-sum report carries the number of goals still missing.
   */
  lemma ViolationsComplete(f: MatchFormValues, today: Date)
    ensures forall v :: v in Violations(f, today) <==> RuleBroken(f, today, v)
  {
    forall v ensures v in Violations(f, today) <==> RuleBroken(f, today, v) {
      ReportedIffMarked(Outcome(f, today), v);
      OutcomeMarksBroken(f, today, v);
    }
  }

  /** No violation is reported exactly when every rule holds. */
  lemma ViolationsEmptyIffValid(f: MatchFormValues, today: Date)
    ensures Violations(f, today) == {} <==> ValidMatchForm(f, today)
  {
    var gs := f.goalscorers;
    var gv := GoalscorerViolations(gs, 0);
    assert gv == {} <==> AllGoalscorersValid(gs) by {
      if gv == {} {
        forall i | 0 <= i < |gs| ensures GoalscorerValid(gs[i]) {
          assert InvalidGoalscorer(i) !in gv;
        }
      } else {
        var v :| v in gv;
        assert !GoalscorerValid(gs[v.index]);
      }
    }
  }

  /** A repeated player is always reported, whatever else is wrong or right. */
  lemma DuplicateAlwaysReported(f: MatchFormValues, today: Date, i: nat, j: nat)
    requires i < j < |f.goalscorers| && f.goalscorers[i].playerId == f.goalscorers[j].playerId
    ensures DuplicatePlayer in Violations(f, today)
    ensures !ValidMatchForm(f, today)
  {
    NoDuplicatePlayersIffDistinct(f.goalscorers);
  }

  /**
   * A submitted form: its violations, or the result derived from its scores,
   * which is what the store receives as `result`.
   */
  function Submit(f: MatchFormValues, today: Date): (r: Result<MatchResult, set<Violation>>)
    ensures r.Ok? <==> ValidMatchForm(f, today)
    ensures r.Ok? ==> r.value == CalculateResult(f.voltaScore, f.oppositionScore)
    ensures r.Err? ==> r.error != {} && r.error == Violations(f, today)
  {
    ViolationsEmptyIffValid(f, today);
    if ValidMatchForm(f, today) then Ok(CalculateResult(f.voltaScore, f.oppositionScore))
    else Err(Violations(f, today))
  }

  /** The characters `[a-zA-Z\s'-]` of a player name. */
  predicate IsNameChar(c: char)
  {
    ('a' <= c <= 'z') || ('A' <= c <= 'Z') || IsJsWhitespace(c) || c == '\'' || c == '-'
  }

  /** `^[a-zA-Z\s'-]+$`: one name character, then the rest of the pattern or the end. */
  predicate MatchesNamePattern(s: string)
  {
    |s| >= 1 && IsNameChar(s[0]) && (|s| == 1 || MatchesNamePattern(s[1..]))
  }

  lemma {:induction false} MatchesNamePatternIff(s: string)
    ensures MatchesNamePattern(s) <==> s != [] && forall i :: 0 <= i < |s| ==> IsNameChar(s[i])
    decreases |s|
  {
    if |s| > 1 {
      MatchesNamePatternIff(s[1..]);
      assert forall i :: 1 <= i < |s| ==> s[i] == s[1..][i - 1];
    }
  }

  /** The player form's name rule. */
  predicate PlayerNameValid(name: string)
  {
    1 <= Utf16Length(name) <= 100 && MatchesNamePattern(name)
  }

  /** A valid name is 1 to 100 characters, each a letter, white space, an apostrophe or a hyphen. */
  lemma PlayerNameValidIff(name: string)
    ensures PlayerNameValid(name) <==>
      1 <= |name| <= 100 && forall i :: 0 <= i < |name| ==> IsNameChar(name[i])
  {
    MatchesNamePatternIff(name);
    if forall i :: 0 <= i < |name| ==> IsNameChar(name[i]) {
      assert forall i :: 0 <= i < |name| ==> InBmp(name[i]);
    }
  }

  const ScenarioToday := Date(2024, 12, 31)

  function ScenarioForm(volta: int, opposition: int, gs: seq<GoalscorerInput>): MatchFormValues
  {
    MatchFormValues("2024-03-15", "Berserker", volta, opposition, gs)
  }

  lemma ScenarioDate()
    ensures ParseIsoDate("2024-03-15") == Some(Date(2024, 3, 15))
  {
    var s := "2024-03-15";
    var y, m, d := s[..4], s[5..7], s[8..];
    assert y == ['2', '0', '2', '4'] && m == ['0', '3'] && d == ['1', '5'];
    DecimalValueOfFourDigits(y);
    DecimalValueOfTwoDigits(m);
    DecimalValueOfTwoDigits(d);
  }

  lemma ScenarioWinIsValid()
    ensures ValidMatchForm(ScenarioForm(11, 4, [GoalscorerInput("p1", None, 4), GoalscorerInput("p2", None, 7)]), ScenarioToday)
  {
    ScenarioDate();
    var gs := [GoalscorerInput("p1", None, 4), GoalscorerInput("p2", None, 7)];
    var f := ScenarioForm(11, 4, gs);
    assert gs[..1] == [gs[0]] && gs[..1][..0] == [];
    assert SumGoals(gs) == 11;
    assert "p1" != "p2" by { assert "p1"[1] != "p2"[1]; }
    NoDuplicatePlayersIffDistinct(gs);
    assert MatchDateValid(f.matchDate, ScenarioToday);
    assert AllGoalscorersValid(gs);
  }

  /** 11-4 with scorers 4 and 7: accepted, a Win, shown as "11-4". */
  lemma ScenarioWin(f: MatchFormValues)
    requires f == ScenarioForm(11, 4, [GoalscorerInput("p1", None, 4), GoalscorerInput("p2", None, 7)])
    ensures Submit(f, ScenarioToday) == Ok(Win)
    ensures FormatScore(f.voltaScore, f.oppositionScore) == "11-4"
  {
    ScenarioWinIsValid();
    assert NatToString(11) == "11" && NatToString(4) == "4";
  }

  /**
   * 8-8 with no scorers, whatever the date and team: rejected with eight
   * goals missing, although the scores alone give a Draw.
   */
  lemma ScenarioDrawWithoutScorers(f: MatchFormValues, today: Date)
    requires f.voltaScore == 8 && f.oppositionScore == 8 && f.goalscorers == []
    ensures GoalSumMismatch(8) in Violations(f, today)
    ensures Submit(f, today).Err?
    ensures CalculateResult(f.voltaScore, f.oppositionScore) == Draw
  {
    assert !GoalTotalMatches(8, []);
    ReportedIffMarked(Outcome(f, today), GoalSumMismatch(8));
    OutcomeMarksBroken(f, today, GoalSumMismatch(8));
  }

  /** 0-3 with no scorers: accepted, a Loss. */
  lemma ScenarioScorelessLoss()
    ensures Submit(ScenarioForm(0, 3, []), ScenarioToday) == Ok(Loss)
  {
    ScenarioDate();
    assert Elements(PlayerIds([])) == {};
  }

  /** 5 goals split 3 and 2 by the same player: rejected as a duplicate though the total is right. */
  lemma ScenarioDuplicateScorer()
    ensures var f := ScenarioForm(5, 0, [GoalscorerInput("p1", None, 3), GoalscorerInput("p1", None, 2)]);
            DuplicatePlayer in Violations(f, ScenarioToday) && GoalTotalMatches(5, f.goalscorers)
  {
    var gs := [GoalscorerInput("p1", None, 3), GoalscorerInput("p1", None, 2)];
    assert gs[..1] == [gs[0]] && gs[..1][..0] == [];
    DuplicateAlwaysReported(ScenarioForm(5, 0, gs), ScenarioToday, 0, 1);
  }
}
