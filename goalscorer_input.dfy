/**
 * The goalscorer editor of the match form: the running total, adding,
 * removing and editing entries, and the messages that tell the user how far
 * the total is from Volta's score. Each operation yields the list handed to
 * the form through `onChange`.
 */
module GoalscorerEditor {
  import opened Wrappers
  import opened JsText
  import opened Types
  import opened Validations

  /** The entry appended by "Add Scorer": no player yet, one goal. */
  const BlankEntry := GoalscorerInput("", None, 1)

  /** `[...goalscorers, { player_id: '', goals_count: 1 }]`. */
  function AddGoalscorer(gs: seq<GoalscorerInput>): (r: seq<GoalscorerInput>)
    ensures |r| == |gs| + 1 && r[..|gs|] == gs && r[|gs|] == BlankEntry
    ensures SumGoals(r) == SumGoals(gs) + 1
  {
    SumGoalsAppend(gs, [BlankEntry]);
    assert [BlankEntry][..0] == [];
    assert (gs + [BlankEntry])[..|gs|] == gs;
    gs + [BlankEntry]
  }

  /** `filter((_, i) => i !== index)` over the entries numbered from `from`. */
  function FilterOutIndex(gs: seq<GoalscorerInput>, index: int, from: int): (r: seq<GoalscorerInput>)
    ensures from <= index < from + |gs| ==>
      && |r| == |gs| - 1
      && (forall j :: 0 <= j < index - from ==> r[j] == gs[j])
      && (forall j :: index - from <= j < |r| ==> r[j] == gs[j + 1])
    ensures !(from <= index < from + |gs|) ==> r == gs
    decreases |gs|
  {
    if gs == [] then []
    else (if from == index then [] else [gs[0]]) + FilterOutIndex(gs[1..], index, from + 1)
  }

  /** Deletes entry `index`; the others keep their order. Any other index changes nothing. */
  function RemoveGoalscorer(gs: seq<GoalscorerInput>, index: int): (r: seq<GoalscorerInput>)
    ensures 0 <= index < |gs| ==> r == gs[..index] + gs[index + 1..]
    ensures !(0 <= index < |gs|) ==> r == gs
  {
    var r := FilterOutIndex(gs, index, 0);
    assert 0 <= index < |gs| ==> r == gs[..index] + gs[index + 1..];
    r
  }

  /** Removing an entry takes its goals off the total. */
  lemma RemoveGoalscorerTotal(gs: seq<GoalscorerInput>, index: int)
    requires 0 <= index < |gs|
    ensures SumGoals(RemoveGoalscorer(gs, index)) == SumGoals(gs) - gs[index].goalsCount
  {
    var a, g, b := gs[..index], gs[index], gs[index + 1..];
    var r := RemoveGoalscorer(gs, index);
    SplitAtIndex(gs, index);
    SumGoalsSplit(a, g, b);
    assert SumGoals(gs) == SumGoals(r) + g.goalsCount;
  }

  lemma SplitAtIndex(gs: seq<GoalscorerInput>, index: int)
    requires 0 <= index < |gs|
    ensures gs == gs[..index] + ([gs[index]] + gs[index + 1..])
  {
  }

  lemma SumGoalsSplit(a: seq<GoalscorerInput>, g: GoalscorerInput, b: seq<GoalscorerInput>)
    ensures SumGoals(a + ([g] + b)) == SumGoals(a + b) + g.goalsCount
  {
    SumGoalsAppend(a, [g] + b);
    SumGoalsCons(g, b);
    SumGoalsAppend(a, b);
  }

  /** The field and the value of `updateGoalscorer(index, field, value)`. */
  datatype FieldUpdate =
    | SetPlayerId(id: string)
    | SetPlayerName(name: Option<string>)
    | SetGoalsCount(count: int)

  /** `{ ...entry, [field]: value }`: the named field takes the value, the others are kept. */
  function WithField(g: GoalscorerInput, u: FieldUpdate): (r: GoalscorerInput)
    ensures r.playerId == (if u.SetPlayerId? then u.id else g.playerId)
    ensures r.playerName == (if u.SetPlayerName? then u.name else g.playerName)
    ensures r.goalsCount == (if u.SetGoalsCount? then u.count else g.goalsCount)
  {
    match u
    case SetPlayerId(id) => g.(playerId := id)
    case SetPlayerName(name) => g.(playerName := name)
    case SetGoalsCount(count) => g.(goalsCount := count)
  }

  /**
   * Copies the list and assigns the edited entry in place. The index always
   * comes from the entry being rendered, so it is in range.
   */
  method UpdateGoalscorer(gs: seq<GoalscorerInput>, index: int, u: FieldUpdate) returns (updated: seq<GoalscorerInput>)
    requires 0 <= index < |gs|
    ensures |updated| == |gs|
    ensures updated[index] == WithField(gs[index], u)
    ensures forall j :: 0 <= j < |gs| && j != index ==> updated[j] == gs[j]
  {
    var copy := new GoalscorerInput[|gs|](i requires 0 <= i < |gs| => gs[i]);
    copy[index] := WithField(copy[index], u);
    updated := copy[..];
  }

  /** `players.find((p) => p.id === id)`: the first player with that id. */
  function FindPlayer(players: seq<Player>, id: string): (r: Option<Player>)
    ensures r.Some? ==>
      exists i :: 0 <= i < |players| && players[i] == r.value
        && r.value.id == id && forall j :: 0 <= j < i ==> players[j].id != id
    ensures r.None? ==> forall j :: 0 <= j < |players| ==> players[j].id != id
  {
    if players == [] then None
    else if players[0].id == id then Some(players[0])
    else
      var r := FindPlayer(players[1..], id);
      assert r.Some? ==> exists i :: 0 <= i < |players| && players[i] == r.value
                          && r.value.id == id && forall j :: 0 <= j < i ==> players[j].id != id by {
        if r.Some? {
          var i :| 0 <= i < |players[1..]| && players[1..][i] == r.value
                   && forall j :: 0 <= j < i ==> players[1..][j].id != id;
          assert players[i + 1] == r.value;
          assert forall j :: 0 <= j < i + 1 ==> players[j].id != id by {
            forall j | 0 <= j < i + 1 ensures players[j].id != id {
              if j > 0 { assert players[j] == players[1..][j - 1]; }
            }
          }
        }
      }
      assert r.None? ==> forall j :: 0 <= j < |players| ==> players[j].id != id by {
        if r.None? {
          forall j | 0 <= j < |players| ensures players[j].id != id {
            if j > 0 { assert players[j] == players[1..][j - 1]; }
          }
        }
      }
      r
  }

  /** The name `player?.name` recorded for a chosen id: None when no listed player has it. */
  function SelectedName(players: seq<Player>, id: string): (r: Option<string>)
    ensures r.None? <==> forall j :: 0 <= j < |players| ==> players[j].id != id
    ensures r.Some? ==> exists i :: 0 <= i < |players| && players[i].id == id && players[i].name == r.value
                          && forall j :: 0 <= j < i ==> players[j].id != id
  {
    match FindPlayer(players, id)
    case Some(p) => Some(p.name)
    case None => None
  }

  /** Choosing a player for entry `index` sets its id and name and keeps its goals; other entries are kept. */
  method SelectPlayer(gs: seq<GoalscorerInput>, index: int, value: string, players: seq<Player>)
    returns (updated: seq<GoalscorerInput>)
    requires 0 <= index < |gs|
    ensures |updated| == |gs|
    ensures updated[index].playerId == value
    ensures updated[index].playerName == SelectedName(players, value)
    ensures updated[index].goalsCount == gs[index].goalsCount
    ensures forall j :: 0 <= j < |gs| && j != index ==> updated[j] == gs[j]
  {
    var player := FindPlayer(players, value);
    var copy := new GoalscorerInput[|gs|](i requires 0 <= i < |gs| => gs[i]);
    copy[index] := copy[index].(playerId := value, playerName := if player.Some? then Some(player.value.name) else None);
    updated := copy[..];
  }

  /**
   * `parseInt(text) || 1`: the goals typed into an entry, with 1 in place of
   * an unreadable text (NaN) or zero.
   */
  function GoalsFromInput(text: string): (n: int)
    ensures n != 0
    ensures ParseInt(text).None? ==> n == 1
    ensures ParseInt(text).Some? ==> n == (if ParseInt(text).value == 0 then 1 else ParseInt(text).value)
  {
    match ParseInt(text)
    case None => 1
    case Some(v) => if v == 0 then 1 else v
  }

  /** A typed non-zero whole number is taken as it is; "0" becomes 1. */
  lemma GoalsFromWrittenNumber(k: int)
    ensures GoalsFromInput(IntToString(k)) == (if k == 0 then 1 else k)
  {
    ParseIntOfIntToString(k);
  }

  /** Typing into the goals box of entry `index`. */
  method EnterGoals(gs: seq<GoalscorerInput>, index: int, text: string) returns (updated: seq<GoalscorerInput>)
    requires 0 <= index < |gs|
    ensures |updated| == |gs|
    ensures updated[index] == gs[index].(goalsCount := GoalsFromInput(text))
    ensures forall j :: 0 <= j < |gs| && j != index ==> updated[j] == gs[j]
  {
    updated := UpdateGoalscorer(gs, index, SetGoalsCount(GoalsFromInput(text)));
  }

  /** "Add Scorer" is shown only when Volta scored. */
  predicate AddScorerShown(requiredTotal: int) { requiredTotal > 0 }

  /** `disabled={currentTotal >= requiredTotal}`. */
  predicate AddScorerEnabled(currentTotal: int, requiredTotal: int) { !(currentTotal >= requiredTotal) }

  /** Where the running total stands against Volta's score. */
  datatype GoalStatus = NotRequired | Short(missing: int) | Over(excess: int) | Matched

  function Status(currentTotal: int, requiredTotal: int): (s: GoalStatus)
    ensures s.NotRequired? <==> requiredTotal <= 0
    ensures s.Short? ==> s.missing > 0 && currentTotal + s.missing == requiredTotal
    ensures s.Over? ==> s.excess > 0 && currentTotal - s.excess == requiredTotal
    ensures s.Matched? <==> requiredTotal > 0 && currentTotal == requiredTotal
  {
    if requiredTotal <= 0 then NotRequired
    else if currentTotal < requiredTotal then Short(requiredTotal - currentTotal)
    else if currentTotal > requiredTotal then Over(currentTotal - requiredTotal)
    else Matched
  }

  function Plural(d: int): string { if d > 1 then "s" else "" }

  /** The amber remediation message, if any. */
  function RemediationMessage(s: GoalStatus): (r: Option<string>)
  {
    match s
    case Short(d) => Some("Need " + IntToString(d) + " more goal" + Plural(d))
    case Over(d) => Some("Remove " + IntToString(d) + " goal" + Plural(d))
    case _ => None
  }

  /** The green "Total matches Volta FT score" message is shown. */
  predicate SuccessShown(currentTotal: int, requiredTotal: int)
  {
    currentTotal == requiredTotal && requiredTotal > 0
  }

  /**
   * The remediation message appears exactly when Volta scored and the total
   * is off; the success message exactly when it is right; never both.
   */
  lemma MessagesShown(currentTotal: int, requiredTotal: int)
    ensures RemediationMessage(Status(currentTotal, requiredTotal)).Some? <==>
      requiredTotal > 0 && currentTotal != requiredTotal
    ensures SuccessShown(currentTotal, requiredTotal) <==> Status(currentTotal, requiredTotal) == Matched
    ensures !(SuccessShown(currentTotal, requiredTotal) && RemediationMessage(Status(currentTotal, requiredTotal)).Some?)
  {
  }

  /**
   * The message names the gap: the number right after its first word is the
   * difference between the totals, and the word "goal" takes an 's' exactly
   * when that difference exceeds one.
   */
  lemma RemediationStatesGap(currentTotal: int, requiredTotal: int)
    requires requiredTotal > 0 && currentTotal != requiredTotal
    ensures var m := RemediationMessage(Status(currentTotal, requiredTotal)).value;
            var d := if currentTotal < requiredTotal then requiredTotal - currentTotal else currentTotal - requiredTotal;
            var word := if currentTotal < requiredTotal then "Need " else "Remove ";
            && m[..|word|] == word
            && ParseInt(m[|word|..]) == Some(d)
            && (m[|m| - 1] == 's' <==> d > 1)
  {
    var s := Status(currentTotal, requiredTotal);
    var d: nat := if s.Short? then s.missing else s.excess;
    var word := if s.Short? then "Need " else "Remove ";
    var tail := if s.Short? then " more goal" + Plural(d) else " goal" + Plural(d);
    var m := RemediationMessage(s).value;
    assert m == word + (NatToString(d) + tail);
    assert m[|word|..] == NatToString(d) + tail;
    ParseIntOfNumberThen(d, tail);
  }

  /** While Volta scored, "Add Scorer" is enabled exactly when goals are still missing. */
  lemma AddEnabledIffShort(currentTotal: int, requiredTotal: int)
    requires AddScorerShown(requiredTotal)
    ensures AddScorerEnabled(currentTotal, requiredTotal) <==> Status(currentTotal, requiredTotal).Short?
  {
  }

  /** For a positive score the editor's "matched" state is the form's goal-sum rule. */
  lemma MatchedIffGoalTotal(voltaScore: int, gs: seq<GoalscorerInput>)
    requires voltaScore > 0
    ensures Status(SumGoals(gs), voltaScore) == Matched <==> GoalTotalMatches(voltaScore, gs)
  {
  }
}
