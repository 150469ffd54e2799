/**
 * The entities of the front-end. Two record shapes for a match coexist in
 * the repository and are kept apart here: `MatchRecord` is the store/seed
 * shape (`match_date`, `volta_score`, `result: Win | Draw | Loss`) and
 * `Match` is the table-row shape (`date`, `opponent`, `score`,
 * `result: W | D | L`, `scorers`).
 */
module Types {
  import opened Wrappers

  /** A calendar day, as read from a `YYYY-MM-DD` string. */
  datatype Date = Date(year: int, month: int, day: int)

  datatype MatchResult = Win | Draw | Loss

  /** A stored match (and the seed list's element). Timestamps are not modelled. */
  datatype MatchRecord = MatchRecord(
    id: string,
    matchDate: Date,
    oppositionTeam: string,
    voltaScore: int,
    oppositionScore: int,
    result: MatchResult)

  datatype ResultCode = W | D | L

  /** A row of the match table. */
  datatype Match = Match(
    id: string,
    date: Date,
    opponent: string,
    score: string,
    result: ResultCode,
    scorers: string)

  /** One entry of the goalscorer editor: `{player_id, player_name?, goals_count}`. */
  datatype GoalscorerInput = GoalscorerInput(playerId: string, playerName: Option<string>, goalsCount: int)

  datatype Player = Player(id: string, name: string)

  /** A goal row joined with its player, as `formatGoalscorers` receives it. */
  datatype MatchGoal = MatchGoal(playerName: string, goalsCount: int)

  /** An option of a year drop-down: "all" or one year. */
  datatype YearOption = AllYears | InYear(year: int)
}
