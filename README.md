# Volta FT match tracker: a Dafny model of the front-end core

This project models the logic of the Volta FT match tracker's web front end
and proves properties of it. The model covers:

- the derived fields and display strings of a match (`src/lib/calculations.ts`);
- the validation rules of the match form and the player form (`src/lib/validations.ts`);
- the goalscorer editor (`src/components/GoalscorerInput.tsx`);
- the pagination bar and year choices of the match table (`src/components/DataTable.tsx`);
- the filter bar with its URL parameters (`src/components/MatchFilters.tsx`);
- the in-memory match list page (`src/components/MatchResults.tsx`);
- the results donut (`src/components/MatchResultsDonutChart.tsx`).

Modules, one concept each:

- `Wrappers`: `Option` and `Result`.
- `JsText`: the parts of JavaScript's text semantics the code relies on.
  These are integer printing (`${n}`, `toString()`), `parseInt` with the
  default radix (`None` stands for `NaN`), and the white-space class that
  `\s` and `parseInt` share.
- `Types`: the entities. There are two match shapes. `MatchRecord` is the
  store and seed shape (`match_date`, scores, `Win | Draw | Loss`). `Match`
  is the table-row shape of `src/types/index.ts` (`date`, `opponent`,
  `score`, `W | D | L`, `scorers`).
- `Dates`: `YYYY-MM-DD` dates read as `(year, month, day)`, and their order.
- `Calculations`, `Constants` (the eight seed matches), `Validations`,
  `GoalscorerEditor`, `DataTable`, `MatchFilters`, `MatchResults` and
  `DonutChart`: one module per source file.

Code that builds its result step by step is written as methods proved
against a specification function. Three of them are loops:

- `GetPageNumbers` pushes onto a list.
- `RemoveUndefined` deletes keys in a `forEach`.
- `TallyResults` increments a dictionary in a `reduce`.

`UpdateGoalscorer` and `SelectPlayer` have no loop: they copy an array and
assign one slot.

Component state that setters replace is a class with those fields:

- `MatchFilters.FilterBar` holds the filter map, the URL parameters and the
  search text.
- `MatchResults.MatchPage` holds `matches`, `dialogOpen` and `editingMatch`.

Outside inputs are parameters:

- the current day, `today`;
- the player list;
- the user's answer to the delete confirmation, `confirmed`;
- the text typed into an input.

Where the code and its documentation differ, the model follows the code:

- The seed list in `src/constants/index.ts` is declared as `Match[]`, but
  its records have the store shape. They are modelled as `MatchRecord`,
  which is how the donut chart reads them (`match_date`).
- `MatchPage` keeps rows of the declared `Match` shape.
- The goal-sum rule for a score of 0 demands an empty goalscorer list. It
  does not just demand a zero total.
- `playerFormSchema`'s `\s` admits every ECMAScript white-space and
  line-terminator character, not only the space.

## Model

| member | source | states |
|---|---|---|
| Calculations.CalculateResult | src/lib/calculations.ts:4-11 | Win exactly when Volta's score is higher, Draw exactly when the scores are equal, Loss exactly when it is lower |
| Calculations.SwappedScores | src/lib/calculations.ts:8-10 | swapping the two scores turns Win into Loss and Loss into Win, and keeps Draw |
| Calculations.FormatScore | src/lib/calculations.ts:28-30 | the score text `${volta}-${opposition}`; what it means is stated by FormatScoreSplit and FormatScoreInjective |
| Calculations.FormatScoreSplit | src/lib/calculations.ts:28-30 | the score text of two non-negative scores has exactly one '-', and the digits before and after it read back as the two scores |
| Calculations.FormatScoreInjective | src/lib/calculations.ts:28-30 | different non-negative score pairs give different score texts |
| Calculations.MonthAbbrev | src/lib/calculations.ts:18-22 | the en-US short name of a month, three letters long |
| Calculations.FormatMatchDate | src/lib/calculations.ts:16-23 | the en-US "Mon D, YYYY" text of a day; FormatMatchDateInjective states that it determines the day |
| Calculations.MonthAbbrevInjective | src/lib/calculations.ts:18-22 | the twelve short month names are distinct |
| Calculations.FormatMatchDateInjective | src/lib/calculations.ts:16-23 | the en-US "Mon D, YYYY" text of a day determines the day |
| Calculations.InsertDescending | src/lib/calculations.ts:36-39 | adding a value to a strictly descending list keeps it strictly descending; the value is in it and nothing else new is |
| Calculations.DistinctDescending | src/lib/calculations.ts:36-39 | `Array.from(new Set(ys)).sort((a, b) => b - a)` is strictly descending and holds exactly the values of `ys` |
| Calculations.StrictlyDescendingUnique | src/lib/calculations.ts:36-39 | two strictly descending lists with the same elements are equal, so the year list has one possible value |
| Calculations.SameElementsBothEmpty | src/lib/calculations.ts:36-39 | two lists with the same elements are both empty or both non-empty |
| Calculations.GetYearsFromMatches | src/lib/calculations.ts:35-40 | the result is strictly descending, and a year is in it exactly when some match is played that year |
| Calculations.YearOptions | src/components/DataTable.tsx:104 | `["all", ...years]` starts with "all" and every later entry is a year; those years are exactly the given ones, strictly descending, so with no years the list is just "all" |
| Calculations.JoinSnoc | src/lib/calculations.ts:52 | `join` with one more part gives the old text, the separator and the new part |
| Calculations.FormatGoalscorers | src/lib/calculations.ts:45-53 | "No scorers" for no rows, "name (count)" for one row, and for more rows the text of all but the last, ", ", then the last row's piece |
| Constants.InitialMatches | src/constants/index.ts:3-84 | the eight seed matches with their dates, opponents, scores and results |
| Constants.InitialResultsAreDerived | src/constants/index.ts:3-84 | every seed match's stored result is the one `calculateResult` gives for its scores |
| JsText.IntToString | src/components/MatchResults.tsx:67 | an integer's `toString()`: a '-' before the digits of a negative number; ParseIntOfIntToString and IntToStringInjective state what it means |
| JsText.Utf16Length | src/lib/validations.ts:16-18 | a string's JavaScript `length`: between its number of characters and twice that, equal to it exactly when every character is in the Basic Multilingual Plane, twice it exactly when none is |
| JsText.NatToString | src/lib/calculations.ts:29 | a natural number prints as a non-empty digit string with no leading zero |
| JsText.DecimalOfNatToString | src/lib/calculations.ts:29 | the printed digits of n read back as n |
| JsText.NatToStringInjective | src/lib/calculations.ts:29 | different naturals print differently |
| JsText.ParseInt | src/components/MatchFilters.tsx:102 | `parseInt` with the default radix, `None` for NaN; its lemmas below state what it reads |
| JsText.TrimStart | src/components/GoalscorerInput.tsx:139 | `parseInt` skips exactly the leading white space: the rest is a suffix that does not start with white space |
| JsText.DigitPrefix | src/components/GoalscorerInput.tsx:139 | `parseInt` reads the longest run of leading digits: a prefix of digits followed by a non-digit or the end |
| JsText.DigitPrefixOfDigits | src/components/GoalscorerInput.tsx:139 | a digit string followed by a non-digit is its own longest digit prefix |
| JsText.ParseIntOfDigits | src/components/MatchResultsDonutChart.tsx:53 | `parseInt` of a non-empty digit string is its decimal value |
| JsText.ParseIntOfNegativeDigits | src/components/MatchFilters.tsx:102 | `parseInt` of '-' followed by digits is the negated decimal value |
| JsText.ParseIntOfIntToString | src/components/MatchFilters.tsx:102 | `parseInt` of a printed integer gives the integer back |
| JsText.ParseIntOfNumberThen | src/components/GoalscorerInput.tsx:139 | `parseInt` of a printed natural followed by a non-digit gives the natural |
| JsText.IntToStringInjective | src/components/MatchResults.tsx:67 | different integers print differently |
| JsText.SplitAtSeparator | src/lib/calculations.ts:29 | splitting at a separator that neither left part contains is unambiguous |
| Dates.DecimalValueBound | src/lib/validations.ts:9 | the value of k digits is below 10^k |
| Dates.ParseIsoDate | src/lib/validations.ts:9 | a `YYYY-MM-DD` text that reads as a date gives a well-formed day |
| Dates.ParseFormatIsoDate | src/lib/validations.ts:9 | writing a well-formed day as `YYYY-MM-DD` and reading it back gives that day |
| Dates.DateLe | src/lib/validations.ts:13 | `matchDate <= today` on calendar days: earlier year, or same year and earlier month, or same month and not a later day |
| Validations.MatchDateValid | src/lib/validations.ts:7-14 | the date rule: a non-empty text that reads as a day not after today |
| Validations.MatchDateValidOfWrittenDate | src/lib/validations.ts:7-14 | for a written date the date rule holds exactly when the day is not after today |
| Validations.ScoreValid | src/lib/validations.ts:20-26 | the score rule: a whole number (the type) that is at least 0 |
| Validations.OppositionTeamValid | src/lib/validations.ts:16-18 | the team rule: 1 to 100 UTF-16 code units |
| Validations.AstralTeamNameTooLong | src/lib/validations.ts:16-18 | a team name of 51 emoji is 102 code units long and breaks the team rule |
| Validations.GoalscorerValid | src/lib/validations.ts:28-34 | the entry rule: a non-empty player id and 1 to 20 goals |
| Validations.NoDuplicatePlayers | src/lib/validations.ts:35-41 | the duplicate rule: the id list is as long as the set of its ids |
| Validations.Elements | src/lib/validations.ts:38 | `new Set(ids)` holds exactly the ids of the list |
| Validations.ElementsSize | src/lib/validations.ts:35-41 | the set of a list's ids is as large as the list exactly when the ids are pairwise distinct |
| Validations.NoDuplicatePlayersIffDistinct | src/lib/validations.ts:35-41 | the duplicate rule (`ids.length === new Set(ids).size`) holds exactly when no player id is repeated |
| Validations.SumGoals | src/lib/validations.ts:48 | the goal total of the entries, also the editor's `currentTotal` (src/components/GoalscorerInput.tsx:30) |
| Validations.GoalTotalMatches | src/lib/validations.ts:42-53 | the goal-sum rule: no entries when Volta scored 0, otherwise goals adding up to Volta's score |
| Validations.ValidMatchForm | src/lib/validations.ts:6-53 | every rule of the match form; its consequences are stated by ValidFormGoalBounds and ViolationsEmptyIffValid |
| Validations.SumGoalsAppend | src/lib/validations.ts:48 | the goal total of two lists joined is the sum of their totals |
| Validations.SumGoalsBounds | src/lib/validations.ts:28-34 | valid entries (1 to 20 goals each) total between their number and twenty times their number |
| Validations.ValidFormGoalBounds | src/lib/validations.ts:20-53 | in a valid form the goals add up to Volta's score, which lies between the number of scorers and twenty times it; a positive score has a scorer |
| Validations.GoalscorerViolations | src/lib/validations.ts:28-34 | entry k is reported exactly when it breaks the entry rules |
| Validations.Outcome | src/lib/validations.ts:6-53 | every rule of the form evaluated on its own, none skipped because another failed |
| Validations.Violations | src/lib/validations.ts:6-53 | the set of broken rules of the form, one report per rule or entry; ViolationsComplete and ViolationsEmptyIffValid state which |
| Validations.RuleBroken | src/lib/validations.ts:6-53 | the rule each kind of report stands for, as the schema states it: date missing or not on or before today, team name empty or over 100 code units, a negative score, entry k invalid, a repeated player, or a goal total off by the carried delta |
| Validations.ReportedIffMarked | src/lib/validations.ts:6-53 | a report is in the set exactly when the outcome marks its rule broken |
| Validations.OutcomeMarksBroken | src/lib/validations.ts:6-53 | the outcome marks a rule broken exactly when the form breaks it |
| Validations.ViolationsComplete | src/lib/validations.ts:6-53 | every report is present exactly when the rule it stands for is broken, so several broken rules are all reported at once, and a goal-sum report carries Volta's score minus the goal total |
| Validations.ViolationsEmptyIffValid | src/lib/validations.ts:6-53 | no rule is reported broken exactly when the form satisfies every rule |
| Validations.DuplicateAlwaysReported | src/lib/validations.ts:35-41 | two entries with the same player make the form invalid, and the duplicate is reported |
| Validations.Submit | src/lib/validations.ts:6-53 | a form is accepted exactly when it is valid; the accepted result is `calculateResult` of its scores; a rejected form carries its non-empty set of violations |
| Validations.MatchesNamePattern | src/lib/validations.ts:64 | `^[a-zA-Z\s'-]+$`: one name character, then more of them or the end; MatchesNamePatternIff states its meaning |
| Validations.MatchesNamePatternIff | src/lib/validations.ts:64 | `^[a-zA-Z\s'-]+$` matches exactly the non-empty texts of name characters |
| Validations.PlayerNameValid | src/lib/validations.ts:60-65 | the player name rule: 1 to 100 UTF-16 code units matching `^[a-zA-Z\s'-]+$` |
| Validations.PlayerNameValidIff | src/lib/validations.ts:60-65 | a valid player name has 1 to 100 characters (all in the Basic Multilingual Plane, so as many code units), each a letter, white space, an apostrophe or a hyphen |
| Validations.ScenarioDate | src/lib/validations.ts:9 | "2024-03-15" reads as 15 March 2024 |
| Validations.ScenarioWinIsValid | src/lib/validations.ts:6-53 | the 11-4 form dated 2024-03-15 with scorers of 4 and 7 goals meets every rule |
| Validations.ScenarioWin | src/lib/validations.ts:6-53 | an 11-4 form dated 2024-03-15 with scorers of 4 and 7 goals is accepted as a Win and its score shows as "11-4" |
| Validations.ScenarioDrawWithoutScorers | src/lib/validations.ts:42-53 | an 8-8 form with no scorers, whatever its date and team, is rejected with a goal-sum report of 8 missing goals, although its scores give a Draw |
| Validations.ScenarioScorelessLoss | src/lib/validations.ts:42-53 | a 0-3 form with no scorers is accepted as a Loss |
| Validations.ScenarioDuplicateScorer | src/lib/validations.ts:35-41 | the same player listed twice is reported even when the goals add up |
| GoalscorerEditor.AddGoalscorer | src/components/GoalscorerInput.tsx:32-37 | adding keeps every entry, appends a blank one-goal entry, and raises the total by one |
| GoalscorerEditor.FilterOutIndex | src/components/GoalscorerInput.tsx:40 | filtering out one position keeps the entries before it and shifts the ones after it down by one |
| GoalscorerEditor.RemoveGoalscorer | src/components/GoalscorerInput.tsx:39-41 | an in-range index removes exactly that entry and keeps the order of the rest; any other index changes nothing |
| GoalscorerEditor.RemoveGoalscorerTotal | src/components/GoalscorerInput.tsx:30 | removing an entry takes exactly its goals off the running total |
| GoalscorerEditor.WithField | src/components/GoalscorerInput.tsx:45 | the named field takes the new value, the other fields are kept |
| GoalscorerEditor.UpdateGoalscorer | src/components/GoalscorerInput.tsx:43-47 | the copy has the same length, the edited entry has the new field, every other entry is unchanged |
| GoalscorerEditor.FindPlayer | src/components/GoalscorerInput.tsx:95 | the first player with the id, or no player when none has it |
| GoalscorerEditor.SelectedName | src/components/GoalscorerInput.tsx:95-100 | `player?.name`: the name of the first listed player with the id, or none exactly when no listed player has it |
| GoalscorerEditor.SelectPlayer | src/components/GoalscorerInput.tsx:94-103 | choosing a player sets the entry's id and the name found for it, keeps its goals, and leaves the other entries alone |
| GoalscorerEditor.GoalsFromInput | src/components/GoalscorerInput.tsx:139 | `parseInt(text) \|\| 1` is never 0: NaN and 0 become 1, any other parsed number is kept |
| GoalscorerEditor.GoalsFromWrittenNumber | src/components/GoalscorerInput.tsx:139 | typing a printed non-zero integer sets exactly that count; typing 0 sets 1 |
| GoalscorerEditor.EnterGoals | src/components/GoalscorerInput.tsx:138-140 | typing into the goals box of one entry sets only that entry's count |
| GoalscorerEditor.Status | src/components/GoalscorerInput.tsx:174-192 | no requirement when Volta scored 0; otherwise the goals still missing, the goals in excess, or matched, each with the gap it names |
| GoalscorerEditor.RemediationMessage | src/components/GoalscorerInput.tsx:174-183 | the amber text for a goal gap: "Need n more goal(s)" or "Remove n goal(s)"; RemediationStatesGap states what it says |
| GoalscorerEditor.MessagesShown | src/components/GoalscorerInput.tsx:174-192 | the amber message shows exactly when Volta scored and the total is off, the green one exactly when it matches, never both |
| GoalscorerEditor.RemediationStatesGap | src/components/GoalscorerInput.tsx:178-180 | the amber message starts with "Need " when goals are missing and "Remove " when there are too many, `parseInt` of the rest reads the gap, and "goal" takes an 's' exactly when the gap exceeds one |
| GoalscorerEditor.AddScorerShown | src/components/GoalscorerInput.tsx:60 | the add button is shown only when Volta's score is positive; AddEnabledIffShort uses it |
| GoalscorerEditor.AddScorerEnabled | src/components/GoalscorerInput.tsx:66 | the add button is enabled while the total is below Volta's score; AddEnabledIffShort ties it to Status |
| GoalscorerEditor.AddEnabledIffShort | src/components/GoalscorerInput.tsx:60-71 | while the button is shown it is enabled exactly when goals are still missing |
| GoalscorerEditor.SuccessShown | src/components/GoalscorerInput.tsx:185-192 | the green message shows when the total equals a positive Volta score; MessagesShown states when |
| GoalscorerEditor.MatchedIffGoalTotal | src/components/GoalscorerInput.tsx:185 | for a positive score the editor's matched state is the form's goal-sum rule |
| DataTable.Range | src/components/DataTable.tsx:74-77 | the page links lo..hi in order, none when lo > hi |
| DataTable.PageWindow | src/components/DataTable.tsx:71-100 | the pagination bar as a value; WindowShape, WindowBounds and CurrentPageShown state its properties |
| DataTable.PushPages | src/components/DataTable.tsx:88-90 | the loop appends exactly the page links start..end |
| DataTable.GetPageNumbers | src/components/DataTable.tsx:71-100 | the pushed list is the pagination bar `PageWindow` (the properties below are proved of it) |
| DataTable.WindowShape | src/components/DataTable.tsx:79-96 | beyond seven pages the bar is page 1, an optional ellipsis, the current page's neighbours, an optional ellipsis and the last page, slot by slot |
| DataTable.FewPagesAllShown | src/components/DataTable.tsx:74-77 | at most seven pages: exactly the pages 1 to totalPages, no ellipsis |
| DataTable.ManyPagesEnds | src/components/DataTable.tsx:79-96 | beyond seven pages the bar starts at page 1 and ends at the last page; the leading ellipsis shows exactly when currentPage > 3, the trailing one exactly when currentPage < totalPages - 2 |
| DataTable.GapsGiveIncrease | src/components/DataTable.tsx:81-94 | in a bar whose gaps are real, page links further right carry larger numbers |
| DataTable.BoundsFromGaps | src/components/DataTable.tsx:71-100 | a bar from page 1 to the last page with real gaps is increasing, within range and has no two adjacent ellipses |
| DataTable.WindowGaps | src/components/DataTable.tsx:81-94 | neighbouring page links differ by one, and an ellipsis sits between links at least two apart |
| DataTable.WindowBounds | src/components/DataTable.tsx:71-100 | the bar's numbers strictly increase and lie in 1..totalPages, no two ellipses are adjacent, and it has at most seven slots |
| DataTable.CurrentPageShown | src/components/DataTable.tsx:85-90 | for 1 <= currentPage <= totalPages the current page has a link |
| DataTable.AvailableYears | src/components/DataTable.tsx:102-105 | "all" followed only by years: the distinct years of the rows, latest first; just "all" when there are no rows |
| MatchFilters.ParamName | src/components/MatchFilters.tsx:49 | every filter key names one of the URL parameters "opposition", "year", "result" |
| MatchFilters.ParamNameInjective | src/components/MatchFilters.tsx:49-51 | different keys write different URL parameters |
| MatchFilters.ParamString | src/components/MatchFilters.tsx:49 | a number's `toString()` reads back as that number |
| MatchFilters.Assign | src/components/MatchFilters.tsx:35 | `{ ...filters, [key]: value }`: the key holds the new value, possibly undefined, and every other key keeps its value |
| MatchFilters.Defined | src/components/MatchFilters.tsx:37-42 | the entries whose value is defined, with their values |
| MatchFilters.RemoveUndefined | src/components/MatchFilters.tsx:37-42 | the loop leaves exactly the entries whose value is defined, with the same values |
| MatchFilters.UpdatedFilters | src/components/MatchFilters.tsx:35-42 | after `updateFilter(k, v)` the key k holds v when v is defined and is gone otherwise; every other key keeps its entry |
| MatchFilters.NextParams | src/components/MatchFilters.tsx:47-52 | a truthy value sets parameter k to its text, a falsy or undefined one deletes it, and the other parameters are unchanged |
| MatchFilters.FalsyValueKeptButUnlisted | src/components/MatchFilters.tsx:38-51 | a defined but falsy value ("", 0, NaN) stays in the filter map and leaves no URL parameter |
| MatchFilters.Truthy | src/components/MatchFilters.tsx:48 | JavaScript truthiness: undefined, "", 0 and NaN are false |
| MatchFilters.HasActiveFilters | src/components/MatchFilters.tsx:32 | `filters.opposition \|\| filters.year \|\| filters.result` |
| MatchFilters.HasActiveFiltersIff | src/components/MatchFilters.tsx:32 | filters are active exactly when some key holds a truthy value |
| MatchFilters.YearChoice | src/components/MatchFilters.tsx:101-103 | "all" gives undefined; any other choice gives the number `parseInt` reads, or NaN |
| MatchFilters.YearSelectValue | src/components/MatchFilters.tsx:100 | the drop-down's shown value, `filters.year?.toString() \|\| 'all'` |
| MatchFilters.YearChoiceRoundTrip | src/components/MatchFilters.tsx:100-103 | choosing a year makes the drop-down show that year; choosing "all" makes it show "all" |
| MatchFilters.FilterBar.constructor | src/components/MatchFilters.tsx:28-29 | the search box starts with the opposition filter's text, or empty |
| MatchFilters.FilterBar.UpdateFilter | src/components/MatchFilters.tsx:34-54 | the map handed to `onFiltersChange` is the new filter map; the URL parameters are updated as `NextParams` says; the search text is kept |
| MatchFilters.FilterBar.ClearAllFilters | src/components/MatchFilters.tsx:56-60 | empty search text, empty filter map, empty URL parameters, and no active filter |
| MatchFilters.FilterBar.SearchOpposition | src/components/MatchFilters.tsx:62-69 | the search text is what was typed; after the debounced update a non-empty text is the opposition filter and parameter, and an empty one removes both |
| MatchFilters.FilterBar.ClearOpposition | src/components/MatchFilters.tsx:88-91 | the search text is emptied, the opposition filter and parameter are removed, the other filters and URL parameters are kept |
| MatchFilters.FilterBar.SelectYear | src/components/MatchFilters.tsx:101-103 | the year choice goes through `updateFilter` as `YearChoice` says |
| MatchResults.WithoutId | src/components/MatchResults.tsx:26 | the kept rows are exactly the rows without that id |
| MatchResults.WithoutIdAppend | src/components/MatchResults.tsx:26 | deleting distributes over concatenation, so the kept rows stay in order |
| MatchResults.WithoutAbsentId | src/components/MatchResults.tsx:26 | deleting an id no row carries leaves the list unchanged |
| MatchResults.ReplaceById | src/components/MatchResults.tsx:32 | same length; each row with the saved match's id becomes the saved match, the others are unchanged |
| MatchResults.ReplaceAbsentId | src/components/MatchResults.tsx:32 | saving a match whose id no row carries, while editing, changes nothing |
| MatchResults.DeleteAfterReplace | src/components/MatchResults.tsx:26-32 | saving an edit and then deleting its id leaves what deleting alone leaves |
| MatchResults.DeleteAfterAdd | src/components/MatchResults.tsx:26-34 | adding a match with a new id and deleting it gives the list back |
| MatchResults.DateColumnFilter | src/components/MatchResults.tsx:64-68 | the date column's filter test: an empty value or the row's printed year equal to it |
| MatchResults.DateColumnFilterIff | src/components/MatchResults.tsx:64-68 | an empty filter value lets every row through; the printed year y lets a row through exactly when its date is in year y |
| MatchResults.MatchPage.constructor | src/components/MatchResults.tsx:10-12 | starts with the given rows, the dialog closed and nothing being edited |
| MatchResults.MatchPage.AddMatch | src/components/MatchResults.tsx:14-17 | nothing is being edited and the dialog is open; the rows are unchanged |
| MatchResults.MatchPage.EditMatch | src/components/MatchResults.tsx:19-22 | the row is being edited and the dialog is open; the rows are unchanged |
| MatchResults.MatchPage.DeleteMatch | src/components/MatchResults.tsx:24-28 | once confirmed the rows with that id are gone; otherwise nothing changes |
| MatchResults.MatchPage.SaveMatch | src/components/MatchResults.tsx:30-36 | while editing the matching rows are replaced; while adding the match is appended |
| DonutChart.ChartYears | src/components/MatchResultsDonutChart.tsx:40-45 | "all" followed only by years: the distinct years of the matches, latest first; just "all" when there are no matches |
| DonutChart.InYearOf | src/components/MatchResultsDonutChart.tsx:52-54 | the kept matches are exactly those of that year; NaN keeps none |
| DonutChart.InYearOfAppend | src/components/MatchResultsDonutChart.tsx:52-54 | the year filter distributes over concatenation, so the kept matches stay in order |
| DonutChart.InYearOfAll | src/components/MatchResultsDonutChart.tsx:52-54 | when every match is of the year, all are kept |
| DonutChart.FilteredMatches | src/components/MatchResultsDonutChart.tsx:49-55 | "all" keeps the whole list; otherwise exactly the matches whose year is `parseInt(selectedYear)` |
| DonutChart.FilteredByChosenYear | src/components/MatchResultsDonutChart.tsx:49-55 | the option written for year y keeps exactly that year's matches, in order |
| DonutChart.CountResult | src/components/MatchResultsDonutChart.tsx:58-61 | the number of matches with a result, at most the number of matches |
| DonutChart.CountResultAppend | src/components/MatchResultsDonutChart.tsx:58-61 | counting distributes over concatenation |
| DonutChart.CountsCoverAll | src/components/MatchResultsDonutChart.tsx:57-76 | the win, draw and loss counts add up to the number of matches |
| DonutChart.TallyResults | src/components/MatchResultsDonutChart.tsx:58-61 | the dictionary has a key exactly for each result that occurs, holding its count |
| DonutChart.ChartData | src/components/MatchResultsDonutChart.tsx:57-72 | three slices, in the order wins, draws, losses, each holding its count, with 0 for a result that never occurs |
| DonutChart.Slices | src/components/MatchResultsDonutChart.tsx:63-71 | the three slices wins, draws, losses with their counts; ChartData is proved to build it |
| DonutChart.TotalMatches | src/components/MatchResultsDonutChart.tsx:74-76 | the sum of the slices' counts; TotalIsMatchCount states its value |
| DonutChart.TotalIsMatchCount | src/components/MatchResultsDonutChart.tsx:74-76 | the total shown is the number of filtered matches |
| DonutChart.SeedYears | src/components/MatchResultsDonutChart.tsx:40-45 | on the seed data the years are [2024] and the drop-down offers "all" and 2024 |
| DonutChart.SeedFilters | src/components/MatchResultsDonutChart.tsx:49-55 | on the seed data "all" and "2024" both keep all eight matches |
| DonutChart.SeedCount | src/constants/index.ts:3-84 | the seed count of a result is the number of seed matches with it |
| DonutChart.SeedChart | src/components/MatchResultsDonutChart.tsx:57-76 | on the seed data the donut shows 3 wins, 2 draws and 3 losses, 8 in all |

## Left out

- Network and store: the Supabase hooks, server-side filtering (`ilike`, date ranges) and name lookups are not modelled. `Validations.Submit` stands for what the form hands to the store: a valid form and its derived result.
- Rendering: JSX, dialogs and their reset effects, badges, colours, and the `recharts` and TanStack drawing are not modelled.
- TanStack table sorting, filter plumbing and page-size handling (`src/components/DataTable.tsx:49-67`) are not modelled. `currentPage` and `totalPages` are inputs to `GetPageNumbers`.
- Dates: `new Date(...)`, `getFullYear()`, `toLocaleDateString` and `setHours` depend on the time zone and locale. The model reads a `YYYY-MM-DD` text as a calendar day and compares whole days. `Calculations.FormatMatchDate` is the en-US short form of that day. Texts in other formats are not modelled, and neither is the engine's handling of day numbers past a month's end.
- Numbers: JavaScript numbers are doubles. The model uses unbounded integers, so whole-number checks are carried by the type. NaN only appears where `parseInt` yields it. `JsText.ParseInt` does not model the `0x` prefix.
- URL parameters are a map. The order and repeated keys of `URLSearchParams` are not modelled.
- The 300 ms timer in `handleOppositionSearch` is not modelled. `MatchFilters.FilterBar.SearchOpposition` is the `updateFilter` call that its timer makes.
- MatchFilters.FilterBar.SearchOpposition: the timer is never cancelled, because the cleanup that `handleOppositionSearch` returns is discarded by the `onChange` handler (`src/components/MatchFilters.tsx:62-69`). So every keystroke runs its own `updateFilter`, 300 ms later, on the `filters` and URL parameters captured when that key was typed. The model applies each call to the current state, one call per search. It does not capture the extra calls, their order, or an older call overwriting a newer filter from stale state.
- `onFiltersChange` hands the map to the parent component. `MatchFilters.FilterBar.filters` stands for that parent's state, and the model assumes the parent stores exactly the map it receives.
- The `confirm()` prompt before deleting is the parameter `confirmed` of `MatchResults.MatchPage.DeleteMatch`.
- The seed records' `created_at` and `updated_at` timestamps come from the clock and are not modelled.
- Validations.Violations: the set of broken rules is not zod's error list. The model does not reproduce zod's messages or their order. It also does not reproduce zod's rule that a `.refine` is skipped when a value inside fails its type parse, such as a NaN where a number is expected. The model's inputs are always well typed. Failures of checks such as `.min` and `.max` do not stop the refinements, and the model reports them all alike.
- GoalscorerEditor.UpdateGoalscorer: requires an index in range. Every call site passes the index of an entry being rendered. An out-of-range index, which would grow the JavaScript array, is not modelled.
- Calculations.FormatGoalscorers: takes a list. The `!matchGoals` guard for a missing list has no counterpart.
- DataTable.ManyPagesEnds: the trailing-ellipsis claim is stated for `currentPage <= totalPages`. Beyond the last page the window is empty, and the slot before the last one is then the leading ellipsis.
