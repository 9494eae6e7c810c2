# Gercenka tournament: a Dafny model of the tournament logic

The application runs a small volleyball-style tournament. Teams are entered
into groups. A round robin is generated per group, and games are scored
point by point on a live scoreboard. Group standings rank the teams. Once every
group game is over, the top two of groups A to D are seeded into
quarterfinals. A field schedule, a bracket view and a public TV screen show the
state of play. The roster can be exported to CSV and imported back from a
Google Sheets link.

All of this logic lives in helper functions inside React components. The model
restates each helper as a pure function over immutable records: `Team`,
`GameSet`, `Game`, `Settings` and `Tournament`. It then proves what the
application promises of them. The modules follow the components:

- `Model` holds the records of `src/pages/Index.tsx` and small shared accessors.
- `Scheduling` holds both round-robin generators: the main page's (courts, sets) and the admin panel's (fields A-D, time slots).
- `Overview` covers the main page: generation replaces the games, reset, and the four counters.
- `Roster` covers the admin panel: add a team, remove a team, create a game, reset.
- `Scoring` covers the scoreboard: score buttons, team statistics, phase advance, quarterfinal seeding.
- `Ranking` covers group standings, qualifiers and the bracket's active groups.
- `Bracket` covers the bracket view: game winner, shown score, games per phase.
- `Live` covers the TV screen: live and upcoming games, winning status, score display.
- `FieldSchedule` covers the schedule: tabs per field, the two orderings, the counters.
- `Sheets` covers CSV export, the export-link rewrite, header validation and row parsing.
- `Text`, `Sorting` and `Common` model the JavaScript primitives the code relies on:
  - `trim`, `split`, `join` and `toLowerCase`;
  - decimal `toString` and `parseInt`;
  - string order;
  - the stable `Array.prototype.sort`;
  - `filter`, `slice`, `find`, `reduce` and `new Set`.

`Date.now()` becomes a parameter (`idBase` or `now`). Ids are the decimal
strings of `idBase`, `idBase + 1` and so on, as `(gameId++).toString()` produces
them. The fetched sheet text is a parameter of `Sheets.Import`: `None` stands
for a failed request.

A comment in `src/components/ScoreBoard.tsx:109-114` does not match the code.
It labels the quarterfinal pairs "B 1st vs C 2nd", "C 1st vs B 2nd" and
"D 1st vs A 2nd". The qualifier list, however, is ordered A1, A2, B1, B2, C1,
C2, D1, D2, so the games the code builds are A1-D2, A2-D1, B1-C2 and B2-C1
(`Scoring.QuarterfinalPairings`). These are the same four matchups as the
comment's, in a different order and with different home sides. The model
follows the code.

## Model

| member | source | states |
|---|---|---|
| Model.NewTeam | src/components/AdminPanel.tsx:56-64 | a new team has the given id, name and group and an all-zero record |
| Model.WithScore | src/components/ScoreBoard.tsx:45-49 | replacing one side's score changes that score only; the other side and every other field are kept |
| Model.SetsWonBound | src/components/TournamentBracket.tsx:46-47 | the sets the two sides took together are at most the finished sets, which are at most all sets |
| Model.SetAt | src/components/PublicTVMode.tsx:29 | the current set is the indexed set, or an unfinished 0-0 set when the index is out of range |
| Model.GroupLetter | src/pages/Index.tsx:97 | the i-th group label is the single character with code 65 + i |
| Common.Filter | src/components/AdminPanel.tsx:75 | an element is in the result exactly when it is in the list and satisfies the predicate, and the result is never longer |
| Common.FilterSelects | src/components/AdminPanel.tsx:75-81 | filtering reads the list at exactly the accepted positions, in increasing order: the kept elements keep their order |
| Common.CountPositions | src/components/FieldSchedule.tsx:168-184 | `filter(p).length` is the number of positions whose element satisfies `p` |
| Common.FilterMultiset | src/components/AdminPanel.tsx:75-81 | filtering keeps every accepted element as often as it occurs and drops every other one |
| Common.FindFirst | src/components/AdminPanel.tsx:109-110 | `find` returns nothing exactly when no element matches, and otherwise the first match |
| Common.Dedup | src/components/TournamentBracket.tsx:17 | `new Set` keeps exactly the elements of the list, each once |
| Common.SumPermutation | src/components/GroupStandings.tsx:124 | reordering a list does not change the sum of a value over it |
| Sorting.SortBy | src/components/GroupStandings.tsx:16-25 | the comparator sort returns a permutation of its input |
| Sorting.SortBySorted | src/components/GroupStandings.tsx:18-25 | for a consistent comparator, no element of the result belongs before an earlier one |
| Sorting.SortByStable | src/components/FieldSchedule.tsx:26-34 | elements the comparator ties keep their relative order, as ECMAScript's stable sort requires |
| Sorting.SortPair | src/components/FieldSchedule.tsx:28-34 | sorting two elements swaps them exactly when the second must come first |
| Text.Trim | src/components/AdminPanel.tsx:54-58 | a trimmed string has no whitespace at either end |
| Text.TrimStartDropsSpace | src/components/AdminPanel.tsx:58 | leading trimming keeps a suffix and drops only whitespace |
| Text.TrimEndDropsSpace | src/components/AdminPanel.tsx:58 | trailing trimming keeps a prefix and drops only whitespace |
| Text.TrimChars | src/components/AdminPanel.tsx:58 | trimming introduces no character |
| Text.TrimIdentity | src/components/GoogleSheetsIntegration.tsx:88 | a string whose ends are not whitespace is its own trim |
| Text.Split | src/components/GoogleSheetsIntegration.tsx:73 | `split` returns at least one piece, and no piece holds the separator |
| Text.JoinSplit | src/components/GoogleSheetsIntegration.tsx:73-74 | joining the pieces of a split gives back the string |
| Text.SplitJoin | src/components/GoogleSheetsIntegration.tsx:23-36 | splitting a join of separator-free parts gives back the parts |
| Text.Remove | src/components/GoogleSheetsIntegration.tsx:74 | removing a character leaves exactly the other characters |
| Text.Lower | src/components/GoogleSheetsIntegration.tsx:78 | lower-casing keeps the length and maps each ASCII capital to its small letter |
| Text.IntToString | src/components/GoogleSheetsIntegration.tsx:29-34 | an integer prints as its decimal digits, with a minus sign when negative |
| Text.DigitsOfNat | src/components/GoogleSheetsIntegration.tsx:102-107 | reading back the printed digits of a natural number gives the number |
| Text.NatToStringInjective | src/components/GoogleSheetsIntegration.tsx:96 | different numbers print differently |
| Text.ParseIntOfIntToString | src/components/GoogleSheetsIntegration.tsx:102-107 | `parseInt` of a printed integer gives the integer, so `parseInt(...) \|\| 0` does too |
| Text.LessTransitive | src/components/TournamentBracket.tsx:17 | the default string order is transitive |
| Text.LessTotal | src/components/TournamentBracket.tsx:17 | two different strings are ordered one way or the other |
| Scheduling.PairIndicesSpec | src/pages/Index.tsx:105-106 | the nested loops visit every pair i < j < n exactly once, n(n-1)/2 pairs in all |
| Scheduling.PairsFromOrdered | src/pages/Index.tsx:105-106 | the pairs come in loop order: by i, then by j |
| Scheduling.Matchups | src/pages/Index.tsx:101-106 | each matchup belongs to a listed group and names two positions first < second in that group's roster |
| Scheduling.MatchupsCount | src/pages/Index.tsx:101-129 | the number of matchups is the sum over the groups of n(n-1)/2 |
| Scheduling.MatchupsCover | src/pages/Index.tsx:101-106 | every pair i < j of a listed group is a matchup |
| Scheduling.MatchupsDistinct | src/pages/Index.tsx:101-106 | with distinct group labels, no matchup is produced twice |
| Scheduling.MatchupTeams | src/pages/Index.tsx:108-109 | both teams of a matchup belong to its group, team 1 listed before team 2 |
| Scheduling.GroupLetters | src/pages/Index.tsx:97 | the group labels are A, B, ... up to `numberOfGroups`, none for a negative count |
| Scheduling.GroupLettersDistinct | src/pages/Index.tsx:97 | the generated group labels are distinct |
| Scheduling.CourtLabelRange | src/pages/Index.tsx:118 | game k is on court `k mod n + 1`, a number from 1 to the number of courts |
| Scheduling.ZeroSets | src/pages/Index.tsx:111-115 | a new game has `numberOfSets` sets, all 0-0 and unfinished |
| Scheduling.CourtGamesShape | src/pages/Index.tsx:107-124 | every generated game is an unplayed, not running group game of a generated group, on court `k mod n + 1` |
| Scheduling.CourtGameField | src/pages/Index.tsx:118 | the k-th generated game is on the k-th court label |
| Scheduling.CourtGamesIds | src/pages/Index.tsx:99-108 | no two generated games share an id |
| Scheduling.CourtGamesOnlyListedGroups | src/pages/Index.tsx:97-102 | a team outside the generated groups plays in none of the games |
| Scheduling.CourtGamesCount | src/pages/Index.tsx:101-129 | the number of games is the sum over the generated groups of n(n-1)/2 |
| Scheduling.CourtGamesPairOnce | src/pages/Index.tsx:105-110 | every pair i < j of a generated group meets in exactly one game, the earlier-listed team as team 1 |
| Scheduling.GenerateFieldGames | src/components/AdminPanel.tsx:139-168 | the admin generator keeps the existing games in front and appends one game per matchup of A-D |
| Scheduling.FieldGamesShape | src/components/AdminPanel.tsx:149-164 | new game k is an unplayed group game of A-D on field `k mod 4 + 1` at `floor(k/4) + 9`:00 |
| Scheduling.FieldGamesPairOnce | src/components/AdminPanel.tsx:143-157 | every same-group pair i < j of A-D is generated exactly once, the earlier-listed team as team 1 |
| Scheduling.FieldGameTeams | src/components/AdminPanel.tsx:154-155 | a generated game's teams are the matchup's two roster positions |
| Overview.GenerateGroupStage | src/pages/Index.tsx:96-131 | generation replaces the games with the generated list; teams and phase are kept |
| Overview.ResetTournament | src/pages/Index.tsx:133-137 | the main page's reset leaves no teams, no games and the group phase |
| Overview.ResetAgreesWithAdmin | src/pages/Index.tsx:133-137 | the main page's reset is the admin reset plus a return to the group phase, and it is idempotent |
| Overview.Stats | src/pages/Index.tsx:139-145 | the header counts the teams and the games; finished and running games are at most all games |
| Overview.StatsAgreeWithSchedule | src/pages/Index.tsx:139-145 | the main page and the field schedule report the same finished, live and total games |
| Overview.GeneratedStats | src/pages/Index.tsx:119-131 | right after generation no game is finished or running |
| Overview.GeneratedFieldsAreCourts | src/pages/Index.tsx:118 | after generation every schedule tab is one of "Court 1" to "Court n" |
| Overview.CourtLabelListed | src/pages/Index.tsx:118 | with n > 0 courts, game k's court is listed among the n expected courts |
| Roster.AddTeam | src/components/AdminPanel.tsx:53-66 | a blank name changes nothing; otherwise one team with the trimmed name, the group and a zero record is appended |
| Roster.AddedNameTrimmed | src/components/AdminPanel.tsx:54-58 | an added team's name is non-empty and has no surrounding whitespace |
| Roster.RemoveTeam | src/components/AdminPanel.tsx:74-81 | removal keeps exactly the teams with another id and the games that team plays in neither side, in their order and with their multiplicities |
| Roster.RemoveAbsentTeam | src/components/AdminPanel.tsx:75-81 | removing an id no team or game mentions changes nothing, so the order is kept |
| Roster.AddThenRemove | src/components/AdminPanel.tsx:53-81 | removing a team just added under an unused id restores the tournament |
| Roster.FindTeam | src/components/AdminPanel.tsx:109-110 | lookup by id succeeds exactly when a team has that id, and returns the first team in the list with that id |
| Roster.CreateGame | src/components/AdminPanel.tsx:90-131 | each refusal happens exactly under its condition; otherwise one 0-0 group game of the two teams is appended, grouped when they share a group |
| Roster.ResetFromAdmin | src/components/AdminPanel.tsx:175-177 | the admin reset leaves no teams and no games |
| Scoring.Max0 | src/components/ScoreBoard.tsx:26 | the floored score is non-negative and is either the sum or 0 |
| Scoring.AdjustGame | src/components/ScoreBoard.tsx:24-52 | only the unfinished game with the id changes: one side's score becomes max(0, old + change), finished exactly at 15 or more |
| Scoring.AdjustKeepsValid | src/components/ScoreBoard.tsx:26-30 | a score change keeps every unfinished game's scores within 0..14 |
| Scoring.EndsAtFifteen | src/components/ScoreBoard.tsx:26-30 | with ±1 presses a game ends with the scoring side at exactly 15 and the other below 15 |
| Scoring.ScoreGamesMonotone | src/components/ScoreBoard.tsx:24-52 | finished games stay untouched, every game keeps id, teams, phase and group, and no game becomes unfinished |
| Scoring.UpdateTeamStatsFrame | src/components/ScoreBoard.tsx:61-77 | ids, names and groups are kept, and a team that is neither winner nor loser is unchanged |
| Scoring.StatsTotals | src/components/ScoreBoard.tsx:61-76 | total wins rise by the winner-id count, losses by the loser-id count, and the differential moves by the margin accordingly |
| Scoring.StatsBalanced | src/components/ScoreBoard.tsx:61-76 | with one winner and one distinct loser, one win and one loss are added and the total point differential is unchanged |
| Scoring.MarginTotal | src/components/ScoreBoard.tsx:65-74 | the differential change summed over the teams is the margin times winners minus the margin times losers |
| Scoring.LastCompletion | src/components/ScoreBoard.tsx:30-37 | there is no completion exactly when the press finishes no game |
| Scoring.LastCompletionSpec | src/components/ScoreBoard.tsx:25-37 | the result credited is that of the last game the press finishes, with the pressed side as winner and the other side as loser |
| Scoring.PressCredits | src/components/ScoreBoard.tsx:24-76 | a press finishing a game between two teams gives the pressed side's team one more win, its new score for and the other score against, the other team one more loss with the points reversed, and leaves every other team unchanged, in both versions of `updateScore` |
| Scoring.Progress | src/components/ScoreBoard.tsx:83-135 | the games are only ever extended; nothing happens before the group stage is done in the group phase, or with fewer than 8 qualifiers |
| Scoring.ProgressGenerates | src/components/ScoreBoard.tsx:83-135 | once every group game is finished and 8 teams qualify, four quarterfinals are appended and the phase becomes quarterfinal |
| Scoring.QuarterfinalsLayout | src/components/ScoreBoard.tsx:116-126 | the quarterfinals are unfinished 0-0 games on Fields 1-4, at 14:00, 14:00, 15:00 and 15:00, with consecutive ids |
| Scoring.QuarterfinalPairings | src/components/ScoreBoard.tsx:109-114 | the pairings are A1-D2, A2-D1, B1-C2 and B2-C1 |
| Scoring.UpdateScoreAsWritten | src/components/ScoreBoard.tsx:23-58 | as written, a press credits the finished game's result to the teams, adjusts the scores, and may only append games after them |
| Scoring.UpdateScore | src/components/ScoreBoard.tsx:23-58 | a press credits the finished game's result to the teams, adjusts the scores, and may only append games after them |
| Scoring.UpdateScoreSeedsFromResult | src/components/ScoreBoard.tsx:83-135 | outside the group phase a press only scores; a phase change happens only from group to quarterfinal, appending quarterfinals seeded from the updated statistics |
| Scoring.StaleSeeding | src/components/ScoreBoard.tsx:83-93 | in the scenario, as written, the team that just lost the last A game is seeded as A's winner |
| Scoring.ExampleIsScenario | src/components/ScoreBoard.tsx:83-93 | a concrete tournament meets the scenario |
| Scoring.ScenarioFinishesGroups | src/components/ScoreBoard.tsx:84-85 | in the scenario, the press finishes every group game |
| Scoring.ScenarioStats | src/components/ScoreBoard.tsx:60-81 | in the scenario, the press makes team 2 of A rank above team 1 |
| Scoring.PairedTop | src/components/ScoreBoard.tsx:138-154 | with two teams in each of A-D, eight qualify, led by the better of the A pair |
| Ranking.StandingsOrder | src/components/GroupStandings.tsx:18-25 | the standings comparator sorts consistently |
| Ranking.QualifierOrder | src/components/ScoreBoard.tsx:144-147 | the qualification comparator sorts consistently |
| Ranking.StandingsMembers | src/components/GroupStandings.tsx:15-26 | the standings of a group are a permutation of exactly its teams |
| Ranking.StandingsOrdered | src/components/GroupStandings.tsx:18-25 | standings never rise by (wins, point differential, points for) |
| Ranking.StandingsStable | src/components/GroupStandings.tsx:18-25 | teams level on all three keys keep their roster order |
| Ranking.StandingsOnlyFixedGroups | src/components/GroupStandings.tsx:13-54 | a team outside A-D appears in none of the four tables |
| Ranking.GamesPlayedOfGroup | src/components/GroupStandings.tsx:124 | games played is half the wins plus losses of the group's teams, whatever their ranking |
| Ranking.GroupsReady | src/components/GroupStandings.tsx:164 | at most four groups are ready |
| Ranking.ReadyInMeaning | src/components/GroupStandings.tsx:164 | all groups are ready exactly when each has two teams, and none exactly when each has fewer |
| Ranking.TopTwoBest | src/components/TournamentBracket.tsx:21-28 | a group's qualifiers are the start of its ranking: at most two, the first at least the second and both at least every other team |
| Ranking.EightTopTeams | src/components/ScoreBoard.tsx:138-154 | eight qualifiers means each of A-D has two teams, listed first and second of A, then B, C, D |
| Ranking.FullQuarters | src/components/ScoreBoard.tsx:150 | four lists of at most two that together hold eight hold two each |
| Ranking.ActiveGroupsMembers | src/components/TournamentBracket.tsx:17 | the active groups are exactly the groups some team belongs to |
| Ranking.ActiveGroupsIncreasing | src/components/TournamentBracket.tsx:17 | the active groups are strictly increasing, so each appears once |
| Ranking.UniqueSorted | src/components/TournamentBracket.tsx:17 | a set's sorted elements are the list's elements, strictly increasing |
| Ranking.QualifiersShape | src/components/TournamentBracket.tsx:20-30 | each group contributes at most two qualifiers, each at its position in its own group's ranking |
| Ranking.TopTwoOfGroup | src/components/TournamentBracket.tsx:28-29 | qualifier k of a group is the k-th ranked team of that group |
| Ranking.BracketQualifiersBound | src/components/TournamentBracket.tsx:357 | there are at most twice as many qualifiers as active groups |
| Bracket.GameWinner | src/components/TournamentBracket.tsx:41-53 | there is no winner exactly while the game is unfinished, and a winner is one of the two teams |
| Bracket.GameScore | src/components/TournamentBracket.tsx:55-63 | in a multi-set game the shown score is the number of finished sets the side won, at most the number of sets; otherwise it is the side's points |
| Bracket.WinnerAgreesWithScore | src/components/TournamentBracket.tsx:41-63 | a finished game's winner is team 1 exactly when team 1's shown score is higher; team 2 takes ties |
| Bracket.SetScoresBounded | src/components/TournamentBracket.tsx:56-60 | in a multi-set game the two shown set counts add up to at most the finished sets |
| Bracket.KnockoutGames | src/components/TournamentBracket.tsx:36 | the knockout list holds no group game |
| Bracket.PhaseGames | src/components/TournamentBracket.tsx:37-39 | a phase list holds only games of that phase |
| Bracket.PhasesPartition | src/components/TournamentBracket.tsx:36-39 | every game is counted in exactly one of group stage, quarterfinal, semifinal and final |
| Bracket.CompletedIn | src/components/TournamentBracket.tsx:364-379 | a phase's finished count is at most its games |
| Live.RunningGames | src/components/PublicTVMode.tsx:15 | the live list holds exactly the running games |
| Live.UpcomingGames | src/components/PublicTVMode.tsx:16 | at most three games are upcoming, each neither finished nor running |
| Live.UpcomingIsPrefix | src/components/PublicTVMode.tsx:16 | the upcoming games are the first waiting games in list order, short only when fewer wait, and never live |
| Live.WinningStatus | src/components/PublicTVMode.tsx:18-36 | in sets mode a side has won once it holds `setsToWin` sets, else wins while ahead on sets; otherwise the current set decides and nobody has won |
| Live.StatusExclusive | src/components/PublicTVMode.tsx:24-34 | never both sides winning; outside sets mode both are losing exactly when the current set is level |
| Live.BothWonPossible | src/components/PublicTVMode.tsx:24-26 | in sets mode both sides can be shown as won at once |
| Live.ScoreDisplay | src/components/PublicTVMode.tsx:38-58 | the set display appears exactly in sets mode and shows each side's sets won, the current set's scores and the set number from 1; otherwise the first set's scores are shown, 0-0 when there is no set |
| Live.PointsDisplayIgnoresGameScore | src/components/PublicTVMode.tsx:29-55 | outside sets mode the screen ignores the game's own scores and reads only the sets |
| FieldSchedule.ExpectedFields | src/components/FieldSchedule.tsx:22 | the expected fields are "Court 1" to "Court n", none for a negative count |
| FieldSchedule.FieldsToShowSpec | src/components/FieldSchedule.tsx:19-23 | with games, the tabs are exactly the fields in use, strictly increasing; without games, the expected courts |
| FieldSchedule.FieldsToShowDistinct | src/components/FieldSchedule.tsx:19-23 | no tab appears twice |
| FieldSchedule.FieldsWithin | src/components/FieldSchedule.tsx:19-23 | when every game is on an expected court, so is every tab |
| FieldSchedule.StatusRank | src/components/FieldSchedule.tsx:30-33 | a game's status rank is one of four levels |
| FieldSchedule.CompareStatusRank | src/components/FieldSchedule.tsx:30-33 | the status comparison orders games by their status rank |
| FieldSchedule.TabOrder | src/components/FieldSchedule.tsx:26-34 | the per-field comparator sorts consistently |
| FieldSchedule.AllOrder | src/components/FieldSchedule.tsx:39-45 | the all-games comparator sorts consistently |
| FieldSchedule.GamesByFieldSpec | src/components/FieldSchedule.tsx:26-34 | a tab is a permutation of the games on that field: live first, then waiting, then finished, ties by team 1's name |
| FieldSchedule.GamesByFieldStable | src/components/FieldSchedule.tsx:26-34 | games of equal status and equal team 1 name keep their list order |
| FieldSchedule.TabsPartitionGames | src/components/FieldSchedule.tsx:19-27 | the tab sizes add up to the number of games |
| FieldSchedule.AllGamesSortedSpec | src/components/FieldSchedule.tsx:38-46 | the full list is a permutation of the games, by status, then field |
| FieldSchedule.ScheduleCounters | src/components/FieldSchedule.tsx:161-184 | each counter is at most the number of games |
| FieldSchedule.CountersCountPositions | src/components/FieldSchedule.tsx:161-184 | the finished, pending and live counters are the numbers of games that are finished, neither finished nor running, and running |
| FieldSchedule.CountersAddUp | src/components/FieldSchedule.tsx:161-184 | finished, waiting and live add up to the total, except that a running finished game counts twice |
| Sheets.ExportLines | src/components/GoogleSheetsIntegration.tsx:22-36 | the export is the header line followed by one line per team |
| Sheets.RowCells | src/components/GoogleSheetsIntegration.tsx:27-35 | a team's row has eight cells |
| Sheets.SheetIdSpec | src/components/GoogleSheetsIntegration.tsx:60 | the captured id is the longest run of id characters after the leftmost `/d/` that has one; there is none exactly when no position starts one |
| Sheets.CsvUrl | src/components/GoogleSheetsIntegration.tsx:58-65 | a link without the Sheets host or without an id is fetched unchanged; a Sheets link with an id becomes that id's CSV export link |
| Sheets.ExportLinkId | src/components/GoogleSheetsIntegration.tsx:59-63 | the export link of an id contains the Sheets host, captures that id and is its own rewrite |
| Sheets.CsvUrlIdempotent | src/components/GoogleSheetsIntegration.tsx:58-65 | rewriting a link twice is rewriting it once |
| Sheets.CleanFacts | src/components/GoogleSheetsIntegration.tsx:91 | a cleaned cell has no quote, no surrounding whitespace and no new character |
| Sheets.Cells | src/components/GoogleSheetsIntegration.tsx:91 | a line has one cell per comma-separated piece, each clean |
| Sheets.FindByName | src/components/GoogleSheetsIntegration.tsx:95 | lookup by name returns the first team in the list with that name, or nothing when no team has it |
| Sheets.RowId | src/components/GoogleSheetsIntegration.tsx:95-96 | an imported row reuses the id of the first existing team with its name when that id is not empty, and otherwise gets the fallback id of its line; either way the id is not empty |
| Sheets.FallbackIdsDistinct | src/components/GoogleSheetsIntegration.tsx:96 | fallback ids of different lines differ |
| Sheets.ParseLine | src/components/GoogleSheetsIntegration.tsx:88-109 | a line yields no team exactly when it is blank after trimming or has fewer than eight cells; otherwise exactly the team of its cells, named by the first cell and grouped by the second |
| Sheets.RowTeam | src/components/GoogleSheetsIntegration.tsx:94-108 | a row yields no team exactly when it has fewer than eight cells; otherwise the team has the row's id, the first cell as name, the second as group and the next six cells read with `parseInt(...) \|\| 0` |
| Sheets.ParseLinesImported | src/components/GoogleSheetsIntegration.tsx:88-109 | every imported team has an id and a clean name |
| Sheets.ImportCsv | src/components/GoogleSheetsIntegration.tsx:72-109 | the sheet is refused exactly when its header row lacks a required column; otherwise the teams are those of the lines after the header, fewer than the sheet has lines |
| Sheets.Import | src/components/GoogleSheetsIntegration.tsx:67-70 | a failed request is an error |
| Sheets.ApplyImport | src/components/GoogleSheetsIntegration.tsx:112-120 | a successful import replaces the teams; a failed one changes nothing; games and phase are kept |
| Sheets.EmptySheetRejected | src/components/GoogleSheetsIntegration.tsx:73-84 | an empty sheet names no column and is refused |
| Sheets.HeadersValid | src/components/GoogleSheetsIntegration.tsx:76-80 | the exported header row names every required column |
| Sheets.HeaderLine | src/components/GoogleSheetsIntegration.tsx:23-24 | the header line reads back as the header list |
| Sheets.RowBack | src/components/GoogleSheetsIntegration.tsx:26-108 | the k-th exported line reads back as the k-th team |
| Sheets.RowsBack | src/components/GoogleSheetsIntegration.tsx:26-108 | the exported team lines read back as the roster |
| Sheets.ImportExport | src/components/GoogleSheetsIntegration.tsx:22-109 | importing the export against the same roster gives the roster back, ids included |
| Sheets.ApplyExportUnchanged | src/components/GoogleSheetsIntegration.tsx:22-112 | importing the roster's own export leaves the tournament unchanged |

## Left out

- Network, DOM and notifications are left out: `fetch`, the Blob download, `window.open` and every toast. The fetched text is a parameter.
- `Date.now()` ids and times are parameters (`idBase`, `now`).
- React state is left out. The stale-closure effects and the double `onGameUpdate` are collapsed into one resulting state. The one exception is the seeding in `## Findings`.
- The admin password check is left out.
- `src/hooks/useTournamentData.tsx` and `src/integrations/supabase/types.ts` are not part of this model. They are persistence and typings, and their server-side round robin is not visible.
- `src/components/GameSettings.tsx` is not part of this model. `Settings` is taken as given.
- JSX rendering, icons and CSS are left out.
- Text.Less: `localeCompare` is replaced by code-point order. Locale collation is not modelled.
- Text.Less: the default `sort` compares UTF-16 code units, which differs from code-point order once a string holds a character above U+FFFF (such a character sorts before U+E000..U+FFFF in JavaScript, after them here). Group labels and field names outside the Basic Multilingual Plane are ordered differently.
- Text.ParseInt: only base 10 is modelled (optional sign, then a digit prefix). Hex and `0x` prefixes and numbers beyond safe integers are not.
- Text.Lower: only ASCII letters are folded. Other case mappings are not modelled.
- Model.GroupLetter: limited to labels below the surrogate range (`MaxGroupLetters`). `String.fromCharCode` beyond it is not modelled.
- Integers are unbounded. Scores and statistics never approach JavaScript's safe-integer limit. `Ranking.GamesPlayed` is a real, as the JavaScript division is.
- Scheduling.CourtLabel: with 0 courts JavaScript prints "Court NaN"; the model returns that label literally, and its lemmas assume at least one court.
- AdminPanel builds games without `sets`, `currentSet` or `isRunning`, and teams without `setsWon`/`setsLost`. These take the defaults `[]`, 0, false and 0.
- FieldSchedule.AllGamesSorted: the source sorts the shared game array in place. The model returns the sorted list and does not model the mutation of the caller's array.
- Sheets.ImportExport: the round trip needs an exportable roster: unique names, and names and groups without commas, quotes, line breaks or surrounding whitespace. The export does no CSV quoting of such cells.
- Semifinals and the final are never generated by the code. Only the views that filter them are modelled.

## Findings

| source | as written | input that shows it | evidently intended | confidence | as-written member | corrected member |
|---|---|---|---|---|---|---|
| src/components/ScoreBoard.tsx:83-93 | When the press that finishes the last group game triggers the phase advance, the quarterfinal seeding ranks the `teams` list from before `updateTeamStats` credited that result. | `Scoring.Example` (every group finished except A, where a2 leads a1 14-0, both level before): a press on a2's +1 finishes A. A1 is seeded from the stale list, so a1, who just lost, takes A's winner slot against D's runner-up. | Seeding uses the statistics that include the result just credited, as the standings then show; a2 is A's winner. | not executed | Scoring.StaleSeeding | Scoring.UpdateScoreSeedsFromResult |
