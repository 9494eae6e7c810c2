/** The records every component shares: `Team`, `GameSet`, `Game` and
    `TournamentSettings`, with the accessors for one side of a game. */
module Model {
  import opened Common
  import Text

  /** Tournament phase of a game and of the tournament as a whole. */
  datatype Phase = Group | Quarterfinal | Semifinal | Final

  /** One side of a game: `'team1' | 'team2'`. */
  datatype Side = Team1 | Team2

  /** How a game is decided. */
  datatype WinCondition = Points | Time | Sets

  /** A team and its cumulative record. Numbers are unbounded integers. */
  datatype Team = Team(
    id: string,
    name: string,
    group: string,
    wins: int,
    losses: int,
    pointsFor: int,
    pointsAgainst: int,
    setsWon: int,
    setsLost: int)
  {
    /** `pointsFor - pointsAgainst`. */
    function PointDiff(): int
    {
      pointsFor - pointsAgainst
    }
  }

  /** One set of a game. */
  datatype GameSet = GameSet(team1Score: int, team2Score: int, isComplete: bool)

  /** A game. Optional fields of the source are `Option`s; a game built
      without `sets` has the empty sequence. */
  datatype Game = Game(
    id: string,
    team1: Team,
    team2: Team,
    sets: seq<GameSet>,
    currentSet: int,
    isComplete: bool,
    field: string,
    phase: Phase,
    group: Option<string>,
    winner: Option<Team>,
    isRunning: bool,
    team1Score: int,
    team2Score: int,
    time: Option<string>)

  /** The configuration record (the admin password is left out). */
  datatype Settings = Settings(
    numberOfCourts: int,
    numberOfGroups: int,
    winCondition: WinCondition,
    pointsToWin: int,
    timeLimit: int,
    numberOfSets: int,
    setsToWin: int,
    pointsToWinSet: int,
    teamsAdvancingFromGroup: int)

  /** What the main page holds: the roster, the games and the current phase. */
  datatype Tournament = Tournament(teams: seq<Team>, games: seq<Game>, phase: Phase)

  /** A team with a fresh, all-zero record. */
  function NewTeam(id: string, name: string, group: string): (t: Team)
    ensures t.id == id && t.name == name && t.group == group
    ensures t.wins == 0 && t.losses == 0 && t.pointsFor == 0 && t.pointsAgainst == 0
    ensures t.setsWon == 0 && t.setsLost == 0
  {
    Team(id, name, group, 0, 0, 0, 0, 0, 0)
  }

  /** `teams.filter(team => team.group === g)`. */
  function GroupTeams(teams: seq<Team>, g: string): (r: seq<Team>)
    ensures forall i :: 0 <= i < |r| ==> r[i].group == g
  {
    Filter(teams, (t: Team) => t.group == g)
  }

  /** The top-level score of one side (`game[`${team}Score`]`). */
  function ScoreOf(g: Game, side: Side): int
  {
    match side
    case Team1 => g.team1Score
    case Team2 => g.team2Score
  }

  /** The game with one side's top-level score replaced and every other field kept. */
  function WithScore(g: Game, side: Side, score: int): (r: Game)
    ensures ScoreOf(r, side) == score
    ensures ScoreOf(r, Other(side)) == ScoreOf(g, Other(side))
    ensures r.(team1Score := g.team1Score, team2Score := g.team2Score) == g
  {
    match side
    case Team1 => g.(team1Score := score)
    case Team2 => g.(team2Score := score)
  }

  function Other(side: Side): Side
  {
    match side
    case Team1 => Team2
    case Team2 => Team1
  }

  function TeamOf(g: Game, side: Side): Team
  {
    match side
    case Team1 => g.team1
    case Team2 => g.team2
  }

  /** `set.isComplete && set.<side>Score > set.<other>Score`: a finished set that `side` took. */
  predicate WonSet(gs: GameSet, side: Side)
  {
    match side
    case Team1 => gs.isComplete && gs.team1Score > gs.team2Score
    case Team2 => gs.isComplete && gs.team2Score > gs.team1Score
  }

  /** How many finished sets `side` took. */
  function SetsWon(sets: seq<GameSet>, side: Side): nat
  {
    Count(sets, (gs: GameSet) => WonSet(gs, side))
  }

  /** The two sides' set counts together never exceed the number of finished
      sets: a set is won by at most one side, and only once it is finished. */
  lemma {:induction false} SetsWonBound(sets: seq<GameSet>)
    ensures SetsWon(sets, Team1) + SetsWon(sets, Team2) <= Count(sets, (gs: GameSet) => gs.isComplete) <= |sets|
  {
    if |sets| > 0 {
      SetsWonBound(sets[1..]);
    }
  }

  /** `sets[i] || { team1Score: 0, team2Score: 0, isComplete: false }`. */
  function SetAt(sets: seq<GameSet>, i: int): (r: GameSet)
    ensures 0 <= i < |sets| ==> r == sets[i]
    ensures !(0 <= i < |sets|) ==> r == GameSet(0, 0, false)
  {
    if 0 <= i < |sets| then sets[i] else GameSet(0, 0, false)
  }

  /** `String.fromCharCode(65 + i)`: the i-th group letter, for letters that
      are Unicode scalar values. */
  function GroupLetter(i: nat): (r: string)
    requires i < MaxGroupLetters
    ensures |r| == 1 && r[0] as int == 65 + i
  {
    [(65 + i) as char]
  }

  /** Group letters from 'A' up to the last code point below the surrogate range. */
  const MaxGroupLetters: nat := 0xD800 - 65

  /** The four groups and fields the admin panel and the standings work with. */
  const FixedGroups: seq<string> := ["A", "B", "C", "D"]
  const FixedFields: seq<string> := ["Field 1", "Field 2", "Field 3", "Field 4"]

  /** `${n}` for an integer. */
  function Show(n: int): string
  {
    Text.IntToString(n)
  }
}
