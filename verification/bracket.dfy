/** The knockout bracket view: games per knockout phase, the winner and the
    displayed score of a game, and the progress counters. */
module Bracket {
  import opened Common
  import opened Model

  /** `sets && sets.length > 1`: the game is decided by sets. */
  predicate MultiSet(g: Game)
  {
    |g.sets| > 1
  }

  /** `getGameWinner`: nothing while the game runs; then the side with more
      sets (multi-set games) or more points, with team 2 taking every tie. */
  function GameWinner(g: Game): (r: Option<Team>)
    ensures r.None? <==> !g.isComplete
    ensures r.Some? ==> r.value == g.team1 || r.value == g.team2
  {
    if !g.isComplete then None
    else if MultiSet(g) then
      if SetsWon(g.sets, Team1) > SetsWon(g.sets, Team2) then Some(g.team1) else Some(g.team2)
    else if g.team1Score > g.team2Score then Some(g.team1) else Some(g.team2)
  }

  /** `getGameScore`: the sets a side took in a multi-set game, otherwise its points. */
  function GameScore(g: Game, side: Side): (r: int)
    ensures MultiSet(g) ==> r == SetsWon(g.sets, side) && 0 <= r <= |g.sets|
    ensures !MultiSet(g) ==> r == ScoreOf(g, side)
  {
    SetsWonBound(g.sets);
    if MultiSet(g) then SetsWon(g.sets, side) else ScoreOf(g, side)
  }

  /** The winner shown is team 1 exactly when team 1's shown score is
      strictly higher; otherwise (ties included) it is team 2. */
  lemma WinnerAgreesWithScore(g: Game)
    requires g.isComplete
    ensures GameWinner(g) == (if GameScore(g, Team1) > GameScore(g, Team2) then Some(g.team1) else Some(g.team2))
  {
  }

  /** In a multi-set game the two shown scores add up to at most the number
      of finished sets. */
  lemma SetScoresBounded(g: Game)
    requires MultiSet(g)
    ensures GameScore(g, Team1) + GameScore(g, Team2) <= Count(g.sets, (gs: GameSet) => gs.isComplete)
  {
    SetsWonBound(g.sets);
  }

  predicate InPhase(g: Game, p: Phase)
  {
    g.phase == p
  }

  /** `games.filter(g => g.phase !== 'group')`. */
  function KnockoutGames(games: seq<Game>): (r: seq<Game>)
    ensures forall i :: 0 <= i < |r| ==> r[i].phase != Group
  {
    Filter(games, (g: Game) => g.phase != Group)
  }

  /** The knockout games of one phase. */
  function PhaseGames(games: seq<Game>, p: Phase): (r: seq<Game>)
    requires p != Group
    ensures forall i :: 0 <= i < |r| ==> r[i].phase == p
  {
    Filter(KnockoutGames(games), (g: Game) => InPhase(g, p))
  }

  /** Every game lands in exactly one of group stage, quarterfinals,
      semifinals and final. */
  lemma {:induction false} PhasesPartition(games: seq<Game>)
    ensures |KnockoutGames(games)| == |PhaseGames(games, Quarterfinal)| + |PhaseGames(games, Semifinal)| + |PhaseGames(games, Final)|
    ensures |games| == Count(games, (g: Game) => g.phase == Group) + |KnockoutGames(games)|
  {
    var q := (g: Game) => InPhase(g, Quarterfinal);
    var s := (g: Game) => InPhase(g, Semifinal);
    var f := (g: Game) => InPhase(g, Final);
    var k := (g: Game) => g.phase != Group;
    FilterFilter(games, k, q, q);
    FilterFilter(games, k, s, s);
    FilterFilter(games, k, f, f);
    PartitionCount(games);
  }

  lemma {:induction false} PartitionCount(games: seq<Game>)
    ensures |Filter(games, (g: Game) => g.phase != Group)|
      == |Filter(games, (g: Game) => InPhase(g, Quarterfinal))| + |Filter(games, (g: Game) => InPhase(g, Semifinal))|
       + |Filter(games, (g: Game) => InPhase(g, Final))|
    ensures |games| == |Filter(games, (g: Game) => g.phase == Group)| + |Filter(games, (g: Game) => g.phase != Group)|
  {
    if |games| > 0 {
      PartitionCount(games[1..]);
    }
  }

  /** `phaseGames.filter(g => g.isComplete).length`: finished games of a knockout phase. */
  function CompletedIn(games: seq<Game>, p: Phase): (r: nat)
    requires p != Group
    ensures r <= |PhaseGames(games, p)|
  {
    Count(PhaseGames(games, p), (g: Game) => g.isComplete)
  }
}
