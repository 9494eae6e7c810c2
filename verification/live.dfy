/** The public TV screen: which games are live, which come next, and how
    each side of a live game is highlighted and scored. */
module Live {
  import opened Common
  import opened Model

  /** `games.filter(g => g.isRunning)`. */
  function RunningGames(games: seq<Game>): (r: seq<Game>)
    ensures forall g :: g in r <==> g in games && g.isRunning
  {
    Filter(games, (g: Game) => g.isRunning)
  }

  predicate Pending(g: Game)
  {
    !g.isComplete && !g.isRunning
  }

  /** `games.filter(g => !g.isComplete && !g.isRunning).slice(0, 3)`: the
      first three games, in list order, that have neither started nor finished. */
  function UpcomingGames(games: seq<Game>): (r: seq<Game>)
    ensures |r| <= 3
    ensures forall i :: 0 <= i < |r| ==> Pending(r[i])
  {
    Take(Filter(games, Pending), 3)
  }

  /** The upcoming list is the start of the pending list: no pending game is
      skipped in favour of a later one, and it is short only when fewer than
      three games are pending. It never shows a game that is live. */
  lemma UpcomingIsPrefix(games: seq<Game>)
    ensures var pending := Filter(games, Pending);
      && UpcomingGames(games) == pending[..|UpcomingGames(games)|]
      && (|UpcomingGames(games)| < 3 ==> UpcomingGames(games) == pending)
    ensures forall g :: g in UpcomingGames(games) ==> g in games && g !in RunningGames(games)
  {
    var pending := Filter(games, Pending);
    var up := UpcomingGames(games);
    forall g | g in up
      ensures g in games && g !in RunningGames(games)
    {
      var i :| 0 <= i < |up| && up[i] == g;
      assert g == pending[i];
    }
  }

  /** How one side of a live game is highlighted. */
  datatype Status = Won | Winning | Losing

  /** `getTeamWinningStatus`. In sets mode: won once the side has taken
      `setsToWin` sets, winning while ahead on sets, losing otherwise. In the
      other modes the current set decides, and there is no "won". */
  function WinningStatus(g: Game, side: Side, s: Settings): (r: Status)
    ensures s.winCondition != Sets ==> r != Won
    ensures s.winCondition == Sets ==> (r == Won <==> SetsWon(g.sets, side) >= s.setsToWin)
    ensures s.winCondition == Sets && r != Won ==> (r == Winning <==> SetsWon(g.sets, side) > SetsWon(g.sets, Other(side)))
    ensures s.winCondition != Sets ==>
      (r == Winning <==> SetScore(SetAt(g.sets, g.currentSet), side) > SetScore(SetAt(g.sets, g.currentSet), Other(side)))
  {
    if s.winCondition == Sets then
      var mine, theirs := SetsWon(g.sets, side), SetsWon(g.sets, Other(side));
      if mine >= s.setsToWin then Won else if mine > theirs then Winning else Losing
    else
      var cur := SetAt(g.sets, g.currentSet);
      if SetScore(cur, side) > SetScore(cur, Other(side)) then Winning else Losing
  }

  function SetScore(gs: GameSet, side: Side): int
  {
    match side
    case Team1 => gs.team1Score
    case Team2 => gs.team2Score
  }

  /** The two sides are never both shown as winning; outside sets mode both
      are shown as losing exactly when the current set is level. */
  lemma StatusExclusive(g: Game, s: Settings)
    ensures !(WinningStatus(g, Team1, s) == Winning && WinningStatus(g, Team2, s) == Winning)
    ensures s.winCondition != Sets ==>
      ((WinningStatus(g, Team1, s) == Losing && WinningStatus(g, Team2, s) == Losing)
        <==> SetAt(g.sets, g.currentSet).team1Score == SetAt(g.sets, g.currentSet).team2Score)
  {
  }

  /** Sets mode can show both sides as the winner at once: with `setsToWin`
      at 1 and one finished set each. */
  lemma BothWonPossible(t1: Team, t2: Team)
    ensures var s := Settings(4, 4, Sets, 15, 20, 2, 1, 25, 2);
      var g := Game("1", t1, t2, [GameSet(25, 20, true), GameSet(18, 25, true)], 1,
        false, "Court 1", Group, None, None, true, 0, 0, None);
      WinningStatus(g, Team1, s) == Won && WinningStatus(g, Team2, s) == Won
  {
    var sets := [GameSet(25, 20, true), GameSet(18, 25, true)];
    var p1 := (gs: GameSet) => WonSet(gs, Team1);
    var p2 := (gs: GameSet) => WonSet(gs, Team2);
    assert sets[1..] == [GameSet(18, 25, true)];
    assert sets[1..][1..] == [];
    assert Filter(sets[1..], p1) == [];
    assert Filter(sets, p1) == [sets[0]];
    assert Filter(sets[1..], p2) == [sets[1]];
    assert Filter(sets, p2) == [sets[1]];
  }

  /** What the TV shows for a live game. */
  datatype Display =
    | SetsDisplay(team1Sets: nat, team2Sets: nat, team1Current: int, team2Current: int, setNumber: int)
    | PointsDisplay(team1Score: int, team2Score: int)

  /** `getScoreDisplay`: set counts and the current set in sets mode;
      otherwise the scores of the first set. */
  function ScoreDisplay(g: Game, s: Settings): (r: Display)
    ensures r.SetsDisplay? <==> s.winCondition == Sets
    ensures r.SetsDisplay? ==> (r.setNumber == g.currentSet + 1 && r.team1Sets + r.team2Sets <= |g.sets|)
    ensures r.SetsDisplay? ==>
      && r.team1Sets == SetsWon(g.sets, Team1) && r.team2Sets == SetsWon(g.sets, Team2)
      && r.team1Current == SetAt(g.sets, g.currentSet).team1Score
      && r.team2Current == SetAt(g.sets, g.currentSet).team2Score
    ensures r.PointsDisplay? ==>
      && r.team1Score == SetAt(g.sets, 0).team1Score && r.team2Score == SetAt(g.sets, 0).team2Score
      && (|g.sets| == 0 ==> r.team1Score == 0 && r.team2Score == 0)
  {
    if s.winCondition == Sets then
      var cur := SetAt(g.sets, g.currentSet);
      SetsWonBound(g.sets);
      SetsDisplay(SetsWon(g.sets, Team1), SetsWon(g.sets, Team2), cur.team1Score, cur.team2Score, g.currentSet + 1)
    else
      var first := SetAt(g.sets, 0);
      PointsDisplay(first.team1Score, first.team2Score)
  }

  /** Outside sets mode the screen reads the first set, not the game's
      running score: two games that differ only in `team1Score` and
      `team2Score` look the same. */
  lemma PointsDisplayIgnoresGameScore(g: Game, s: Settings, a: int, b: int)
    requires s.winCondition != Sets
    ensures ScoreDisplay(g, s) == ScoreDisplay(g.(team1Score := a, team2Score := b), s)
    ensures WinningStatus(g, Team1, s) == WinningStatus(g.(team1Score := a, team2Score := b), Team1, s)
  {
  }
}
