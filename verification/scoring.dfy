/** The live scoreboard: the +1/-1 score buttons, the first-to-15 rule, the
    team statistics credited when a game ends, and the automatic move to the
    quarterfinals once every group game is finished. */
module Scoring {
  import opened Common
  import opened Model
  import Ranking
  import Sorting
  import Text

  /** A game ends when a side reaches this many points. */
  const WinningScore: int := 15

  function Max0(x: int): (r: int)
    ensures r >= 0 && r >= x && (r == x || r == 0)
  {
    if x < 0 then 0 else x
  }

  /** The score change applied to one game: only the game with this id, and
      only while it is unfinished. The side's score moves by `change` but not
      below zero, and the game is finished exactly when that score reaches 15. */
  function AdjustGame(g: Game, gameId: string, side: Side, change: int): (r: Game)
    ensures !(g.id == gameId && !g.isComplete) ==> r == g
    ensures g.id == gameId && !g.isComplete ==>
      && ScoreOf(r, side) >= 0
      && (ScoreOf(r, side) == ScoreOf(g, side) + change || (ScoreOf(r, side) == 0 && ScoreOf(g, side) + change < 0))
      && ScoreOf(r, Other(side)) == ScoreOf(g, Other(side))
      && (r.isComplete <==> ScoreOf(r, side) >= WinningScore)
      && r.(team1Score := g.team1Score, team2Score := g.team2Score, isComplete := g.isComplete) == g
  {
    if g.id == gameId && !g.isComplete then
      var newScore := Max0(ScoreOf(g, side) + change);
      WithScore(g, side, newScore).(isComplete := newScore >= WinningScore)
    else g
  }

  /** The change finishes this game. */
  predicate Completes(g: Game, gameId: string, side: Side, change: int)
  {
    g.id == gameId && !g.isComplete && ScoreOf(g, side) + change >= WinningScore
  }

  /** An unfinished game has both scores in 0..14. */
  predicate ScoresValid(g: Game)
  {
    g.isComplete || (0 <= g.team1Score < WinningScore && 0 <= g.team2Score < WinningScore)
  }

  /** Score changes keep every game valid. */
  lemma AdjustKeepsValid(g: Game, gameId: string, side: Side, change: int)
    requires ScoresValid(g)
    ensures ScoresValid(AdjustGame(g, gameId, side, change))
  {
  }

  /** With single-point buttons a valid game ends at exactly 15, with the
      other side still below 15: the first side to 15 wins. */
  lemma EndsAtFifteen(g: Game, gameId: string, side: Side, change: int)
    requires ScoresValid(g) && (change == 1 || change == -1)
    requires Completes(g, gameId, side, change)
    ensures ScoreOf(AdjustGame(g, gameId, side, change), side) == WinningScore
    ensures ScoreOf(AdjustGame(g, gameId, side, change), Other(side)) < WinningScore
    ensures AdjustGame(g, gameId, side, change).isComplete
  {
  }

  /** `games.map(...)` with the change applied to the matching game. */
  function ScoreGames(games: seq<Game>, gameId: string, side: Side, change: int): (r: seq<Game>)
    ensures |r| == |games|
    ensures forall i :: 0 <= i < |r| ==> r[i] == AdjustGame(games[i], gameId, side, change)
  {
    if |games| == 0 then []
    else [AdjustGame(games[0], gameId, side, change)] + ScoreGames(games[1..], gameId, side, change)
  }

  /** Finished games stay finished and untouched, and every other game keeps its
      id, teams, phase and group; so the number of finished games never drops. */
  lemma ScoreGamesMonotone(games: seq<Game>, gameId: string, side: Side, change: int)
    ensures var r := ScoreGames(games, gameId, side, change);
      && (forall i :: 0 <= i < |r| && games[i].isComplete ==> r[i] == games[i])
      && (forall i :: 0 <= i < |r| ==>
            (r[i].id == games[i].id && r[i].team1 == games[i].team1 && r[i].team2 == games[i].team2
            && r[i].phase == games[i].phase && r[i].group == games[i].group))
      && Count(games, (g: Game) => g.isComplete) <= Count(r, (g: Game) => g.isComplete)
  {
    var r := ScoreGames(games, gameId, side, change);
    forall i | 0 <= i < |r|
      ensures r[i].id == games[i].id && r[i].team1 == games[i].team1 && r[i].team2 == games[i].team2
      ensures r[i].phase == games[i].phase && r[i].group == games[i].group
    {
      var g := games[i];
      if g.id == gameId && !g.isComplete {
        assert r[i].(team1Score := g.team1Score, team2Score := g.team2Score, isComplete := g.isComplete) == g;
      }
    }
    CountMonotone(games, r, (g: Game) => g.isComplete);
  }

  // ----- team statistics -----

  /** The arguments of one `updateTeamStats` call. */
  datatype Completion = Completion(winnerId: string, loserId: string, winnerScore: int, loserScore: int)

  /** What finishing `g` credits: the scoring side wins with its new score. */
  function CompletionOf(g: Game, side: Side, change: int): Completion
  {
    Completion(TeamOf(g, side).id, TeamOf(g, Other(side)).id, ScoreOf(g, side) + change, ScoreOf(g, Other(side)))
  }

  /** One team's record after a result: the winner (checked first) gains a win,
      the loser a loss, each is credited its own points and the other's as
      conceded; anybody else is unchanged. */
  function Credit(t: Team, c: Completion): Team
  {
    if t.id == c.winnerId then
      t.(wins := t.wins + 1, pointsFor := t.pointsFor + c.winnerScore, pointsAgainst := t.pointsAgainst + c.loserScore)
    else if t.id == c.loserId then
      t.(losses := t.losses + 1, pointsFor := t.pointsFor + c.loserScore, pointsAgainst := t.pointsAgainst + c.winnerScore)
    else t
  }

  /** `updateTeamStats`: every team credited with the result. */
  function UpdateTeamStats(teams: seq<Team>, c: Completion): (r: seq<Team>)
    ensures |r| == |teams|
    ensures forall i :: 0 <= i < |r| ==> r[i] == Credit(teams[i], c)
  {
    if |teams| == 0 then [] else [Credit(teams[0], c)] + UpdateTeamStats(teams[1..], c)
  }

  predicate HasId(t: Team, id: string)
  {
    t.id == id
  }

  /** Every team keeps its id, name and group, and a team whose id is neither
      the winner's nor the loser's keeps its whole record. */
  lemma UpdateTeamStatsFrame(teams: seq<Team>, c: Completion)
    ensures var r := UpdateTeamStats(teams, c);
      forall i :: 0 <= i < |r| ==>
        && r[i].id == teams[i].id && r[i].name == teams[i].name && r[i].group == teams[i].group
        && (teams[i].id != c.winnerId && teams[i].id != c.loserId ==> r[i] == teams[i])
  {
  }

  /** Totals after a result: one more win per team carrying the winner's id,
      one more loss per team carrying only the loser's id, and the winner's
      margin added to or taken from the total point differential for each. */
  lemma StatsTotals(teams: seq<Team>, c: Completion)
    ensures var r := UpdateTeamStats(teams, c);
      var w := Count(teams, (t: Team) => HasId(t, c.winnerId));
      var l := Count(teams, (t: Team) => HasId(t, c.loserId) && !HasId(t, c.winnerId));
      && Sum(r, (t: Team) => t.wins) == Sum(teams, (t: Team) => t.wins) + w
      && Sum(r, (t: Team) => t.losses) == Sum(teams, (t: Team) => t.losses) + l
      && Sum(r, (t: Team) => t.PointDiff()) == Sum(teams, (t: Team) => t.PointDiff()) + w * (c.winnerScore - c.loserScore) - l * (c.winnerScore - c.loserScore)
  {
    WinsTotal(teams, c);
    LossesTotal(teams, c);
    DiffTotal(teams, c);
  }

  lemma {:induction false} WinsTotal(teams: seq<Team>, c: Completion)
    ensures Sum(UpdateTeamStats(teams, c), (t: Team) => t.wins)
      == Sum(teams, (t: Team) => t.wins) + Count(teams, (t: Team) => HasId(t, c.winnerId))
  {
    if |teams| > 0 {
      WinsTotal(teams[1..], c);
      assert UpdateTeamStats(teams, c)[1..] == UpdateTeamStats(teams[1..], c);
    }
  }

  lemma {:induction false} LossesTotal(teams: seq<Team>, c: Completion)
    ensures Sum(UpdateTeamStats(teams, c), (t: Team) => t.losses)
      == Sum(teams, (t: Team) => t.losses) + Count(teams, (t: Team) => HasId(t, c.loserId) && !HasId(t, c.winnerId))
  {
    if |teams| > 0 {
      LossesTotal(teams[1..], c);
      assert UpdateTeamStats(teams, c)[1..] == UpdateTeamStats(teams[1..], c);
    }
  }

  lemma DiffTotal(teams: seq<Team>, c: Completion)
    ensures Sum(UpdateTeamStats(teams, c), (t: Team) => t.PointDiff())
      == Sum(teams, (t: Team) => t.PointDiff())
       + Count(teams, (t: Team) => HasId(t, c.winnerId)) * (c.winnerScore - c.loserScore)
       - Count(teams, (t: Team) => HasId(t, c.loserId) && !HasId(t, c.winnerId)) * (c.winnerScore - c.loserScore)
  {
    DiffShift(teams, c);
    MarginTotal(teams, c);
  }

  /** How a result moves one team's point differential. */
  function Margin(t: Team, c: Completion): int
  {
    if HasId(t, c.winnerId) then c.winnerScore - c.loserScore
    else if HasId(t, c.loserId) then c.loserScore - c.winnerScore
    else 0
  }

  lemma {:induction false} DiffShift(teams: seq<Team>, c: Completion)
    ensures Sum(UpdateTeamStats(teams, c), (t: Team) => t.PointDiff())
      == Sum(teams, (t: Team) => t.PointDiff()) + Sum(teams, (t: Team) => Margin(t, c))
  {
    if |teams| > 0 {
      DiffShift(teams[1..], c);
      assert UpdateTeamStats(teams, c)[1..] == UpdateTeamStats(teams[1..], c);
    }
  }

  lemma {:induction false} MarginTotal(teams: seq<Team>, c: Completion)
    ensures Sum(teams, (t: Team) => Margin(t, c))
      == Count(teams, (t: Team) => HasId(t, c.winnerId)) * (c.winnerScore - c.loserScore)
       - Count(teams, (t: Team) => HasId(t, c.loserId) && !HasId(t, c.winnerId)) * (c.winnerScore - c.loserScore)
  {
    if |teams| > 0 {
      var pw := (t: Team) => HasId(t, c.winnerId);
      var pl := (t: Team) => HasId(t, c.loserId) && !HasId(t, c.winnerId);
      MarginTotal(teams[1..], c);
      var dw := if pw(teams[0]) then 1 else 0;
      var dl := if pl(teams[0]) then 1 else 0;
      assert Count(teams, pw) == dw + Count(teams[1..], pw);
      assert Count(teams, pl) == dl + Count(teams[1..], pl);
      SumStep(Margin(teams[0], c), dw, Count(teams[1..], pw), dl, Count(teams[1..], pl), c.winnerScore - c.loserScore);
    }
  }

  /** The induction step of `MarginTotal`, as arithmetic alone. */
  lemma SumStep(x: int, dw: int, w: int, dl: int, l: int, m: int)
    requires x == dw * m - dl * m
    ensures x + (w * m - l * m) == (dw + w) * m - (dl + l) * m
  {
    assert (dw + w) * m == dw * m + w * m;
    assert (dl + l) * m == dl * m + l * m;
  }

  /** With distinct winner and loser, each carried by exactly one team, a
      result adds one win and one loss overall and leaves the total point
      differential unchanged. */
  lemma StatsBalanced(teams: seq<Team>, c: Completion)
    requires c.winnerId != c.loserId
    requires Count(teams, (t: Team) => HasId(t, c.winnerId)) == 1
    requires Count(teams, (t: Team) => HasId(t, c.loserId)) == 1
    ensures var r := UpdateTeamStats(teams, c);
      && Sum(r, (t: Team) => t.wins) == Sum(teams, (t: Team) => t.wins) + 1
      && Sum(r, (t: Team) => t.losses) == Sum(teams, (t: Team) => t.losses) + 1
      && Sum(r, (t: Team) => t.PointDiff()) == Sum(teams, (t: Team) => t.PointDiff())
  {
    WinsTotal(teams, c);
    LossesTotal(teams, c);
    DiffTotal(teams, c);
    var onlyLoser := (t: Team) => HasId(t, c.loserId) && !HasId(t, c.winnerId);
    var loser := (t: Team) => HasId(t, c.loserId);
    FilterCongruent(teams, onlyLoser, loser);
    assert Count(teams, onlyLoser) == 1;
  }

  /** The last game in list order that the change finishes, if any. */
  function LastCompletion(games: seq<Game>, gameId: string, side: Side, change: int): (r: Option<Completion>)
    ensures r.None? <==> forall i :: 0 <= i < |games| ==> !Completes(games[i], gameId, side, change)
  {
    if |games| == 0 then None
    else
      var rest := LastCompletion(games[1..], gameId, side, change);
      if rest.Some? then rest
      else if Completes(games[0], gameId, side, change) then Some(CompletionOf(games[0], side, change))
      else None
  }

  /** The result returned is that of the last game in list order that the
      change finishes, with the pressed side as its winner. */
  lemma {:induction false} LastCompletionSpec(games: seq<Game>, gameId: string, side: Side, change: int)
    ensures var r := LastCompletion(games, gameId, side, change);
      r.Some? ==> exists i :: (0 <= i < |games| && Completes(games[i], gameId, side, change)
        && r.value == CompletionOf(games[i], side, change)
        && forall j :: i < j < |games| ==> !Completes(games[j], gameId, side, change))
  {
    if |games| > 0 {
      var tail := games[1..];
      LastCompletionSpec(tail, gameId, side, change);
      assert forall j :: 0 < j < |games| ==> games[j] == tail[j - 1];
      if LastCompletion(tail, gameId, side, change).Some? {
        var i :| 0 <= i < |tail| && Completes(tail[i], gameId, side, change)
          && LastCompletion(tail, gameId, side, change).value == CompletionOf(tail[i], side, change)
          && forall j :: i < j < |tail| ==> !Completes(tail[j], gameId, side, change);
        assert games[i + 1] == tail[i];
      }
    }
  }

  /** The team list after a score change. Each finishing game calls
      `updateTeamStats`, which starts again from the team list the scoreboard
      was given, so the last such call is the one that sticks. */
  function StatsAfter(teams: seq<Team>, games: seq<Game>, gameId: string, side: Side, change: int): seq<Team>
  {
    match LastCompletion(games, gameId, side, change)
    case None => teams
    case Some(c) => UpdateTeamStats(teams, c)
  }

  // ----- advancing to the knockout stage -----

  /** Every group game is finished, and there is at least one. */
  predicate GroupStageDone(games: seq<Game>)
  {
    var groupGames := Filter(games, (g: Game) => g.phase == Group);
    |groupGames| > 0 && forall i :: 0 <= i < |groupGames| ==> groupGames[i].isComplete
  }

  /** The k-th quarterfinal: `topTeams[k]` against `topTeams[7 - k]`. */
  function QuarterfinalGame(top: seq<Team>, k: nat, idBase: nat): Game
    requires |top| >= 8 && k < 4
  {
    Game(Show(idBase + k), top[k], top[7 - k], [], 0, false, "Field " + Show(k % 4 + 1), Quarterfinal,
      None, None, false, 0, 0, Some(Show(14 + k / 2) + ":00"))
  }

  function Quarterfinals(top: seq<Team>, idBase: nat): (r: seq<Game>)
    requires |top| >= 8
    ensures |r| == 4
    ensures forall k :: 0 <= k < 4 ==> r[k] == QuarterfinalGame(top, k, idBase)
  {
    seq(4, k requires 0 <= k < 4 => QuarterfinalGame(top, k, idBase))
  }

  /** `checkPhaseProgression` and `generateKnockoutPhase('quarterfinal')`:
      once every group game is finished during the group phase, the top two
      of A-D (ranked on `seed`) are paired into four quarterfinals, appended
      to the games, and the phase moves on; with fewer than eight qualifiers
      nothing changes. */
  function Progress(seed: seq<Team>, games: seq<Game>, phase: Phase, idBase: nat): (r: (seq<Game>, Phase))
    ensures |r.0| >= |games| && r.0[..|games|] == games
    ensures !(GroupStageDone(games) && phase == Group) ==> r == (games, phase)
    ensures GroupStageDone(games) && phase == Group && |Ranking.TopTeamsFromGroups(seed)| < 8 ==> r == (games, phase)
  {
    if GroupStageDone(games) && phase == Group then
      var top := Ranking.TopTeamsFromGroups(seed);
      if |top| < 8 then (games, phase)
      else (games + Quarterfinals(top, idBase), Quarterfinal)
    else (games, phase)
  }

  /** Once the group stage is done and eight teams qualify, the four
      quarterfinals are appended and the phase becomes the quarterfinals. */
  lemma ProgressGenerates(seed: seq<Team>, games: seq<Game>, idBase: nat)
    requires GroupStageDone(games)
    requires |Ranking.TopTeamsFromGroups(seed)| >= 8
    ensures Progress(seed, games, Group, idBase) == (games + Quarterfinals(Ranking.TopTeamsFromGroups(seed), idBase), Quarterfinal)
  {
  }

  /** The quarterfinals are four new unfinished 0-0 games on Fields 1-4, at
      14:00, 14:00, 15:00 and 15:00, with ids `idBase` to `idBase + 3`. */
  lemma QuarterfinalsLayout(top: seq<Team>, idBase: nat)
    requires |top| >= 8
    ensures var q := Quarterfinals(top, idBase);
      && q[0].field == "Field 1" && q[1].field == "Field 2" && q[2].field == "Field 3" && q[3].field == "Field 4"
      && q[0].time == Some("14:00") && q[1].time == Some("14:00") && q[2].time == Some("15:00") && q[3].time == Some("15:00")
      && forall k :: 0 <= k < 4 ==>
        (q[k].phase == Quarterfinal && !q[k].isComplete && q[k].team1Score == 0 && q[k].team2Score == 0
        && q[k].id == Show(idBase + k))
  {
    var q := Quarterfinals(top, idBase);
    assert q[0] == QuarterfinalGame(top, 0, idBase);
    assert q[1] == QuarterfinalGame(top, 1, idBase);
    assert q[2] == QuarterfinalGame(top, 2, idBase);
    assert q[3] == QuarterfinalGame(top, 3, idBase);
    assert Show(14) == "14" by {
      assert Text.NatToString(14) == Text.NatToString(1) + [Text.DigitChar(4)];
    }
    assert Show(15) == "15" by {
      assert Text.NatToString(15) == Text.NatToString(1) + [Text.DigitChar(5)];
    }
    assert q[0].time == Some(Show(14) + ":00") && q[1].time == Some(Show(14) + ":00");
    assert q[2].time == Some(Show(15) + ":00") && q[3].time == Some(Show(15) + ":00");
    assert "14" + ":00" == "14:00";
    assert "15" + ":00" == "15:00";
  }

  /** The pairings: A's winner against D's runner-up, A's runner-up against
      D's winner, B's winner against C's runner-up and B's runner-up against
      C's winner. Every quarterfinal thus meets a group winner and a runner-up
      from the opposite group. */
  lemma QuarterfinalPairings(seed: seq<Team>, idBase: nat)
    requires |Ranking.TopTeamsFromGroups(seed)| >= 8
    ensures var q := Quarterfinals(Ranking.TopTeamsFromGroups(seed), idBase);
      var a, b, c, d := Ranking.Ranked(seed, "A"), Ranking.Ranked(seed, "B"), Ranking.Ranked(seed, "C"), Ranking.Ranked(seed, "D");
      && |a| >= 2 && |b| >= 2 && |c| >= 2 && |d| >= 2
      && (q[0].team1, q[0].team2) == (a[0], d[1])
      && (q[1].team1, q[1].team2) == (a[1], d[0])
      && (q[2].team1, q[2].team2) == (b[0], c[1])
      && (q[3].team1, q[3].team2) == (b[1], c[0])
  {
    Ranking.EightTopTeams(seed);
    var top := Ranking.TopTeamsFromGroups(seed);
    var q := Quarterfinals(top, idBase);
    assert q[0] == QuarterfinalGame(top, 0, idBase);
    assert q[1] == QuarterfinalGame(top, 1, idBase);
    assert q[2] == QuarterfinalGame(top, 2, idBase);
    assert q[3] == QuarterfinalGame(top, 3, idBase);
  }

  // ----- one press of a score button -----

  /** `updateScore` as the scoreboard is written: the quarterfinal seeding
      ranks the team list the scoreboard was given, which does not yet hold
      the statistics of the game this press just finished. */
  function UpdateScoreAsWritten(st: Tournament, gameId: string, side: Side, change: int, idBase: nat): (r: Tournament)
    ensures r.teams == StatsAfter(st.teams, st.games, gameId, side, change)
    ensures |r.games| >= |st.games| && r.games[..|st.games|] == ScoreGames(st.games, gameId, side, change)
  {
    var games := ScoreGames(st.games, gameId, side, change);
    var teams := StatsAfter(st.teams, st.games, gameId, side, change);
    var next := Progress(st.teams, games, st.phase, idBase);
    Tournament(teams, next.0, next.1)
  }

  /** `updateScore` with the seeding taken from the statistics that include the
      game just finished, which is what the standings show. */
  function UpdateScore(st: Tournament, gameId: string, side: Side, change: int, idBase: nat): (r: Tournament)
    ensures r.teams == StatsAfter(st.teams, st.games, gameId, side, change)
    ensures |r.games| >= |st.games| && r.games[..|st.games|] == ScoreGames(st.games, gameId, side, change)
  {
    var games := ScoreGames(st.games, gameId, side, change);
    var teams := StatsAfter(st.teams, st.games, gameId, side, change);
    var next := Progress(teams, games, st.phase, idBase);
    Tournament(teams, next.0, next.1)
  }

  /** The quarterfinals, when this press creates them, are seeded from the
      returned team list: the group winners and runners-up as the updated
      standings rank them. Outside the group phase a press only changes the
      score and statistics. */
  lemma UpdateScoreSeedsFromResult(st: Tournament, gameId: string, side: Side, change: int, idBase: nat)
    ensures var r := UpdateScore(st, gameId, side, change, idBase);
      var games := ScoreGames(st.games, gameId, side, change);
      && (st.phase != Group ==> r.games == games && r.phase == st.phase)
      && (r.phase != st.phase ==>
            (st.phase == Group && r.phase == Quarterfinal
            && |Ranking.TopTeamsFromGroups(r.teams)| >= 8
            && r.games == games + Quarterfinals(Ranking.TopTeamsFromGroups(r.teams), idBase)))
  {
  }

  /** A press that finishes game `i`, the only game with this id, between two
      teams with different ids: the pressed side's team gains a win, its new
      score as points for and the other side's score as points against; the
      other team gains a loss with the same points the other way round; every
      other team is unchanged. Both versions of `updateScore` agree on this. */
  lemma PressCredits(st: Tournament, gameId: string, side: Side, change: int, idBase: nat, i: nat)
    requires i < |st.games| && Completes(st.games[i], gameId, side, change)
    requires forall j :: 0 <= j < |st.games| && j != i ==> st.games[j].id != gameId
    requires TeamOf(st.games[i], side).id != TeamOf(st.games[i], Other(side)).id
    ensures UpdateScoreAsWritten(st, gameId, side, change, idBase).teams == UpdateScore(st, gameId, side, change, idBase).teams
    ensures var g := st.games[i];
      var w, l := TeamOf(g, side).id, TeamOf(g, Other(side)).id;
      var won, lost := ScoreOf(g, side) + change, ScoreOf(g, Other(side));
      var r := UpdateScore(st, gameId, side, change, idBase).teams;
      && |r| == |st.teams|
      && forall k :: 0 <= k < |r| ==>
        var t := st.teams[k];
        && (t.id == w ==> r[k] == t.(wins := t.wins + 1, pointsFor := t.pointsFor + won, pointsAgainst := t.pointsAgainst + lost))
        && (t.id == l ==> r[k] == t.(losses := t.losses + 1, pointsFor := t.pointsFor + lost, pointsAgainst := t.pointsAgainst + won))
        && (t.id != w && t.id != l ==> r[k] == t)
  {
    var g := st.games[i];
    var c := CompletionOf(g, side, change);
    OnlyCompletion(st.games, gameId, side, change, i);
    assert UpdateScore(st, gameId, side, change, idBase).teams == UpdateTeamStats(st.teams, c);
    CreditEach(st.teams, c);
  }

  /** When only game `i` carries the id and the change finishes it, its result is the one credited. */
  lemma OnlyCompletion(games: seq<Game>, gameId: string, side: Side, change: int, i: nat)
    requires i < |games| && Completes(games[i], gameId, side, change)
    requires forall j :: 0 <= j < |games| && j != i ==> games[j].id != gameId
    ensures LastCompletion(games, gameId, side, change) == Some(CompletionOf(games[i], side, change))
  {
    LastCompletionSpec(games, gameId, side, change);
    var last := LastCompletion(games, gameId, side, change);
    assert last.Some?;
    var i' :| 0 <= i' < |games| && Completes(games[i'], gameId, side, change)
      && last.value == CompletionOf(games[i'], side, change);
    assert i' == i;
  }

  /** With distinct winner and loser ids, the winner's team gains a win and
      the loser's a loss, each with its points; everyone else is unchanged. */
  lemma CreditEach(teams: seq<Team>, c: Completion)
    requires c.winnerId != c.loserId
    ensures var r := UpdateTeamStats(teams, c);
      forall k :: 0 <= k < |r| ==>
        var t := teams[k];
        && (t.id == c.winnerId ==> r[k] == t.(wins := t.wins + 1, pointsFor := t.pointsFor + c.winnerScore, pointsAgainst := t.pointsAgainst + c.loserScore))
        && (t.id == c.loserId ==> r[k] == t.(losses := t.losses + 1, pointsFor := t.pointsFor + c.loserScore, pointsAgainst := t.pointsAgainst + c.winnerScore))
        && (t.id != c.winnerId && t.id != c.loserId ==> r[k] == t)
  {
  }

  // ----- where the two versions disagree -----

  /** Eight teams listed two by two for groups A, B, C, D. */
  predicate PairedRoster(ts: seq<Team>)
  {
    && |ts| == 8
    && ts[0].group == "A" && ts[1].group == "A" && ts[2].group == "B" && ts[3].group == "B"
    && ts[4].group == "C" && ts[5].group == "C" && ts[6].group == "D" && ts[7].group == "D"
  }

  /** The situation the finding needs: a paired roster whose two A teams are
      level on wins and differential; the other three group games are over,
      and in the A game team 2 stands at 14 with team 1 below 15. */
  predicate LastGameScenario(st: Tournament)
  {
    && st.phase == Group
    && PairedRoster(st.teams)
    && st.teams[0].id != st.teams[1].id
    && st.teams[0].wins == st.teams[1].wins
    && st.teams[0].PointDiff() == st.teams[1].PointDiff()
    && |st.games| == 4
    && st.games[0].team1 == st.teams[0] && st.games[0].team2 == st.teams[1]
    && !st.games[0].isComplete && st.games[0].phase == Group
    && st.games[0].team2Score == 14 && st.games[0].team1Score < WinningScore
    && (forall k :: 1 <= k < 4 ==> st.games[k].isComplete && st.games[k].phase == Group && st.games[k].id != st.games[0].id)
  }

  /** A finished group game, as the example needs them. */
  function Finished(id: string, t1: Team, t2: Team, g: string): Game
  {
    Game(id, t1, t2, [], 0, true, "Court 1", Group, Some(g), None, false, 0, 0, None)
  }

  /** Groups B-D have finished; in group A, team a2 leads a1 14-0 after a
      press that has not yet finished the game. */
  function Example(): Tournament
  {
    var teams := [NewTeam("a1", "a1", "A"), NewTeam("a2", "a2", "A"), NewTeam("b1", "b1", "B"), NewTeam("b2", "b2", "B"),
                  NewTeam("c1", "c1", "C"), NewTeam("c2", "c2", "C"), NewTeam("d1", "d1", "D"), NewTeam("d2", "d2", "D")];
    Tournament(teams,
      [Game("gA", teams[0], teams[1], [], 0, false, "Court 1", Group, Some("A"), None, false, 0, 14, None),
       Finished("gB", teams[2], teams[3], "B"), Finished("gC", teams[4], teams[5], "C"),
       Finished("gD", teams[6], teams[7], "D")],
      Group)
  }

  lemma ExampleIsScenario()
    ensures LastGameScenario(Example())
  {
    assert "a1"[1] != "a2"[1];
    assert "gB"[1] != "gA"[1] && "gC"[1] != "gA"[1] && "gD"[1] != "gA"[1];
  }

  /** Team 2 of the A game taking its 15th point finishes the group stage.
      As written, the first quarterfinal then puts team 1 (who just lost) in
      A's winner slot; seeded from the updated statistics it is team 2, the
      team with the win. The example tournament is such a case. */
  lemma StaleSeeding(st: Tournament)
    requires LastGameScenario(st)
    ensures var id := st.games[0].id;
      var stale := UpdateScoreAsWritten(st, id, Team2, 1, 100);
      var current := UpdateScore(st, id, Team2, 1, 100);
      && stale.teams == current.teams
      && stale.phase == Quarterfinal && current.phase == Quarterfinal
      && |stale.games| == 8 && |current.games| == 8
      && stale.teams[0].id == st.teams[0].id && stale.teams[0].losses == st.teams[0].losses + 1
      && stale.teams[1].id == st.teams[1].id && stale.teams[1].wins == st.teams[1].wins + 1
      && stale.games[4].team1 == st.teams[0]
      && current.games[4].team1 == current.teams[1]
  {
    var id := st.games[0].id;
    var games := ScoreGames(st.games, id, Team2, 1);
    ScenarioFinishesGroups(st);
    ScenarioStats(st);
    var teams := StatsAfter(st.teams, st.games, id, Team2, 1);
    PairedTop(st.teams);
    PairedTop(teams);
    ProgressGenerates(st.teams, games, 100);
    ProgressGenerates(teams, games, 100);
    var staleTop := Ranking.TopTeamsFromGroups(st.teams);
    var top := Ranking.TopTeamsFromGroups(teams);
    assert Quarterfinals(staleTop, 100)[0].team1 == staleTop[0];
    assert Quarterfinals(top, 100)[0].team1 == top[0];
  }

  /** In the scenario, the press finishes the A game and with it every group game. */
  lemma ScenarioFinishesGroups(st: Tournament)
    requires LastGameScenario(st)
    ensures var games := ScoreGames(st.games, st.games[0].id, Team2, 1);
      |games| == 4 && GroupStageDone(games)
  {
    var games := ScoreGames(st.games, st.games[0].id, Team2, 1);
    assert games[0].isComplete && games[1] == st.games[1] && games[2] == st.games[2] && games[3] == st.games[3];
    FilterAll(games, (g: Game) => g.phase == Group);
  }

  /** In the scenario, only the A game finishes, and team 2 wins it 15 to team 1's score. */
  lemma ScenarioCompletion(st: Tournament)
    requires LastGameScenario(st)
    ensures LastCompletion(st.games, st.games[0].id, Team2, 1)
      == Some(Completion(st.teams[1].id, st.teams[0].id, 15, st.games[0].team1Score))
  {
    var gs := st.games;
    var id := gs[0].id;
    assert gs[1..][1..][1..][1..] == [];
    assert LastCompletion(gs[1..][1..][1..], id, Team2, 1) == None;
    assert LastCompletion(gs[1..][1..], id, Team2, 1) == None;
    assert LastCompletion(gs[1..], id, Team2, 1) == None;
  }

  /** The statistics after the press: groups and ids kept, team 1 of the A
      game has one more loss, team 2 one more win and now ranks first. */
  lemma ScenarioStats(st: Tournament)
    requires LastGameScenario(st)
    ensures var teams := StatsAfter(st.teams, st.games, st.games[0].id, Team2, 1);
      && PairedRoster(teams)
      && (forall i :: 0 <= i < 8 ==> teams[i].id == st.teams[i].id)
      && teams[0].losses == st.teams[0].losses + 1 && teams[1].wins == st.teams[1].wins + 1
      && Ranking.QualifierBefore(teams[1], teams[0])
      && !Ranking.QualifierBefore(st.teams[1], st.teams[0])
  {
    ScenarioCompletion(st);
    var c := Completion(st.teams[1].id, st.teams[0].id, 15, st.games[0].team1Score);
    var teams := UpdateTeamStats(st.teams, c);
    UpdateTeamStatsFrame(st.teams, c);
    assert teams[0] == Credit(st.teams[0], c) && teams[1] == Credit(st.teams[1], c);
  }

  /** With a roster of eight teams two by two in A-D, eight teams qualify and
      the first is the better-ranked of the two A teams (the first listed on a tie). */
  lemma PairedTop(ts: seq<Team>)
    requires PairedRoster(ts)
    ensures |Ranking.TopTeamsFromGroups(ts)| == 8
    ensures Ranking.TopTeamsFromGroups(ts)[0] == if Ranking.QualifierBefore(ts[1], ts[0]) then ts[1] else ts[0]
  {
    PairedGroups(ts);
    FourPairs(ts, "A", "B", "C", "D");
  }

  /** Four groups of two teams each qualify eight teams, the first being the
      better-ranked of the first group. */
  lemma FourPairs(ts: seq<Team>, a: string, b: string, c: string, d: string)
    requires |ts| == 8
    requires GroupTeams(ts, a) == [ts[0], ts[1]] && GroupTeams(ts, b) == [ts[2], ts[3]]
    requires GroupTeams(ts, c) == [ts[4], ts[5]] && GroupTeams(ts, d) == [ts[6], ts[7]]
    ensures var top := Ranking.TopTwo(ts, a) + Ranking.TopTwo(ts, b) + Ranking.TopTwo(ts, c) + Ranking.TopTwo(ts, d);
      |top| == 8 && top[0] == if Ranking.QualifierBefore(ts[1], ts[0]) then ts[1] else ts[0]
  {
    TopOfPair(ts, a, 0);
    TopOfPair(ts, b, 2);
    TopOfPair(ts, c, 4);
    TopOfPair(ts, d, 6);
    FourTwos(Ranking.TopTwo(ts, a), Ranking.TopTwo(ts, b), Ranking.TopTwo(ts, c), Ranking.TopTwo(ts, d));
  }

  /** Four pairs side by side are eight entries, led by the first pair's head. */
  lemma FourTwos<T>(a: seq<T>, b: seq<T>, c: seq<T>, d: seq<T>)
    requires |a| == 2 && |b| == 2 && |c| == 2 && |d| == 2
    ensures |a + b + c + d| == 8 && (a + b + c + d)[0] == a[0]
  {
  }

  /** A group of two teams qualifies both, the better-ranked first (the first listed on a tie). */
  lemma TopOfPair(ts: seq<Team>, g: string, i: nat)
    requires i + 1 < |ts| && GroupTeams(ts, g) == [ts[i], ts[i + 1]]
    ensures |Ranking.TopTwo(ts, g)| == 2
    ensures Ranking.TopTwo(ts, g)[0] == if Ranking.QualifierBefore(ts[i + 1], ts[i]) then ts[i + 1] else ts[i]
  {
    Sorting.SortPair(ts[i], ts[i + 1], Ranking.QualifierBefore);
    assert Ranking.Ranked(ts, g) == Sorting.SortBy([ts[i], ts[i + 1]], Ranking.QualifierBefore);
  }

  /** The groups of a paired roster. */
  lemma PairedGroups(ts: seq<Team>)
    requires PairedRoster(ts)
    ensures GroupTeams(ts, "A") == [ts[0], ts[1]] && GroupTeams(ts, "B") == [ts[2], ts[3]]
    ensures GroupTeams(ts, "C") == [ts[4], ts[5]] && GroupTeams(ts, "D") == [ts[6], ts[7]]
  {
    assert "A"[0] != "B"[0] && "A"[0] != "C"[0] && "A"[0] != "D"[0];
    assert "B"[0] != "C"[0] && "B"[0] != "D"[0] && "C"[0] != "D"[0];
    OneGroup(ts, "A", 0);
    OneGroup(ts, "B", 1);
    OneGroup(ts, "C", 2);
    OneGroup(ts, "D", 3);
  }

  /** Group `g` is the k-th pair of an eight-team roster. */
  lemma OneGroup(ts: seq<Team>, g: string, k: nat)
    requires |ts| == 8 && k < 4
    requires forall i :: 0 <= i < 8 ==> (ts[i].group == g <==> (i == 2 * k || i == 2 * k + 1))
    ensures GroupTeams(ts, g) == [ts[2 * k], ts[2 * k + 1]]
  {
    var pre, pair, post := ts[..2 * k], ts[2 * k..2 * k + 2], ts[2 * k + 2..];
    assert ts == pre + pair + post;
    assert forall i :: 0 <= i < |pre| ==> pre[i] == ts[i];
    assert forall i :: 0 <= i < |post| ==> post[i] == ts[2 * k + 2 + i];
    OnlyPair(pre, pair, post, (t: Team) => t.group == g);
  }

  /** Filtering keeps exactly the middle pair when only it satisfies the predicate. */
  lemma OnlyPair<T(!new)>(pre: seq<T>, pair: seq<T>, post: seq<T>, p: T -> bool)
    requires forall i :: 0 <= i < |pre| ==> !p(pre[i])
    requires forall i :: 0 <= i < |post| ==> !p(post[i])
    requires |pair| == 2 && p(pair[0]) && p(pair[1])
    ensures Filter(pre + pair + post, p) == pair
  {
    var a := pre + pair;
    FilterNone(pre, p);
    FilterAll(pair, p);
    FilterAppend(pre, pair, p);
    assert Filter(a, p) == [] + pair == pair;
    FilterNone(post, p);
    FilterAppend(a, post, p);
    assert Filter(a + post, p) == pair + [] == pair;
  }
}
