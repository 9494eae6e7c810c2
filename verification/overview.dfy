/** The main page: generating the group stage, resetting, and the four
    figures shown above the tabs. */
module Overview {
  import opened Common
  import opened Model
  import Scheduling
  import Roster
  import FieldSchedule

  /** The main page's `generateGroupStageGames`: the generated round robin
      replaces every existing game; teams and phase stay. `idBase` stands
      for `Date.now()`. */
  function GenerateGroupStage(st: Tournament, s: Settings, idBase: nat): (r: Tournament)
    requires s.numberOfGroups <= MaxGroupLetters
    ensures r.teams == st.teams && r.phase == st.phase
    ensures |r.games| == Scheduling.GroupGameCounts(st.teams, Scheduling.GroupLetters(s.numberOfGroups))
  {
    Scheduling.CourtGamesCount(st.teams, s, idBase);
    st.(games := Scheduling.GenerateCourtGames(st.teams, s, idBase))
  }

  /** `resetTournament`: no teams, no games, back to the group phase. */
  function ResetTournament(st: Tournament): (r: Tournament)
    ensures r.teams == [] && r.games == [] && r.phase == Group
  {
    Tournament([], [], Group)
  }

  /** Resetting from the main page is the admin panel's reset plus going back
      to the group phase, and resetting twice is resetting once. */
  lemma ResetAgreesWithAdmin(st: Tournament)
    ensures ResetTournament(st) == Roster.ResetFromAdmin(st).(phase := Group)
    ensures ResetTournament(ResetTournament(st)) == ResetTournament(st)
    ensures Stats(ResetTournament(st)) == OverviewStats(0, 0, 0, 0)
  {
  }

  /** The four figures above the tabs. */
  datatype OverviewStats = OverviewStats(totalTeams: nat, completedGames: nat, totalGames: nat, activeCourts: nat)

  /** `stats`: teams, finished games, all games, running games. */
  function Stats(st: Tournament): (r: OverviewStats)
    ensures r.totalTeams == |st.teams| && r.totalGames == |st.games|
    ensures r.completedGames <= r.totalGames && r.activeCourts <= r.totalGames
  {
    OverviewStats(|st.teams|, Count(st.games, (g: Game) => g.isComplete), |st.games|,
                  Count(st.games, (g: Game) => g.isRunning))
  }

  /** The main page and the field schedule agree on finished, live and total games. */
  lemma StatsAgreeWithSchedule(st: Tournament)
    ensures var a, b := Stats(st), FieldSchedule.ScheduleCounters(st.games);
      a.completedGames == b.completed && a.activeCourts == b.live && a.totalGames == b.total
  {
  }

  /** Right after generation nothing is finished or running. */
  lemma GeneratedStats(st: Tournament, s: Settings, idBase: nat)
    requires s.numberOfGroups <= MaxGroupLetters
    ensures var r := Stats(GenerateGroupStage(st, s, idBase));
      r.completedGames == 0 && r.activeCourts == 0 && r.totalTeams == |st.teams|
  {
    var games := GenerateGroupStage(st, s, idBase).games;
    Scheduling.CourtGamesShape(st.teams, s, idBase);
    FilterNone(games, (g: Game) => g.isComplete);
    FilterNone(games, (g: Game) => g.isRunning);
  }

  /** With a positive number of courts, every tab of the field schedule after
      generation is one of the configured courts "Court 1" to "Court n". */
  lemma GeneratedFieldsAreCourts(st: Tournament, s: Settings, idBase: nat)
    requires s.numberOfGroups <= MaxGroupLetters
    requires s.numberOfCourts > 0
    ensures var games := GenerateGroupStage(st, s, idBase).games;
      forall f :: f in FieldSchedule.FieldsToShow(games, s.numberOfCourts) ==> f in FieldSchedule.ExpectedFields(s.numberOfCourts)
  {
    var games := GenerateGroupStage(st, s, idBase).games;
    var n := s.numberOfCourts;
    forall k | 0 <= k < |games|
      ensures games[k].field in FieldSchedule.ExpectedFields(n)
    {
      GeneratedCourt(st, s, idBase, k);
    }
    FieldSchedule.FieldsWithin(games, n);
  }

  /** The k-th generated game is played on court `k % n + 1`, one of the configured courts. */
  lemma GeneratedCourt(st: Tournament, s: Settings, idBase: nat, k: nat)
    requires s.numberOfGroups <= MaxGroupLetters
    requires s.numberOfCourts > 0
    requires k < |GenerateGroupStage(st, s, idBase).games|
    ensures GenerateGroupStage(st, s, idBase).games[k].field in FieldSchedule.ExpectedFields(s.numberOfCourts)
  {
    var n := s.numberOfCourts;
    Scheduling.CourtGameField(st.teams, s, idBase, k);
    CourtLabelListed(k, n);
  }

  /** With `n > 0` courts, the label of the k-th game is among "Court 1" to "Court n". */
  lemma CourtLabelListed(k: nat, n: int)
    requires n > 0
    ensures Scheduling.CourtLabel(k, n) in FieldSchedule.ExpectedFields(n)
  {
    var c := k % n;
    assert Scheduling.CourtLabel(k, n) == "Court " + Show(c + 1);
    assert FieldSchedule.ExpectedFields(n)[c] == "Court " + Show(c + 1);
  }
}
