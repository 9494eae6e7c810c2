/** The admin panel's roster and game management: adding and removing
    teams, creating a single game after validating the form, and clearing
    everything. Ids that the source takes from `Date.now()` are parameters. */
module Roster {
  import opened Common
  import opened Model
  import Text

  /** `addTeam`: a blank name changes nothing; otherwise a team with the
      trimmed name, the selected group and an all-zero record is appended. */
  function AddTeam(st: Tournament, name: string, group: string, id: string): (r: Tournament)
    ensures r.games == st.games && r.phase == st.phase
    ensures Text.Trim(name) == [] ==> r == st
    ensures Text.Trim(name) != [] ==>
      && |r.teams| == |st.teams| + 1
      && r.teams[..|st.teams|] == st.teams
      && r.teams[|st.teams|] == NewTeam(id, Text.Trim(name), group)
  {
    var trimmed := Text.Trim(name);
    if trimmed == [] then st
    else st.(teams := st.teams + [NewTeam(id, trimmed, group)])
  }

  /** An added team's name is non-empty and has no surrounding whitespace. */
  lemma AddedNameTrimmed(st: Tournament, name: string, group: string, id: string)
    requires |AddTeam(st, name, group, id).teams| > |st.teams|
    ensures var t := AddTeam(st, name, group, id).teams[|st.teams|];
      t.name != [] && Text.IsTrimmed(t.name) && t.group == group && t.id == id
  {
  }

  /** The teams `removeTeam` keeps: those with another id. */
  function OtherTeam(id: string): Team -> bool
  {
    (t: Team) => t.id != id
  }

  /** The games `removeTeam` keeps: those the team does not play in. */
  function NotPlaying(id: string): Game -> bool
  {
    (g: Game) => g.team1.id != id && g.team2.id != id
  }

  /** `removeTeam`: drops the team with this id and every game it plays in;
      the remaining teams and games keep their order and multiplicity. */
  function RemoveTeam(st: Tournament, id: string): (r: Tournament)
    ensures r.phase == st.phase
    ensures forall t :: t in r.teams <==> t in st.teams && t.id != id
    ensures forall g :: g in r.games <==> g in st.games && g.team1.id != id && g.team2.id != id
    ensures exists idx :: Selects(r.teams, st.teams, OtherTeam(id), idx)
    ensures exists idx :: Selects(r.games, st.games, NotPlaying(id), idx)
    ensures forall t :: multiset(r.teams)[t] == if t.id != id then multiset(st.teams)[t] else 0
    ensures forall g :: multiset(r.games)[g] == if g.team1.id != id && g.team2.id != id then multiset(st.games)[g] else 0
  {
    FilterSelects(st.teams, OtherTeam(id));
    FilterSelects(st.games, NotPlaying(id));
    FilterMultiset(st.teams, OtherTeam(id));
    FilterMultiset(st.games, NotPlaying(id));
    st.(teams := Filter(st.teams, OtherTeam(id)), games := Filter(st.games, NotPlaying(id)))
  }

  /** Removing an id nobody has changes nothing: remaining teams and games keep their order. */
  lemma RemoveAbsentTeam(st: Tournament, id: string)
    requires forall t :: t in st.teams ==> t.id != id
    requires forall g :: g in st.games ==> g.team1.id != id && g.team2.id != id
    ensures RemoveTeam(st, id) == st
  {
    FilterAll(st.teams, OtherTeam(id));
    FilterAll(st.games, NotPlaying(id));
  }

  /** Removing a team right after adding it under an unused id restores the
      roster; the games are untouched when no game refers to that id. */
  lemma AddThenRemove(st: Tournament, name: string, group: string, id: string)
    requires forall t :: t in st.teams ==> t.id != id
    requires forall g :: g in st.games ==> g.team1.id != id && g.team2.id != id
    ensures RemoveTeam(AddTeam(st, name, group, id), id) == st
  {
    var p := OtherTeam(id);
    var added := AddTeam(st, name, group, id);
    FilterAll(st.teams, p);
    if Text.Trim(name) != [] {
      assert added.teams == st.teams + [NewTeam(id, Text.Trim(name), group)];
      FilterAppend(st.teams, [NewTeam(id, Text.Trim(name), group)], p);
    }
    FilterAll(st.games, NotPlaying(id));
  }

  /** Why `createGame` added nothing. */
  datatype CreateError = MissingInformation | SameTeam | TeamNotFound

  /** `teams.find(t => t.id === id)`. */
  function FindTeam(teams: seq<Team>, id: string): (r: Option<Team>)
    ensures r.Some? <==> exists t :: t in teams && t.id == id
    ensures r.Some? ==> r.value in teams && r.value.id == id
    ensures r.Some? ==> exists i :: 0 <= i < |teams| && teams[i] == r.value && forall j :: 0 <= j < i ==> teams[j].id != id
  {
    match FindFirst(teams, (t: Team) => t.id == id)
    case None => None
    case Some(i) => Some(teams[i])
  }

  /** `createGame`: every form field must be filled in, the two teams must
      differ and both must exist; the new group game is appended with 0-0
      scores, and its group is the teams' common group, if any. */
  function CreateGame(st: Tournament, team1Id: string, team2Id: string, field: string, time: string, id: string)
    : (r: Result<Tournament, CreateError>)
    ensures r == Err(MissingInformation) <==> team1Id == [] || team2Id == [] || field == [] || time == []
    ensures r == Err(SameTeam) <==>
      team1Id != [] && team2Id != [] && field != [] && time != [] && team1Id == team2Id
    ensures r == Err(TeamNotFound) <==>
      team1Id != [] && team2Id != [] && field != [] && time != [] && team1Id != team2Id
      && (FindTeam(st.teams, team1Id).None? || FindTeam(st.teams, team2Id).None?)
    ensures r.Ok? ==>
      && r.value.teams == st.teams && r.value.phase == st.phase
      && |r.value.games| == |st.games| + 1 && r.value.games[..|st.games|] == st.games
    ensures r.Ok? && |r.value.games| == |st.games| + 1 ==>
      var g := r.value.games[|st.games|];
      && g.id == id && g.field == field && g.time == Some(time)
      && FindTeam(st.teams, team1Id) == Some(g.team1) && FindTeam(st.teams, team2Id) == Some(g.team2)
      && g.team1 in st.teams && g.team1.id == team1Id
      && g.team2 in st.teams && g.team2.id == team2Id
      && g.team1Score == 0 && g.team2Score == 0 && !g.isComplete && g.phase == Group
      && g.group == (if g.team1.group == g.team2.group then Some(g.team1.group) else None)
  {
    if team1Id == [] || team2Id == [] || field == [] || time == [] then Err(MissingInformation)
    else if team1Id == team2Id then Err(SameTeam)
    else match (FindTeam(st.teams, team1Id), FindTeam(st.teams, team2Id))
      case (Some(t1), Some(t2)) =>
        var g := Game(id, t1, t2, [], 0, false, field, Group,
                      if t1.group == t2.group then Some(t1.group) else None,
                      None, false, 0, 0, Some(time));
        Ok(st.(games := st.games + [g]))
      case _ => Err(TeamNotFound)
  }

  /** The admin panel's `resetTournament`: clears teams and games; the phase is left as it was. */
  function ResetFromAdmin(st: Tournament): (r: Tournament)
    ensures r.teams == [] && r.games == [] && r.phase == st.phase
  {
    st.(teams := [], games := [])
  }
}
