/** Round-robin group-stage generation, in the two versions the application
    has: the main page's (groups 'A'.. up to `numberOfGroups`, courts
    assigned round-robin, games replace the list) and the admin panel's
    (groups A-D, four fixed fields with hourly slots, games appended). Both
    enumerate, per group and in roster order, every pair (i, j) with i < j
    in the order of two nested `for` loops. */
module Scheduling {
  import opened Common
  import opened Model

  // ----- pair enumeration -----

  /** The pairs (i, j'), j <= j' < n, in increasing j'. */
  function Row(i: nat, j: nat, n: nat): (r: seq<(nat, nat)>)
    ensures |r| == if j < n then n - j else 0
    ensures forall k :: 0 <= k < |r| ==> r[k] == (i, j + k)
    decreases n - j
  {
    if j >= n then [] else [(i, j)] + Row(i, j + 1, n)
  }

  /** The inner-loop rows for outer indices i, i+1, ..., n-1 concatenated. */
  function PairsFrom(i: nat, n: nat): (r: seq<(nat, nat)>)
    ensures forall p :: p in r <==> i <= p.0 < p.1 < n
    decreases n - i
  {
    if i >= n then []
    else
      var row := Row(i, i + 1, n);
      var rest := PairsFrom(i + 1, n);
      assert forall p: (nat, nat) :: p in row <==> p.0 == i && i < p.1 < n by {
        forall p: (nat, nat) | p.0 == i && i < p.1 < n
          ensures p in row
        {
          assert row[p.1 - (i + 1)] == p;
        }
      }
      row + rest
  }

  /** `for (i = 0; i < n; i++) for (j = i + 1; j < n; j++)`: the index pairs visited. */
  function PairIndices(n: nat): (r: seq<(nat, nat)>)
    ensures forall p :: p in r <==> p.0 < p.1 < n
  {
    PairsFrom(0, n)
  }

  /** (a0, a1) is visited before (b0, b1) by the nested loops. */
  predicate LoopBefore(a: (nat, nat), b: (nat, nat))
  {
    a.0 < b.0 || (a.0 == b.0 && a.1 < b.1)
  }

  lemma {:induction false} PairsFromOrdered(i: nat, n: nat)
    ensures forall a, b :: 0 <= a < b < |PairsFrom(i, n)| ==>
      LoopBefore(PairsFrom(i, n)[a], PairsFrom(i, n)[b])
    decreases n - i
  {
    if i < n {
      PairsFromOrdered(i + 1, n);
      var row := Row(i, i + 1, n);
      var rest := PairsFrom(i + 1, n);
      var r := PairsFrom(i, n);
      assert r == row + rest;
      forall a, b | 0 <= a < b < |r|
        ensures LoopBefore(r[a], r[b])
      {
        if b < |row| {
        } else if a < |row| {
          assert r[b] in rest;
        } else {
          assert r[a] == rest[a - |row|] && r[b] == rest[b - |row|];
        }
      }
    }
  }

  lemma {:induction false} PairsFromCount(i: nat, n: nat)
    ensures |PairsFrom(i, n)| == if i < n then (n - i) * (n - i - 1) / 2 else 0
    decreases n - i
  {
    if i < n {
      PairsFromCount(i + 1, n);
      var m := n - i;
      assert (m - 1) * (m - 2) + 2 * (m - 1) == m * (m - 1);
    }
  }

  /** The nested loops visit exactly the pairs i < j < n, each once, in loop
      order, n(n-1)/2 of them. */
  lemma PairIndicesSpec(n: nat)
    ensures forall p :: p in PairIndices(n) <==> p.0 < p.1 < n
    ensures forall a, b :: 0 <= a < b < |PairIndices(n)| ==> PairIndices(n)[a] != PairIndices(n)[b]
    ensures |PairIndices(n)| == n * (n - 1) / 2
  {
    PairsFromOrdered(0, n);
    PairsFromCount(0, n);
  }

  // ----- matchups across groups -----

  /** Positions `first < second` in the roster of `group` (the teams of that
      group in roster order). */
  datatype Matchup = Matchup(group: string, first: nat, second: nat)

  function Block(g: string, pairs: seq<(nat, nat)>): (r: seq<Matchup>)
    ensures |r| == |pairs|
    ensures forall k :: 0 <= k < |r| ==> r[k] == Matchup(g, pairs[k].0, pairs[k].1)
  {
    if |pairs| == 0 then [] else [Matchup(g, pairs[0].0, pairs[0].1)] + Block(g, pairs[1..])
  }

  /** The matchups of `groups.forEach(...)` with the nested loops inside. */
  function Matchups(teams: seq<Team>, groups: seq<string>): (r: seq<Matchup>)
    ensures forall k :: 0 <= k < |r| ==>
      r[k].group in groups && r[k].first < r[k].second < |GroupTeams(teams, r[k].group)|
  {
    if |groups| == 0 then []
    else
      var n := |GroupTeams(teams, groups[0])|;
      var b := Block(groups[0], PairIndices(n));
      assert forall k :: 0 <= k < |b| ==> PairIndices(n)[k] in PairIndices(n);
      b + Matchups(teams, groups[1..])
  }

  /** Number of games one group of n teams needs. */
  function RoundRobinSize(n: nat): nat
  {
    n * (n - 1) / 2
  }

  function GroupGameCounts(teams: seq<Team>, groups: seq<string>): int
  {
    Sum(groups, (g: string) => RoundRobinSize(|GroupTeams(teams, g)|))
  }

  /** The total is the sum of n(n-1)/2 over the groups. */
  lemma {:induction false} MatchupsCount(teams: seq<Team>, groups: seq<string>)
    ensures |Matchups(teams, groups)| == GroupGameCounts(teams, groups)
  {
    if |groups| > 0 {
      PairIndicesSpec(|GroupTeams(teams, groups[0])|);
      MatchupsCount(teams, groups[1..]);
    }
  }

  /** Every pair of positions i < j of a listed group's roster is a matchup. */
  lemma {:induction false} MatchupsCover(teams: seq<Team>, groups: seq<string>, g: string, i: nat, j: nat)
    requires g in groups
    requires i < j < |GroupTeams(teams, g)|
    ensures Matchup(g, i, j) in Matchups(teams, groups)
  {
    var n := |GroupTeams(teams, groups[0])|;
    PairIndicesSpec(n);
    var b := Block(groups[0], PairIndices(n));
    if groups[0] == g {
      assert (i, j) in PairIndices(n);
      var k :| 0 <= k < |PairIndices(n)| && PairIndices(n)[k] == (i, j);
      assert b[k] == Matchup(g, i, j);
    } else {
      MatchupsCover(teams, groups[1..], g, i, j);
    }
  }

  /** With distinct group names, each pair i < j of a listed group is matchup number k for exactly one k. */
  lemma MatchupOnce(teams: seq<Team>, groups: seq<string>, g: string, i: nat, j: nat)
    requires Distinct(groups) && g in groups
    requires i < j < |GroupTeams(teams, g)|
    ensures var ms := Matchups(teams, groups);
      exists k :: 0 <= k < |ms| && ms[k] == Matchup(g, i, j)
        && forall k' :: 0 <= k' < |ms| && ms[k'] == Matchup(g, i, j) ==> k' == k
  {
    var ms := Matchups(teams, groups);
    MatchupsCover(teams, groups, g, i, j);
    MatchupsDistinct(teams, groups);
    var k :| 0 <= k < |ms| && ms[k] == Matchup(g, i, j);
    assert forall k' :: 0 <= k' < |ms| && ms[k'] == Matchup(g, i, j) ==> k' == k;
  }

  /** With distinct group names, no matchup is generated twice. */
  lemma {:induction false} MatchupsDistinct(teams: seq<Team>, groups: seq<string>)
    requires Distinct(groups)
    ensures Distinct(Matchups(teams, groups))
  {
    if |groups| > 0 {
      var n := |GroupTeams(teams, groups[0])|;
      var b := Block(groups[0], PairIndices(n));
      var rest := Matchups(teams, groups[1..]);
      PairIndicesSpec(n);
      assert Distinct(groups[1..]);
      MatchupsDistinct(teams, groups[1..]);
      var r := Matchups(teams, groups);
      assert r == b + rest;
      forall x, y | 0 <= x < y < |r|
        ensures r[x] != r[y]
      {
        if y < |b| {
          assert r[x] == b[x] && r[y] == b[y];
        } else if x < |b| {
          assert r[y] in rest;
          assert r[y].group in groups[1..];
          assert groups[0] !in groups[1..];
        } else {
          assert r[x] == rest[x - |b|] && r[y] == rest[y - |b|];
        }
      }
    }
  }

  /** Only listed groups get games, and both teams of a matchup belong to its group. */
  lemma MatchupTeams(teams: seq<Team>, groups: seq<string>, k: nat)
    requires k < |Matchups(teams, groups)|
    ensures var m := Matchups(teams, groups)[k];
      && m.group in groups
      && GroupTeams(teams, m.group)[m.first].group == m.group
      && GroupTeams(teams, m.group)[m.second].group == m.group
      && GroupTeams(teams, m.group)[m.first] in teams
      && GroupTeams(teams, m.group)[m.second] in teams
  {
  }

  // ----- the main page's generator -----

  /** `Array.from({length: n}, (_, i) => String.fromCharCode(65 + i))`; a
      negative length is 0. */
  function GroupLetters(n: int): (r: seq<string>)
    requires n <= MaxGroupLetters
    ensures |r| == if n < 0 then 0 else n
    ensures forall i :: 0 <= i < |r| ==> r[i] == GroupLetter(i)
  {
    if n <= 0 then [] else GroupLetters(n - 1) + [GroupLetter(n - 1)]
  }

  lemma GroupLettersDistinct(n: int)
    requires n <= MaxGroupLetters
    ensures Distinct(GroupLetters(n))
  {
    var r := GroupLetters(n);
    forall a, b | 0 <= a < b < |r|
      ensures r[a] != r[b]
    {
      assert r[a][0] as int == 65 + a;
      assert r[b][0] as int == 65 + b;
    }
  }

  /** `Court ${(k % courts) + 1}`. JavaScript's `%` keeps the dividend's
      sign, so for k >= 0 and courts != 0 it is k modulo |courts|; `% 0` is NaN. */
  function CourtLabel(k: nat, courts: int): string
  {
    if courts == 0 then "Court NaN"
    else "Court " + Show(k % Abs(courts) + 1)
  }

  function Abs(x: int): nat
  {
    if x < 0 then -x else x
  }

  /** The court number of the k-th game: 1..|courts|, cycling. */
  lemma CourtLabelRange(k: nat, courts: int)
    requires courts != 0
    ensures exists c :: 1 <= c <= Abs(courts) && c == k % Abs(courts) + 1 && CourtLabel(k, courts) == "Court " + Show(c)
  {
    assert CourtLabel(k, courts) == "Court " + Show(k % Abs(courts) + 1);
  }

  /** `numberOfSets` empty, incomplete sets. */
  function ZeroSets(n: int): (r: seq<GameSet>)
    ensures |r| == if n < 0 then 0 else n
    ensures forall i :: 0 <= i < |r| ==> r[i] == GameSet(0, 0, false)
  {
    if n <= 0 then [] else ZeroSets(n - 1) + [GameSet(0, 0, false)]
  }

  /** The k-th game of the main page's generator. */
  function CourtGame(teams: seq<Team>, m: Matchup, k: nat, s: Settings, idBase: nat): Game
    requires m.first < m.second < |GroupTeams(teams, m.group)|
  {
    var gt := GroupTeams(teams, m.group);
    Game(Show(idBase + k), gt[m.first], gt[m.second], ZeroSets(s.numberOfSets), 0, false,
         CourtLabel(k, s.numberOfCourts), Group, Some(m.group), None, false, 0, 0, Some("00:00"))
  }

  /** The main page's `generateGroupStageGames`; `idBase` stands for `Date.now()`. */
  function GenerateCourtGames(teams: seq<Team>, s: Settings, idBase: nat): (r: seq<Game>)
    requires s.numberOfGroups <= MaxGroupLetters
    ensures var ms := Matchups(teams, GroupLetters(s.numberOfGroups));
      && |r| == |ms|
      && forall k :: 0 <= k < |r| ==> r[k] == CourtGame(teams, ms[k], k, s, idBase)
  {
    var ms := Matchups(teams, GroupLetters(s.numberOfGroups));
    seq(|ms|, k requires 0 <= k < |ms| => CourtGame(teams, ms[k], k, s, idBase))
  }

  /** Every generated game is a fresh group game: `numberOfSets` sets at 0-0,
      not complete, not running, phase group, its group set, teams of that
      group, court number cycling through 1..numberOfCourts. */
  lemma CourtGamesShape(teams: seq<Team>, s: Settings, idBase: nat)
    requires s.numberOfGroups <= MaxGroupLetters
    ensures var r := GenerateCourtGames(teams, s, idBase);
      forall k :: 0 <= k < |r| ==>
        && FreshGame(r[k], s.numberOfSets)
        && r[k].group.value in GroupLetters(s.numberOfGroups)
        && r[k].field == CourtLabel(k, s.numberOfCourts)
  {
    var groups := GroupLetters(s.numberOfGroups);
    var ms := Matchups(teams, groups);
    var r := GenerateCourtGames(teams, s, idBase);
    forall k | 0 <= k < |r|
      ensures FreshGame(r[k], s.numberOfSets) && r[k].group.value in groups
      ensures r[k].field == CourtLabel(k, s.numberOfCourts)
    {
      MatchupTeams(teams, groups, k);
      CourtGameShape(teams, ms[k], k, s, idBase);
    }
  }

  /** The k-th generated game is on the k-th court label. */
  lemma CourtGameField(teams: seq<Team>, s: Settings, idBase: nat, k: nat)
    requires s.numberOfGroups <= MaxGroupLetters
    requires k < |GenerateCourtGames(teams, s, idBase)|
    ensures GenerateCourtGames(teams, s, idBase)[k].field == CourtLabel(k, s.numberOfCourts)
  {
    var ms := Matchups(teams, GroupLetters(s.numberOfGroups));
    assert GenerateCourtGames(teams, s, idBase)[k] == CourtGame(teams, ms[k], k, s, idBase);
  }

  /** An unplayed group game of `sets` zero sets between two teams of its group. */
  predicate FreshGame(g: Game, sets: int)
  {
    && |g.sets| == (if sets < 0 then 0 else sets)
    && (forall i :: 0 <= i < |g.sets| ==> g.sets[i] == GameSet(0, 0, false))
    && g.currentSet == 0 && !g.isComplete && !g.isRunning
    && g.team1Score == 0 && g.team2Score == 0
    && g.phase == Group && g.winner == None
    && g.group.Some?
    && g.team1.group == g.group.value && g.team2.group == g.group.value
  }

  lemma CourtGameShape(teams: seq<Team>, m: Matchup, k: nat, s: Settings, idBase: nat)
    requires m.first < m.second < |GroupTeams(teams, m.group)|
    ensures FreshGame(CourtGame(teams, m, k, s, idBase), s.numberOfSets)
    ensures CourtGame(teams, m, k, s, idBase).group == Some(m.group)
    ensures CourtGame(teams, m, k, s, idBase).field == CourtLabel(k, s.numberOfCourts)
  {
  }

  /** No two generated games share an id. */
  lemma CourtGamesIds(teams: seq<Team>, s: Settings, idBase: nat)
    requires s.numberOfGroups <= MaxGroupLetters
    ensures var r := GenerateCourtGames(teams, s, idBase);
      forall a, b :: 0 <= a < b < |r| ==> r[a].id != r[b].id
  {
    var r := GenerateCourtGames(teams, s, idBase);
    forall a, b | 0 <= a < b < |r|
      ensures r[a].id != r[b].id
    {
      assert r[a].id == Show(idBase + a) && r[b].id == Show(idBase + b);
      if r[a].id == r[b].id {
        Text.NatToStringInjective(idBase + a, idBase + b);
      }
    }
  }

  /** A team whose group is not one of the generated letters plays in none of the games. */
  lemma CourtGamesOnlyListedGroups(teams: seq<Team>, s: Settings, idBase: nat, t: Team)
    requires s.numberOfGroups <= MaxGroupLetters
    requires t.group !in GroupLetters(s.numberOfGroups)
    ensures forall g :: g in GenerateCourtGames(teams, s, idBase) ==> g.team1 != t && g.team2 != t
  {
    CourtGamesShape(teams, s, idBase);
  }

  /** The number of generated games is the sum over the groups of n(n-1)/2. */
  lemma CourtGamesCount(teams: seq<Team>, s: Settings, idBase: nat)
    requires s.numberOfGroups <= MaxGroupLetters
    ensures |GenerateCourtGames(teams, s, idBase)| == GroupGameCounts(teams, GroupLetters(s.numberOfGroups))
  {
    MatchupsCount(teams, GroupLetters(s.numberOfGroups));
  }

  /** Every pair i < j of a generated group's roster meets in exactly one game,
      with the earlier team as team1. */
  lemma CourtGamesPairOnce(teams: seq<Team>, s: Settings, idBase: nat, g: string, i: nat, j: nat)
    requires s.numberOfGroups <= MaxGroupLetters
    requires g in GroupLetters(s.numberOfGroups)
    requires i < j < |GroupTeams(teams, g)|
    ensures var r := GenerateCourtGames(teams, s, idBase);
      var ms := Matchups(teams, GroupLetters(s.numberOfGroups));
      exists k :: 0 <= k < |r| && ms[k] == Matchup(g, i, j)
        && r[k].team1 == GroupTeams(teams, g)[i] && r[k].team2 == GroupTeams(teams, g)[j]
        && forall k' :: 0 <= k' < |r| && ms[k'] == Matchup(g, i, j) ==> k' == k
  {
    var groups := GroupLetters(s.numberOfGroups);
    var ms := Matchups(teams, groups);
    GroupLettersDistinct(s.numberOfGroups);
    MatchupOnce(teams, groups, g, i, j);
    var k :| 0 <= k < |ms| && ms[k] == Matchup(g, i, j);
    var r := GenerateCourtGames(teams, s, idBase);
    assert r[k] == CourtGame(teams, ms[k], k, s, idBase);
  }

  // ----- the admin panel's generator -----

  /** The k-th game of the admin panel's generator: field `FIELDS[k % 4]`,
      time `${floor(k / 4) + 9}:00`, no sets. */
  function FieldGame(teams: seq<Team>, m: Matchup, k: nat, idBase: nat): Game
    requires m.first < m.second < |GroupTeams(teams, m.group)|
  {
    var gt := GroupTeams(teams, m.group);
    Game(Show(idBase + k), gt[m.first], gt[m.second], [], 0, false,
         FixedFields[k % 4], Group, Some(m.group), None, false, 0, 0, Some(Show(k / 4 + 9) + ":00"))
  }

  /** The games the admin panel's generator creates for the given groups (A-D in the source). */
  function FieldGames(teams: seq<Team>, groups: seq<string>, idBase: nat): (r: seq<Game>)
    ensures var ms := Matchups(teams, groups);
      && |r| == |ms|
      && forall k :: 0 <= k < |ms| ==> r[k] == FieldGame(teams, ms[k], k, idBase)
  {
    var ms := Matchups(teams, groups);
    seq(|ms|, k requires 0 <= k < |ms| => FieldGame(teams, ms[k], k, idBase))
  }

  /** The admin panel's `generateGroupStageGames`: the new games appended
      after the existing ones. */
  function GenerateFieldGames(teams: seq<Team>, games: seq<Game>, idBase: nat): (r: seq<Game>)
    ensures var ms := Matchups(teams, FixedGroups);
      && |r| == |games| + |ms|
      && r[..|games|] == games
      && forall k :: 0 <= k < |ms| ==> r[|games| + k] == FieldGame(teams, ms[k], k, idBase)
  {
    var added := FieldGames(teams, FixedGroups, idBase);
    var r := games + added;
    assert forall k :: 0 <= k < |added| ==> r[|games| + k] == added[k];
    r
  }

  /** The existing games are kept in front; each new game is an unplayed
      group game on field `k mod 4 + 1` in slot `k / 4 + 9`, between two
      teams of the same group among A-D. */
  lemma FieldGamesShape(teams: seq<Team>, games: seq<Game>, idBase: nat)
    ensures var r := GenerateFieldGames(teams, games, idBase);
      forall n :: 0 <= n < |r| - |games| ==>
        && FreshGame(r[|games| + n], 0)
        && r[|games| + n].group.value in FixedGroups
        && r[|games| + n].field == "Field " + Show(n % 4 + 1)
        && r[|games| + n].time == Some(Show(n / 4 + 9) + ":00")
  {
    var ms := Matchups(teams, FixedGroups);
    var r := GenerateFieldGames(teams, games, idBase);
    forall n | 0 <= n < |r| - |games|
      ensures FreshGame(r[|games| + n], 0) && r[|games| + n].group.value in FixedGroups
      ensures r[|games| + n].field == "Field " + Show(n % 4 + 1)
      ensures r[|games| + n].time == Some(Show(n / 4 + 9) + ":00")
    {
      MatchupTeams(teams, FixedGroups, n);
      FieldGameShape(teams, ms[n], n, idBase);
    }
  }

  lemma FieldGameShape(teams: seq<Team>, m: Matchup, k: nat, idBase: nat)
    requires m.first < m.second < |GroupTeams(teams, m.group)|
    ensures FreshGame(FieldGame(teams, m, k, idBase), 0)
    ensures FieldGame(teams, m, k, idBase).group == Some(m.group)
    ensures FieldGame(teams, m, k, idBase).field == "Field " + Show(k % 4 + 1)
    ensures FieldGame(teams, m, k, idBase).time == Some(Show(k / 4 + 9) + ":00")
  {
    assert k % 4 == 0 || k % 4 == 1 || k % 4 == 2 || k % 4 == 3;
  }

  lemma FixedGroupsDistinct()
    ensures Distinct(FixedGroups)
  {
    var r := FixedGroups;
    forall a, b | 0 <= a < b < 4
      ensures r[a] != r[b]
    {
      assert r[a][0] as int == 65 + a;
      assert r[b][0] as int == 65 + b;
    }
  }

  /** Every same-group pair i < j of groups A-D is generated exactly once. */
  lemma FieldGamesPairOnce(teams: seq<Team>, games: seq<Game>, idBase: nat, g: string, i: nat, j: nat)
    requires g in FixedGroups
    requires i < j < |GroupTeams(teams, g)|
    ensures var ms := Matchups(teams, FixedGroups);
      var r := GenerateFieldGames(teams, games, idBase);
      exists k :: 0 <= k < |ms| && ms[k] == Matchup(g, i, j)
        && r[|games| + k].team1 == GroupTeams(teams, g)[i]
        && r[|games| + k].team2 == GroupTeams(teams, g)[j]
        && forall k' :: 0 <= k' < |ms| && ms[k'] == Matchup(g, i, j) ==> k' == k
  {
    var ms := Matchups(teams, FixedGroups);
    FixedGroupsDistinct();
    MatchupOnce(teams, FixedGroups, g, i, j);
    var k :| 0 <= k < |ms| && ms[k] == Matchup(g, i, j);
    var r := GenerateFieldGames(teams, games, idBase);
    FieldGameTeams(teams, ms[k], k, idBase);
    assert r[|games| + k] == FieldGame(teams, ms[k], k, idBase);
  }

  lemma FieldGameTeams(teams: seq<Team>, m: Matchup, k: nat, idBase: nat)
    requires m.first < m.second < |GroupTeams(teams, m.group)|
    ensures FieldGame(teams, m, k, idBase).team1 == GroupTeams(teams, m.group)[m.first]
    ensures FieldGame(teams, m, k, idBase).team2 == GroupTeams(teams, m.group)[m.second]
  {
  }
}
