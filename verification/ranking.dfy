/** Ranking teams inside a group. The standings table sorts by wins, then
    point differential, then points scored; the bracket and the knockout
    seeding sort by wins, then point differential only, and take the top two
    of each group. */
module Ranking {
  import opened Common
  import opened Model
  import opened Sorting
  import Text

  // ----- the two comparators -----

  /** The standings comparator: negative when `a` ranks above `b`. */
  function StandingsCompare(a: Team, b: Team): int
  {
    if a.wins != b.wins then b.wins - a.wins
    else if a.PointDiff() != b.PointDiff() then b.PointDiff() - a.PointDiff()
    else b.pointsFor - a.pointsFor
  }

  predicate StandingsBefore(a: Team, b: Team)
  {
    StandingsCompare(a, b) < 0
  }

  /** The qualification comparator: wins, then point differential. */
  function QualifierCompare(a: Team, b: Team): int
  {
    if a.wins != b.wins then b.wins - a.wins
    else b.PointDiff() - a.PointDiff()
  }

  predicate QualifierBefore(a: Team, b: Team)
  {
    QualifierCompare(a, b) < 0
  }

  /** `a` ranks at least as high as `b` by (wins, differential, points for), lexicographically. */
  predicate RanksAtLeast3(a: Team, b: Team)
  {
    a.wins > b.wins
    || (a.wins == b.wins && a.PointDiff() > b.PointDiff())
    || (a.wins == b.wins && a.PointDiff() == b.PointDiff() && a.pointsFor >= b.pointsFor)
  }

  /** `a` ranks at least as high as `b` by (wins, differential), lexicographically. */
  predicate RanksAtLeast2(a: Team, b: Team)
  {
    a.wins > b.wins || (a.wins == b.wins && a.PointDiff() >= b.PointDiff())
  }

  lemma StandingsOrder()
    ensures StrictWeakOrder(StandingsBefore)
  {
  }

  lemma QualifierOrder()
    ensures StrictWeakOrder(QualifierBefore)
  {
  }

  // ----- standings table -----

  /** `getGroupStandings(group)`: the group's teams, best first. */
  function Standings(teams: seq<Team>, g: string): seq<Team>
  {
    SortBy(GroupTeams(teams, g), StandingsBefore)
  }

  /** The standings of `g` are a permutation of exactly the teams of group `g`. */
  lemma StandingsMembers(teams: seq<Team>, g: string)
    ensures multiset(Standings(teams, g)) == multiset(GroupTeams(teams, g))
    ensures forall t :: t in Standings(teams, g) <==> t in teams && t.group == g
  {
    assert forall t :: t in Standings(teams, g) <==> t in multiset(Standings(teams, g));
  }

  /** Standings are non-increasing by (wins, differential, points for). */
  lemma StandingsOrdered(teams: seq<Team>, g: string)
    ensures var r := Standings(teams, g);
      forall i, j :: 0 <= i < j < |r| ==> RanksAtLeast3(r[i], r[j])
  {
    StandingsOrder();
    SortBySorted(GroupTeams(teams, g), StandingsBefore);
  }

  /** Teams level on all three keys stay in roster order. */
  lemma StandingsStable(teams: seq<Team>, g: string, e: Team)
    ensures TiedWith(Standings(teams, g), StandingsBefore, e) == TiedWith(GroupTeams(teams, g), StandingsBefore, e)
  {
    StandingsOrder();
    SortByStable(GroupTeams(teams, g), StandingsBefore, e);
  }

  /** A team whose group is not one of A-D appears in none of the four tables. */
  lemma StandingsOnlyFixedGroups(teams: seq<Team>, t: Team)
    requires t.group !in FixedGroups
    ensures forall g :: g in FixedGroups ==> t !in Standings(teams, g)
  {
    forall g | g in FixedGroups
      ensures t !in Standings(teams, g)
    {
      StandingsMembers(teams, g);
    }
  }

  /** "Games Played" of a group: half the wins plus losses of its teams
      (a JavaScript division, so possibly fractional). */
  function GamesPlayed(teams: seq<Team>, g: string): real
  {
    (Sum(Standings(teams, g), (t: Team) => t.wins + t.losses) as real) / 2.0
  }

  /** The games played of a group do not depend on the ranking: they are half
      the wins plus losses of the group's teams in roster order. */
  lemma GamesPlayedOfGroup(teams: seq<Team>, g: string)
    ensures GamesPlayed(teams, g) == (Sum(GroupTeams(teams, g), (t: Team) => t.wins + t.losses) as real) / 2.0
  {
    StandingsMembers(teams, g);
    SumPermutation(Standings(teams, g), GroupTeams(teams, g), (t: Team) => t.wins + t.losses);
  }

  /** "Groups Ready": how many of A-D have at least two teams. */
  function GroupsReady(teams: seq<Team>): (r: nat)
    ensures r <= 4
  {
    ReadyIn(teams, FixedGroups)
  }

  /** How many of `groups` have at least two teams in their standings. */
  function ReadyIn(teams: seq<Team>, groups: seq<string>): (r: nat)
    ensures r <= |groups|
  {
    if |groups| == 0 then 0
    else (if |Standings(teams, groups[0])| >= 2 then 1 else 0) + ReadyIn(teams, groups[1..])
  }

  /** All groups are ready exactly when each has at least two teams, and none
      is exactly when each has fewer. */
  lemma {:induction false} ReadyInMeaning(teams: seq<Team>, groups: seq<string>)
    ensures ReadyIn(teams, groups) == |groups| <==> forall g :: g in groups ==> |GroupTeams(teams, g)| >= 2
    ensures ReadyIn(teams, groups) == 0 <==> forall g :: g in groups ==> |GroupTeams(teams, g)| < 2
  {
    if |groups| > 0 {
      ReadyInMeaning(teams, groups[1..]);
      assert forall g :: g in groups <==> g == groups[0] || g in groups[1..];
    }
  }

  // ----- qualification -----

  /** The group's teams ranked by (wins, differential), stable. */
  function Ranked(teams: seq<Team>, g: string): seq<Team>
  {
    SortBy(GroupTeams(teams, g), QualifierBefore)
  }

  /** `groupTeams.slice(0, 2)`. */
  function TopTwo(teams: seq<Team>, g: string): (r: seq<Team>)
    ensures |r| <= 2
  {
    Take(Ranked(teams, g), 2)
  }

  /** The top two of a group are its two best by (wins, differential): the
      first ranks at least as high as the second, and both at least as high
      as every other team of the group. */
  lemma TopTwoBest(teams: seq<Team>, g: string)
    ensures var r := Ranked(teams, g);
      && multiset(r) == multiset(GroupTeams(teams, g))
      && TopTwo(teams, g) == r[..|TopTwo(teams, g)|]
      && |TopTwo(teams, g)| == (if |r| < 2 then |r| else 2)
      && forall i, j :: 0 <= i < j < |r| && i < 2 ==> RanksAtLeast2(r[i], r[j])
  {
    QualifierOrder();
    SortBySorted(GroupTeams(teams, g), QualifierBefore);
  }

  /** ScoreBoard's `getTopTeamsFromGroups`: the top two of A, B, C, D in that order. */
  function TopTeamsFromGroups(teams: seq<Team>): seq<Team>
  {
    TopTwo(teams, "A") + TopTwo(teams, "B") + TopTwo(teams, "C") + TopTwo(teams, "D")
  }

  /** Eight qualifiers means each of A-D has at least two teams, and then the
      list is first and second of A, of B, of C, of D. */
  lemma EightTopTeams(teams: seq<Team>)
    requires |TopTeamsFromGroups(teams)| >= 8
    ensures |TopTeamsFromGroups(teams)| == 8
    ensures var a, b, c, d := Ranked(teams, "A"), Ranked(teams, "B"), Ranked(teams, "C"), Ranked(teams, "D");
      |a| >= 2 && |b| >= 2 && |c| >= 2 && |d| >= 2
      && TopTeamsFromGroups(teams) == [a[0], a[1], b[0], b[1], c[0], c[1], d[0], d[1]]
  {
    var ta, tb, tc, td := TopTwo(teams, "A"), TopTwo(teams, "B"), TopTwo(teams, "C"), TopTwo(teams, "D");
    FullQuarters(ta, tb, tc, td);
    TopTwoFull(teams, "A");
    TopTwoFull(teams, "B");
    TopTwoFull(teams, "C");
    TopTwoFull(teams, "D");
  }

  /** Four lists of at most two that together hold eight hold two each, in order. */
  lemma FullQuarters<T>(a: seq<T>, b: seq<T>, c: seq<T>, d: seq<T>)
    requires |a| <= 2 && |b| <= 2 && |c| <= 2 && |d| <= 2
    requires |a + b + c + d| >= 8
    ensures |a| == 2 && |b| == 2 && |c| == 2 && |d| == 2
    ensures a + b + c + d == [a[0], a[1], b[0], b[1], c[0], c[1], d[0], d[1]]
  {
  }

  lemma TopTwoFull(teams: seq<Team>, g: string)
    requires |TopTwo(teams, g)| == 2
    ensures |Ranked(teams, g)| >= 2 && TopTwo(teams, g) == [Ranked(teams, g)[0], Ranked(teams, g)[1]]
  {
  }

  // ----- the bracket's qualifiers -----

  function Groups(teams: seq<Team>): (r: seq<string>)
    ensures |r| == |teams|
    ensures forall i :: 0 <= i < |r| ==> r[i] == teams[i].group
  {
    if |teams| == 0 then [] else [teams[0].group] + Groups(teams[1..])
  }

  lemma LessOrder()
    ensures StrictWeakOrder(Text.Less)
  {
    forall a: string
      ensures !Text.Less(a, a)
    {
      Text.LessIrreflexive(a);
    }
    forall a: string, b: string, c: string | Text.Less(a, b) && Text.Less(b, c)
      ensures Text.Less(a, c)
    {
      Text.LessTransitive(a, b, c);
    }
    forall a: string, b: string, c: string | Text.Less(a, c)
      ensures Text.Less(a, b) || Text.Less(b, c)
    {
      Text.LessTotal(a, b);
      if Text.Less(b, a) {
        Text.LessTransitive(b, a, c);
      }
    }
  }

  /** `[...new Set(teams.map(team => team.group))].sort()`: each group label
      of the roster once, in increasing string order. */
  function ActiveGroups(teams: seq<Team>): seq<string>
  {
    SortBy(Dedup(Groups(teams)), Text.Less)
  }

  /** The active groups are exactly the groups some team belongs to. */
  lemma ActiveGroupsMembers(teams: seq<Team>)
    ensures forall t :: t in teams ==> t.group in ActiveGroups(teams)
    ensures forall g :: g in ActiveGroups(teams) ==> exists i :: 0 <= i < |teams| && teams[i].group == g
  {
    var gs := Groups(teams);
    var d := Dedup(gs);
    var r := ActiveGroups(teams);
    assert forall g :: g in r <==> g in multiset(r);
    assert forall g :: g in d <==> g in multiset(d);
    assert forall g :: g in r <==> g in gs;
  }

  /** The active groups are strictly increasing, so each appears once. */
  lemma ActiveGroupsIncreasing(teams: seq<Team>)
    ensures var r := ActiveGroups(teams);
      forall a, b :: 0 <= a < b < |r| ==> Text.Less(r[a], r[b])
  {
    UniqueSorted(Groups(teams), ActiveGroups(teams));
  }

  /** `[...new Set(s)].sort()` holds each string of `s` once, in strictly increasing order. */
  lemma UniqueSorted(s: seq<string>, r: seq<string>)
    requires r == SortBy(Dedup(s), Text.Less)
    ensures forall x :: x in r <==> x in s
    ensures forall a, b :: 0 <= a < b < |r| ==> Text.Less(r[a], r[b])
  {
    var d := Dedup(s);
    assert forall x :: x in r <==> x in multiset(r);
    assert forall x :: x in d <==> x in multiset(d);
    LessOrder();
    SortBySorted(d, Text.Less);
    forall a, b | 0 <= a < b < |r|
      ensures Text.Less(r[a], r[b])
    {
      DistinctPermutation(d, r, a, b);
      Text.LessTotal(r[a], r[b]);
    }
  }

  /** One row of the bracket's qualifier list. */
  datatype Qualifier = Qualifier(team: Team, position: nat, group: string)

  function Positioned(top: seq<Team>, g: string): (r: seq<Qualifier>)
    ensures |r| == |top|
    ensures forall k :: 0 <= k < |r| ==> r[k] == Qualifier(top[k], k + 1, g)
  {
    seq(|top|, k requires 0 <= k < |top| => Qualifier(top[k], k + 1, g))
  }

  function QualifiersOf(teams: seq<Team>, groups: seq<string>): seq<Qualifier>
  {
    if |groups| == 0 then [] else Positioned(TopTwo(teams, groups[0]), groups[0]) + QualifiersOf(teams, groups[1..])
  }

  /** TournamentBracket's `getTopTeamsFromGroups`. */
  function BracketQualifiers(teams: seq<Team>): seq<Qualifier>
  {
    QualifiersOf(teams, ActiveGroups(teams))
  }

  /** Each group contributes its top two (fewer if it is smaller) as
      positions 1 then 2, so at most two qualifiers per active group. */
  lemma {:induction false} QualifiersShape(teams: seq<Team>, groups: seq<string>)
    ensures var q := QualifiersOf(teams, groups);
      && |q| <= 2 * |groups|
      && forall k :: 0 <= k < |q| ==> QualifierFits(teams, groups, q[k])
  {
    if |groups| > 0 {
      QualifiersShape(teams, groups[1..]);
      var g := groups[0];
      var top := TopTwo(teams, g);
      var p := Positioned(top, g);
      var rest := QualifiersOf(teams, groups[1..]);
      var q := QualifiersOf(teams, groups);
      assert q == p + rest;
      TopTwoOfGroup(teams, g);
      forall k | 0 <= k < |q|
        ensures QualifierFits(teams, groups, q[k])
      {
        if k < |p| {
          assert q[k] == p[k];
        } else {
          assert q[k] == rest[k - |p|];
        }
      }
    }
  }

  /** `x` is the team at its position in its group's ranking, and its group is listed. */
  predicate QualifierFits(teams: seq<Team>, groups: seq<string>, x: Qualifier)
  {
    && x.group in groups && x.team.group == x.group
    && 1 <= x.position <= 2
    && x.position <= |Ranked(teams, x.group)|
    && x.team == Ranked(teams, x.group)[x.position - 1]
  }

  lemma TopTwoOfGroup(teams: seq<Team>, g: string)
    ensures var t, r := TopTwo(teams, g), Ranked(teams, g);
      forall k :: 0 <= k < |t| ==> k < |r| && t[k] == r[k] && t[k].group == g
  {
    var t, r := TopTwo(teams, g), Ranked(teams, g);
    var gt := GroupTeams(teams, g);
    forall k | 0 <= k < |t|
      ensures k < |r| && t[k] == r[k] && t[k].group == g
    {
      assert r[k] in multiset(r);
      assert r[k] in multiset(gt);
      var j :| 0 <= j < |gt| && gt[j] == r[k];
    }
  }

  lemma BracketQualifiersBound(teams: seq<Team>)
    ensures |BracketQualifiers(teams)| <= 2 * |ActiveGroups(teams)|
  {
    QualifiersShape(teams, ActiveGroups(teams));
  }
}
