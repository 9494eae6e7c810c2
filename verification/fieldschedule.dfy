/** The field schedule: one tab per field, the games of each field ordered
    live first, then waiting, then finished, and the schedule's counters. */
module FieldSchedule {
  import opened Common
  import opened Model
  import opened Sorting
  import Text
  import Ranking
  import Live

  // ----- the tabs -----

  /** `games.map(g => g.field)`. */
  function Fields(games: seq<Game>): (r: seq<string>)
    ensures |r| == |games|
    ensures forall i :: 0 <= i < |r| ==> r[i] == games[i].field
  {
    if |games| == 0 then [] else [games[0].field] + Fields(games[1..])
  }

  /** `Array.from({length: numberOfCourts}, (_, i) => `Court ${i + 1}`)`; a
      negative length gives no courts. */
  function ExpectedFields(courts: int): (r: seq<string>)
    ensures |r| == if courts < 0 then 0 else courts
    ensures forall i :: 0 <= i < |r| ==> r[i] == "Court " + Show(i + 1)
  {
    if courts <= 0 then [] else ExpectedFields(courts - 1) + ["Court " + Show(courts)]
  }

  /** `fieldsToShow`: the fields the games use, each once and sorted; the
      configured courts when there are no games. */
  function FieldsToShow(games: seq<Game>, courts: int): seq<string>
  {
    var unique := SortBy(Dedup(Fields(games)), Text.Less);
    if |unique| > 0 then unique else ExpectedFields(courts)
  }

  /** With games, the tabs are exactly the fields in use, strictly increasing;
      without games, they are "Court 1" up to "Court n". */
  lemma FieldsToShowSpec(games: seq<Game>, courts: int)
    ensures var r := FieldsToShow(games, courts);
      |games| > 0 ==>
        && (forall f :: f in r <==> exists i :: 0 <= i < |games| && games[i].field == f)
        && (forall a, b :: 0 <= a < b < |r| ==> Text.Less(r[a], r[b]))
    ensures |games| == 0 ==> FieldsToShow(games, courts) == ExpectedFields(courts)
  {
    var fs := Fields(games);
    Ranking.UniqueSorted(fs, SortBy(Dedup(fs), Text.Less));
    if |games| > 0 {
      assert fs[0] in fs;
    }
  }

  /** The tabs never name a field twice. */
  lemma FieldsToShowDistinct(games: seq<Game>, courts: int)
    ensures Distinct(FieldsToShow(games, courts))
  {
    var r := FieldsToShow(games, courts);
    if |games| > 0 {
      FieldsToShowSpec(games, courts);
      Text.LessIrreflexive(r[0]);
      forall a, b | 0 <= a < b < |r|
        ensures r[a] != r[b]
      {
        Text.LessIrreflexive(r[a]);
      }
    } else {
      forall a, b | 0 <= a < b < |r|
        ensures r[a] != r[b]
      {
        if r[a] == r[b] {
          assert Show(a + 1) == Show(b + 1) by {
            assert r[a] == "Court " + Show(a + 1) && r[b] == "Court " + Show(b + 1);
            assert Show(a + 1) == r[a][6..];
            assert Show(b + 1) == r[b][6..];
          }
          Text.NatToStringInjective(a + 1, b + 1);
        }
      }
    }
  }

  /** When every game is on one of the configured courts, so is every tab. */
  lemma FieldsWithin(games: seq<Game>, courts: int)
    requires forall k :: 0 <= k < |games| ==> games[k].field in ExpectedFields(courts)
    ensures forall f :: f in FieldsToShow(games, courts) ==> f in ExpectedFields(courts)
  {
    FieldsToShowSpec(games, courts);
  }

  // ----- the two comparators -----

  /** `a.localeCompare(b)`, with the locale's collation replaced by code-point order. */
  function CompareText(a: string, b: string): int
  {
    if Text.Less(a, b) then -1 else if Text.Less(b, a) then 1 else 0
  }

  /** The status part both comparators share: running first, then
      unfinished before finished; 0 when the statuses do not decide. */
  function CompareStatus(a: Game, b: Game): int
  {
    if a.isRunning && !b.isRunning then -1
    else if !a.isRunning && b.isRunning then 1
    else if !a.isComplete && b.isComplete then -1
    else if a.isComplete && !b.isComplete then 1
    else 0
  }

  /** The comparator of `getGamesByField`: status, then team 1's name. */
  predicate TabBefore(a: Game, b: Game)
  {
    (if CompareStatus(a, b) != 0 then CompareStatus(a, b) else CompareText(a.team1.name, b.team1.name)) < 0
  }

  /** The comparator of `getAllGamesSorted`: status, then the field. */
  predicate AllBefore(a: Game, b: Game)
  {
    (if CompareStatus(a, b) != 0 then CompareStatus(a, b) else CompareText(a.field, b.field)) < 0
  }

  /** Where a game stands: 0 running and unfinished, 1 running and finished,
      2 waiting, 3 finished. */
  function StatusRank(g: Game): (r: nat)
    ensures r <= 3
  {
    (if g.isRunning then 0 else 2) + (if g.isComplete then 1 else 0)
  }

  /** The status comparator orders games by their rank. */
  lemma CompareStatusRank(a: Game, b: Game)
    ensures CompareStatus(a, b) < 0 <==> StatusRank(a) < StatusRank(b)
    ensures CompareStatus(a, b) == 0 <==> StatusRank(a) == StatusRank(b)
  {
  }

  /** `a` comes before `b` by the rank, then by `key` in string order. */
  predicate RankThen(a: Game, b: Game, ka: string, kb: string)
  {
    StatusRank(a) < StatusRank(b) || (StatusRank(a) == StatusRank(b) && Text.Less(ka, kb))
  }

  lemma TabBeforeMeaning(a: Game, b: Game)
    ensures TabBefore(a, b) <==> RankThen(a, b, a.team1.name, b.team1.name)
  {
    CompareStatusRank(a, b);
    Text.LessIrreflexive(a.team1.name);
    LessAsymmetric(a.team1.name, b.team1.name);
  }

  lemma AllBeforeMeaning(a: Game, b: Game)
    ensures AllBefore(a, b) <==> RankThen(a, b, a.field, b.field)
  {
    CompareStatusRank(a, b);
    LessAsymmetric(a.field, b.field);
  }

  lemma LessAsymmetric(a: string, b: string)
    ensures !(Text.Less(a, b) && Text.Less(b, a))
  {
    if Text.Less(a, b) && Text.Less(b, a) {
      Text.LessTransitive(a, b, a);
      Text.LessIrreflexive(a);
    }
  }

  /** Both comparators sort consistently. */
  lemma TabOrder()
    ensures StrictWeakOrder(TabBefore)
  {
    forall a: Game, b: Game
      ensures TabBefore(a, b) <==> RankThen(a, b, a.team1.name, b.team1.name)
    {
      TabBeforeMeaning(a, b);
    }
    Ranking.LessOrder();
  }

  lemma AllOrder()
    ensures StrictWeakOrder(AllBefore)
  {
    forall a: Game, b: Game
      ensures AllBefore(a, b) <==> RankThen(a, b, a.field, b.field)
    {
      AllBeforeMeaning(a, b);
    }
    Ranking.LessOrder();
  }

  // ----- one tab -----

  /** `getGamesByField(field)`: the games on that field, sorted by status, then team 1's name. */
  function GamesByField(games: seq<Game>, field: string): seq<Game>
  {
    SortBy(Filter(games, (g: Game) => g.field == field), TabBefore)
  }

  /** A tab shows exactly the games on its field, each as often as in the
      list, live games first, then waiting ones, then finished ones, and
      games of equal status by team 1's name. */
  lemma GamesByFieldSpec(games: seq<Game>, field: string)
    ensures var r := GamesByField(games, field);
      && multiset(r) == multiset(Filter(games, (g: Game) => g.field == field))
      && (forall g :: g in r <==> g in games && g.field == field)
      && (forall i, j :: 0 <= i < j < |r| ==>
            StatusRank(r[i]) < StatusRank(r[j])
            || (StatusRank(r[i]) == StatusRank(r[j]) && !Text.Less(r[j].team1.name, r[i].team1.name)))
  {
    var s := Filter(games, (g: Game) => g.field == field);
    var r := GamesByField(games, field);
    assert forall g :: g in r <==> g in multiset(r);
    assert forall g :: g in s <==> g in multiset(s);
    TabOrder();
    SortBySorted(s, TabBefore);
    forall i, j | 0 <= i < j < |r|
      ensures StatusRank(r[i]) < StatusRank(r[j])
              || (StatusRank(r[i]) == StatusRank(r[j]) && !Text.Less(r[j].team1.name, r[i].team1.name))
    {
      TabBeforeMeaning(r[j], r[i]);
    }
  }

  /** Games of equal status and equal team 1 name keep their list order. */
  lemma GamesByFieldStable(games: seq<Game>, field: string, e: Game)
    ensures TiedWith(GamesByField(games, field), TabBefore, e)
         == TiedWith(Filter(games, (g: Game) => g.field == field), TabBefore, e)
  {
    TabOrder();
    SortByStable(Filter(games, (g: Game) => g.field == field), TabBefore, e);
  }

  /** `games.filter(g => g.field === field).length`. */
  function OnField(games: seq<Game>, field: string): nat
  {
    Count(games, (g: Game) => g.field == field)
  }

  /** Every game appears in exactly one tab: the tab sizes add up to the number of games. */
  lemma TabsPartitionGames(games: seq<Game>, courts: int)
    ensures Sum(FieldsToShow(games, courts), (f: string) => |GamesByField(games, f)|) == |games|
  {
    var tabs := FieldsToShow(games, courts);
    SumCongruent(tabs, (f: string) => |GamesByField(games, f)|, (f: string) => OnField(games, f));
    if |games| == 0 {
      SumZero(tabs, games);
    } else {
      FieldsToShowSpec(games, courts);
      FieldsToShowDistinct(games, courts);
      forall i | 0 <= i < |games|
        ensures games[i].field in tabs
      {
      }
      SplitByField(games, tabs);
    }
  }

  lemma {:induction false} SumZero(tabs: seq<string>, games: seq<Game>)
    requires games == []
    ensures Sum(tabs, (f: string) => OnField(games, f)) == 0
  {
    if |tabs| > 0 {
      SumZero(tabs[1..], games);
    }
  }

  /** Counting the games field by field over a list of distinct fields that
      covers every game's field counts each game once. */
  lemma {:induction false} SplitByField(games: seq<Game>, fields: seq<string>)
    requires Distinct(fields)
    requires forall i :: 0 <= i < |games| ==> games[i].field in fields
    ensures Sum(fields, (f: string) => OnField(games, f)) == |games|
  {
    if |games| == 0 {
      SumZero(fields, games);
    } else {
      var g, rest := games[0], games[1..];
      SplitByField(rest, fields);
      var one := (f: string) => if f == g.field then 1 else 0;
      forall i | 0 <= i < |fields|
        ensures OnField(games, fields[i]) == one(fields[i]) + OnField(rest, fields[i])
      {
      }
      SumAdd(fields, one, (f: string) => OnField(rest, f), (f: string) => OnField(games, f));
      SumIndicator(fields, g.field, one);
    }
  }

  // ----- all games -----

  /** `getAllGamesSorted`: every game, sorted by status, then by field. The
      source sorts the shared array in place; this is the order it leaves. */
  function AllGamesSorted(games: seq<Game>): seq<Game>
  {
    SortBy(games, AllBefore)
  }

  /** The full list is a reordering of the games, by status, then field. */
  lemma AllGamesSortedSpec(games: seq<Game>)
    ensures var r := AllGamesSorted(games);
      && multiset(r) == multiset(games)
      && (forall i, j :: 0 <= i < j < |r| ==>
            StatusRank(r[i]) < StatusRank(r[j])
            || (StatusRank(r[i]) == StatusRank(r[j]) && !Text.Less(r[j].field, r[i].field)))
  {
    var r := AllGamesSorted(games);
    AllOrder();
    SortBySorted(games, AllBefore);
    forall i, j | 0 <= i < j < |r|
      ensures StatusRank(r[i]) < StatusRank(r[j])
              || (StatusRank(r[i]) == StatusRank(r[j]) && !Text.Less(r[j].field, r[i].field))
    {
      AllBeforeMeaning(r[j], r[i]);
    }
  }

  // ----- counters -----

  /** The four counters under the schedule. */
  datatype Counters = Counters(total: nat, completed: nat, pending: nat, live: nat)

  function ScheduleCounters(games: seq<Game>): (r: Counters)
    ensures r.completed <= r.total && r.pending <= r.total && r.live <= r.total
  {
    Counters(|games|, Count(games, (g: Game) => g.isComplete), Count(games, Live.Pending),
             |Live.RunningGames(games)|)
  }

  /** Each counter is the number of positions holding a game of its kind:
      finished, neither finished nor running, and running. */
  lemma CountersCountPositions(games: seq<Game>)
    ensures var c := ScheduleCounters(games);
      && c.completed == |set i: nat | i < |games| && games[i].isComplete|
      && c.pending == |set i: nat | i < |games| && !games[i].isComplete && !games[i].isRunning|
      && c.live == |set i: nat | i < |games| && games[i].isRunning|
  {
    var done, pending, live := (g: Game) => g.isComplete, Live.Pending, (g: Game) => g.isRunning;
    CountPositions(games, done);
    CountPositions(games, pending);
    CountPositions(games, live);
    assert Positions(games, done) == set i: nat | i < |games| && games[i].isComplete;
    assert Positions(games, pending) == set i: nat | i < |games| && !games[i].isComplete && !games[i].isRunning;
    assert Positions(games, live) == set i: nat | i < |games| && games[i].isRunning;
  }

  /** Finished, waiting and live add up to the total, except that a game
      both running and finished is counted twice. */
  lemma {:induction false} CountersAddUp(games: seq<Game>)
    ensures var c := ScheduleCounters(games);
      c.completed + c.pending + c.live == c.total + Count(games, (g: Game) => g.isComplete && g.isRunning)
  {
    if |games| > 0 {
      CountersAddUp(games[1..]);
    }
  }
}
