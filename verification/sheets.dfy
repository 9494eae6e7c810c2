/** The spreadsheet exchange: exporting the teams as CSV, turning a Google
    Sheets link into its CSV export link, and importing teams from CSV text.
    Downloading and fetching are I/O: the fetched text, or its absence when
    the request failed, is a parameter, and `now` stands for `Date.now()`. */
module Sheets {
  import opened Common
  import opened Model
  import opened Text

  // ----- export -----

  /** The header row, in column order. */
  const Headers: seq<string> := ["Team Name", "Group", "Wins", "Losses", "Points For", "Points Against", "Sets Won", "Sets Lost"]

  /** The cells of a team's row: the quoted name, the group and the six counters. */
  function RowCells(t: Team): (r: seq<string>)
    ensures |r| == 8
  {
    ["\"" + t.name + "\"", t.group] + Printed(CounterValues(t))
  }

  /** A team's six counters, in column order. */
  function CounterValues(t: Team): (r: seq<int>)
    ensures |r| == 6
  {
    [t.wins, t.losses, t.pointsFor, t.pointsAgainst, t.setsWon, t.setsLost]
  }

  /** `${n}` for each number. */
  function Printed(ns: seq<int>): (r: seq<string>)
    ensures |r| == |ns|
    ensures forall k :: 0 <= k < |r| ==> r[k] == Show(ns[k])
  {
    seq(|ns|, k requires 0 <= k < |ns| => Show(ns[k]))
  }

  /** A team's line: its cells joined with commas. */
  function RowLine(t: Team): string
  {
    Join(RowCells(t), ',')
  }

  function Rows(teams: seq<Team>): (r: seq<string>)
    ensures |r| == |teams|
    ensures forall i :: 0 <= i < |r| ==> r[i] == RowLine(teams[i])
  {
    seq(|teams|, i requires 0 <= i < |teams| => RowLine(teams[i]))
  }

  /** `downloadTeamsAsCSV`'s file content: the header line, then one line per team. */
  function ExportCsv(teams: seq<Team>): string
  {
    Join([Join(Headers, ',')] + Rows(teams), '\n')
  }

  // ----- the sheet link -----

  /** A character of `[a-zA-Z0-9-_]`. */
  predicate IsIdChar(c: char)
  {
    ('a' <= c <= 'z') || ('A' <= c <= 'Z') || ('0' <= c <= '9') || c == '-' || c == '_'
  }

  /** Length of the run of id characters at the start of `s`. */
  function IdRun(s: string): (k: nat)
    ensures k <= |s|
    ensures forall i :: 0 <= i < k ==> IsIdChar(s[i])
    ensures k < |s| ==> !IsIdChar(s[k])
  {
    if |s| == 0 || !IsIdChar(s[0]) then 0 else 1 + IdRun(s[1..])
  }

  /** A `/d/` followed by at least one id character starts `s`. */
  predicate IdAt(s: string)
  {
    |s| > 3 && s[0] == '/' && s[1] == 'd' && s[2] == '/' && IsIdChar(s[3])
  }

  /** The id captured at the start of `s`. */
  function IdOf(s: string): (r: string)
    requires IdAt(s)
    ensures |r| > 0 && forall k :: 0 <= k < |r| ==> IsIdChar(r[k])
  {
    s[3..3 + IdRun(s[3..])]
  }

  /** `url.match(/\/d\/([a-zA-Z0-9-_]+)/)?.[1]`: the id after the leftmost `/d/`
      that is followed by an id character, as long as the run lasts. */
  function SheetId(url: string): (r: Option<string>)
  {
    if |url| < 3 then None
    else if IdAt(url) then Some(IdOf(url))
    else SheetId(url[1..])
  }

  /** `i` is the leftmost position where a `/d/` id starts. */
  predicate LeftmostIdAt(url: string, i: nat)
  {
    i <= |url| && IdAt(url[i..]) && forall j :: 0 <= j < i ==> !IdAt(url[j..])
  }

  /** The regular expression's meaning: a match is the longest id run after
      the leftmost `/d/` that has one; no match means no `/d/` is followed by
      an id character. */
  lemma {:induction false} SheetIdSpec(url: string)
    ensures SheetId(url).None? <==> forall i :: 0 <= i <= |url| ==> !IdAt(url[i..])
    ensures SheetId(url).Some? ==> exists i: nat :: LeftmostIdAt(url, i) && SheetId(url).value == IdOf(url[i..])
  {
    if |url| < 3 {
    } else if IdAt(url) {
      assert url[0..] == url;
      assert LeftmostIdAt(url, 0);
    } else {
      SheetIdSpec(url[1..]);
      assert url[0..] == url;
      if SheetId(url[1..]).Some? {
        var i: nat :| LeftmostIdAt(url[1..], i) && SheetId(url[1..]).value == IdOf(url[1..][i..]);
        assert url[1..][i..] == url[i + 1..];
        forall j | 0 <= j < i + 1
          ensures !IdAt(url[j..])
        {
          if j > 0 {
            assert url[j..] == url[1..][j - 1..];
          }
        }
        assert LeftmostIdAt(url, i + 1);
      } else {
        forall i | 0 <= i <= |url|
          ensures !IdAt(url[i..])
        {
          if i > 0 {
            assert url[i..] == url[1..][i - 1..];
          }
        }
      }
    }
  }

  /** The host and path a Google Sheets link contains, and the export link around an id. */
  const SheetsDomain: string := "docs.google.com"
  const SheetsHost: string := SheetsDomain + "/spreadsheets"
  const Scheme: string := "https://"
  const ExportPrefix: string := Scheme + SheetsHost + "/d/"
  const ExportSuffix: string := "/export?format=csv"

  /** The link that is fetched: a Google Sheets link with an id becomes that
      sheet's CSV export link; any other link is fetched as given. */
  function CsvUrl(url: string): (r: string)
    ensures !Includes(url, SheetsHost) ==> r == url
    ensures SheetId(url).None? ==> r == url
    ensures Includes(url, SheetsHost) && SheetId(url).Some? ==> r == ExportPrefix + SheetId(url).value + ExportSuffix
  {
    if Includes(url, SheetsHost) then
      match SheetId(url)
      case Some(id) => ExportPrefix + id + ExportSuffix
      case None => url
    else url
  }

  /** A prefix in which no `/d/` id starts does not change the match. */
  lemma {:induction false} SheetIdSkip(p: string, q: string)
    requires forall i :: 0 <= i < |p| ==> !IdAt((p + q)[i..])
    ensures SheetId(p + q) == SheetId(q)
  {
    if |p| > 0 {
      assert !IdAt((p + q)[0..]);
      assert (p + q)[0..] == p + q;
      assert (p + q)[1..] == p[1..] + q;
      forall i | 0 <= i < |p[1..]|
        ensures !IdAt((p[1..] + q)[i..])
      {
        assert (p[1..] + q)[i..] == (p + q)[i + 1..];
      }
      SheetIdSkip(p[1..], q);
    }
  }

  /** A prefix without `/` cannot hold the start of a match. */
  lemma SkipNoSlash(p: string, q: string)
    requires '/' !in p
    ensures SheetId(p + q) == SheetId(q)
  {
    forall i | 0 <= i < |p|
      ensures !IdAt((p + q)[i..])
    {
      assert (p + q)[i..][0] == p[i];
    }
    SheetIdSkip(p, q);
  }

  /** A `/` not followed by `d` is not the start of a match. */
  lemma SkipSlash(q: string)
    requires |q| > 0 && q[0] != 'd'
    ensures SheetId("/" + q) == SheetId(q)
  {
    var s := "/" + q;
    assert s[1] == q[0] && s[1..] == q;
    if |s| >= 3 {
      assert !IdAt(s);
    }
  }

  /** A `/d` not followed by `/` is not the start of a match. */
  lemma SkipSlashD(q: string)
    requires |q| > 0 && q[0] != '/'
    ensures SheetId("/" + ("d" + q)) == SheetId(q)
  {
    var t := "d" + q;
    var s := "/" + t;
    assert s[1..] == t && s[1] == 'd' && s[2] == q[0];
    assert !IdAt(s);
    assert t[0] == 'd' && !IdAt(t);
    assert t[1..] == q;
    assert SheetId(s) == SheetId(t);
    if |t| >= 3 {
      assert SheetId(t) == SheetId(q);
    } else {
      assert |q| == 1 && SheetId(q) == None;
    }
  }

  /** The export link of a sheet id leads back to the same id, so rewriting
      an export link changes nothing: the rewrite is idempotent. */
  lemma CsvUrlIdempotent(url: string)
    ensures CsvUrl(CsvUrl(url)) == CsvUrl(url)
  {
    if Includes(url, SheetsHost) && SheetId(url).Some? {
      var id := SheetId(url).value;
      SheetIdSpec(url);
      ExportLinkId(id);
    }
  }

  /** For a non-empty id, the export link names that id. */
  lemma ExportLinkId(id: string)
    requires |id| > 0 && forall k :: 0 <= k < |id| ==> IsIdChar(id[k])
    ensures Includes(ExportPrefix + id + ExportSuffix, SheetsHost)
    ensures SheetId(ExportPrefix + id + ExportSuffix) == Some(id)
    ensures CsvUrl(ExportPrefix + id + ExportSuffix) == ExportPrefix + id + ExportSuffix
  {
    ExportLinkMatch(id);
  }

  lemma ExportLinkMatch(id: string)
    requires |id| > 0 && forall k :: 0 <= k < |id| ==> IsIdChar(id[k])
    ensures Includes(ExportPrefix + id + ExportSuffix, SheetsHost)
    ensures SheetId(ExportPrefix + id + ExportSuffix) == Some(id)
  {
    var tail := "/d/" + (id + ExportSuffix);
    Assoc(Scheme + SheetsHost, "/d/", id);
    Assoc(Scheme + SheetsHost + "/d/", id, ExportSuffix);
    Assoc("/d/", id, ExportSuffix);
    Assoc(Scheme + SheetsHost, "/d/", id + ExportSuffix);
    Assoc(Scheme, SheetsHost, tail);
    assert ExportPrefix + id + ExportSuffix == Scheme + (SheetsHost + tail);
    ExportLinkSplit(tail);
    TailMatch(id);
  }

  /** `/d/`, an id and the export suffix match with exactly that id. */
  lemma TailMatch(id: string)
    requires |id| > 0 && forall k :: 0 <= k < |id| ==> IsIdChar(id[k])
    ensures SheetId("/d/" + (id + ExportSuffix)) == Some(id)
  {
    var rest := id + ExportSuffix;
    var tail := "/d/" + rest;
    IdRunThrough(id, ExportSuffix);
    assert tail[3..] == rest;
    assert rest[..|id|] == id;
    assert IdAt(tail);
    assert IdOf(tail) == id;
  }

  lemma Assoc(a: string, b: string, c: string)
    ensures (a + b) + c == a + (b + c)
  {
  }

  lemma SchemeSplit()
    ensures Scheme == "https:" + ("/" + "/")
  {
  }

  lemma HostSplit()
    ensures SheetsHost == "d" + ("ocs.google.com" + ("/" + "spreadsheets"))
  {
    assert SheetsDomain == "d" + "ocs.google.com";
    assert "/spreadsheets" == "/" + "spreadsheets";
    Assoc("d", "ocs.google.com", "/" + "spreadsheets");
  }

  /** Nothing before the final `/d/` of the export link matters to the match,
      and the link contains the Google Sheets host. */
  lemma ExportLinkSplit(tail: string)
    ensures Includes(Scheme + (SheetsHost + tail), SheetsHost)
    ensures SheetId(Scheme + (SheetsHost + tail)) == SheetId(tail)
  {
    var s4 := "spreadsheets" + tail;
    var s3 := "ocs.google.com" + ("/" + s4);
    var s2 := "d" + s3;
    HostSplit();
    Assoc("/", "spreadsheets", tail);
    Assoc("ocs.google.com", "/" + "spreadsheets", tail);
    Assoc("d", "ocs.google.com" + ("/" + "spreadsheets"), tail);
    assert SheetsHost + tail == s2;
    SchemeSplit();
    Assoc("/", "/", s2);
    Assoc("https:", "/" + "/", s2);
    assert Scheme + s2 == "https:" + ("/" + ("/" + s2));
    SkipNoSlash("https:", "/" + ("/" + s2));
    SkipSlash("/" + s2);
    SkipSlashD(s3);
    SkipNoSlash("ocs.google.com", "/" + s4);
    SkipSlash(s4);
    SkipNoSlash("spreadsheets", tail);
    IncludesMiddle(Scheme, SheetsHost, tail);
  }

  /** The id run of an id followed by `/` is the id. */
  lemma {:induction false} IdRunThrough(id: string, rest: string)
    requires forall k :: 0 <= k < |id| ==> IsIdChar(id[k])
    requires |rest| > 0 && rest[0] == '/'
    ensures IdRun(id + rest) == |id|
  {
    if |id| > 0 {
      assert (id + rest)[1..] == id[1..] + rest;
      IdRunThrough(id[1..], rest);
    }
  }

  /** `b` is included in `a + b + c`. */
  lemma IncludesMiddle(a: string, b: string, c: string)
    ensures Includes(a + (b + c), b)
  {
    var h := a + (b + c);
    assert h[|a|..] == b + c;
    assert (b + c)[..|b|] == b;
    IncludesAt(h, b, |a|);
  }

  /** A string that starts at position `k` of `hay` is included in it. */
  lemma {:induction false} IncludesAt(hay: string, needle: string, k: nat)
    requires k <= |hay| && StartsWith(hay[k..], needle)
    ensures Includes(hay, needle)
  {
    if k > 0 {
      assert hay[1..][k - 1..] == hay[k..];
      IncludesAt(hay[1..], needle, k - 1);
    }
  }

  // ----- import -----

  /** `v.replace(/"/g, '').trim()`: a cell without quotes or surrounding whitespace. */
  function Clean(v: string): string
  {
    Trim(Remove(v, '"'))
  }

  /** A cleaned cell has no quote and no surrounding whitespace, and holds no
      character the raw cell did not. */
  lemma CleanFacts(v: string)
    ensures '"' !in Clean(v) && IsTrimmed(Clean(v))
    ensures forall x :: x in Clean(v) ==> x in v
  {
    TrimChars(Remove(v, '"'));
  }

  /** `line.split(',').map(clean)`. */
  function Cells(line: string): (r: seq<string>)
    ensures |r| == |Split(line, ',')| >= 1
    ensures CleanCells(r)
  {
    var parts := Split(line, ',');
    CleanKeepsOut(parts);
    CleanEach(parts)
  }

  /** `parts.map(clean)`. */
  function CleanEach(parts: seq<string>): (r: seq<string>)
    ensures |r| == |parts|
    ensures forall k :: 0 <= k < |r| ==> r[k] == Clean(parts[k])
  {
    seq(|parts|, k requires 0 <= k < |parts| => Clean(parts[k]))
  }

  /** Cleaning comma-free pieces gives comma-free, quote-free, trimmed cells. */
  lemma CleanKeepsOut(parts: seq<string>)
    requires forall k :: 0 <= k < |parts| ==> ',' !in parts[k]
    ensures CleanCells(CleanEach(parts))
  {
    forall k | 0 <= k < |parts|
      ensures ',' !in Clean(parts[k]) && '"' !in Clean(parts[k]) && IsTrimmed(Clean(parts[k]))
    {
      CleanFacts(parts[k]);
    }
  }

  /** Some header, lower-cased, contains `required` lower-cased. */
  predicate HasColumn(headers: seq<string>, required: string)
  {
    exists k :: 0 <= k < |headers| && Includes(Lower(headers[k]), Lower(required))
  }

  /** Every required column is present. */
  predicate ValidHeaders(headers: seq<string>)
  {
    forall j :: 0 <= j < |Headers| ==> HasColumn(headers, Headers[j])
  }

  /** Cells as `clean` leaves them: no comma, no quote, no surrounding whitespace. */
  predicate CleanCells(v: seq<string>)
  {
    forall k :: 0 <= k < |v| ==> ',' !in v[k] && '"' !in v[k] && IsTrimmed(v[k])
  }

  /** `teams.find(t => t.name === name)`. */
  function FindByName(teams: seq<Team>, name: string): (r: Option<Team>)
    ensures r.Some? ==> r.value in teams && r.value.name == name
    ensures r.None? ==> forall t :: t in teams ==> t.name != name
    ensures r.Some? ==> exists i :: 0 <= i < |teams| && teams[i] == r.value && forall j :: 0 <= j < i ==> teams[j].name != name
  {
    match FindFirst(teams, (t: Team) => t.name == name)
    case None => None
    case Some(k) => Some(teams[k])
  }

  /** The id of an imported row: the existing team's id when a team of that
      name exists and its id is not empty, otherwise `team-${now}-${i}`. */
  function RowId(teams: seq<Team>, name: string, now: nat, i: nat): (r: string)
    ensures |r| > 0
    ensures FindByName(teams, name).Some? && FindByName(teams, name).value.id != "" ==> r == FindByName(teams, name).value.id
    ensures FindByName(teams, name).None? || FindByName(teams, name).value.id == "" ==> r == FallbackId(now, i)
  {
    match FindByName(teams, name)
    case Some(t) => if t.id != "" then t.id else FallbackId(now, i)
    case None => FallbackId(now, i)
  }

  function FallbackId(now: nat, i: nat): (r: string)
    ensures |r| > 0
  {
    "team-" + Show(now) + "-" + Show(i)
  }

  /** What every imported team satisfies: an id, and a name without quotes,
      commas or surrounding whitespace. */
  predicate Imported(t: Team)
  {
    |t.id| > 0 && '"' !in t.name && IsTrimmed(t.name) && ',' !in t.name
  }

  /** Line `i` of the sheet: nothing for a blank line or one with fewer than
      eight cells; otherwise a team, non-numbers counting as 0. */
  function ParseLine(line: string, i: nat, teams: seq<Team>, now: nat): (r: Option<Team>)
    ensures r.Some? ==> Imported(r.value)
    ensures r.None? <==> Trim(line) == "" || |Cells(Trim(line))| < 8
    ensures r.Some? ==> r == RowTeam(Cells(Trim(line)), i, teams, now)
    ensures r.Some? ==> r.value.name == Cells(Trim(line))[0] && r.value.group == Cells(Trim(line))[1]
  {
    var l := Trim(line);
    if l == "" then None else RowTeam(Cells(l), i, teams, now)
  }

  /** The team of a line's cells: name, group and six counters, the
      counters read with `parseInt(...) || 0`. */
  function RowTeam(v: seq<string>, i: nat, teams: seq<Team>, now: nat): (r: Option<Team>)
    requires CleanCells(v)
    ensures r.Some? ==> Imported(r.value)
    ensures r.None? <==> |v| < 8
    ensures r.Some? ==>
      && r.value.id == RowId(teams, v[0], now, i) && r.value.name == v[0] && r.value.group == v[1]
      && r.value.wins == ParseIntOrZero(v[2]) && r.value.losses == ParseIntOrZero(v[3])
      && r.value.pointsFor == ParseIntOrZero(v[4]) && r.value.pointsAgainst == ParseIntOrZero(v[5])
      && r.value.setsWon == ParseIntOrZero(v[6]) && r.value.setsLost == ParseIntOrZero(v[7])
  {
    if |v| < 8 then None
    else
      Some(Team(RowId(teams, v[0], now, i), v[0], v[1], ParseIntOrZero(v[2]), ParseIntOrZero(v[3]),
                ParseIntOrZero(v[4]), ParseIntOrZero(v[5]), ParseIntOrZero(v[6]), ParseIntOrZero(v[7])))
  }

  /** The loop over lines `first`, `first + 1`, ...: the teams of the lines that hold one. */
  function ParseLines(lines: seq<string>, first: nat, teams: seq<Team>, now: nat): (r: seq<Team>)
    ensures |r| <= |lines|
  {
    Collect(lines, first, LineParser(teams, now))
  }

  /** `ParseLine` against a fixed roster and time. */
  function LineParser(teams: seq<Team>, now: nat): (string, nat) -> Option<Team>
  {
    (l: string, i: nat) => ParseLine(l, i, teams, now)
  }

  /** Every imported team has an id and a clean name. */
  lemma ParseLinesImported(lines: seq<string>, first: nat, teams: seq<Team>, now: nat)
    ensures forall k :: 0 <= k < |ParseLines(lines, first, teams, now)| ==> Imported(ParseLines(lines, first, teams, now)[k])
  {
    CollectKeeps(lines, first, LineParser(teams, now), Imported);
  }

  /** Why an import produced no teams. */
  datatype ImportError = FetchFailed | MissingColumns

  /** The teams read from the sheet text: the header line must name every
      column, then each non-blank line with at least eight cells is a team. */
  function ImportCsv(text: string, teams: seq<Team>, now: nat): (r: Result<seq<Team>, ImportError>)
    ensures r.Ok? ==> |r.value| < |Split(text, '\n')|
    ensures r == Err(MissingColumns) <==> !ValidHeaders(Cells(Split(text, '\n')[0]))
    ensures r.Ok? ==> r.value == ParseLines(Split(text, '\n')[1..], 1, teams, now)
  {
    var lines := Split(text, '\n');
    if !ValidHeaders(Cells(lines[0])) then Err(MissingColumns)
    else Ok(ParseLines(lines[1..], 1, teams, now))
  }

  /** `parseCSVFromGoogleSheets`: `response` is the fetched text, `None`
      when the request failed. */
  function Import(response: Option<string>, teams: seq<Team>, now: nat): (r: Result<seq<Team>, ImportError>)
    ensures response.None? ==> r == Err(FetchFailed)
  {
    match response
    case None => Err(FetchFailed)
    case Some(text) => ImportCsv(text, teams, now)
  }

  /** `onTeamUpdate(updatedTeams)`: a successful import replaces the roster,
      a failed one leaves everything as it was; games and phase are kept. */
  function ApplyImport(st: Tournament, response: Option<string>, now: nat): (r: Tournament)
    ensures r.games == st.games && r.phase == st.phase
    ensures Import(response, st.teams, now).Err? ==> r == st
    ensures Import(response, st.teams, now).Ok? ==> r.teams == Import(response, st.teams, now).value
  {
    match Import(response, st.teams, now)
    case Ok(ts) => st.(teams := ts)
    case Err(_) => st
  }

  /** An empty sheet names no column and is refused. */
  lemma EmptySheetRejected(teams: seq<Team>, now: nat)
    ensures ImportCsv("", teams, now) == Err(MissingColumns)
  {
    assert Split("", '\n') == [""];
    EmptyCells();
    assert |Headers[0]| > 0;
    NoColumnInBlank(Headers[0]);
  }

  /** An empty line is a single empty cell. */
  lemma EmptyCells()
    ensures Cells("") == [""]
  {
    assert Split("", ',') == [""];
    assert Clean("") == "";
  }

  /** A header row of one empty cell names no non-empty column. */
  lemma NoColumnInBlank(required: string)
    requires |required| > 0
    ensures !HasColumn([""], required)
  {
    assert Lower("") == "";
    assert |Lower(required)| > 0;
    assert !Includes("", Lower(required));
  }

  /** Fallback ids of different lines differ. */
  lemma FallbackIdsDistinct(now: nat, i: nat, j: nat)
    requires i != j
    ensures FallbackId(now, i) != FallbackId(now, j)
  {
    var p := "team-" + Show(now) + "-";
    assert FallbackId(now, i) == p + Show(i) && FallbackId(now, j) == p + Show(j);
    if FallbackId(now, i) == FallbackId(now, j) {
      assert Show(i) == (p + Show(i))[|p|..];
      assert Show(j) == (p + Show(j))[|p|..];
      NatToStringInjective(i, j);
    }
  }

  // ----- export then import -----

  /** A cell the CSV format carries unchanged: no comma, quote or line
      break, and no surrounding whitespace. */
  predicate PlainCell(s: string)
  {
    ',' !in s && '"' !in s && '\n' !in s && IsTrimmed(s)
  }

  /** A roster that survives the round trip: plain names and groups,
      non-empty ids, and no two teams with the same name. */
  predicate Exportable(teams: seq<Team>)
  {
    && (forall k :: 0 <= k < |teams| ==> PlainCell(teams[k].name) && PlainCell(teams[k].group) && teams[k].id != "")
    && (forall a, b :: 0 <= a < b < |teams| ==> teams[a].name != teams[b].name)
  }

  /** Importing the exported CSV against the same roster gives the roster back. */
  lemma ImportExport(teams: seq<Team>, now: nat)
    requires Exportable(teams)
    ensures ImportCsv(ExportCsv(teams), teams, now) == Ok(teams)
  {
    var lines := Split(ExportCsv(teams), '\n');
    ExportLines(teams);
    HeaderLine();
    RowsBack(teams, now);
    assert lines[1..] == Rows(teams);
  }

  /** The lines of the export are the header line and one line per team. */
  lemma ExportLines(teams: seq<Team>)
    requires Exportable(teams)
    ensures Split(ExportCsv(teams), '\n') == [Join(Headers, ',')] + Rows(teams)
  {
    var rows := Rows(teams);
    var pieces := [Join(Headers, ',')] + rows;
    HeaderLine();
    forall k | 0 <= k < |pieces|
      ensures '\n' !in pieces[k]
    {
      if k > 0 {
        RowPlain(teams[k - 1]);
      }
    }
    SplitJoin(pieces, '\n');
  }

  /** The team lines of the export read back as the roster. */
  lemma RowsBack(teams: seq<Team>, now: nat)
    requires Exportable(teams)
    ensures ParseLines(Rows(teams), 1, teams, now) == teams
  {
    EachRowBack(teams, now);
    CollectAll(Rows(teams), 1, LineParser(teams, now), teams);
  }

  /** Each team line, read as line `1 + k`, gives team k back. */
  lemma EachRowBack(teams: seq<Team>, now: nat)
    requires Exportable(teams)
    ensures ProducesAll(Rows(teams), 1, LineParser(teams, now), teams)
  {
    forall k | 0 <= k < |teams|
      ensures LineParser(teams, now)(Rows(teams)[k], 1 + k) == Some(teams[k])
    {
      RowBackAt(teams, k, now);
    }
  }

  /** Line `1 + k` of the export, the k-th team line, reads back as team k. */
  lemma RowBackAt(teams: seq<Team>, k: nat, now: nat)
    requires Exportable(teams) && k < |teams|
    ensures LineParser(teams, now)(Rows(teams)[k], 1 + k) == Some(teams[k])
  {
    RowBack(teams, k, 1 + k, now);
    assert Rows(teams)[k] == RowLine(teams[k]);
  }

  /** Sheet text that is a CSV export of the roster does not change the tournament when imported. */
  lemma ApplyExportUnchanged(st: Tournament, now: nat)
    requires Exportable(st.teams)
    ensures ApplyImport(st, Some(ExportCsv(st.teams)), now) == st
  {
    ImportExport(st.teams, now);
  }

  /** The header line names every column and reads back as the header list. */
  lemma HeaderLine()
    ensures '\n' !in Join(Headers, ',')
    ensures Cells(Join(Headers, ',')) == Headers
    ensures ValidHeaders(Cells(Join(Headers, ',')))
  {
    HeadersPlain();
    PlainCells(Headers);
    HeadersValid();
  }

  lemma HeadersPlain()
    ensures forall k :: 0 <= k < |Headers| ==> PlainCell(Headers[k])
  {
  }

  /** The header list names every required column. */
  lemma HeadersValid()
    ensures ValidHeaders(Headers)
  {
    forall j | 0 <= j < |Headers|
      ensures HasColumn(Headers, Headers[j])
    {
      IncludesSelf(Lower(Headers[j]));
    }
  }

  /** Plain cells joined with commas read back as the same cells. */
  lemma PlainCells(parts: seq<string>)
    requires |parts| >= 1
    requires forall k :: 0 <= k < |parts| ==> PlainCell(parts[k])
    ensures '\n' !in Join(parts, ',')
    ensures Cells(Join(parts, ',')) == parts
  {
    JoinAvoids(parts, ',', '\n');
    SplitJoin(parts, ',');
    var c := Cells(Join(parts, ','));
    forall k | 0 <= k < |parts|
      ensures c[k] == parts[k]
    {
      RemoveAbsent(parts[k], '"');
      TrimIdentity(parts[k]);
    }
  }

  /** A printed integer is a plain cell: digits, maybe a leading minus sign. */
  lemma ShowPlain(n: int)
    ensures PlainCell(Show(n))
    ensures |Show(n)| > 0
  {
    var s := Show(n);
    var d := NatToString(if n < 0 then -n else n);
    assert forall k :: 0 <= k < |d| ==> IsDigit(d[k]);
    assert forall k :: 0 <= k < |s| ==> IsDigit(s[k]) || s[k] == '-';
    assert IsDigit(s[|s| - 1]);
  }

  /** A team's line has no line break, and its ends are not whitespace. */
  lemma RowPlain(t: Team)
    requires PlainCell(t.name) && PlainCell(t.group)
    ensures forall j :: 0 <= j < 8 ==> ',' !in RowCells(t)[j]
    ensures '\n' !in RowLine(t)
    ensures IsTrimmed(RowLine(t))
    ensures |RowLine(t)| > 0
  {
    var head, counters := ["\"" + t.name + "\"", t.group], Printed(CounterValues(t));
    var cells := RowCells(t);
    PrintedPlain(CounterValues(t));
    forall k | 0 <= k < |cells|
      ensures '\n' !in cells[k] && ',' !in cells[k]
    {
      if k >= 2 {
        assert cells[k] == counters[k - 2];
      } else {
        assert cells[k] == head[k];
      }
    }
    JoinAvoids(cells, ',', '\n');
    RowEnds(t);
  }

  /** Printed numbers are plain, non-empty cells. */
  lemma PrintedPlain(ns: seq<int>)
    ensures forall k :: 0 <= k < |ns| ==> PlainCell(Printed(ns)[k]) && |Printed(ns)[k]| > 0
  {
    forall k | 0 <= k < |ns|
      ensures PlainCell(Show(ns[k])) && |Show(ns[k])| > 0
    {
      ShowPlain(ns[k]);
    }
  }

  /** A team's line starts with the name's opening quote and ends with the last digit of its sets lost. */
  lemma RowEnds(t: Team)
    requires PlainCell(t.name) && PlainCell(t.group)
    ensures var j := RowLine(t);
      |j| > 0 && j[0] == '"' && IsDigit(j[|j| - 1])
  {
    var cells := RowCells(t);
    var tail := cells[1..];
    ShowPlain(t.setsLost);
    assert cells[7] == Show(t.setsLost);
    assert Join(cells, ',') == cells[0] + [','] + Join(tail, ',');
    var j := Join(cells, ',');
    assert j[0] == '"';
    JoinLast(tail, ',');
    assert IsDigit(Show(t.setsLost)[|Show(t.setsLost)| - 1]);
  }

  /** The last character of a join whose last part is non-empty is that part's last character. */
  lemma {:induction false} JoinLast(parts: seq<string>, sep: char)
    requires |parts| >= 1 && |parts[|parts| - 1]| > 0
    ensures var j := Join(parts, sep);
      |j| > 0 && j[|j| - 1] == parts[|parts| - 1][|parts[|parts| - 1]| - 1]
  {
    if |parts| > 1 {
      JoinLast(parts[1..], sep);
    }
  }

  /** The k-th exported line reads back as the k-th team. */
  lemma RowBack(teams: seq<Team>, k: nat, i: nat, now: nat)
    requires Exportable(teams) && k < |teams|
    ensures ParseLine(RowLine(teams[k]), i, teams, now) == Some(teams[k])
  {
    var t := teams[k];
    var line := RowLine(t);
    RowPlain(t);
    LineOfCells(line, i, teams, now);
    CellsOfRow(t);
    ShownClean(t);
    ShownCounters(t, i, teams, now);
    FoundByName(teams, k);
  }

  /** A trimmed, non-empty line is read through its cells. */
  lemma LineOfCells(line: string, i: nat, teams: seq<Team>, now: nat)
    requires IsTrimmed(line) && line != ""
    ensures ParseLine(line, i, teams, now) == RowTeam(Cells(line), i, teams, now)
  {
    TrimIdentity(line);
  }

  /** The cells of a team's line are its name, its group and its printed counters. */
  lemma CellsOfRow(t: Team)
    requires PlainCell(t.name) && PlainCell(t.group)
    ensures Cells(RowLine(t)) == ShownCells(t)
  {
    RowPlain(t);
    SplitJoin(RowCells(t), ',');
    RowCellsClean(t);
  }

  /** Cleaning a team's cells unquotes the name and leaves the rest as printed. */
  lemma RowCellsClean(t: Team)
    requires PlainCell(t.name) && PlainCell(t.group)
    ensures CleanEach(RowCells(t)) == ShownCells(t)
  {
    var head, counters := ["\"" + t.name + "\"", t.group], Printed(CounterValues(t));
    QuotedName(t.name);
    CleanPlain(t.group);
    CleanEachFrom(head, [t.name, t.group]);
    PrintedClean(CounterValues(t));
    CleanEachAppend(head, counters);
  }

  /** Cleaning each cell gives `shown` when it gives each of its entries. */
  lemma CleanEachFrom(cells: seq<string>, shown: seq<string>)
    requires |cells| == |shown|
    requires forall k :: 0 <= k < |cells| ==> Clean(cells[k]) == shown[k]
    ensures CleanEach(cells) == shown
  {
  }

  lemma CleanEachAppend(a: seq<string>, b: seq<string>)
    ensures CleanEach(a + b) == CleanEach(a) + CleanEach(b)
  {
  }

  /** Printed numbers are their own cleaned forms. */
  lemma PrintedClean(ns: seq<int>)
    ensures CleanEach(Printed(ns)) == Printed(ns)
  {
    forall k | 0 <= k < |ns|
      ensures Clean(Printed(ns)[k]) == Printed(ns)[k]
    {
      ShowClean(ns[k]);
    }
    CleanEachFrom(Printed(ns), Printed(ns));
  }

  /** A team's cells once cleaned. */
  function ShownCells(t: Team): (r: seq<string>)
    ensures |r| == 8
  {
    [t.name, t.group] + Printed(CounterValues(t))
  }

  /** A team's cleaned cells are clean. */
  lemma ShownClean(t: Team)
    requires PlainCell(t.name) && PlainCell(t.group)
    ensures CleanCells(ShownCells(t))
  {
    var v := ShownCells(t);
    PrintedPlain(CounterValues(t));
    forall k | 0 <= k < 8
      ensures ',' !in v[k] && '"' !in v[k] && IsTrimmed(v[k])
    {
      if k >= 2 {
        assert v[k] == Printed(CounterValues(t))[k - 2];
      }
    }
  }

  /** Reading a team's cleaned cells gives its counters back, under the id `RowId` picks. */
  lemma ShownCounters(t: Team, i: nat, teams: seq<Team>, now: nat)
    requires CleanCells(ShownCells(t))
    ensures RowTeam(ShownCells(t), i, teams, now) == Some(t.(id := RowId(teams, t.name, now, i)))
  {
    ShowParse(t.wins);
    ShowParse(t.losses);
    ShowParse(t.pointsFor);
    ShowParse(t.pointsAgainst);
    ShowParse(t.setsWon);
    ShowParse(t.setsLost);
  }

  /** A plain cell is its own cleaned form. */
  lemma CleanPlain(s: string)
    requires PlainCell(s)
    ensures Clean(s) == s
  {
    RemoveAbsent(s, '"');
    TrimIdentity(s);
  }

  /** A printed integer is its own cleaned form. */
  lemma ShowClean(n: int)
    ensures Clean(Show(n)) == Show(n)
  {
    ShowPlain(n);
    CleanPlain(Show(n));
  }

  /** A printed integer parses back to the integer. */
  lemma ShowParse(n: int)
    ensures ParseIntOrZero(Show(n)) == n
  {
    ParseIntOfIntToString(n);
  }

  /** Unquoting the quoted name of a plain cell gives the name. */
  lemma QuotedName(name: string)
    requires PlainCell(name)
    ensures Clean("\"" + name + "\"") == name
  {
    RemoveAppend("\"" + name, "\"", '"');
    RemoveAppend("\"", name, '"');
    RemoveAbsent(name, '"');
    assert Remove("\"", '"') == "";
    assert Remove("\"" + name + "\"", '"') == name;
    TrimIdentity(name);
  }

  /** With distinct names, looking a team up by its name finds that team. */
  lemma FoundByName(teams: seq<Team>, k: nat)
    requires Exportable(teams) && k < |teams|
    ensures FindByName(teams, teams[k].name) == Some(teams[k])
  {
  }
}
