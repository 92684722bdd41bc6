/**
 * The end of `stats()`: every string of the standings table is stripped, the
 * strings are parsed into teams, and the teams are folded into a dictionary
 * keyed by team name, in which a later team overwrites an earlier one of the
 * same name.
 */
module Standings {
  import opened Text
  import opened TeamRecords
  import opened Parser

  /** The dictionary value of one team: every statistic but the name, under
      the keys `record`, `ROW`, `points`, `goalsfor`, `goalsagainst`,
      `homerecord`, `awayrecord`, `divisionrecord`, `conferencerecord` and
      `icf`. */
  datatype TeamStats = TeamStats(
    record: TeamRecord,
    row: int,
    points: int,
    goalsFor: int,
    goalsAgainst: int,
    homeRecord: TeamRecord,
    awayRecord: TeamRecord,
    divisionRecord: TeamRecord,
    conferenceRecord: TeamRecord,
    icf: TeamRecord)

  function StatsOf(t: NHLTeam): TeamStats {
    TeamStats(t.record, t.row, t.points, t.goalsFor, t.goalsAgainst,
              t.homeRecord, t.awayRecord, t.divisionRecord, t.conferenceRecord, t.icfRecord)
  }

  /** The dictionary after assigning every team in order. */
  function Standings(teams: seq<NHLTeam>): map<string, TeamStats> {
    if teams == [] then map[]
    else
      var last := teams[|teams| - 1];
      Standings(teams[..|teams| - 1])[last.name := StatsOf(last)]
  }

  /** The loop that fills `json_data`. */
  method BuildStandings(teams: seq<NHLTeam>) returns (jsonData: map<string, TeamStats>)
    ensures jsonData == Standings(teams)
  {
    jsonData := map[];
    for i := 0 to |teams|
      invariant jsonData == Standings(teams[..i])
    {
      assert teams[..i + 1][..i] == teams[..i];
      jsonData := jsonData[teams[i].name := StatsOf(teams[i])];
    }
    assert teams[..|teams|] == teams;
  }

  /** The keys are exactly the names of the teams. */
  lemma {:induction false} StandingsKeys(teams: seq<NHLTeam>)
    ensures Standings(teams).Keys == set i | 0 <= i < |teams| :: teams[i].name
  {
    if teams != [] {
      var init := teams[..|teams| - 1];
      StandingsKeys(init);
      var names := set i | 0 <= i < |teams| :: teams[i].name;
      var initNames := set i | 0 <= i < |init| :: init[i].name;
      assert names == initNames + {teams[|teams| - 1].name} by {
        forall n | n in names
          ensures n in initNames + {teams[|teams| - 1].name}
        {
          var i :| 0 <= i < |teams| && teams[i].name == n;
          if i < |init| {
            assert init[i].name == n;
          }
        }
        forall n | n in initNames
          ensures n in names
        {
          var i :| 0 <= i < |init| && init[i].name == n;
          assert teams[i].name == n;
        }
      }
    }
  }

  /** A name maps to the statistics of the last team that bears it. */
  lemma {:induction false} StandingsLastWins(teams: seq<NHLTeam>, i: nat)
    requires i < |teams|
    requires forall j :: i < j < |teams| ==> teams[j].name != teams[i].name
    ensures teams[i].name in Standings(teams)
    ensures Standings(teams)[teams[i].name] == StatsOf(teams[i])
  {
    var init := teams[..|teams| - 1];
    if i < |teams| - 1 {
      assert forall j :: i < j < |init| ==> init[j].name != init[i].name by {
        forall j | i < j < |init|
          ensures init[j].name != init[i].name
        {
          assert init[j] == teams[j];
        }
      }
      StandingsLastWins(init, i);
      assert init[i] == teams[i];
    }
  }

  /** Distinct names lose nothing: there are as many entries as teams. */
  lemma {:induction false} StandingsDistinct(teams: seq<NHLTeam>)
    requires forall i, j :: 0 <= i < j < |teams| ==> teams[i].name != teams[j].name
    ensures |Standings(teams)| == |teams|
  {
    if teams != [] {
      var init := teams[..|teams| - 1];
      var last := teams[|teams| - 1];
      StandingsDistinct(init);
      StandingsKeys(init);
      forall i | 0 <= i < |init|
        ensures init[i].name != last.name
      {
        assert init[i] == teams[i];
      }
      assert last.name !in Standings(init);
    }
  }

  /** Every header marker is non-empty and has no whitespace in it. */
  lemma MarkersPlain()
    ensures forall k :: 0 <= k < |HeaderMarkers| ==> HeaderMarkers[k] != [] && NoSpace(HeaderMarkers[k])
  {
  }

  /** Stripping a string before it is filtered changes nothing: the markers
      have no whitespace in them, and stripping twice is stripping once. */
  lemma AcceptStripped(x: string)
    ensures Accept(Strip(x)) == Accept(x)
  {
    MarkersPlain();
    forall k | 0 <= k < |HeaderMarkers|
      ensures Contains(Strip(x), HeaderMarkers[k]) <==> Contains(x, HeaderMarkers[k])
    {
      ContainsStrip(x, HeaderMarkers[k]);
    }
    StripIdempotent(x);
  }

  /** The strings of the table, each stripped. */
  predicate StrippedFrom(lines: seq<string>, strings: seq<string>) {
    |lines| == |strings| && forall j :: 0 <= j < |lines| ==> lines[j] == Strip(strings[j])
  }

  /** The stripping that `stats()` does before parsing is harmless: the
      parser accepts the same cells either way. */
  lemma {:induction false} PreStripHarmless(lines: seq<string>, strings: seq<string>)
    requires StrippedFrom(lines, strings)
    ensures Accepted(lines) == Accepted(strings)
    decreases |lines|
  {
    if lines != [] {
      var n := |lines| - 1;
      PreStripHarmless(lines[..n], strings[..n]);
      AcceptStripped(strings[n]);
    }
  }

  /** `stats()` without the download: strip every string of the table, parse
      the teams and key them by name. */
  method Stats(tableStrings: seq<string>) returns (jsonData: map<string, TeamStats>)
    ensures jsonData == Standings(ParseTeams(tableStrings))
  {
    var lines: seq<string> := [];
    for i := 0 to |tableStrings|
      invariant StrippedFrom(lines, tableStrings[..i])
    {
      lines := lines + [Strip(tableStrings[i])];
    }
    assert tableStrings[..|tableStrings|] == tableStrings;
    var teams, _ := ParseTeamData(lines);
    PreStripHarmless(lines, tableStrings);
    jsonData := BuildStandings(teams);
  }
}
