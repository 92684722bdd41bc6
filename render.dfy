/**
 * The standings rows as the page lays them out: a team written back as the
 * eleven cells `parse_team_data` reads. Reading what is written gives the
 * teams back, which pins down the positional reading of every field.
 */
module Rendering {
  import opened Results
  import opened Text
  import opened TeamRecords
  import opened Parser
  import opened ParserProperties

  /** Text made only of digits and dashes, as every statistic cell is. */
  predicate NumericText(s: string) {
    forall i :: 0 <= i < |s| ==> IsDigit(s[i]) || s[i] == '-'
  }

  /** A text whose first character does not occur in `s` never occurs in
      `s`. */
  lemma {:induction false} FirstNotIn(s: string, m: string)
    requires m != [] && m[0] !in s
    ensures !Contains(s, m)
    decreases |s|
  {
    if |m| <= |s| {
      assert s[..|m|][0] == s[0];
    }
    if s != [] {
      assert m[0] !in s[1..];
      FirstNotIn(s[1..], m);
    }
  }

  /** Every header marker begins with a letter, so no marker occurs in a
      numeric cell. */
  lemma NumericNotHeader(s: string)
    requires NumericText(s)
    ensures !IsHeader(s)
  {
    forall k | 0 <= k < |HeaderMarkers|
      ensures !Contains(s, HeaderMarkers[k])
    {
      var m := HeaderMarkers[k];
      assert m[0] !in s;
      FirstNotIn(s, m);
    }
  }

  lemma IntPlain(n: int)
    ensures Plain(IntToString(n))
  {
    var s := IntToString(n);
    var m: nat := if n < 0 then -n else n;
    var d := NatToString(m);
    assert s == (if n < 0 then "-" else "") + d;
    assert NumericText(s);
    NumericNotHeader(s);
    assert !IsSpace(s[0]) && !IsSpace(s[|s| - 1]);
  }

  lemma IntCell(n: int)
    requires FitsDigitLimit(n)
    ensures ParseInt(IntToString(n)) == Some(n)
  {
    ParseIntToString(n, [], []);
    assert [] + IntToString(n) + [] == IntToString(n);
  }

  lemma RecordPlain(r: TeamRecord)
    requires NonNegative(r)
    ensures Plain(RecordText(r))
  {
    RecordTextShape(r);
    assert NumericText(RecordText(r));
    NumericNotHeader(RecordText(r));
  }

  lemma RecordCell(r: TeamRecord)
    requires Readable(r)
    ensures FromString(RecordText(r)) == Some(r)
  {
    FromStringRoundTrip(r, [], []);
    assert [] + RecordText(r) + [] == RecordText(r);
  }

  /** A team the page can show: a non-empty stripped name that is not taken
      for a header, records with no negative count, and no number too long
      for `int`. */
  predicate WellFormedTeam(t: NHLTeam) {
    && t.name != [] && Trimmed(t.name) && !IsHeader(t.name)
    && Readable(t.record) && Readable(t.homeRecord) && Readable(t.awayRecord)
    && Readable(t.divisionRecord) && Readable(t.conferenceRecord) && Readable(t.icfRecord)
    && FitsDigitLimit(t.row) && FitsDigitLimit(t.points)
    && FitsDigitLimit(t.goalsFor) && FitsDigitLimit(t.goalsAgainst)
  }

  /** The eleven cells of a team's row, in the table's column order. */
  function FormatRow(t: NHLTeam): (row: seq<string>)
    requires WellFormedTeam(t)
    ensures |row| == RowWidth
  {
    [t.name, RecordText(t.record),
     IntToString(t.row), IntToString(t.points), IntToString(t.goalsFor), IntToString(t.goalsAgainst),
     RecordText(t.homeRecord), RecordText(t.awayRecord), RecordText(t.divisionRecord),
     RecordText(t.conferenceRecord), RecordText(t.icfRecord)]
  }

  /** The rows of `teams`, one after the other. */
  function Render(teams: seq<NHLTeam>): seq<string>
    requires forall i :: 0 <= i < |teams| ==> WellFormedTeam(teams[i])
  {
    if teams == [] then [] else FormatRow(teams[0]) + Render(teams[1..])
  }

  /** A cell that is non-empty, stripped and not a header. */
  predicate Plain(s: string) {
    s != [] && Trimmed(s) && !IsHeader(s)
  }

  lemma PlainAccepted(s: string)
    requires Plain(s)
    ensures Accept(s) == Some(s)
  {
    StripTrimmed(s);
  }

  /** Every cell of a well-formed row is plain. */
  lemma FormatRowPlain(t: NHLTeam)
    requires WellFormedTeam(t)
    ensures forall j :: 0 <= j < RowWidth ==> Plain(FormatRow(t)[j])
  {
    RecordPlain(t.record);
    IntPlain(t.row);
    IntPlain(t.points);
    IntPlain(t.goalsFor);
    IntPlain(t.goalsAgainst);
    RecordPlain(t.homeRecord);
    RecordPlain(t.awayRecord);
    RecordPlain(t.divisionRecord);
    RecordPlain(t.conferenceRecord);
    RecordPlain(t.icfRecord);
  }

  /** A well-formed row reads back as the team it was written from. */
  lemma FormatRowReads(t: NHLTeam)
    requires WellFormedTeam(t)
    ensures ParseChunk(FormatRow(t)) == Success(t)
  {
    var row := FormatRow(t);
    RecordCell(t.record);
    IntCell(t.row);
    IntCell(t.points);
    IntCell(t.goalsFor);
    IntCell(t.goalsAgainst);
    RecordCell(t.homeRecord);
    RecordCell(t.awayRecord);
    RecordCell(t.divisionRecord);
    RecordCell(t.conferenceRecord);
    RecordCell(t.icfRecord);
    var c := ReadCells(row);
    assert c == RowCells(t.name, Some(t.record), Some(t.row), Some(t.points), Some(t.goalsFor),
      Some(t.goalsAgainst), Some(t.homeRecord), Some(t.awayRecord), Some(t.divisionRecord),
      Some(t.conferenceRecord), Some(t.icfRecord));
    AssembleSpec(c);
  }

  /** The rows of `teams`, as a sequence of rows. */
  function RenderRows(teams: seq<NHLTeam>): (rows: seq<seq<string>>)
    requires forall i :: 0 <= i < |teams| ==> WellFormedTeam(teams[i])
    ensures AllRows(rows)
  {
    if teams == [] then [] else [FormatRow(teams[0])] + RenderRows(teams[1..])
  }

  /** Every cell of the rendered rows is plain. */
  lemma {:induction false} RenderPlain(teams: seq<NHLTeam>)
    requires forall i :: 0 <= i < |teams| ==> WellFormedTeam(teams[i])
    ensures forall j :: 0 <= j < |Render(teams)| ==> Plain(Render(teams)[j])
  {
    if teams != [] {
      var row, more := FormatRow(teams[0]), Render(teams[1..]);
      FormatRowPlain(teams[0]);
      RenderPlain(teams[1..]);
      assert Render(teams) == row + more;
      forall j | 0 <= j < |row + more|
        ensures Plain((row + more)[j])
      {
        if j >= |row| {
          assert (row + more)[j] == more[j - |row|];
        }
      }
    }
  }

  /** The rendered cells cut into rows are the rendered rows. */
  lemma {:induction false} RenderCut(teams: seq<NHLTeam>)
    requires forall i :: 0 <= i < |teams| ==> WellFormedTeam(teams[i])
    ensures Rows(Render(teams)) == RenderRows(teams)
    ensures Leftover(Render(teams)) == []
  {
    if teams != [] {
      var row, more := FormatRow(teams[0]), Render(teams[1..]);
      assert Render(teams) == row + more;
      assert (row + more)[..RowWidth] == row;
      assert (row + more)[RowWidth..] == more;
      RenderCut(teams[1..]);
    }
  }

  /** Each rendered row reads back as its team. */
  lemma {:induction false} RenderRowsRead(teams: seq<NHLTeam>)
    requires forall i :: 0 <= i < |teams| ==> WellFormedTeam(teams[i])
    ensures AllRead(ParseChunk, RenderRows(teams), teams)
  {
    if teams != [] {
      FormatRowReads(teams[0]);
      RenderRowsRead(teams[1..]);
    }
  }

  /** Reading the rendered rows gives every team back, in order, with no
      diagnostic and nothing left in the buffer. */
  lemma RenderRoundTrip(teams: seq<NHLTeam>)
    requires forall i :: 0 <= i < |teams| ==> WellFormedTeam(teams[i])
    ensures Parse(Render(teams)) == ParseState(teams, [], [])
  {
    var cells := Render(teams);
    RenderPlain(teams);
    forall j | 0 <= j < |cells|
      ensures Accept(cells[j]) == Some(cells[j])
    {
      PlainAccepted(cells[j]);
    }
    AcceptedAll(cells);
    RenderCut(teams);
    RenderRowsRead(teams);
    TeamsOfAllRead(ParseChunk, RenderRows(teams), teams);
  }

  /** Boston's row on the standings page, and the team it stands for. */
  const BostonCells: seq<string> :=
    ["Boston", "41-31-10", "25", "92", "250", "210", "20-16-5", "21-15-5", "10-8-2", "30-20-6", "15-10-3"]

  const Boston: NHLTeam :=
    NHLTeam("Boston", TeamRecord(41, 31, 10), 25, 92, 250, 210, TeamRecord(20, 16, 5),
            TeamRecord(21, 15, 5), TeamRecord(10, 8, 2), TeamRecord(30, 20, 6), TeamRecord(15, 10, 3))

  lemma BostonRecord()
    ensures RecordText(TeamRecord(41, 31, 10)) == "41-31-10"
  {
    assert NatToString(41) == "41" && NatToString(31) == "31" && NatToString(10) == "10";
  }

  lemma BostonTotals()
    ensures IntToString(25) == "25" && IntToString(92) == "92"
    ensures IntToString(250) == "250" && IntToString(210) == "210"
  {
    assert NatToString(25) == "25" && NatToString(92) == "92";
    assert NatToString(250) == "250" && NatToString(210) == "210";
  }

  lemma BostonSplits()
    ensures RecordText(TeamRecord(20, 16, 5)) == "20-16-5"
    ensures RecordText(TeamRecord(21, 15, 5)) == "21-15-5"
    ensures RecordText(TeamRecord(10, 8, 2)) == "10-8-2"
  {
    assert NatToString(20) == "20" && NatToString(16) == "16" && NatToString(5) == "5";
    assert NatToString(21) == "21" && NatToString(15) == "15";
    assert NatToString(10) == "10" && NatToString(8) == "8" && NatToString(2) == "2";
  }

  lemma BostonGroups()
    ensures RecordText(TeamRecord(30, 20, 6)) == "30-20-6"
    ensures RecordText(TeamRecord(15, 10, 3)) == "15-10-3"
  {
    assert NatToString(30) == "30" && NatToString(20) == "20" && NatToString(6) == "6";
    assert NatToString(15) == "15" && NatToString(10) == "10" && NatToString(3) == "3";
  }

  lemma BostonWellFormed()
    ensures WellFormedTeam(Boston)
  {
    forall k | 0 <= k < |HeaderMarkers|
      ensures !Contains("Boston", HeaderMarkers[k])
    {
      FirstNotIn("Boston", HeaderMarkers[k]);
    }
    SmallReadable(Boston.record);
    SmallReadable(Boston.homeRecord);
    SmallReadable(Boston.awayRecord);
    SmallReadable(Boston.divisionRecord);
    SmallReadable(Boston.conferenceRecord);
    SmallReadable(Boston.icfRecord);
    SmallFitsDigitLimit(Boston.row);
    SmallFitsDigitLimit(Boston.points);
    SmallFitsDigitLimit(Boston.goalsFor);
    SmallFitsDigitLimit(Boston.goalsAgainst);
  }

  lemma BostonFormat()
    ensures WellFormedTeam(Boston) && FormatRow(Boston) == BostonCells
  {
    BostonWellFormed();
    BostonRecord();
    BostonTotals();
    BostonSplits();
    BostonGroups();
  }

  /** Boston's row on its own reads as Boston. */
  lemma BostonReads()
    ensures Parse(BostonCells) == ParseState([Boston], [], [])
  {
    BostonFormat();
    assert Render([Boston]) == BostonCells by {
      assert [Boston][1..] == [];
    }
    RenderRoundTrip([Boston]);
  }

  lemma GFIsHeader()
    ensures IsHeader("GF")
  {
    var gf := HeaderMarkers[5];
    assert gf == "GF" && gf[..|gf|] == gf;
    assert StartsWith("GF", gf);
  }

  /** The worked example of the standings page: Boston's row, followed by a
      "GF" header cell, reads as one team with every statistic in place. */
  lemma BostonExample()
    ensures ParseTeams(BostonCells + ["GF"]) == [Boston]
  {
    BostonReads();
    GFIsHeader();
    NoiseIgnored(ParseChunk, BostonCells, "GF", []);
    assert BostonCells + ["GF"] + [] == BostonCells + ["GF"];
    assert BostonCells + [] == BostonCells;
  }
}
