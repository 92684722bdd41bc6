/**
 * `parse_team_data`: the standings table's text nodes, in document order, are
 * filtered (header labels and blank strings are dropped), stripped and
 * buffered; every time the buffer holds eleven cells they are read
 * positionally into an `NHLTeam` and the buffer starts over. A row that does
 * not read is reported and skipped, and a partial row at the end is dropped.
 *
 * `Parse` is the specification: the accepted cells cut into consecutive rows
 * of eleven from the front. `ParseTeamData` is the source's loop, proved to
 * compute it.
 */
module Parser {
  import opened Results
  import opened Text
  import opened TeamRecords

  /** One standings row. */
  datatype NHLTeam = NHLTeam(
    name: string,
    record: TeamRecord,
    row: int,
    points: int,
    goalsFor: int,
    goalsAgainst: int,
    homeRecord: TeamRecord,
    awayRecord: TeamRecord,
    divisionRecord: TeamRecord,
    conferenceRecord: TeamRecord,
    icfRecord: TeamRecord)

  /** The diagnostic printed for a row that did not read: the eleven buffered
      cells and the index of the first cell that failed. */
  datatype ChunkFailure = ChunkFailure(chunk: seq<string>, field: nat)

  /** The parser's state between two input strings. */
  datatype ParseState = ParseState(teams: seq<NHLTeam>, failures: seq<ChunkFailure>, buffer: seq<string>)

  /** The labels of the table's header cells. */
  const HeaderMarkers: seq<string> :=
    ["CONFERENCE", "Division", "W-L-OT", "ROW", "Pts", "GF", "GA", "Home", "Away", "Div", "Cnf", "Icf"]

  /** The number of cells in one row: the name and ten statistics. */
  const RowWidth: nat := 11

  /** A string is dropped as a header when any marker occurs in it,
      case-sensitively, before any stripping. */
  predicate IsHeader(line: string) {
    exists k :: 0 <= k < |HeaderMarkers| && Contains(line, HeaderMarkers[k])
  }

  /** What one input string contributes to the buffer: its stripped form,
      unless it is a header or blank. */
  function Accept(line: string): Option<string> {
    if IsHeader(line) then None
    else
      var t := Strip(line);
      if t == [] then None else Some(t)
  }

  /** `team` is what the row `chunk` says, cell by cell. */
  predicate Decoded(chunk: seq<string>, team: NHLTeam)
    requires |chunk| == RowWidth
  {
    && team.name == chunk[0]
    && FromString(chunk[1]) == Some(team.record)
    && ParseInt(chunk[2]) == Some(team.row)
    && ParseInt(chunk[3]) == Some(team.points)
    && ParseInt(chunk[4]) == Some(team.goalsFor)
    && ParseInt(chunk[5]) == Some(team.goalsAgainst)
    && FromString(chunk[6]) == Some(team.homeRecord)
    && FromString(chunk[7]) == Some(team.awayRecord)
    && FromString(chunk[8]) == Some(team.divisionRecord)
    && FromString(chunk[9]) == Some(team.conferenceRecord)
    && FromString(chunk[10]) == Some(team.icfRecord)
  }

  /** The eleven cells of a row, each read as the type its position calls
      for: cells 2 to 5 as integers, cells 1 and 6 to 10 as records; cell 0,
      the name, is taken as it is. */
  datatype RowCells = RowCells(
    name: string,
    record: Option<TeamRecord>,
    row: Option<int>,
    points: Option<int>,
    goalsFor: Option<int>,
    goalsAgainst: Option<int>,
    homeRecord: Option<TeamRecord>,
    awayRecord: Option<TeamRecord>,
    divisionRecord: Option<TeamRecord>,
    conferenceRecord: Option<TeamRecord>,
    icfRecord: Option<TeamRecord>)

  function ReadCells(chunk: seq<string>): RowCells
    requires |chunk| == RowWidth
  {
    RowCells(chunk[0], FromString(chunk[1]),
             ParseInt(chunk[2]), ParseInt(chunk[3]), ParseInt(chunk[4]), ParseInt(chunk[5]),
             FromString(chunk[6]), FromString(chunk[7]), FromString(chunk[8]),
             FromString(chunk[9]), FromString(chunk[10]))
  }

  /** Whether each cell read, by position; the name always does. */
  function CellsOk(c: RowCells): (ok: seq<bool>)
    ensures |ok| == RowWidth
  {
    [true, c.record.Some?, c.row.Some?, c.points.Some?, c.goalsFor.Some?, c.goalsAgainst.Some?,
     c.homeRecord.Some?, c.awayRecord.Some?, c.divisionRecord.Some?,
     c.conferenceRecord.Some?, c.icfRecord.Some?]
  }

  /** The body of the `try` block over the cells read: the first cell that
      did not read aborts the row with its index. */
  function Assemble(c: RowCells): Result<NHLTeam, nat> {
    var record :- Need(c.record, 1);
    var row :- Need(c.row, 2);
    var points :- Need(c.points, 3);
    var goalsFor :- Need(c.goalsFor, 4);
    var goalsAgainst :- Need(c.goalsAgainst, 5);
    var home :- Need(c.homeRecord, 6);
    var away :- Need(c.awayRecord, 7);
    var division :- Need(c.divisionRecord, 8);
    var conference :- Need(c.conferenceRecord, 9);
    var icf :- Need(c.icfRecord, 10);
    Success(NHLTeam(c.name, record, row, points, goalsFor, goalsAgainst,
                    home, away, division, conference, icf))
  }

  /** Assembling succeeds exactly when every cell read, and then takes each
      field from its own cell; otherwise it names the first cell that did
      not read. */
  lemma AssembleSpec(c: RowCells)
    ensures Assemble(c).Success? <==> forall k :: 0 <= k < RowWidth ==> CellsOk(c)[k]
    ensures Assemble(c).Success? ==> Assemble(c).value == NHLTeam(c.name, c.record.value,
      c.row.value, c.points.value, c.goalsFor.value, c.goalsAgainst.value, c.homeRecord.value,
      c.awayRecord.value, c.divisionRecord.value, c.conferenceRecord.value, c.icfRecord.value)
    ensures Assemble(c).Failure? ==>
      && 1 <= Assemble(c).error < RowWidth
      && !CellsOk(c)[Assemble(c).error]
      && forall k :: 0 <= k < Assemble(c).error ==> CellsOk(c)[k]
  {
    if c.record.None? {
      assert !CellsOk(c)[1];
    } else if c.row.None? {
      assert !CellsOk(c)[2];
    } else if c.points.None? {
      assert !CellsOk(c)[3];
    } else if c.goalsFor.None? {
      assert !CellsOk(c)[4];
    } else if c.goalsAgainst.None? {
      assert !CellsOk(c)[5];
    } else if c.homeRecord.None? {
      assert !CellsOk(c)[6];
    } else if c.awayRecord.None? {
      assert !CellsOk(c)[7];
    } else if c.divisionRecord.None? {
      assert !CellsOk(c)[8];
    } else if c.conferenceRecord.None? {
      assert !CellsOk(c)[9];
    } else if c.icfRecord.None? {
      assert !CellsOk(c)[10];
    } else {
      var ok := CellsOk(c);
      assert ok[1] && ok[2] && ok[3] && ok[4] && ok[5] && ok[6] && ok[7] && ok[8] && ok[9] && ok[10];
    }
  }

  /** The `try` block: read the row's cells in order, positionally. */
  function ParseChunk(chunk: seq<string>): Result<NHLTeam, nat>
    requires |chunk| == RowWidth
  {
    Assemble(ReadCells(chunk))
  }

  /** A row reads exactly when every cell reads as the type its position
      calls for; the team it gives is the row read positionally; a failure
      names the first cell that does not read. */
  lemma ParseChunkSpec(chunk: seq<string>)
    requires |chunk| == RowWidth
    ensures ParseChunk(chunk).Success? <==> forall k :: 0 <= k < RowWidth ==> CellsOk(ReadCells(chunk))[k]
    ensures ParseChunk(chunk).Success? ==> Decoded(chunk, ParseChunk(chunk).value)
    ensures ParseChunk(chunk).Failure? ==>
      && 1 <= ParseChunk(chunk).error < RowWidth
      && !CellsOk(ReadCells(chunk))[ParseChunk(chunk).error]
      && forall k :: 0 <= k < ParseChunk(chunk).error ==> CellsOk(ReadCells(chunk))[k]
  {
    AssembleSpec(ReadCells(chunk));
  }

  /** A way of reading one full row. The functions below that cut the input
      into rows take it as a parameter, so that what is proved about the
      cutting holds whatever a row reads as; the source's reader is
      `ParseChunk`. */
  type RowReader = seq<string> --> Result<NHLTeam, nat>

  ghost predicate ReadsRows(read: RowReader) {
    forall chunk: seq<string> | |chunk| == RowWidth :: read.requires(chunk)
  }

  lemma ParseChunkReadsRows()
    ensures ReadsRows(ParseChunk)
  {
  }

  /** What one full row contributes to the result: its team, if it reads. */
  function ChunkTeams(read: RowReader, chunk: seq<string>): seq<NHLTeam>
    requires ReadsRows(read) && |chunk| == RowWidth
  {
    match read(chunk)
    case Success(team) => [team]
    case Failure(_) => []
  }

  /** What one full row contributes to the diagnostics: the report printed
      for it, if it does not read. */
  function ChunkFailures(read: RowReader, chunk: seq<string>): seq<ChunkFailure>
    requires ReadsRows(read) && |chunk| == RowWidth
  {
    match read(chunk)
    case Success(_) => []
    case Failure(field) => [ChunkFailure(chunk, field)]
  }

  /** The cells that reach the buffer, in input order. */
  function Accepted(lines: seq<string>): seq<string> {
    if lines == [] then []
    else
      var last := match Accept(lines[|lines| - 1]) case None => [] case Some(t) => [t];
      Accepted(lines[..|lines| - 1]) + last
  }

  predicate AllRows(rows: seq<seq<string>>) {
    forall g :: 0 <= g < |rows| ==> |rows[g]| == RowWidth
  }

  /** The consecutive full rows of `cells`, cut from the front. */
  function Rows(cells: seq<string>): (rows: seq<seq<string>>)
    ensures AllRows(rows)
    decreases |cells|
  {
    if |cells| < RowWidth then [] else [cells[..RowWidth]] + Rows(cells[RowWidth..])
  }

  /** The cells after the last full row: the unfinished row. */
  function Leftover(cells: seq<string>): (rest: seq<string>)
    ensures |rest| < RowWidth
    decreases |cells|
  {
    if |cells| < RowWidth then cells else Leftover(cells[RowWidth..])
  }

  /** The parts one after the other. */
  function Flatten<T>(parts: seq<seq<T>>): seq<T> {
    if parts == [] then [] else parts[0] + Flatten(parts[1..])
  }

  /** The teams of the rows that read, in order. */
  function TeamsOf(read: RowReader, rows: seq<seq<string>>): seq<NHLTeam>
    requires ReadsRows(read) && AllRows(rows)
  {
    if rows == [] then [] else ChunkTeams(read, rows[0]) + TeamsOf(read, rows[1..])
  }

  /** The diagnostics of the rows that do not read, in order. */
  function FailuresOf(read: RowReader, rows: seq<seq<string>>): seq<ChunkFailure>
    requires ReadsRows(read) && AllRows(rows)
  {
    if rows == [] then [] else ChunkFailures(read, rows[0]) + FailuresOf(read, rows[1..])
  }

  /** The state after reading `lines`: the teams and diagnostics of every full
      row of accepted cells, and the cells of the unfinished row. */
  function ParseWith(read: RowReader, lines: seq<string>): ParseState
    requires ReadsRows(read)
  {
    var cells := Accepted(lines);
    ParseState(TeamsOf(read, Rows(cells)), FailuresOf(read, Rows(cells)), Leftover(cells))
  }

  /** The same, with the source's row reader. */
  function Parse(lines: seq<string>): ParseState {
    ParseChunkReadsRows();
    ParseWith(ParseChunk, lines)
  }

  /** What `parse_team_data` returns. */
  function ParseTeams(lines: seq<string>): seq<NHLTeam> {
    Parse(lines).teams
  }

  /** One iteration of the loop, as a function of the state. */
  function Step(read: RowReader, st: ParseState, line: string): ParseState
    requires ReadsRows(read)
  {
    match Accept(line)
    case None => st
    case Some(t) =>
      var buffer := st.buffer + [t];
      if |buffer| == RowWidth then
        ParseState(st.teams + ChunkTeams(read, buffer), st.failures + ChunkFailures(read, buffer), [])
      else
        ParseState(st.teams, st.failures, buffer)
  }

  /** The loop's state after the strings `lines`, one `Step` at a time. */
  function Run(read: RowReader, lines: seq<string>): ParseState
    requires ReadsRows(read)
  {
    if lines == [] then ParseState([], [], [])
    else Step(read, Run(read, lines[..|lines| - 1]), lines[|lines| - 1])
  }

  /** `parse_team_data`, with the diagnostics it prints returned instead. */
  method ParseTeamData(lines: seq<string>) returns (teams: seq<NHLTeam>, failures: seq<ChunkFailure>)
    ensures teams == Parse(lines).teams
    ensures failures == Parse(lines).failures
  {
    teams, failures := [], [];
    var currentData: seq<string> := [];
    for i := 0 to |lines|
      invariant |currentData| < RowWidth
      invariant Run(ParseChunk, lines[..i]) == ParseState(teams, failures, currentData)
    {
      ghost var next := Step(ParseChunk, ParseState(teams, failures, currentData), lines[i]);
      assert Run(ParseChunk, lines[..i + 1]) == next by {
        assert lines[..i + 1][..i] == lines[..i];
      }
      var line := lines[i];
      if IsHeader(line) {
        continue;
      }
      line := Strip(line);
      if line == [] {
        continue;
      }
      currentData := currentData + [line];
      if |currentData| == RowWidth {
        match ParseChunk(currentData) {
          case Success(team) =>
            teams := teams + [team];
          case Failure(field) =>
            failures := failures + [ChunkFailure(currentData, field)];
        }
        currentData := [];
      }
    }
    assert Run(ParseChunk, lines) == Parse(lines) by {
      assert lines[..|lines|] == lines;
      RunIsParse(ParseChunk, lines);
    }
  }

  /** Accepting is done string by string. */
  lemma {:induction false} AcceptedAppend(a: seq<string>, b: seq<string>)
    ensures Accepted(a + b) == Accepted(a) + Accepted(b)
    decreases |b|
  {
    if b == [] {
      assert a + b == a;
    } else {
      var b' := b[..|b| - 1];
      AcceptedAppend(a, b');
      assert (a + b)[..|a + b| - 1] == a + b';
      assert (a + b)[|a + b| - 1] == b[|b| - 1];
    }
  }

  /** One more cell either completes the unfinished row or extends it. */
  lemma {:induction false} RowsSnoc(cells: seq<string>, t: string)
    ensures |Leftover(cells)| + 1 == RowWidth ==>
      Rows(cells + [t]) == Rows(cells) + [Leftover(cells) + [t]] && Leftover(cells + [t]) == []
    ensures |Leftover(cells)| + 1 < RowWidth ==>
      Rows(cells + [t]) == Rows(cells) && Leftover(cells + [t]) == Leftover(cells) + [t]
    decreases |cells|
  {
    if |cells| >= RowWidth {
      var tail := cells[RowWidth..];
      assert (cells + [t])[..RowWidth] == cells[..RowWidth];
      assert (cells + [t])[RowWidth..] == tail + [t];
      RowsSnoc(tail, t);
    } else if |cells| + 1 == RowWidth {
      var row := cells + [t];
      assert row[..RowWidth] == row && row[RowWidth..] == [];
    }
  }

  /** Rows are cut from the front, so input that ends on a row boundary is
      cut on its own. */
  lemma {:induction false} RowsAppend(a: seq<string>, b: seq<string>)
    requires Leftover(a) == []
    ensures Rows(a + b) == Rows(a) + Rows(b)
    ensures Leftover(a + b) == Leftover(b)
    decreases |a|
  {
    if |a| < RowWidth {
      assert a + b == b;
    } else {
      var tail := a[RowWidth..];
      assert (a + b)[..RowWidth] == a[..RowWidth];
      assert (a + b)[RowWidth..] == tail + b;
      RowsAppend(tail, b);
    }
  }

  /** The full rows and the unfinished row are the accepted cells: none is
      lost, repeated or reordered. */
  lemma {:induction false} RowsCover(cells: seq<string>)
    ensures Flatten(Rows(cells)) + Leftover(cells) == cells
    decreases |cells|
  {
    if |cells| >= RowWidth {
      var rows := Rows(cells);
      RowsCover(cells[RowWidth..]);
      assert rows[1..] == Rows(cells[RowWidth..]);
      assert cells == cells[..RowWidth] + cells[RowWidth..];
    }
  }

  /** Rows are read one by one. */
  lemma {:induction false} RowsOfAppend(read: RowReader, r1: seq<seq<string>>, r2: seq<seq<string>>)
    requires ReadsRows(read) && AllRows(r1) && AllRows(r2)
    ensures AllRows(r1 + r2)
    ensures TeamsOf(read, r1 + r2) == TeamsOf(read, r1) + TeamsOf(read, r2)
    ensures FailuresOf(read, r1 + r2) == FailuresOf(read, r1) + FailuresOf(read, r2)
  {
    if r1 != [] {
      assert (r1 + r2)[0] == r1[0];
      assert (r1 + r2)[1..] == r1[1..] + r2;
      RowsOfAppend(read, r1[1..], r2);
    } else {
      assert r1 + r2 == r2;
    }
  }

  /** Appending one full row appends what it contributes. */
  lemma RowsOfSnoc(read: RowReader, rows: seq<seq<string>>, row: seq<string>)
    requires ReadsRows(read) && AllRows(rows) && |row| == RowWidth
    ensures AllRows(rows + [row])
    ensures TeamsOf(read, rows + [row]) == TeamsOf(read, rows) + ChunkTeams(read, row)
    ensures FailuresOf(read, rows + [row]) == FailuresOf(read, rows) + ChunkFailures(read, row)
  {
    RowsOfAppend(read, rows, [row]);
    assert TeamsOf(read, [row]) == ChunkTeams(read, row) by {
      assert [row][1..] == [];
    }
    assert FailuresOf(read, [row]) == ChunkFailures(read, row) by {
      assert [row][1..] == [];
    }
  }

  /** The loop body moves the state from one prefix of the input to the next. */
  lemma ParseStep(read: RowReader, lines: seq<string>, line: string)
    requires ReadsRows(read)
    ensures ParseWith(read, lines + [line]) == Step(read, ParseWith(read, lines), line)
  {
    assert (lines + [line])[..|lines|] == lines;
    var cells := Accepted(lines);
    match Accept(line) {
      case None =>
        assert Accepted(lines + [line]) == cells;
      case Some(t) =>
        assert Accepted(lines + [line]) == cells + [t];
        RowsSnoc(cells, t);
        var row := Leftover(cells) + [t];
        if |row| == RowWidth {
          RowsOfSnoc(read, Rows(cells), row);
        }
    }
  }

  /** Stepping through the strings one at a time reaches the row-by-row
      state. */
  lemma {:induction false} RunIsParse(read: RowReader, lines: seq<string>)
    requires ReadsRows(read)
    ensures Run(read, lines) == ParseWith(read, lines)
    decreases |lines|
  {
    if lines == [] {
      assert Rows([]) == [] && Leftover([]) == [];
    } else {
      var init := lines[..|lines| - 1];
      RunIsParse(read, init);
      ParseStep(read, init, lines[|lines| - 1]);
      assert init + [lines[|lines| - 1]] == lines;
    }
  }
}
