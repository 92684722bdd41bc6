/**
 * What `parse_team_data` promises about its output, proved about the
 * specification `Parser.ParseWith` (which the loop `Parser.ParseTeamData` is
 * proved to compute with the source's row reader). Most facts are about how
 * the input is cut into rows and hold for any row reader `read`; `TeamOrigin`
 * adds what the source's reader, `ParseChunk`, does with a row.
 */
module ParserProperties {
  import opened Results
  import opened Text
  import opened Parser

  /** A string reaches the buffer only stripped, non-empty, and when no
      header marker occurs in it. */
  lemma AcceptMeans(line: string)
    ensures Accept(line).Some? <==> !IsHeader(line) && Strip(line) != []
    ensures Accept(line).Some? ==> Accept(line).value == Strip(line) && Trimmed(Accept(line).value)
  {
    StripShape(line);
  }

  /** Every buffered cell is the stripped, non-empty form of an input string
      that is not a header. */
  lemma {:induction false} AcceptedOrigin(lines: seq<string>, k: nat)
    requires k < |Accepted(lines)|
    ensures exists j :: 0 <= j < |lines| && Accept(lines[j]) == Some(Accepted(lines)[k])
    decreases |lines|
  {
    var init := lines[..|lines| - 1];
    if k < |Accepted(init)| {
      AcceptedOrigin(init, k);
      var j :| 0 <= j < |init| && Accept(init[j]) == Some(Accepted(init)[k]);
      assert lines[j] == init[j];
    } else {
      assert Accept(lines[|lines| - 1]) == Some(Accepted(lines)[k]);
    }
  }

  /** A header or blank string changes nothing: the result is as if it were
      absent from the input. */
  lemma NoiseIgnored(read: RowReader, a: seq<string>, noise: string, b: seq<string>)
    requires ReadsRows(read)
    requires IsHeader(noise) || Strip(noise) == []
    ensures ParseWith(read, a + [noise] + b) == ParseWith(read, a + b)
  {
    assert Accept(noise) == None;
    assert Accepted([noise]) == [] by {
      assert [noise][..0] == [];
    }
    assert Accepted(a + [noise] + b) == Accepted(a + b) by {
      AcceptedAppend(a, [noise]);
      AcceptedAppend(a + [noise], b);
      AcceptedAppend(a, b);
    }
  }

  /** Strings accepted as they are reach the buffer unchanged. */
  lemma {:induction false} AcceptedAll(lines: seq<string>)
    requires forall j :: 0 <= j < |lines| ==> Accept(lines[j]) == Some(lines[j])
    ensures Accepted(lines) == lines
    decreases |lines|
  {
    if lines != [] {
      var init := lines[..|lines| - 1];
      AcceptedAll(init);
      assert init + [lines[|lines| - 1]] == lines;
    }
  }

  /** Once the buffer is empty, what follows is read on its own and its teams
      and diagnostics are appended. */
  lemma ParseCompose(read: RowReader, a: seq<string>, b: seq<string>)
    requires ReadsRows(read)
    requires ParseWith(read, a).buffer == []
    ensures ParseWith(read, a + b) ==
      ParseState(ParseWith(read, a).teams + ParseWith(read, b).teams,
                 ParseWith(read, a).failures + ParseWith(read, b).failures,
                 ParseWith(read, b).buffer)
  {
    var ca, cb := Accepted(a), Accepted(b);
    AcceptedAppend(a, b);
    RowsAppend(ca, cb);
    RowsOfAppend(read, Rows(ca), Rows(cb));
  }

  /** Strings with exactly eleven accepted cells among them form one row
      on their own. */
  lemma OneRow(read: RowReader, strings: seq<string>)
    requires ReadsRows(read) && |Accepted(strings)| == RowWidth
    ensures ParseWith(read, strings) ==
      ParseState(ChunkTeams(read, Accepted(strings)), ChunkFailures(read, Accepted(strings)), [])
  {
    var row := Accepted(strings);
    assert Rows(row) == [row] && Leftover(row) == [] by {
      assert row[..RowWidth] == row && row[RowWidth..] == [];
    }
    RowsOfSnoc(read, [], row);
    assert [] + [row] == [row];
  }

  /** Row `g` reads as team `g`, for every `g`. */
  ghost predicate AllRead(read: RowReader, rows: seq<seq<string>>, teams: seq<NHLTeam>)
    requires ReadsRows(read) && AllRows(rows)
  {
    |rows| == |teams| && (rows != [] ==>
      read(rows[0]) == Success(teams[0]) && AllRead(read, rows[1..], teams[1..]))
  }

  /** Rows that all read give their teams, in order, and no diagnostic. */
  lemma {:induction false} TeamsOfAllRead(read: RowReader, rows: seq<seq<string>>, teams: seq<NHLTeam>)
    requires ReadsRows(read) && AllRows(rows) && AllRead(read, rows, teams)
    ensures TeamsOf(read, rows) == teams && FailuresOf(read, rows) == []
  {
    if rows != [] {
      assert ChunkTeams(read, rows[0]) == [teams[0]] && ChunkFailures(read, rows[0]) == [];
      TeamsOfAllRead(read, rows[1..], teams[1..]);
      assert [teams[0]] + teams[1..] == teams;
    }
  }

  /** A row that does not read is reported and then skipped: the teams are
      those of the input without the strings that made it up, headers and
      blanks among them included. */
  lemma BadRowSkipped(read: RowReader, a: seq<string>, row: seq<string>, b: seq<string>)
    requires ReadsRows(read)
    requires ParseWith(read, a).buffer == []
    requires |Accepted(row)| == RowWidth
    requires read(Accepted(row)).Failure?
    ensures ParseWith(read, a + row + b).teams == ParseWith(read, a + b).teams
    ensures ParseWith(read, a + row + b).failures ==
      ParseWith(read, a).failures + [ChunkFailure(Accepted(row), read(Accepted(row)).error)]
      + ParseWith(read, b).failures
  {
    var failure := ChunkFailure(Accepted(row), read(Accepted(row)).error);
    var pa, pb := ParseWith(read, a), ParseWith(read, b);
    assert ParseWith(read, row) == ParseState([], [failure], []) by {
      OneRow(read, row);
    }
    assert ParseWith(read, a + row) == ParseState(pa.teams, pa.failures + [failure], []) by {
      ParseCompose(read, a, row);
      assert pa.teams + [] == pa.teams;
    }
    assert ParseWith(read, a + row + b) ==
      ParseState(pa.teams + pb.teams, pa.failures + [failure] + pb.failures, pb.buffer) by {
      ParseCompose(read, a + row, b);
    }
    ParseCompose(read, a, b);
  }

  /** Fewer than eleven accepted cells after the last full row emit nothing. */
  lemma PartialRowDropped(read: RowReader, a: seq<string>, tail: seq<string>)
    requires ReadsRows(read)
    requires ParseWith(read, a).buffer == []
    requires |Accepted(tail)| < RowWidth
    ensures ParseWith(read, a + tail).teams == ParseWith(read, a).teams
    ensures ParseWith(read, a + tail).failures == ParseWith(read, a).failures
    ensures ParseWith(read, a + tail).buffer == Accepted(tail)
  {
    ParseCompose(read, a, tail);
  }

  lemma {:induction false} TeamsOfCount(read: RowReader, rows: seq<seq<string>>)
    requires ReadsRows(read) && AllRows(rows)
    ensures |TeamsOf(read, rows)| + |FailuresOf(read, rows)| == |rows|
  {
    if rows != [] {
      TeamsOfCount(read, rows[1..]);
      match read(rows[0]) {
        case Success(_) =>
        case Failure(_) =>
      }
    }
  }

  lemma {:induction false} FlattenLength(rows: seq<seq<string>>)
    requires AllRows(rows)
    ensures |Flatten(rows)| == RowWidth * |rows|
  {
    if rows != [] {
      FlattenLength(rows[1..]);
    }
  }

  /** Every full row gives exactly one team or one diagnostic, and the
      buffer holds what is left after the full rows: the accepted cells are
      the full rows followed by the buffer. */
  lemma RowCount(read: RowReader, lines: seq<string>)
    requires ReadsRows(read)
    ensures |ParseWith(read, lines).teams| + |ParseWith(read, lines).failures| == |Rows(Accepted(lines))|
    ensures Accepted(lines) == Flatten(Rows(Accepted(lines))) + ParseWith(read, lines).buffer
    ensures RowWidth * |Rows(Accepted(lines))| + |ParseWith(read, lines).buffer| == |Accepted(lines)|
    ensures |ParseWith(read, lines).buffer| < RowWidth
  {
    var cells := Accepted(lines);
    TeamsOfCount(read, Rows(cells));
    RowsCover(cells);
    FlattenLength(Rows(cells));
  }

  /** There are at most as many teams as whole rows of accepted cells. */
  lemma TeamsBound(read: RowReader, lines: seq<string>)
    requires ReadsRows(read)
    ensures RowWidth * |ParseWith(read, lines).teams| <= |Accepted(lines)|
  {
    RowCount(read, lines);
  }

  /** One string at a time: a string that is not accepted changes nothing;
      an accepted one joins the buffer, or, as the eleventh cell, completes a
      row, which empties the buffer and adds exactly one team or one
      diagnostic after the earlier ones. */
  lemma CellStep(read: RowReader, lines: seq<string>, line: string)
    requires ReadsRows(read)
    ensures Accept(line).None? ==> ParseWith(read, lines + [line]) == ParseWith(read, lines)
    ensures Accept(line).Some? && |ParseWith(read, lines).buffer| + 1 < RowWidth ==>
      ParseWith(read, lines + [line]) == ParseState(ParseWith(read, lines).teams,
        ParseWith(read, lines).failures, ParseWith(read, lines).buffer + [Accept(line).value])
    ensures Accept(line).Some? && |ParseWith(read, lines).buffer| + 1 == RowWidth ==>
      && ParseWith(read, lines + [line]).buffer == []
      && ParseWith(read, lines).teams <= ParseWith(read, lines + [line]).teams
      && ParseWith(read, lines).failures <= ParseWith(read, lines + [line]).failures
      && |ParseWith(read, lines + [line]).teams| + |ParseWith(read, lines + [line]).failures|
         == |ParseWith(read, lines).teams| + |ParseWith(read, lines).failures| + 1
  {
    var before := ParseWith(read, lines);
    ParseStep(read, lines, line);
    if Accept(line).Some? && |before.buffer| + 1 == RowWidth {
      var row := before.buffer + [Accept(line).value];
      match read(row) {
        case Success(team) =>
          assert ChunkTeams(read, row) == [team] && ChunkFailures(read, row) == [];
        case Failure(field) =>
          assert ChunkTeams(read, row) == [] && ChunkFailures(read, row) == [ChunkFailure(row, field)];
      }
    }
  }

  /** Row `g` is the `g`-th run of eleven consecutive accepted cells. */
  lemma {:induction false} RowsAt(cells: seq<string>, g: nat)
    requires g < |Rows(cells)|
    ensures RowWidth * g + RowWidth <= |cells|
    ensures Rows(cells)[g] == cells[RowWidth * g..RowWidth * g + RowWidth]
    decreases g
  {
    if g > 0 {
      var tail := cells[RowWidth..];
      assert Rows(cells)[g] == Rows(tail)[g - 1];
      RowsAt(tail, g - 1);
      assert tail[RowWidth * (g - 1)..RowWidth * (g - 1) + RowWidth]
          == cells[RowWidth * g..RowWidth * g + RowWidth];
    }
  }

  lemma ChunkTeamsMeans(read: RowReader, chunk: seq<string>)
    requires ReadsRows(read) && |chunk| == RowWidth
    ensures |ChunkTeams(read, chunk)| <= 1
    ensures ChunkTeams(read, chunk) != [] ==> read(chunk) == Success(ChunkTeams(read, chunk)[0])
  {
  }

  /** The teams each row contributes, row by row. */
  function TeamParts(read: RowReader, rows: seq<seq<string>>): (parts: seq<seq<NHLTeam>>)
    requires ReadsRows(read) && AllRows(rows)
    ensures |parts| == |rows|
  {
    if rows == [] then [] else [ChunkTeams(read, rows[0])] + TeamParts(read, rows[1..])
  }

  lemma {:induction false} TeamsOfParts(read: RowReader, rows: seq<seq<string>>)
    requires ReadsRows(read) && AllRows(rows)
    ensures TeamsOf(read, rows) == Flatten(TeamParts(read, rows))
  {
    if rows != [] {
      TeamsOfParts(read, rows[1..]);
      assert TeamParts(read, rows)[1..] == TeamParts(read, rows[1..]);
    }
  }

  lemma {:induction false} TeamPartsAt(read: RowReader, rows: seq<seq<string>>, g: nat)
    requires ReadsRows(read) && AllRows(rows) && g < |rows|
    ensures TeamParts(read, rows)[g] == ChunkTeams(read, rows[g])
  {
    if g > 0 {
      TeamPartsAt(read, rows[1..], g - 1);
      assert rows[1..][g - 1] == rows[g];
    }
  }

  /** Every part holds at most one element. */
  predicate Singletons<T>(parts: seq<seq<T>>) {
    forall g :: 0 <= g < |parts| ==> |parts[g]| <= 1
  }

  lemma TeamPartsSingletons(read: RowReader, rows: seq<seq<string>>)
    requires ReadsRows(read) && AllRows(rows)
    ensures Singletons(TeamParts(read, rows))
  {
    forall g | 0 <= g < |rows|
      ensures |TeamParts(read, rows)[g]| <= 1
    {
      TeamPartsAt(read, rows, g);
      ChunkTeamsMeans(read, rows[g]);
    }
  }

  /** The index of the part that element `i` of the flattened parts comes
      from. */
  function PartOf<T>(parts: seq<seq<T>>, i: nat): nat
    requires i < |Flatten(parts)|
  {
    assert Flatten(parts) == parts[0] + Flatten(parts[1..]);
    if i < |parts[0]| then 0 else 1 + PartOf(parts[1..], i - |parts[0]|)
  }

  lemma {:induction false} PartOfSpec<T>(parts: seq<seq<T>>, i: nat)
    requires i < |Flatten(parts)|
    ensures PartOf(parts, i) < |parts|
    ensures Flatten(parts)[i] in parts[PartOf(parts, i)]
  {
    assert Flatten(parts) == parts[0] + Flatten(parts[1..]);
    if i >= |parts[0]| {
      PartOfSpec(parts[1..], i - |parts[0]|);
    }
  }

  /** When no part holds two elements, later elements come from later
      parts. */
  lemma {:induction false} PartOfIncreasing<T>(parts: seq<seq<T>>, i: nat, j: nat)
    requires Singletons(parts) && i < j < |Flatten(parts)|
    ensures PartOf(parts, i) < PartOf(parts, j)
  {
    var head := parts[0];
    assert Flatten(parts) == head + Flatten(parts[1..]);
    assert |head| <= 1;
    if i >= |head| {
      PartOfIncreasing(parts[1..], i - |head|, j - |head|);
    }
  }

  /** The index of the row of accepted cells that team `i` was read from. */
  function TeamRow(read: RowReader, lines: seq<string>, i: nat): nat
    requires ReadsRows(read) && i < |ParseWith(read, lines).teams|
  {
    var rows := Rows(Accepted(lines));
    TeamsOfParts(read, rows);
    PartOf(TeamParts(read, rows), i)
  }

  /** Team `i` is what its row reads as. */
  lemma TeamRowReads(read: RowReader, lines: seq<string>, i: nat)
    requires ReadsRows(read) && i < |ParseWith(read, lines).teams|
    ensures TeamRow(read, lines, i) < |Rows(Accepted(lines))|
    ensures read(Rows(Accepted(lines))[TeamRow(read, lines, i)]) == Success(ParseWith(read, lines).teams[i])
  {
    var rows := Rows(Accepted(lines));
    var parts := TeamParts(read, rows);
    TeamsOfParts(read, rows);
    PartOfSpec(parts, i);
    var g := PartOf(parts, i);
    TeamPartsAt(read, rows, g);
    ChunkTeamsMeans(read, rows[g]);
  }

  /** Every team `parse_team_data` returns is a whole row of accepted cells
      read positionally. */
  lemma TeamOrigin(lines: seq<string>, i: nat)
    requires i < |ParseTeams(lines)|
    ensures TeamRow(ParseChunk, lines, i) < |Rows(Accepted(lines))|
    ensures Decoded(Rows(Accepted(lines))[TeamRow(ParseChunk, lines, i)], ParseTeams(lines)[i])
  {
    TeamRowReads(ParseChunk, lines, i);
    ParseChunkSpec(Rows(Accepted(lines))[TeamRow(ParseChunk, lines, i)]);
  }

  /** Teams appear in the order of the rows they are read from. */
  lemma TeamsInRowOrder(read: RowReader, lines: seq<string>, i: nat, j: nat)
    requires ReadsRows(read) && i < j < |ParseWith(read, lines).teams|
    ensures TeamRow(read, lines, i) < TeamRow(read, lines, j)
  {
    var rows := Rows(Accepted(lines));
    TeamsOfParts(read, rows);
    TeamPartsSingletons(read, rows);
    PartOfIncreasing(TeamParts(read, rows), i, j);
  }

  lemma {:induction false} RowsPrefix(c: seq<string>, d: seq<string>)
    ensures Rows(c) <= Rows(c + d)
    decreases |c|
  {
    if |c| >= RowWidth {
      assert (c + d)[..RowWidth] == c[..RowWidth];
      assert (c + d)[RowWidth..] == c[RowWidth..] + d;
      RowsPrefix(c[RowWidth..], d);
    }
  }

  lemma TeamsOfPrefix(read: RowReader, r1: seq<seq<string>>, r2: seq<seq<string>>)
    requires ReadsRows(read) && AllRows(r2) && r1 <= r2
    ensures AllRows(r1)
    ensures TeamsOf(read, r1) <= TeamsOf(read, r2) && FailuresOf(read, r1) <= FailuresOf(read, r2)
  {
    assert r2 == r1 + r2[|r1|..];
    RowsOfAppend(read, r1, r2[|r1|..]);
  }

  /** Reading more input only appends: the teams and diagnostics of a prefix
      of the input are a prefix of those of the whole input. */
  lemma TeamsInInputOrder(read: RowReader, a: seq<string>, b: seq<string>)
    requires ReadsRows(read)
    ensures ParseWith(read, a).teams <= ParseWith(read, a + b).teams
    ensures ParseWith(read, a).failures <= ParseWith(read, a + b).failures
  {
    AcceptedAppend(a, b);
    RowsPrefix(Accepted(a), Accepted(b));
    TeamsOfPrefix(read, Rows(Accepted(a)), Rows(Accepted(a) + Accepted(b)));
  }
}
