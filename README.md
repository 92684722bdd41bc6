# NHL standings scraper: the parser, verified

This project models the core of the NHL standings scraper in `nhl_data.py`.
The scraper downloads a standings page and collects every text node of its
table. It drops header labels and blank strings. It strips the remaining
cells and groups them in rows of eleven. Each row is read positionally into
an `NHLTeam`, and the teams are keyed by name in a dictionary.

The model has one module per layer:

- `Text` (`text.dfy`) holds the Python built-ins the parser relies on: `str.strip` (with the
  `str.isspace` character set), `str.split` on one character, the substring
  test `in`, and `int` on a string (the whitespace `int` skips, an optional
  `+` or `-`, one to 4300 ASCII digits).
- `TeamRecords` (`team_record.dfy`) is `TeamRecord.from_string`, which turns a
  "W-L-OT" cell into a record. `None` stands for the `ValueError` the source raises.
- `Parser` (`parser.dfy`) is `parse_team_data`. `Parse` is the specification:
  the accepted cells (`Accepted`) cut into consecutive rows of eleven from the
  front (`Rows`), with the partial row at the end kept as the buffer
  (`Leftover`). Each row is read by `ParseChunk`, which reads the cells in the
  order of lines 53-63 and reports the index of the first cell that does not
  read. The method `ParseTeamData` is the source's loop, proved to return
  exactly `Parse(lines).teams`. The row-cutting lemmas take the row reader as
  a parameter (`ParseWith(read, lines)`, with `Parse` = `ParseWith(ParseChunk, …)`).
  They hold for any reader, so they cannot depend on how a cell is read.
- `ParserProperties` (`parser_props.dfy`) holds what the parser promises about
  filtering, buffering, skipping and order.
- `Standings` (`standings.dfy`) is the end of `stats()`. Every table string is
  stripped, the strings are parsed, and the teams are folded into a map from
  name to statistics, where a later team overwrites an earlier one of the
  same name.
- `Rendering` (`render.dfy`) writes a list of teams back as the table cells
  the standings page shows. It states that parsing such a table gives the
  teams back, and it works one concrete row (Boston, 41-31-10) end to end.

`Results` (`results.dfy`) holds the `Option` and `Result` types that replace
exceptions.

Line 39 drops only the one string that contains a header marker, even a
team name containing `GA`. The cells after it still fill the buffer and
shift into the wrong columns; `ParserProperties.NoiseIgnored` states this.

## Model

| member | source | states |
|---|---|---|
| Results.Need | nhl_data.py:52-79 | a missing value becomes a failure carrying the given field index, a present one is passed through |
| Text.TrimStartShape | nhl_data.py:15 | the left trim removes exactly a leading run of whitespace and stops at a non-space |
| Text.TrimEndShape | nhl_data.py:15 | the right trim removes exactly a trailing run of whitespace and stops at a non-space |
| Text.StripShape | nhl_data.py:43 | `strip` returns a trimmed slice of the input with only whitespace cut on either side |
| Text.TrimStartPadded | nhl_data.py:15 | whitespace before a cell that starts with a non-space is removed and nothing more |
| Text.TrimEndPadded | nhl_data.py:15 | whitespace after a cell that ends with a non-space is removed and nothing more |
| Text.StripPadded | nhl_data.py:15 | stripping a trimmed text padded with whitespace gives the text back |
| Text.StripTrimmed | nhl_data.py:43 | stripping a trimmed text changes nothing |
| Text.StripIdempotent | nhl_data.py:98 | stripping twice is stripping once |
| Text.ContainsOccurs | nhl_data.py:39 | the substring test `in` holds exactly when the marker occurs at some position |
| Text.OccursShift | nhl_data.py:39 | an occurrence inside a text is still an occurrence after padding the text |
| Text.OccursInside | nhl_data.py:39 | an occurrence of a whitespace-free marker in a padded text lies inside the unpadded text |
| Text.ContainsPadded | nhl_data.py:39 | whitespace padding does not change whether a whitespace-free marker occurs |
| Text.ContainsStrip | nhl_data.py:39 | a whitespace-free marker occurs in the stripped string exactly when it occurs in the original |
| Text.SplitShape | nhl_data.py:16 | `split('-')` gives dash-free pieces that join back to the input |
| Text.SplitCount | nhl_data.py:16 | `split('-')` gives one more piece than there are dashes |
| Text.SplitPrefix | nhl_data.py:16 | a dash-free prefix is glued to the first piece of the rest |
| Text.SplitJoin | nhl_data.py:16 | splitting dash-free pieces joined by dashes gives the pieces back |
| Text.ParseIntUnsigned | nhl_data.py:16 | `int` of a text with no minus sign is never negative |
| Text.ParseIntPadded | nhl_data.py:55-58 | an optional sign and one to 4300 digits, with only the whitespace `int` skips around them (not U+001C..U+001F), read as their signed value |
| Text.ParseIntSound | nhl_data.py:55-58 | conversely, every text `int` reads is an optional sign and one to 4300 digits with only the whitespace `int` skips around them, and reads as their signed value |
| Text.ParseIntToString | nhl_data.py:55-58 | `int` reads back the decimal text of any integer of at most 4300 digits, with the whitespace `int` skips around it |
| TeamRecords.FromStringNonNegative | nhl_data.py:13-17 | every record read is non-negative and its stripped text has exactly two dashes |
| TeamRecords.FromStringSound | nhl_data.py:13-17 | a record read comes from a stripped text "a-b-c" with integer pieces, mapped to wins, losses and overtime losses in that order |
| TeamRecords.FromStringComplete | nhl_data.py:13-17 | a stripped text "a-b-c" reads exactly when all three pieces are integers, and then positionally |
| TeamRecords.ParseNatToString | nhl_data.py:16 | `int` reads back the text of a natural number, which holds no dash |
| TeamRecords.RecordTextShape | nhl_data.py:13-17 | the canonical "W-L-OT" text is trimmed and made of three integer pieces |
| TeamRecords.FromStringRoundTrip | nhl_data.py:13-17 | reading the "W-L-OT" text of a record with no negative count and no count over 4300 digits, whitespace around it included, gives the record back |
| TeamRecords.FromStringWrongArity | nhl_data.py:16 | a stripped text without exactly two dashes is rejected |
| TeamRecords.FromStringRejectsTwoPieces | nhl_data.py:16 | "41-31" is rejected |
| TeamRecords.FromStringRejectsFourPieces | nhl_data.py:16 | "41-31-10-5" is rejected |
| TeamRecords.FromStringRejectsNonNumeric | nhl_data.py:16 | "x-1-2" is rejected |
| TeamRecords.FromStringRejectsEmpty | nhl_data.py:15-16 | the empty string is rejected |
| TeamRecords.FromStringRejectsSeparator | nhl_data.py:15-16 | "41\x1c-31-10" is rejected: `strip` keeps the inner U+001C and `int` does not skip it |
| TeamRecords.FromStringExample | nhl_data.py:13-17 | "41-31-10" reads as 41 wins, 31 losses and 10 overtime losses |
| Parser.AssembleSpec | nhl_data.py:52-81 | a row is built exactly when every cell reads, from the cells in positional order; otherwise the failure names the first cell that does not read |
| Parser.ParseChunkSpec | nhl_data.py:52-81 | a row of eleven strings reads into a team decoded positionally from its cells, or fails at the first bad cell, which is never the name |
| Parser.ParseChunkReadsRows | nhl_data.py:51-52 | the row reader is defined on every row of eleven cells |
| Parser.Rows | nhl_data.py:50-51 | every row cut from the cells has exactly eleven cells |
| Parser.Leftover | nhl_data.py:50-51 | the partial row left at the end holds fewer than eleven cells |
| Parser.ParseTeamData | nhl_data.py:33-85 | the loop returns exactly the teams of the specification and reports exactly its bad rows |
| Parser.AcceptedAppend | nhl_data.py:37-48 | the accepted cells of two token lists, concatenated, are the accepted cells of each in order |
| Parser.RowsSnoc | nhl_data.py:48-83 | one more cell either completes a row and empties the buffer, or is added to the buffer |
| Parser.RowsAppend | nhl_data.py:48-83 | after whole rows, the cells that follow are cut as if on their own |
| Parser.RowsCover | nhl_data.py:48-83 | the rows followed by the partial row are exactly the accepted cells |
| Parser.RowsOfAppend | nhl_data.py:78-83 | the teams and failures of two row lists are those of each in order |
| Parser.RowsOfSnoc | nhl_data.py:78-83 | one more row adds its team or its failure at the end |
| Parser.ParseStep | nhl_data.py:37-83 | parsing one more string is one step of the loop body on the state so far |
| Parser.RunIsParse | nhl_data.py:37-83 | running the loop body over every string gives the specification's state |
| ParserProperties.AcceptMeans | nhl_data.py:39-48 | a string is buffered exactly when it holds no header marker and is not blank after stripping, and then in stripped form |
| ParserProperties.AcceptedOrigin | nhl_data.py:37-48 | every buffered cell is the stripped form of some input string |
| ParserProperties.NoiseIgnored | nhl_data.py:39-45 | a header or blank string anywhere in the input changes nothing, as if absent |
| ParserProperties.AcceptedAll | nhl_data.py:39-48 | strings that are all accepted unchanged are buffered as they are |
| ParserProperties.ParseCompose | nhl_data.py:48-83 | after an empty buffer the rest of the input is parsed on its own and its teams and failures follow |
| ParserProperties.OneRow | nhl_data.py:37-83 | strings with exactly eleven accepted cells give one team or one failure for those cells and leave the buffer empty |
| ParserProperties.TeamsOfAllRead | nhl_data.py:78 | rows that all read give exactly their teams, in order, and no failures |
| ParserProperties.BadRowSkipped | nhl_data.py:37-83 | strings whose eleven accepted cells fail to read, headers and blanks among them included, are skipped as if absent and the failure of those cells is reported in their place |
| ParserProperties.PartialRowDropped | nhl_data.py:50-85 | fewer than eleven cells at the end add no team and no failure and stay in the buffer |
| ParserProperties.TeamsOfCount | nhl_data.py:78-83 | every complete row gives exactly one team or one failure |
| ParserProperties.FlattenLength | nhl_data.py:50-51 | the rows together hold eleven cells each |
| ParserProperties.RowCount | nhl_data.py:50-83 | teams plus failures equal the number of complete rows; the rows then the buffer are the accepted cells; the buffer holds at most ten |
| ParserProperties.TeamsBound | nhl_data.py:50-51 | eleven times the number of teams is at most the number of accepted cells |
| ParserProperties.CellStep | nhl_data.py:39-83 | a rejected string leaves the state unchanged; an accepted one is added to the buffer, and the eleventh empties the buffer and adds exactly one team or failure after the old ones |
| ParserProperties.RowsAt | nhl_data.py:50-53 | row g is the accepted cells 11g to 11g+10 |
| ParserProperties.ChunkTeamsMeans | nhl_data.py:78 | a row gives at most one team, the one it reads to |
| ParserProperties.TeamsOfParts | nhl_data.py:78 | the teams are the per-row teams in row order |
| ParserProperties.TeamPartsAt | nhl_data.py:78 | the teams of row g are those it reads to |
| ParserProperties.TeamPartsSingletons | nhl_data.py:78 | each row gives at most one team |
| ParserProperties.PartOfSpec | nhl_data.py:78 | each team lies in the row part that PartOf names |
| ParserProperties.PartOfIncreasing | nhl_data.py:78 | with at most one team per row, later teams come from later rows |
| ParserProperties.TeamRowReads | nhl_data.py:50-78 | team i is what its complete row reads to |
| ParserProperties.TeamOrigin | nhl_data.py:52-78 | team i is decoded positionally from eleven consecutive accepted cells |
| ParserProperties.TeamsInRowOrder | nhl_data.py:37-78 | a later team comes from a later row |
| ParserProperties.RowsPrefix | nhl_data.py:37-83 | more cells never change the rows already cut |
| ParserProperties.TeamsOfPrefix | nhl_data.py:78-83 | the teams of a prefix of the rows are a prefix of the teams |
| ParserProperties.TeamsInInputOrder | nhl_data.py:37-85 | the teams and failures of a prefix of the input are a prefix of those of the whole input |
| Rendering.FirstNotIn | nhl_data.py:39 | a marker whose first letter is absent does not occur |
| Rendering.NumericNotHeader | nhl_data.py:39 | a numeric or record cell is never taken for a header |
| Rendering.IntPlain | nhl_data.py:39-45 | a number's text is kept unchanged by the filter |
| Rendering.IntCell | nhl_data.py:55-58 | `int` reads a number's text back |
| Rendering.RecordPlain | nhl_data.py:54 | a record's text is kept unchanged by the filter |
| Rendering.RecordCell | nhl_data.py:54 | `from_string` reads a record's text back |
| Rendering.PlainAccepted | nhl_data.py:39-48 | a trimmed, non-blank string with no marker is accepted as it is |
| Rendering.FormatRowPlain | nhl_data.py:39-48 | every cell written for a team passes the filter unchanged |
| Rendering.FormatRowReads | nhl_data.py:52-78 | the eleven cells written for a team read back to that team |
| Rendering.RenderPlain | nhl_data.py:39-48 | every cell of a written table passes the filter unchanged |
| Rendering.RenderCut | nhl_data.py:50-83 | a written table is cut back into the rows written, with nothing left over |
| Rendering.RenderRowsRead | nhl_data.py:52-78 | every written row reads back to its team |
| Rendering.RenderRoundTrip | nhl_data.py:33-85 | parsing the table written for teams gives the teams back, with no failure and an empty buffer |
| Rendering.BostonWellFormed | nhl_data.py:39 | the example team is written with a name no marker hits |
| Rendering.BostonFormat | nhl_data.py:52-78 | the example team is written as the example row |
| Rendering.BostonReads | nhl_data.py:33-85 | the example row parses to the example team |
| Rendering.GFIsHeader | nhl_data.py:39 | "GF" is a header label |
| Rendering.BostonExample | nhl_data.py:33-85 | the example row followed by a header label parses to the example team alone |
| Standings.BuildStandings | nhl_data.py:104-119 | the loop builds the dictionary of the specification fold |
| Standings.StandingsKeys | nhl_data.py:107-108 | the keys are exactly the names of the teams |
| Standings.StandingsLastWins | nhl_data.py:107-119 | each name maps to the statistics of its last team |
| Standings.StandingsDistinct | nhl_data.py:107-119 | with distinct names there is one entry per team |
| Standings.MarkersPlain | nhl_data.py:39 | every header marker is non-empty and free of whitespace |
| Standings.AcceptStripped | nhl_data.py:96-98 | the filter gives the same verdict and cell for a string and its stripped form |
| Standings.PreStripHarmless | nhl_data.py:96-101 | stripping before parsing leaves the accepted cells unchanged |
| Standings.Stats | nhl_data.py:96-120 | the dictionary is the fold of the teams parsed from the table strings |

## Left out

- The download and HTML parsing of `stats()` (lines 90-95): `Standings.Stats` takes the table's strings as a parameter.
- The two `print` calls of the `except` branch (lines 80-81) are not modelled as output. Instead `Parser.ParseTeamData` returns the bad rows as a sequence of `ChunkFailure`. Each entry carries the index of the first cell that fails, not the exception's text.
- The catch-all `except Exception` (line 79): in this model only `int` and `from_string` can fail, so only their failures are caught.
- `Text.ParseInt`: only ASCII digits with an optional `+` or `-` are read. Python's `int` also accepts `_` between digits and non-ASCII decimal digits. A standings cell holds neither. The 4300-digit limit is the default of Python 3.11 and later; it is modelled as a constant, not as the setting `sys.set_int_max_str_digits` can change.
- `Text.IsSpace` is the fixed set of characters for which `str.isspace` holds. There is no Unicode database behind it.
- `Standings.Standings`: a Dafny `map` has no order, so the insertion order of the Python dict is not modelled. Its keys and values are.
- `Standings.TeamStats`: the dictionary value is a datatype with one field per key of lines 109-118, not a string-keyed dict.
- `Rendering.RenderRoundTrip` holds for teams whose six records are non-negative, whose numbers have at most 4300 digits, and whose names are trimmed, non-blank and hit no header marker (`WellFormedTeam`). For other teams the page could not produce a table that reads back.
- The `Rendering` module is not part of `nhl_data.py`. It writes the table as the page shows it, so that the round trip can be stated.
