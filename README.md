# Results updater: the score merge, verified

The results updater copies finished Premier League results from a sports-data
service into a prediction spreadsheet. Its only logic is the reconciliation
step in `updateResults.py`:

- `format_team_names` rewrites the service's team short names into the
  spreadsheet's spellings with a fixed, case-sensitive table of seven entries;
  every other name passes through unchanged.
- `update_scores` walks the sheet rows. For each row that holds exactly a team
  pair (two cells), it scans every fetched result in order. A result matches
  when its normalised home and away names equal the row's two cells. For each
  match, the cell `"<home>-<away>"` built from the full-time score is appended
  to the row. The caller's list is changed in place and the same list is
  returned.

The model is one Dafny module, `UpdateResults` in `update_results.dfy`:

- `FormatTeamName` is the substitution chain as a function. Its contract ties
  it to `Renames`, the same table written as a map.
- `NatToString` is Python's `str()` on a non-negative integer. `DigitsValue`
  reads it back.
- `ScoresFor`, `UpdatedRow` and `UpdatedTable` specify the merge on values.
- `UpdateScores` is the merge as a method. It uses nested loops over an
  `array<seq<string>>`, changes the array in place and returns that same array.
  Its postcondition equates the new contents with `UpdatedTable` of the old ones.

The inner loop (`updateResults.py:105-109`) has no `break`, so the merge is
not first-match-wins: a pair row gets one cell per matching result, in result
order. `ScoresForCount` proves the count and `ExampleEveryMatchAppends` shows
two cells being appended.

## Model

| member | source | states |
|---|---|---|
| UpdateResults.FormatTeamName | updateResults.py:82-98 | a name in the seven-entry table maps to its target (e.g. "Tottenham" to "Spurs", "Man United" to "Man Utd"); any other name is returned unchanged |
| UpdateResults.RenamesTargetsAreNotKeys | updateResults.py:83-96 | no target spelling of the table is itself a key of the table |
| UpdateResults.FormatTeamNameIdempotent | updateResults.py:82-98 | normalising a name twice gives the same as normalising it once |
| UpdateResults.NatToString | updateResults.py:108 | `str()` of a score is a non-empty string of decimal digits with no leading zero |
| UpdateResults.NatToStringValue | updateResults.py:108 | the decimal value of the rendered digits is the score itself |
| UpdateResults.NatToStringInjective | updateResults.py:108 | different scores render to different strings |
| UpdateResults.ScoreStringDecodes | updateResults.py:108 | the appended cell has exactly one dash, with the home score's digits before it and the away score's after it |
| UpdateResults.ScoresForSingle | updateResults.py:106-109 | one result adds its score cell when its normalised home and away names equal the row's first two cells, and nothing otherwise |
| UpdateResults.ScoresForConcat | updateResults.py:105-109 | scanning results in order: the cells from a list of results are the cells from its first part followed by the cells from the rest |
| UpdateResults.ScoresForEmptyIff | updateResults.py:105-109 | a pair row gains no cell if and only if no result matches it |
| UpdateResults.ScoresForSound | updateResults.py:105-109 | every gained cell is the score string of some matching result |
| UpdateResults.ScoresForComplete | updateResults.py:105-109 | the score string of every matching result is among the gained cells |
| UpdateResults.ScoresForCount | updateResults.py:105-109 | a pair row gains exactly as many cells as there are matching results, so the scan does not stop at the first match |
| UpdateResults.UpdatedRowSkips | updateResults.py:104 | a row whose length is not 2 is left exactly as it was |
| UpdateResults.UpdatedRowShape | updateResults.py:104-109 | a pair row keeps its two names and is extended by exactly the matching results' score cells; it is unchanged if and only if no result matches |
| UpdateResults.UpdatedRowIdempotent | updateResults.py:104-109 | merging the same results into an already merged row changes nothing |
| UpdateResults.UpdatedTableRows | updateResults.py:102-103 | the merge keeps the number and order of rows and updates each row on its own |
| UpdateResults.UpdatedTableIdempotent | updateResults.py:101-110 | running the merge a second time with the same results leaves the whole table unchanged |
| UpdateResults.UpdateScores | updateResults.py:101-110 | updates the given array in place and returns the same array; its new contents are `UpdatedTable` of its old contents |
| UpdateResults.ExampleMatchFilled | updateResults.py:104-109 | Arsenal 2-1 Chelsea turns the row Arsenal/Chelsea into Arsenal/Chelsea/"2-1" |
| UpdateResults.ExampleRenamedTeamMatches | updateResults.py:93-96 | a result for "Tottenham" v "Wolverhampton" fills the row spelt "Spurs"/"Wolves" |
| UpdateResults.ExampleEveryMatchAppends | updateResults.py:105-109 | two results for the same pair append two cells, in result order |

## Left out

- `get_results` (updateResults.py:14-24): the HTTP request to the results service is I/O; its results become the `results` parameter of `UpdateScores`.
- `generate_football_data_credentials`, `generate_google_credentials`, `get_results_file` (updateResults.py:27-41, 73-78): reading and parsing credential and fixture files is I/O.
- `get_sheets_results`, `post_updated_results` (updateResults.py:44-69): the spreadsheet client calls are I/O; the rows read become the `matches` array. The missing credential argument at updateResults.py:62 is in that I/O code and is not modelled.
- Logging and the command-line entry point (updateResults.py:11, 113-128): configuration and orchestration only.
- The nested dictionary lookups of a result (`result["homeTeam"]["shortName"]`, `result["score"]["fullTime"]["home"]`): a result is a `MatchResult` record, so a missing key (a Python `KeyError`) is not modelled.
- Scores are `nat`: the service is asked for finished matches only, so Python's `str(None)` of an absent score is not modelled.
- UpdateScores: each row is a value stored in an array slot. Two slots that share one Python list object (row aliasing) are not modelled; the outer list's aliasing is, since the method returns the array it was given.
