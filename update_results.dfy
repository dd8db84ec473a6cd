/**
 * The reconciliation step of the results updater: fetched match results are
 * matched against spreadsheet rows by (normalised) team names, and the
 * full-time score of every matching result is appended to the row.
 */
module UpdateResults {

  /** One spreadsheet row: a list of cell strings. */
  type Row = seq<string>

  /** A finished match as fetched from the results service (only the fields the merge reads). */
  datatype MatchResult = MatchResult(
    homeShortName: string,
    awayShortName: string,
    homeScore: nat,
    awayScore: nat)

  // ---------------------------------------------------------------------------
  // Team-name normalisation
  // ---------------------------------------------------------------------------

  /** The renaming table: results-service spelling to spreadsheet spelling. */
  const Renames: map<string, string> := map[
    "Brighton Hove" := "Brighton",
    "Leeds United" := "Leeds",
    "Leicester City" := "Leicester",
    "Man United" := "Man Utd",
    "Nottingham" := "Nottingham Forest",
    "Tottenham" := "Spurs",
    "Wolverhampton" := "Wolves"
  ]

  /** Maps a results-service team name to the spreadsheet's spelling; exact, case-sensitive. */
  function FormatTeamName(origName: string): (r: string)
    ensures origName in Renames ==> r == Renames[origName]
    ensures origName !in Renames ==> r == origName
  {
    if origName == "Brighton Hove" then "Brighton"
    else if origName == "Leeds United" then "Leeds"
    else if origName == "Leicester City" then "Leicester"
    else if origName == "Man United" then "Man Utd"
    else if origName == "Nottingham" then "Nottingham Forest"
    else if origName == "Tottenham" then "Spurs"
    else if origName == "Wolverhampton" then "Wolves"
    else origName
  }

  /** No target spelling is itself renamed. */
  lemma RenamesTargetsAreNotKeys()
    ensures forall k :: k in Renames ==> Renames[k] !in Renames
  {
  }

  /** Normalising an already normalised name changes nothing. */
  lemma FormatTeamNameIdempotent(name: string)
    ensures FormatTeamName(FormatTeamName(name)) == FormatTeamName(name)
  {
  }

  // ---------------------------------------------------------------------------
  // Score strings
  // ---------------------------------------------------------------------------

  predicate IsDigit(c: char) { '0' <= c <= '9' }

  predicate IsDigits(s: string) { forall i :: 0 <= i < |s| ==> IsDigit(s[i]) }

  function DigitChar(d: nat): (c: char)
    requires d < 10
    ensures IsDigit(c) && c as int - '0' as int == d
  {
    ('0' as int + d) as char
  }

  /** The decimal value of a string of digits, read most significant digit first. */
  function DigitsValue(s: string): (v: nat)
    requires IsDigits(s)
  {
    if s == [] then 0
    else 10 * DigitsValue(s[..|s| - 1]) + (s[|s| - 1] as int - '0' as int)
  }

  /** The decimal rendering of a natural number, as Python's str() gives it. */
  function NatToString(n: nat): (s: string)
    ensures |s| >= 1 && IsDigits(s)
    ensures s[0] == '0' ==> s == "0"
    decreases n
  {
    if n < 10 then [DigitChar(n)]
    else NatToString(n / 10) + [DigitChar(n % 10)]
  }

  /** Reading back a rendered number gives the number. */
  lemma {:induction false} NatToStringValue(n: nat)
    ensures DigitsValue(NatToString(n)) == n
    decreases n
  {
    var s := NatToString(n);
    if n >= 10 {
      NatToStringValue(n / 10);
      assert s[..|s| - 1] == NatToString(n / 10);
    }
  }

  /** Distinct numbers render to distinct strings. */
  lemma NatToStringInjective(m: nat, n: nat)
    requires NatToString(m) == NatToString(n)
    ensures m == n
  {
    NatToStringValue(m);
    NatToStringValue(n);
  }

  /** The cell written for a result: "<home>-<away>" from the full-time score. */
  function ScoreString(r: MatchResult): (cell: string)
  {
    NatToString(r.homeScore) + "-" + NatToString(r.awayScore)
  }

  /** A score cell holds exactly one dash, and the digits on either side are the two scores. */
  lemma ScoreStringDecodes(r: MatchResult)
    ensures var s := ScoreString(r);
      var k := |NatToString(r.homeScore)|;
      0 < k < |s| - 1 && s[k] == '-' &&
      (forall i :: 0 <= i < |s| && i != k ==> s[i] != '-') &&
      IsDigits(s[..k]) && DigitsValue(s[..k]) == r.homeScore &&
      IsDigits(s[k + 1..]) && DigitsValue(s[k + 1..]) == r.awayScore
  {
    var h, a := NatToString(r.homeScore), NatToString(r.awayScore);
    var s := ScoreString(r);
    var k := |h|;
    assert s[..k] == h;
    assert s[k + 1..] == a;
    forall i | 0 <= i < |s| && i != k
      ensures s[i] != '-'
    {
      if i < k { assert s[i] == h[i]; } else { assert s[i] == a[i - k - 1]; }
    }
    NatToStringValue(r.homeScore);
    NatToStringValue(r.awayScore);
  }

  // ---------------------------------------------------------------------------
  // Row matching and the merge
  // ---------------------------------------------------------------------------

  /** A result matches a row when its normalised team names equal the row's first two cells. */
  predicate Matches(row: Row, r: MatchResult)
    requires |row| >= 2
  {
    row[0] == FormatTeamName(r.homeShortName) && row[1] == FormatTeamName(r.awayShortName)
  }

  /** The score cells a row gains from scanning `results` in order: one per matching result. */
  function ScoresFor(row: Row, results: seq<MatchResult>): (cells: seq<string>)
    requires |row| >= 2
  {
    if results == [] then []
    else
      var last := results[|results| - 1];
      ScoresFor(row, results[..|results| - 1]) + (if Matches(row, last) then [ScoreString(last)] else [])
  }

  /** A row after the merge: only a row of exactly two cells is extended. */
  function UpdatedRow(row: Row, results: seq<MatchResult>): (updated: Row)
  {
    if |row| == 2 then row + ScoresFor(row, results) else row
  }

  /** The whole table after the merge, row by row. */
  function UpdatedTable(rows: seq<Row>, results: seq<MatchResult>): (updated: seq<Row>)
  {
    seq(|rows|, i requires 0 <= i < |rows| => UpdatedRow(rows[i], results))
  }

  /** Scanning two batches of results in turn gives the cells of each batch, in order. */
  lemma {:induction false} ScoresForConcat(row: Row, xs: seq<MatchResult>, ys: seq<MatchResult>)
    requires |row| >= 2
    ensures ScoresFor(row, xs + ys) == ScoresFor(row, xs) + ScoresFor(row, ys)
    decreases |ys|
  {
    if ys == [] {
      assert xs + ys == xs;
    } else {
      var ys' := ys[..|ys| - 1];
      assert (xs + ys)[..|xs + ys| - 1] == xs + ys';
      ScoresForConcat(row, xs, ys');
    }
  }

  /** Scanning one more result of a list extends the cells by that result's contribution. */
  lemma ScoresForStep(row: Row, results: seq<MatchResult>, j: nat)
    requires |row| >= 2 && j < |results|
    ensures ScoresFor(row, results[..j + 1])
            == ScoresFor(row, results[..j]) + (if Matches(row, results[j]) then [ScoreString(results[j])] else [])
  {
    assert results[..j + 1][..j] == results[..j];
  }

  /** A single result contributes its score exactly when it matches. */
  lemma ScoresForSingle(row: Row, r: MatchResult)
    requires |row| >= 2
    ensures ScoresFor(row, [r]) == if Matches(row, r) then [ScoreString(r)] else []
  {
  }

  /** The positions of the results that match a row. */
  function MatchingIndices(row: Row, results: seq<MatchResult>): (js: set<nat>)
    requires |row| >= 2
  {
    set j: nat | j < |results| && Matches(row, results[j])
  }

  /** Extending the results by one adds its position exactly when it matches. */
  lemma MatchingIndicesSnoc(row: Row, results: seq<MatchResult>)
    requires |row| >= 2 && |results| > 0
    ensures var n := |results| - 1;
      MatchingIndices(row, results)
      == MatchingIndices(row, results[..n]) + (if Matches(row, results[n]) then {n} else {})
  {
    var n := |results| - 1;
    var init := results[..n];
    forall j: nat | j < n
      ensures (j in MatchingIndices(row, init)) == (j in MatchingIndices(row, results))
    {
      assert init[j] == results[j];
    }
  }

  /** A row gains exactly as many cells as there are matching results: the scan never stops early. */
  lemma {:induction false} ScoresForCount(row: Row, results: seq<MatchResult>)
    requires |row| >= 2
    ensures |ScoresFor(row, results)| == |MatchingIndices(row, results)|
  {
    if results != [] {
      var n := |results| - 1;
      ScoresForCount(row, results[..n]);
      MatchingIndicesSnoc(row, results);
      assert n !in MatchingIndices(row, results[..n]);
    }
  }

  /** A row gains no cell exactly when no result matches it. */
  lemma {:induction false} ScoresForEmptyIff(row: Row, results: seq<MatchResult>)
    requires |row| >= 2
    ensures ScoresFor(row, results) == [] <==> forall j :: 0 <= j < |results| ==> !Matches(row, results[j])
  {
    if results != [] {
      var init := results[..|results| - 1];
      ScoresForEmptyIff(row, init);
      assert forall j :: 0 <= j < |init| ==> init[j] == results[j];
    }
  }

  /** Every cell a row gains is the score of some matching result. */
  lemma {:induction false} ScoresForSound(row: Row, results: seq<MatchResult>, c: nat)
    requires |row| >= 2
    requires c < |ScoresFor(row, results)|
    ensures exists j :: 0 <= j < |results| && Matches(row, results[j]) &&
                        ScoresFor(row, results)[c] == ScoreString(results[j])
  {
    var init := results[..|results| - 1];
    var last := results[|results| - 1];
    if c < |ScoresFor(row, init)| {
      ScoresForSound(row, init, c);
      var j :| 0 <= j < |init| && Matches(row, init[j]) && ScoresFor(row, init)[c] == ScoreString(init[j]);
      assert results[j] == init[j];
    } else {
      assert Matches(row, last);
    }
  }

  /** The score of every matching result is among the cells the row gains. */
  lemma ScoresForComplete(row: Row, results: seq<MatchResult>, j: nat)
    requires |row| >= 2
    requires j < |results| && Matches(row, results[j])
    ensures ScoreString(results[j]) in ScoresFor(row, results)
  {
  }

  /** A row that is not exactly a team pair is left as it was. */
  lemma UpdatedRowSkips(row: Row, results: seq<MatchResult>)
    requires |row| != 2
    ensures UpdatedRow(row, results) == row
  {
  }

  /** A team pair keeps its two names and gains exactly the cells of its matching results; none if nothing matches. */
  lemma UpdatedRowShape(row: Row, results: seq<MatchResult>)
    requires |row| == 2
    ensures var u := UpdatedRow(row, results);
      |u| >= 2 && u[..2] == row && u[2..] == ScoresFor(row, results)
    ensures UpdatedRow(row, results) == row <==> forall j :: 0 <= j < |results| ==> !Matches(row, results[j])
  {
    var u := UpdatedRow(row, results);
    assert u[2..] == ScoresFor(row, results);
    ScoresForEmptyIff(row, results);
  }

  /** Merging the same results a second time changes no row. */
  lemma UpdatedRowIdempotent(row: Row, results: seq<MatchResult>)
    ensures UpdatedRow(UpdatedRow(row, results), results) == UpdatedRow(row, results)
  {
    if |row| == 2 {
      if ScoresFor(row, results) == [] {
        assert row + [] == row;
      } else {
        assert |UpdatedRow(row, results)| > 2;
      }
    }
  }

  /** The merge keeps the number and order of rows and changes each row on its own. */
  lemma UpdatedTableRows(rows: seq<Row>, results: seq<MatchResult>)
    ensures |UpdatedTable(rows, results)| == |rows|
    ensures forall i :: 0 <= i < |rows| ==> UpdatedTable(rows, results)[i] == UpdatedRow(rows[i], results)
  {
  }

  /** Merging the same results into the table a second time changes nothing. */
  lemma UpdatedTableIdempotent(rows: seq<Row>, results: seq<MatchResult>)
    ensures UpdatedTable(UpdatedTable(rows, results), results) == UpdatedTable(rows, results)
  {
    var once := UpdatedTable(rows, results);
    forall i | 0 <= i < |rows|
      ensures UpdatedTable(once, results)[i] == once[i]
    {
      UpdatedRowIdempotent(rows[i], results);
    }
  }

  /**
   * Merges `results` into `matches` in place and returns the same array.
   * Every row of exactly two cells gets one score cell per matching result,
   * in result order; the scan does not stop at the first match.
   */
  method UpdateScores(results: seq<MatchResult>, matches: array<Row>) returns (updatedMatches: array<Row>)
    modifies matches
    ensures updatedMatches == matches
    ensures matches[..] == UpdatedTable(old(matches[..]), results)
  {
    updatedMatches := matches;
    for i := 0 to updatedMatches.Length
      invariant forall k :: 0 <= k < i ==> updatedMatches[k] == UpdatedRow(old(matches[k]), results)
      invariant forall k :: i <= k < updatedMatches.Length ==> updatedMatches[k] == old(matches[k])
    {
      if |updatedMatches[i]| == 2 {
        ghost var row := updatedMatches[i];
        for j := 0 to |results|
          invariant updatedMatches[i] == row + ScoresFor(row, results[..j])
          invariant forall k :: 0 <= k < i ==> updatedMatches[k] == UpdatedRow(old(matches[k]), results)
          invariant forall k :: i < k < updatedMatches.Length ==> updatedMatches[k] == old(matches[k])
        {
          var result := results[j];
          ScoresForStep(row, results, j);
          assert updatedMatches[i][..2] == row;
          if updatedMatches[i][0] == FormatTeamName(result.homeShortName)
             && updatedMatches[i][1] == FormatTeamName(result.awayShortName)
          {
            var res := NatToString(result.homeScore) + "-" + NatToString(result.awayScore);
            updatedMatches[i] := updatedMatches[i] + [res];
          }
        }
        assert results[..|results|] == results;
      }
    }
  }

  // ---------------------------------------------------------------------------
  // Worked cases
  // ---------------------------------------------------------------------------

  /** Arsenal 2-1 Chelsea fills in the pair's score. */
  lemma ExampleMatchFilled()
    ensures UpdatedTable([["Arsenal", "Chelsea"]], [MatchResult("Arsenal", "Chelsea", 2, 1)])
            == [["Arsenal", "Chelsea", "2-1"]]
  {
    var rs := [MatchResult("Arsenal", "Chelsea", 2, 1)];
    ScoresForSingle(["Arsenal", "Chelsea"], rs[0]);
    assert NatToString(2) == "2" && NatToString(1) == "1";
    assert FormatTeamName("Arsenal") == "Arsenal" && FormatTeamName("Chelsea") == "Chelsea";
    assert ScoreString(rs[0]) == "2-1";
    assert UpdatedTable([["Arsenal", "Chelsea"]], rs)[0] == ["Arsenal", "Chelsea", "2-1"];
  }

  /** A fetched "Tottenham" result fills in a sheet row spelt "Spurs". */
  lemma ExampleRenamedTeamMatches()
    ensures UpdatedRow(["Spurs", "Wolves"], [MatchResult("Tottenham", "Wolverhampton", 10, 0)])
            == ["Spurs", "Wolves", "10-0"]
  {
    ScoresForSingle(["Spurs", "Wolves"], MatchResult("Tottenham", "Wolverhampton", 10, 0));
    assert NatToString(1) == "1" && NatToString(0) == "0";
    assert NatToString(10) == "10";
    assert ScoreString(MatchResult("Tottenham", "Wolverhampton", 10, 0)) == "10-0";
  }

  /** Two results with the same teams both append a cell: the scan has no early exit. */
  lemma ExampleEveryMatchAppends()
    ensures UpdatedRow(["Fulham", "Burnley"],
                       [MatchResult("Fulham", "Burnley", 1, 0), MatchResult("Fulham", "Burnley", 3, 3)])
            == ["Fulham", "Burnley", "1-0", "3-3"]
  {
    var r1, r2 := MatchResult("Fulham", "Burnley", 1, 0), MatchResult("Fulham", "Burnley", 3, 3);
    ScoresForConcat(["Fulham", "Burnley"], [r1], [r2]);
    assert [r1] + [r2] == [r1, r2];
    ScoresForSingle(["Fulham", "Burnley"], r1);
    ScoresForSingle(["Fulham", "Burnley"], r2);
    assert NatToString(0) == "0" && NatToString(1) == "1" && NatToString(3) == "3";
    assert FormatTeamName("Fulham") == "Fulham" && FormatTeamName("Burnley") == "Burnley";
    assert ScoreString(r1) == "1-0" && ScoreString(r2) == "3-3";
  }
}
