/** The matching step of PureAddFunder.py: each organisation named in the input
    table is matched against the names of a reference sheet, the matched name
    and its funder ID are added, unmatched rows are dropped and the matched name
    becomes the last column. The similarity scorer of `process.extractOne` is a
    parameter: any function giving a score between 0 and 100. */
module AddFunder {
  import opened Common
  import opened Strings
  import opened Frames

  const DefaultThreshold := 90
  const NameColumn := "Name"
  const FunderIdColumn := "RF Funder ID"
  const OrganisationColumn := "Funding organisation(s)"
  const MatchedColumn := "Matched Name"
  const MissingColumnsMessage := "The comparison file must contain 'Name' and 'RF Funder ID' columns."

  /** How well a choice matches a query, from 0 to 100. */
  type Scorer = f: (string, string) -> int | forall q, c :: 0 <= f(q, c) <= 100
    witness (q: string, c: string) => 0

  // ===========================================================================
  // fuzzy_match_name

  /** `process.extractOne(query, choices)`: the best-scoring choice and its score,
      the earliest one among equal scores; `None` when there is no choice. */
  function ExtractOne(query: string, choices: seq<string>, score: Scorer): (r: Option<(string, int)>)
    ensures r.None? <==> choices == []
    ensures r.Some? ==>
      r.value.1 == score(query, r.value.0) &&
      (forall c :: c in choices ==> score(query, c) <= r.value.1) &&
      exists i :: 0 <= i < |choices| && choices[i] == r.value.0 &&
        forall k :: 0 <= k < i ==> score(query, choices[k]) < r.value.1
    decreases |choices|
  {
    if choices == [] then None
    else
      var first := (choices[0], score(query, choices[0]));
      match ExtractOne(query, choices[1..], score)
      case None => Some(first)
      case Some(best) =>
        if first.1 >= best.1 then Some(first)
        else
          ghost var i :| 0 <= i < |choices[1..]| && choices[1..][i] == best.0 &&
            forall k :: 0 <= k < i ==> score(query, choices[1..][k]) < best.1;
          assert choices[i + 1] == best.0;
          Some(best)
  }

  /** `fuzzy_match_name`: the best choice, provided its score reaches the threshold. */
  function FuzzyMatchName(name: string, choices: seq<string>, score: Scorer, threshold: int): (r: Option<string>)
    ensures r.Some? ==> r.value in choices && score(name, r.value) >= threshold
    ensures r.None? ==> forall c :: c in choices ==> score(name, c) < threshold
  {
    match ExtractOne(name, choices, score)
    case None => None
    case Some((matched, s)) => if s >= threshold then Some(matched) else None
  }

  /** A name is matched exactly when some choice scores at least the threshold
      (a score equal to it is enough); the match is such a choice, scoring at
      least as well as every other and better than every earlier one. */
  lemma FuzzyMatchNameMeans(name: string, choices: seq<string>, score: Scorer, threshold: int)
    ensures FuzzyMatchName(name, choices, score, threshold).Some? <==>
      exists c :: c in choices && score(name, c) >= threshold
    ensures choices == [] ==> FuzzyMatchName(name, choices, score, threshold).None?
    ensures FuzzyMatchName(name, choices, score, threshold).Some? ==>
      var m := FuzzyMatchName(name, choices, score, threshold).value;
      m in choices && score(name, m) >= threshold &&
      (forall c :: c in choices ==> score(name, c) <= score(name, m)) &&
      exists i :: 0 <= i < |choices| && choices[i] == m &&
        forall k :: 0 <= k < i ==> score(name, choices[k]) < score(name, m)
  {
    var r := ExtractOne(name, choices, score);
    if r.Some? {
      var i :| 0 <= i < |choices| && choices[i] == r.value.0 &&
        forall k :: 0 <= k < i ==> score(name, choices[k]) < r.value.1;
      assert choices[i] in choices;
    }
  }

  // ===========================================================================
  // The reference sheet

  /** `comparison_df.columns.str.strip()` */
  function StrippedHeaders(t: Frame): (r: Frame)
    requires t.Rectangular()
    ensures r.Rectangular()
  {
    Frame(Map(t.columns, Strip), t.rows)
  }

  /** `unique()`: the first occurrence of each value, in order. */
  function Distinct(s: seq<string>): (r: seq<string>)
    ensures forall x :: x in r <==> x in s
    ensures forall i, j :: 0 <= i < j < |r| ==> r[i] != r[j]
    ensures IsSubsequence(r, s)
    ensures forall i, j :: 0 <= i < j < |r| ==> FirstBefore(s, r[i], r[j])
    decreases |s|
  {
    if s == [] then []
    else
      var init := s[..|s| - 1];
      var d := Distinct(init);
      var last := s[|s| - 1];
      assert s == init + [last];
      SubsequenceSnoc(d, init, last);
      DistinctOrderSnoc(init, last, d);
      if last in d then d else d + [last]
  }

  /** `x` occurs in `s` before the first occurrence of `y`. */
  predicate FirstBefore(s: seq<string>, x: string, y: string)
  {
    exists k :: 0 <= k < |s| && s[k] == x && y !in s[..k]
  }

  /** Appending one value keeps the first-appearance order of the distinct values
      seen so far, and a value new to them comes after all of them. */
  lemma DistinctOrderSnoc(init: seq<string>, last: string, d: seq<string>)
    requires forall x :: x in d <==> x in init
    requires forall i, j :: 0 <= i < j < |d| ==> FirstBefore(init, d[i], d[j])
    ensures forall i, j :: 0 <= i < j < |d| ==> FirstBefore(init + [last], d[i], d[j])
    ensures last !in d ==> forall i, j :: 0 <= i < j < |d + [last]| ==> FirstBefore(init + [last], (d + [last])[i], (d + [last])[j])
  {
    var s := init + [last];
    forall x, y | FirstBefore(init, x, y)
      ensures FirstBefore(s, x, y)
    {
      var k :| 0 <= k < |init| && init[k] == x && y !in init[..k];
      assert s[k] == x && s[..k] == init[..k];
    }
    if last !in d {
      var r := d + [last];
      forall i, j | 0 <= i < j < |r|
        ensures FirstBefore(s, r[i], r[j])
      {
        if j < |d| {
          assert r[i] == d[i] && r[j] == d[j];
        } else {
          assert r[i] == d[i] && r[j] == last;
          assert d[i] in init;
          var k :| 0 <= k < |init| && init[k] == d[i];
          assert s[k] == d[i] && s[..k] == init[..k];
          assert last !in init[..k];
        }
      }
    }
  }

  /** `Name.dropna().astype(str).unique().tolist()`: the candidate names. */
  function CandidateNames(names: seq<Cell>): seq<string>
  {
    Distinct(Map(Filter(names, IsPresent), AsStr))
  }

  /** The candidates are the texts of the present names, each once, in order of first appearance. */
  lemma CandidateNamesMembers(names: seq<Cell>)
    ensures forall x :: x in CandidateNames(names) <==> exists i :: 0 <= i < |names| && IsPresent(names[i]) && AsStr(names[i]) == x
    ensures forall i, j :: 0 <= i < j < |CandidateNames(names)| ==> CandidateNames(names)[i] != CandidateNames(names)[j]
  {
    MapFilterMembers(names, IsPresent, AsStr);
  }

  /** `dict(zip(keys, values))`: pairs entered left to right, so a repeated key keeps its last value. */
  function Zip(keys: seq<Cell>, values: seq<Cell>): map<Cell, Cell>
    requires |keys| == |values|
    decreases |keys|
  {
    if keys == [] then map[]
    else Zip(keys[..|keys| - 1], values[..|values| - 1])[keys[|keys| - 1] := values[|values| - 1]]
  }

  /** The keys of the map are the keys given, and each maps to the value paired with its last occurrence. */
  lemma {:induction false} ZipLastWins(keys: seq<Cell>, values: seq<Cell>, i: nat)
    requires |keys| == |values| && i < |keys|
    requires forall j :: i < j < |keys| ==> keys[j] != keys[i]
    ensures keys[i] in Zip(keys, values) && Zip(keys, values)[keys[i]] == values[i]
    decreases |keys|
  {
    if i < |keys| - 1 {
      ZipLastWins(keys[..|keys| - 1], values[..|values| - 1], i);
    }
  }

  lemma {:induction false} ZipKeys(keys: seq<Cell>, values: seq<Cell>)
    requires |keys| == |values|
    ensures forall k :: k in Zip(keys, values) <==> k in keys
    decreases |keys|
  {
    if keys != [] {
      ZipKeys(keys[..|keys| - 1], values[..|values| - 1]);
      assert keys == keys[..|keys| - 1] + [keys[|keys| - 1]];
    }
  }

  /** `Series.map(d)` on one cell: the value for the key, missing for an unknown key. */
  function LookupIn(d: map<Cell, Cell>): Cell -> Cell
  {
    (k: Cell) => if k in d then d[k] else Missing
  }

  // ===========================================================================
  // process_files

  /** The "Matched Name" cell for one organisation cell: `fillna("")`, `astype(str)`,
      then the match at threshold 90, missing when there is none. */
  function MatchOrganisation(candidates: seq<string>, score: Scorer): Cell -> Cell
  {
    (c: Cell) =>
      match FuzzyMatchName(AsStr(FillEmpty(c)), candidates, score, DefaultThreshold)
      case Some(m) => Str(m)
      case None => Missing
  }

  /** An organisation cell gets a candidate scoring at least 90 against its text,
      a missing cell being matched as the empty string; it gets a missing value
      exactly when every candidate scores below 90. */
  lemma MatchOrganisationMeans(candidates: seq<string>, score: Scorer, c: Cell)
    ensures var text := if c == Missing then "" else AsStr(c);
      var r := MatchOrganisation(candidates, score)(c);
      (r == Missing <==> forall x :: x in candidates ==> score(text, x) < DefaultThreshold) &&
      (r != Missing ==>
         r.Str? && r.s in candidates && score(text, r.s) >= DefaultThreshold &&
         forall x :: x in candidates ==> score(text, x) <= score(text, r.s))
  {
    FuzzyMatchNameMeans(AsStr(FillEmpty(c)), candidates, score, DefaultThreshold);
  }

  /** What `process_files` returns for the input table and the selected reference sheet. */
  function Processed(input: Frame, comparison: Frame, score: Scorer): (r: Result<Frame>)
    requires input.Rectangular() && comparison.Rectangular()
    ensures r == Err(ValueError(MissingColumnsMessage)) <==>
      NameColumn !in Map(comparison.columns, Strip) || FunderIdColumn !in Map(comparison.columns, Strip)
    ensures r == Err(KeyError(OrganisationColumn)) <==>
      NameColumn in Map(comparison.columns, Strip) && FunderIdColumn in Map(comparison.columns, Strip) &&
      OrganisationColumn !in input.columns
    ensures r.Ok? <==>
      NameColumn in Map(comparison.columns, Strip) && FunderIdColumn in Map(comparison.columns, Strip) &&
      OrganisationColumn in input.columns
  {
    var ref := StrippedHeaders(comparison);
    if NameColumn !in ref.columns || FunderIdColumn !in ref.columns then Err(ValueError(MissingColumnsMessage))
    else
      var names := Column(ref, NameColumn).value;
      var idOf := Zip(names, Column(ref, FunderIdColumn).value);
      MatchedTable(input, CandidateNames(names), idOf, score)
  }

  /** The input table with its matches added, or the `KeyError` for a missing organisation column. */
  function MatchedTable(input: Frame, candidates: seq<string>, idOf: map<Cell, Cell>, score: Scorer): Result<Frame>
    requires input.Rectangular()
  {
    match Column(input, OrganisationColumn)
    case Err(e) => Err(e)
    case Ok(orgs) => Ok(WithMatches(input, orgs, candidates, idOf, score))
  }

  /** The steps of `process_files` after the organisation column `orgs` is read:
      "Matched Name" and "RF Funder ID" assigned, unmatched rows dropped,
      "Matched Name" renamed to "Name" and moved last. */
  function WithMatches(input: Frame, orgs: seq<Cell>, candidates: seq<string>, idOf: map<Cell, Cell>, score: Scorer): Frame
    requires input.Rectangular() && |orgs| == |input.rows|
  {
    var t1 := Assigned(input, MatchedColumn, Map(orgs, MatchOrganisation(candidates, score)));
    var t2 := Assigned(t1, FunderIdColumn, Map(Column(t1, MatchedColumn).value, LookupIn(idOf)));
    var t3 := Where(t2, Map(Column(t2, MatchedColumn).value, IsPresent));
    MovedLast(Renamed(t3, MatchedColumn, NameColumn), NameColumn)
  }

  /** `process_files`, from the table read and the sheet selected. */
  method ProcessFiles(input: Frame, comparison: Frame, score: Scorer) returns (output: Result<Frame>)
    requires input.Rectangular() && comparison.Rectangular()
    ensures output == Processed(input, comparison, score)
  {
    var comparisonDf := new DataFrame(comparison);
    comparisonDf.SetColumns(Map(comparisonDf.columns, Strip));
    assert comparisonDf.Value() == StrippedHeaders(comparison);
    if NameColumn !in comparisonDf.columns || FunderIdColumn !in comparisonDf.columns {
      return Err(ValueError(MissingColumnsMessage));
    }
    var names := comparisonDf.Get(NameColumn);
    var ids := comparisonDf.Get(FunderIdColumn);
    var candidates := CandidateNames(names.value);
    var nameToFunderId := Zip(names.value, ids.value);
    output := AddMatches(input, candidates, nameToFunderId, score);
  }

  /** The second half of `process_files`: the matches added to the input table. */
  method AddMatches(input: Frame, candidates: seq<string>, nameToFunderId: map<Cell, Cell>, score: Scorer)
    returns (output: Result<Frame>)
    requires input.Rectangular()
    ensures output == MatchedTable(input, candidates, nameToFunderId, score)
  {
    var df := new DataFrame(input);
    var orgs := df.Get(OrganisationColumn);
    if orgs.Err? {
      return Err(orgs.error);
    }
    df.Assign(MatchedColumn, Map(orgs.value, MatchOrganisation(candidates, score)));
    var matched := df.Get(MatchedColumn);
    df.Assign(FunderIdColumn, Map(matched.value, LookupIn(nameToFunderId)));
    var cleaned := df.DropMissing(MatchedColumn);
    cleaned := cleaned.Rename(MatchedColumn, NameColumn);
    cleaned := cleaned.MoveLast(NameColumn);
    output := Ok(cleaned.Value());
  }

  /** On success the output is rectangular, has no more rows than the input,
      and ends with a "Name" column. */
  lemma ProcessedShape(input: Frame, comparison: Frame, score: Scorer)
    requires input.Rectangular() && comparison.Rectangular()
    ensures var r := Processed(input, comparison, score);
      r.Ok? ==>
        r.value.Rectangular() && |r.value.rows| <= |input.rows| &&
        |r.value.columns| > 0 && r.value.columns[|r.value.columns| - 1] == NameColumn
  {
    var ref := StrippedHeaders(comparison);
    if Processed(input, comparison, score).Ok? {
      var names := Column(ref, NameColumn).value;
      WithMatchesShape(input, Column(input, OrganisationColumn).value, CandidateNames(names),
        Zip(names, Column(ref, FunderIdColumn).value), score);
    }
  }

  lemma WithMatchesShape(input: Frame, orgs: seq<Cell>, candidates: seq<string>, idOf: map<Cell, Cell>, score: Scorer)
    requires input.Rectangular() && |orgs| == |input.rows|
    ensures var r := WithMatches(input, orgs, candidates, idOf, score);
      r.Rectangular() && |r.rows| <= |input.rows| && |r.columns| > 0 && r.columns[|r.columns| - 1] == NameColumn
  {
    var t1 := Assigned(input, MatchedColumn, Map(orgs, MatchOrganisation(candidates, score)));
    var t2 := Assigned(t1, FunderIdColumn, Map(Column(t1, MatchedColumn).value, LookupIn(idOf)));
    assert MatchedColumn in t1.columns;
    assert MatchedColumn in t2.columns;
    UnmatchedDroppedShape(t2);
  }

  /** Dropping the rows without a match, renaming and moving "Name" last never
      adds rows and leaves "Name" as the last column. */
  lemma UnmatchedDroppedShape(t2: Frame)
    requires t2.Rectangular() && MatchedColumn in t2.columns
    ensures var t3 := Where(t2, Map(Column(t2, MatchedColumn).value, IsPresent));
      var r := MovedLast(Renamed(t3, MatchedColumn, NameColumn), NameColumn);
      r.Rectangular() && |r.rows| <= |t2.rows| && |r.columns| > 0 && r.columns[|r.columns| - 1] == NameColumn
  {
    var t3 := Where(t2, Map(Column(t2, MatchedColumn).value, IsPresent));
    assert t3.columns == t2.columns;
    RenamedNameLast(t3);
  }

  lemma RenamedNameLast(t: Frame)
    requires t.Rectangular() && MatchedColumn in t.columns
    ensures var r := MovedLast(Renamed(t, MatchedColumn, NameColumn), NameColumn);
      r.Rectangular() && |r.rows| == |t.rows| && |r.columns| > 0 && r.columns[|r.columns| - 1] == NameColumn
  {
    var t4 := Renamed(t, MatchedColumn, NameColumn);
    var j := IndexOf(t.columns, MatchedColumn).value;
    assert t4.columns[j] == NameColumn;
    MovedLastHeader(t4, NameColumn);
  }

  // ===========================================================================
  // A row-by-row reading of process_files

  /** The funder ID the reference sheet gives a name: the ID beside its last
      occurrence in the "Name" column, missing when the name does not occur. */
  function FunderIdOf(names: seq<Cell>, ids: seq<Cell>, m: string): Cell
    requires |names| == |ids|
    decreases |names|
  {
    if names == [] then Missing
    else if names[|names| - 1] == Str(m) then ids[|ids| - 1]
    else FunderIdOf(names[..|names| - 1], ids[..|ids| - 1], m)
  }

  /** The output for one input row: when its organisation (column `oj`) is
      matched, the row with its funder ID and then the matched name added;
      otherwise nothing. */
  function MatchedRow(row: Row, oj: nat, names: seq<Cell>, ids: seq<Cell>, score: Scorer): seq<Row>
    requires oj < |row| && |names| == |ids|
  {
    match FuzzyMatchName(AsStr(FillEmpty(row[oj])), CandidateNames(names), score, DefaultThreshold)
    case Some(m) => [row + [FunderIdOf(names, ids, m), Str(m)]]
    case None => []
  }

  /** The funder ID is the one beside the last occurrence of the name, and
      missing exactly when the name does not occur. */
  lemma {:induction false} FunderIdOfMeans(names: seq<Cell>, ids: seq<Cell>, m: string)
    requires |names| == |ids|
    ensures Str(m) !in names ==> FunderIdOf(names, ids, m) == Missing
    ensures Str(m) in names ==>
      exists i :: 0 <= i < |names| && names[i] == Str(m) && FunderIdOf(names, ids, m) == ids[i] &&
        forall k :: i < k < |names| ==> names[k] != Str(m)
    decreases |names|
  {
    if names != [] {
      var last := |names| - 1;
      if names[last] != Str(m) {
        var pn, pi := names[..last], ids[..last];
        FunderIdOfMeans(pn, pi, m);
        assert FunderIdOf(names, ids, m) == FunderIdOf(pn, pi, m);
        if Str(m) in names {
          var x :| 0 <= x < |names| && names[x] == Str(m);
          assert pn[x] == Str(m);
          var i :| 0 <= i < |pn| && pn[i] == Str(m) && FunderIdOf(pn, pi, m) == pi[i] &&
            forall k :: i < k < |pn| ==> pn[k] != Str(m);
          assert names[i] == Str(m) && ids[i] == pi[i];
          assert forall k :: i < k < |names| ==> names[k] != Str(m);
        } else {
          assert Str(m) !in pn;
        }
      }
    }
  }

  /** The output rows for input rows that lack the three added columns, in order. */
  function MatchedRows(rows: seq<Row>, oj: nat, names: seq<Cell>, ids: seq<Cell>, score: Scorer): seq<Row>
    requires forall i :: 0 <= i < |rows| ==> oj < |rows[i]|
    requires |names| == |ids|
    decreases |rows|
  {
    if rows == [] then [] else MatchedRow(rows[0], oj, names, ids, score) + MatchedRows(rows[1..], oj, names, ids, score)
  }

  /** Each output row is an input row with two cells added, the last a present
      name; there are never more output rows than input rows. */
  lemma {:induction false} MatchedRowsNamed(rows: seq<Row>, oj: nat, names: seq<Cell>, ids: seq<Cell>, score: Scorer)
    requires forall i :: 0 <= i < |rows| ==> oj < |rows[i]|
    requires |names| == |ids|
    ensures |MatchedRows(rows, oj, names, ids, score)| <= |rows|
    ensures forall r: Row :: r in MatchedRows(rows, oj, names, ids, score) ==>
      |r| >= 2 && r[..|r| - 2] in rows && r[|r| - 1].Str?
    decreases |rows|
  {
    if rows != [] {
      MatchedRowsNamed(rows[1..], oj, names, ids, score);
      var out := MatchedRows(rows, oj, names, ids, score);
      var head := MatchedRow(rows[0], oj, names, ids, score);
      assert out == head + MatchedRows(rows[1..], oj, names, ids, score);
      forall r: Row | r in head
        ensures |r| >= 2 && r[..|r| - 2] in rows && r[|r| - 1].Str?
      {
        assert r[..|r| - 2] == rows[0];
      }
      assert forall r: Row :: r in MatchedRows(rows[1..], oj, names, ids, score) ==> r[..|r| - 2] in rows[1..];
    }
  }

  /** When the input has none of "Matched Name", "Name" and "RF Funder ID",
      `process_files` keeps the input columns, adds "RF Funder ID" and then
      "Name", and gives one row per matched input row, in order. */
  lemma ProcessedCommonCase(input: Frame, comparison: Frame, score: Scorer)
    requires input.Rectangular() && comparison.Rectangular()
    requires NameColumn in Map(comparison.columns, Strip) && FunderIdColumn in Map(comparison.columns, Strip)
    requires OrganisationColumn in input.columns
    requires MatchedColumn !in input.columns && NameColumn !in input.columns && FunderIdColumn !in input.columns
    ensures var ref := StrippedHeaders(comparison);
      var names := Column(ref, NameColumn).value;
      var ids := Column(ref, FunderIdColumn).value;
      Processed(input, comparison, score) ==
        Ok(Frame(input.columns + [FunderIdColumn, NameColumn],
                 MatchedRows(input.rows, IndexOf(input.columns, OrganisationColumn).value, names, ids, score)))
  {
    var ref := StrippedHeaders(comparison);
    var names := Column(ref, NameColumn).value;
    var ids := Column(ref, FunderIdColumn).value;
    WithMatchesCommonCase(input, IndexOf(input.columns, OrganisationColumn).value, names, ids, score);
  }

  lemma WithMatchesCommonCase(input: Frame, oj: nat, names: seq<Cell>, ids: seq<Cell>, score: Scorer)
    requires input.Rectangular() && oj < |input.columns| && |names| == |ids|
    requires MatchedColumn !in input.columns && NameColumn !in input.columns && FunderIdColumn !in input.columns
    ensures WithMatches(input, ColumnAt(input, oj), CandidateNames(names), Zip(names, ids), score) ==
      Frame(input.columns + [FunderIdColumn, NameColumn], MatchedRows(input.rows, oj, names, ids, score))
  {
    var matcher := MatchOrganisation(CandidateNames(names), score);
    var lookup := LookupIn(Zip(names, ids));
    var t1 := Assigned(input, MatchedColumn, Map(ColumnAt(input, oj), matcher));
    var t2 := Assigned(t1, FunderIdColumn, Map(Column(t1, MatchedColumn).value, lookup));
    AssignedCommonCase(input, oj, matcher, lookup);
    var extended := Extend(input.rows, oj, matcher, lookup);
    assert t2 == Frame(input.columns + [MatchedColumn, FunderIdColumn], extended);
    DroppedCommonCase(input.columns, extended);
    ExtendedRowsMatched(input.rows, oj, |input.columns|, names, ids, score);
  }

  /** The two assignments append "Matched Name" and "RF Funder ID" to each row. */
  lemma AssignedCommonCase(input: Frame, oj: nat, matcher: Cell -> Cell, lookup: Cell -> Cell)
    requires input.Rectangular() && oj < |input.columns|
    requires MatchedColumn !in input.columns && FunderIdColumn !in input.columns
    ensures var t1 := Assigned(input, MatchedColumn, Map(ColumnAt(input, oj), matcher));
      Assigned(t1, FunderIdColumn, Map(Column(t1, MatchedColumn).value, lookup)) ==
        Frame(input.columns + [MatchedColumn, FunderIdColumn], Extend(input.rows, oj, matcher, lookup))
  {
    var matched := Map(ColumnAt(input, oj), matcher);
    var t1 := Assigned(input, MatchedColumn, matched);
    TwoColumnsAppended(input, matched, Map(Column(t1, MatchedColumn).value, lookup));
    ExtendAgrees(input, oj, matcher, lookup, matched, Map(matched, lookup));
  }

  /** Dropping the unmatched rows, renaming and moving "Name" last, on the extended table. */
  lemma DroppedCommonCase(columns: seq<string>, extended: seq<Row>)
    requires NameColumn !in columns && MatchedColumn !in columns && FunderIdColumn !in columns
    requires forall i :: 0 <= i < |extended| ==> |extended[i]| == |columns| + 2
    ensures var t2 := Frame(columns + [MatchedColumn, FunderIdColumn], extended);
      var t3 := Where(t2, Map(Column(t2, MatchedColumn).value, IsPresent));
      MovedLast(Renamed(t3, MatchedColumn, NameColumn), NameColumn) ==
        Frame(columns + [FunderIdColumn, NameColumn], Map(Filter(extended, PresentAt(|columns|)), SwapLastTwo(|columns|)))
  {
    var t2 := Frame(columns + [MatchedColumn, FunderIdColumn], extended);
    var t3 := Where(t2, Map(Column(t2, MatchedColumn).value, IsPresent));
    UnmatchedDropped(columns, extended);
    RenamedMovedLast(columns, t3.rows);
  }

  lemma UnmatchedDropped(columns: seq<string>, extended: seq<Row>)
    requires MatchedColumn !in columns
    requires forall i :: 0 <= i < |extended| ==> |extended[i]| == |columns| + 2
    ensures var t2 := Frame(columns + [MatchedColumn, FunderIdColumn], extended);
      t2.Rectangular() &&
      Where(t2, Map(Column(t2, MatchedColumn).value, IsPresent)) == Frame(t2.columns, Filter(extended, PresentAt(|columns|)))
  {
    var n := |columns|;
    var t2 := Frame(columns + [MatchedColumn, FunderIdColumn], extended);
    assert t2.Rectangular();
    assert IndexOf(t2.columns, MatchedColumn) == Some(n);
    DropMissingRows(t2, n);
  }

  lemma RenamedMovedLast(columns: seq<string>, rows: seq<Row>)
    requires NameColumn !in columns && MatchedColumn !in columns && FunderIdColumn !in columns
    requires forall i :: 0 <= i < |rows| ==> |rows[i]| == |columns| + 2
    ensures var t := Frame(columns + [MatchedColumn, FunderIdColumn], rows);
      t.Rectangular() &&
      MovedLast(Renamed(t, MatchedColumn, NameColumn), NameColumn) ==
        Frame(columns + [FunderIdColumn, NameColumn], Map(rows, SwapLastTwo(|columns|)))
  {
    var n := |columns|;
    var t := Frame(columns + [MatchedColumn, FunderIdColumn], rows);
    assert t.Rectangular();
    var t4 := Renamed(t, MatchedColumn, NameColumn);
    assert t4.columns == columns + [NameColumn, FunderIdColumn];
    NameLastSwapsAppended(columns, columns, NameColumn, FunderIdColumn, NameColumn, FunderIdColumn);
    assert t4.columns[..n] == columns;
    MovedLastRows(t4, n);
  }

  lemma ExtendAgrees(t: Frame, oj: nat, matcher: Cell -> Cell, lookup: Cell -> Cell, matched: seq<Cell>, looked: seq<Cell>)
    requires t.Rectangular() && oj < |t.columns| && |matched| == |looked| == |t.rows|
    requires matched == Map(ColumnAt(t, oj), matcher) && looked == Map(matched, lookup)
    ensures seq(|t.rows|, i requires 0 <= i < |t.rows| => t.rows[i] + [matched[i], looked[i]]) == Extend(t.rows, oj, matcher, lookup)
  {
  }
  /** Each row with its "Matched Name" and "RF Funder ID" cells appended. */
  function Extend(rows: seq<Row>, oj: nat, matcher: Cell -> Cell, lookup: Cell -> Cell): (r: seq<Row>)
    requires forall i :: 0 <= i < |rows| ==> oj < |rows[i]|
    ensures |r| == |rows|
  {
    seq(|rows|, i requires 0 <= i < |rows| => rows[i] + [matcher(rows[i][oj]), lookup(matcher(rows[i][oj]))])
  }

  /** The last two cells of a row of `n + 2` cells swapped. */
  function SwapLastTwo(n: nat): Row -> Row
  {
    (row: Row) => if |row| == n + 2 then row[..n] + [row[n + 1], row[n]] else row
  }

  lemma TwoColumnsAppended(t: Frame, matched: seq<Cell>, ids: seq<Cell>)
    requires t.Rectangular() && |matched| == |ids| == |t.rows|
    requires MatchedColumn !in t.columns && FunderIdColumn !in t.columns
    ensures var t1 := Assigned(t, MatchedColumn, matched);
      Column(t1, MatchedColumn).value == matched &&
      Assigned(t1, FunderIdColumn, ids) ==
        Frame(t.columns + [MatchedColumn, FunderIdColumn],
              seq(|t.rows|, i requires 0 <= i < |t.rows| => t.rows[i] + [matched[i], ids[i]]))
  {
    var t1 := Assigned(t, MatchedColumn, matched);
    AssignedReadBack(t, MatchedColumn, matched);
    AssignedNew(t, MatchedColumn, matched);
    assert FunderIdColumn !in t1.columns;
    var t2 := Assigned(t1, FunderIdColumn, ids);
    AssignedNew(t1, FunderIdColumn, ids);
    forall i | 0 <= i < |t.rows|
      ensures t2.rows[i] == t.rows[i] + [matched[i], ids[i]]
    {
      assert t1.rows[i] == t.rows[i] + [matched[i]];
    }
  }

  lemma MovedLastRows(t: Frame, n: nat)
    requires t.Rectangular() && |t.columns| == n + 2
    requires t.columns == t.columns[..n] + [NameColumn, FunderIdColumn]
    requires NameColumn !in t.columns[..n]
    ensures MovedLast(t, NameColumn).rows == Map(t.rows, SwapLastTwo(n))
  {
    var labels := t.columns[..n];
    forall i | 0 <= i < |t.rows|
      ensures NameLast(t.columns, t.rows[i], NameColumn) == SwapLastTwo(n)(t.rows[i])
    {
      var row := t.rows[i];
      assert row == row[..n] + [row[n], row[n + 1]];
      NameLastSwapsAppended(labels, row[..n], NameColumn, FunderIdColumn, row[n], row[n + 1]);
    }
  }

  lemma {:induction false} ExtendedRowsMatched(rows: seq<Row>, oj: nat, n: nat, names: seq<Cell>, ids: seq<Cell>, score: Scorer)
    requires forall i :: 0 <= i < |rows| ==> oj < n == |rows[i]|
    requires |names| == |ids|
    ensures Map(Filter(Extend(rows, oj, MatchOrganisation(CandidateNames(names), score), LookupIn(Zip(names, ids))), PresentAt(n)), SwapLastTwo(n))
      == MatchedRows(rows, oj, names, ids, score)
    decreases |rows|
  {
    var matcher := MatchOrganisation(CandidateNames(names), score);
    var lookup := LookupIn(Zip(names, ids));
    if rows != [] {
      var tail := rows[1..];
      forall i | 0 <= i < |tail|
        ensures oj < n == |tail[i]|
      {
        assert tail[i] == rows[i + 1];
      }
      assert forall i :: 0 <= i < |tail| ==> oj < n == |tail[i]|;
      ExtendedRowsMatched(tail, oj, n, names, ids, score);
      var e := Extend(rows, oj, matcher, lookup);
      ExtendCons(rows, oj, matcher, lookup);
      MapFilterCons(e, PresentAt(n), SwapLastTwo(n));
      ExtendedRowMatched(rows[0], oj, n, names, ids, score);
    }
  }

  /** `Extend` on a non-empty list: the first row extended, then the rest. */
  lemma ExtendCons(rows: seq<Row>, oj: nat, matcher: Cell -> Cell, lookup: Cell -> Cell)
    requires rows != [] && forall i :: 0 <= i < |rows| ==> oj < |rows[i]|
    ensures Extend(rows, oj, matcher, lookup)[0] == rows[0] + [matcher(rows[0][oj]), lookup(matcher(rows[0][oj]))]
    ensures Extend(rows, oj, matcher, lookup)[1..] == Extend(rows[1..], oj, matcher, lookup)
  {
  }

  /** Filtering then mapping a non-empty list: the first element's part, then the rest's. */
  lemma MapFilterCons<T, U>(e: seq<T>, keep: T -> bool, f: T -> U)
    requires e != []
    ensures Map(Filter(e, keep), f) == Map(if keep(e[0]) then [e[0]] else [], f) + Map(Filter(e[1..], keep), f)
  {
    MapAppend(if keep(e[0]) then [e[0]] else [], Filter(e[1..], keep), f);
  }

  lemma ExtendedRowMatched(row: Row, oj: nat, n: nat, names: seq<Cell>, ids: seq<Cell>, score: Scorer)
    requires oj < n == |row| && |names| == |ids|
    ensures var matched := MatchOrganisation(CandidateNames(names), score)(row[oj]);
      var e := row + [matched, LookupIn(Zip(names, ids))(matched)];
      Map(if PresentAt(n)(e) then [e] else [], SwapLastTwo(n)) == MatchedRow(row, oj, names, ids, score)
  {
    var matched := MatchOrganisation(CandidateNames(names), score)(row[oj]);
    var e := row + [matched, LookupIn(Zip(names, ids))(matched)];
    match FuzzyMatchName(AsStr(FillEmpty(row[oj])), CandidateNames(names), score, DefaultThreshold)
    case Some(m) =>
      assert matched == Str(m);
      FunderIdOfZip(names, ids, m);
      var id := FunderIdOf(names, ids, m);
      assert e == row + [Str(m), id];
      assert PresentAt(n)(e);
      assert e[..n] == row && e[n] == Str(m) && e[n + 1] == id;
      assert SwapLastTwo(n)(e) == row + [id, Str(m)];
      assert Map([e], SwapLastTwo(n)) == [SwapLastTwo(n)(e)];
    case None =>
      assert matched == Missing;
      assert !PresentAt(n)(e);
  }

  lemma MapAppend<T, U>(a: seq<T>, b: seq<T>, f: T -> U)
    ensures Map(a + b, f) == Map(a, f) + Map(b, f)
  {
  }

  /** Looking a name up in `dict(zip(names, ids))` gives the ID beside its last occurrence. */
  lemma {:induction false} FunderIdOfZip(names: seq<Cell>, ids: seq<Cell>, m: string)
    requires |names| == |ids|
    ensures LookupIn(Zip(names, ids))(Str(m)) == FunderIdOf(names, ids, m)
    decreases |names|
  {
    if names != [] {
      FunderIdOfZip(names[..|names| - 1], ids[..|ids| - 1], m);
    }
  }
}
