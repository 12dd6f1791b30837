/** The cleaning stages of PuretoResearchfish.py. Each stage reads one table,
    changes it and writes it back; here a stage is a method from the table read
    to the table written (or the error raised), proved equal to a row-by-row
    definition about which the lemmas below state what the stage keeps, drops
    and rewrites. */
module ResearchfishCleaning {
  import opened Common
  import opened Strings
  import opened ViaNotes
  import opened Frames

  const RefColumn := "Funder Project Reference"
  const DoiColumn := "DOIs (Digital Object Identifiers)"
  const IdsColumn := "Additional source IDs"
  const PubMedTag := "PubMed:"

  /** The hard-coded denylist of `contains_keyword`. */
  const Keywords: seq<string> := ["COVID 19 Supplement", "Researcher let 1", "Diana Tay", "Amendment #5", "Amendment #6"]

  // ===========================================================================
  // Stage 1: handle_funder_project_reference

  /** Lower-cased, the text is "n/a" or "na". */
  predicate IsNaToken(s: string)
  {
    Lower(s) == "n/a" || Lower(s) == "na"
  }

  /** `na_handler`: an N/A token becomes missing, every other value is kept. */
  function NaHandler(c: Cell): (r: Cell)
    ensures r == Missing <==> c == Missing || (c.Str? && IsNaToken(c.s))
    ensures r != Missing ==> r == c
  {
    if c.Str? && IsNaToken(c.s) then Missing else c
  }

  lemma LowerCharIs(c: char, lower: char, upper: char)
    requires 'a' <= lower <= 'z' && upper as int == lower as int - 32
    ensures LowerChar(c) == lower <==> c == lower || c == upper
  {
  }

  /** The N/A tokens are the eight case spellings of "n/a" and "na". */
  lemma NaTokenSpellings(s: string)
    ensures IsNaToken(s) <==> s in ["n/a", "N/a", "n/A", "N/A", "na", "Na", "nA", "NA"]
  {
    if |s| == 2 {
      LowerCharIs(s[0], 'n', 'N');
      LowerCharIs(s[1], 'a', 'A');
      assert s == [s[0], s[1]];
      assert Lower(s) == [LowerChar(s[0]), LowerChar(s[1])];
      assert IsNaToken(s) <==> (s[0] == 'n' || s[0] == 'N') && (s[1] == 'a' || s[1] == 'A');
    } else if |s| == 3 {
      LowerCharIs(s[0], 'n', 'N');
      LowerCharIs(s[2], 'a', 'A');
      assert LowerChar(s[1]) == '/' <==> s[1] == '/';
      assert Lower(s) == [LowerChar(s[0]), LowerChar(s[1]), LowerChar(s[2])];
      assert s == [s[0], s[1], s[2]];
      assert IsNaToken(s) <==> (s[0] == 'n' || s[0] == 'N') && s[1] == '/' && (s[2] == 'a' || s[2] == 'A');
    }
  }

  /** A reference that survives stage 1: present and not an N/A token. */
  predicate HasReference(c: Cell)
  {
    NaHandler(c) != Missing
  }

  /** The row test of stage 1, for the reference at column `j`. */
  function ReferencePresent(j: nat): Row -> bool
  {
    (row: Row) => j < |row| && HasReference(row[j])
  }

  /** The table after the `na_handler` pass: the reference column mapped, the rest untouched. */
  function NormalisedReferences(t: Frame): (r: Frame)
    requires t.Rectangular()
    ensures r.Rectangular()
  {
    match Column(t, RefColumn)
    case Err(_) => t
    case Ok(refs) => Assigned(t, RefColumn, Map(refs, NaHandler))
  }

  /** What stage 1 writes: nothing when the reference column is missing, else the
      rows whose reference is present and not an N/A token. */
  function HandledReferences(t: Frame): Option<Frame>
    requires t.Rectangular()
  {
    match IndexOf(t.columns, RefColumn)
    case None => None
    case Some(j) => Some(Frame(t.columns, Filter(t.rows, ReferencePresent(j))))
  }

  /** `handle_funder_project_reference`: normalise N/A tokens in the reference
      column, give up when there is no such column, drop rows without a reference. */
  method HandleFunderProjectReference(input: Frame) returns (output: Option<Frame>)
    requires input.Rectangular()
    ensures output == HandledReferences(input)
  {
    var df := new DataFrame(input);
    var refs := df.Get(RefColumn);
    if refs.Ok? {
      df.Assign(RefColumn, Map(refs.value, NaHandler));
    }
    assert df.Value() == NormalisedReferences(input);
    if RefColumn !in df.columns {
      return None;
    }
    var j := IndexOf(input.columns, RefColumn).value;
    var kept := df.DropMissing(RefColumn);
    DroppedWithoutReference(input, j);
    output := Some(kept.Value());
  }

  /** Dropping the rows left without a reference by the `na_handler` pass keeps
      the original rows that have one. */
  lemma DroppedWithoutReference(t: Frame, j: nat)
    requires t.Rectangular() && IndexOf(t.columns, RefColumn) == Some(j)
    ensures var n := NormalisedReferences(t);
      Where(n, Map(ColumnAt(n, j), IsPresent)).rows == Filter(t.rows, ReferencePresent(j))
  {
    var n := NormalisedReferences(t);
    assert n.rows == seq(|t.rows|, i requires 0 <= i < |t.rows| => t.rows[i][j := NaHandler(t.rows[i][j])]);
    forall i | 0 <= i < |t.rows|
      ensures PresentAt(j)(n.rows[i]) == ReferencePresent(j)(t.rows[i])
      ensures ReferencePresent(j)(t.rows[i]) ==> n.rows[i] == t.rows[i]
    {
      assert n.rows[i] == t.rows[i][j := NaHandler(t.rows[i][j])];
    }
    DropMissingRows(n, j);
    FilterSameSurvivors(t.rows, n.rows, ReferencePresent(j), PresentAt(j));
  }

  /** The `na_handler` pass changes only the reference column, and there exactly by `na_handler`. */
  lemma NormalisedOnlyReference(t: Frame)
    requires t.Rectangular()
    ensures RefColumn !in t.columns ==> NormalisedReferences(t) == t
    ensures RefColumn in t.columns ==>
      var n := NormalisedReferences(t);
      var j := IndexOf(t.columns, RefColumn).value;
      n.columns == t.columns && |n.rows| == |t.rows| &&
      forall i, k :: 0 <= i < |t.rows| && 0 <= k < |t.columns| ==>
        n.rows[i][k] == (if k == j then NaHandler(t.rows[i][k]) else t.rows[i][k])
  {
  }

  /** Stage 1 keeps exactly the rows with a reference, unchanged and in their order. */
  lemma HandledReferencesRows(t: Frame)
    requires t.Rectangular()
    ensures HandledReferences(t).None? <==> RefColumn !in t.columns
    ensures HandledReferences(t).Some? ==>
      var out := HandledReferences(t).value;
      var j := IndexOf(t.columns, RefColumn).value;
      out.columns == t.columns &&
      IsSubsequence(out.rows, t.rows) &&
      (forall i :: 0 <= i < |t.rows| ==> (t.rows[i] in out.rows <==> HasReference(t.rows[i][j]))) &&
      (forall k :: 0 <= k < |out.rows| ==> j < |out.rows[k]| && HasReference(out.rows[k][j]))
  {
    if RefColumn in t.columns {
      var j := IndexOf(t.columns, RefColumn).value;
      var out := HandledReferences(t).value;
      FilterSubsequence(t.rows, ReferencePresent(j));
      FilterMembers(t.rows, ReferencePresent(j));
      forall k | 0 <= k < |out.rows|
        ensures j < |out.rows[k]| && HasReference(out.rows[k][j])
      {
        assert ReferencePresent(j)(out.rows[k]);
      }
    }
  }

  // ===========================================================================
  // Stage 2: filter_by_dois_and_additional_ids

  /** `str.contains("PubMed:", na=False)` on one cell: text holding the tag, case as written. */
  predicate HasPubMed(c: Cell)
  {
    c.Str? && Contains(c.s, PubMedTag)
  }

  /** `re.sub(r'^\s*PubMed:\s*', '', s)`: a tag at the very start, with the
      whitespace before and after it, is removed; anything else is kept. */
  function StripPubMedPrefix(s: string): (r: string)
    ensures |r| <= |s| && r == s[|s| - |r|..]
  {
    var n := SpaceRun(s, 0);
    if StartsWith(s[n..], PubMedTag) then s[n + |PubMedTag| + SpaceRun(s, n + |PubMedTag|)..] else s
  }

  /** `.str.replace(...)` on one cell: text is rewritten, anything else becomes missing. */
  function StrippedCell(c: Cell): Cell
  {
    if c.Str? then Str(StripPubMedPrefix(c.s)) else Missing
  }

  /** The identifiers cell of a kept row: empty text for a missing one, and the
      leading tag removed from one that holds the tag. */
  function CleanIds(c: Cell): Cell
  {
    var f := FillEmpty(c);
    if HasPubMed(f) then StrippedCell(f) else f
  }

  /** The row test of stage 2: a DOI, or the tag in the identifiers (DOI at `d`, identifiers at `a`). */
  function KeepsIdentifiers(d: nat, a: nat): Row -> bool
  {
    (row: Row) => d < |row| && a < |row| && (IsPresent(row[d]) || HasPubMed(row[a]))
  }

  function FillAt(a: nat): Row -> Row
  {
    (row: Row) => if a < |row| then row[a := FillEmpty(row[a])] else row
  }

  function CleanAt(a: nat): Row -> Row
  {
    (row: Row) => if a < |row| then row[a := CleanIds(row[a])] else row
  }

  function PubMedAt(a: nat): Row -> bool
  {
    (row: Row) => a < |row| && HasPubMed(row[a])
  }

  /** What stage 2 writes: the rows with a DOI or a PubMed identifier, in their
      order, with the identifiers cleaned; a `KeyError` for a missing column, the
      identifiers column being read first. */
  function FilteredByIdentifiers(t: Frame): Result<Frame>
    requires t.Rectangular()
  {
    match IndexOf(t.columns, IdsColumn)
    case None => Err(KeyError(IdsColumn))
    case Some(a) =>
      match IndexOf(t.columns, DoiColumn)
      case None => Err(KeyError(DoiColumn))
      case Some(d) => Ok(Frame(t.columns, Map(Filter(t.rows, KeepsIdentifiers(d, a)), CleanAt(a))))
  }

  /** `filter_by_dois_and_additional_ids` */
  method FilterByDoisAndAdditionalIds(input: Frame) returns (output: Result<Frame>)
    requires input.Rectangular()
    ensures output == FilteredByIdentifiers(input)
  {
    var df := new DataFrame(input);
    var ids := df.Get(IdsColumn);
    if ids.Err? {
      return Err(ids.error);
    }
    df.Assign(IdsColumn, Map(ids.value, FillEmpty));
    var dois := df.Get(DoiColumn);
    if dois.Err? {
      return Err(dois.error);
    }
    var filled := df.Get(IdsColumn);
    var doiMask := Map(dois.value, IsPresent);
    var pubmedMask := Map(filled.value, HasPubMed);
    var keep := Or(doiMask, pubmedMask);
    var filtered := df.Filtered(keep);
    var kept := filtered.Get(IdsColumn);
    filtered.AssignWhere(Select(pubmedMask, keep), IdsColumn, Map(kept.value, StrippedCell));
    IdentifierStepsAgree(input, IndexOf(input.columns, IdsColumn).value, IndexOf(input.columns, DoiColumn).value);
    output := Ok(filtered.Value());
  }

  /** The pandas steps of stage 2 compute its row-by-row definition. */
  lemma IdentifierStepsAgree(t: Frame, a: nat, d: nat)
    requires t.Rectangular()
    requires IndexOf(t.columns, IdsColumn) == Some(a) && IndexOf(t.columns, DoiColumn) == Some(d)
    ensures
      var f1 := Assigned(t, IdsColumn, Map(ColumnAt(t, a), FillEmpty));
      var pubmed := Map(ColumnAt(f1, a), HasPubMed);
      var keep := Or(Map(ColumnAt(f1, d), IsPresent), pubmed);
      var f2 := Where(f1, keep);
      AssignedWhere(f2, Select(pubmed, keep), IdsColumn, Map(ColumnAt(f2, a), StrippedCell))
        == Frame(t.columns, Map(Filter(t.rows, KeepsIdentifiers(d, a)), CleanAt(a)))
  {
    var f1 := Assigned(t, IdsColumn, Map(ColumnAt(t, a), FillEmpty));
    var pubmed := Map(ColumnAt(f1, a), HasPubMed);
    var keep := Or(Map(ColumnAt(f1, d), IsPresent), pubmed);
    FilledMasks(t, a, d);
    var kept := Filter(t.rows, KeepsIdentifiers(d, a));
    SelectByPredicate(t.rows, keep, KeepsIdentifiers(d, a));
    SelectAligned(t.rows, f1.rows, FillAt(a), keep);
    SelectAligned(f1.rows, pubmed, PubMedAt(a), keep);
    SelectAll(t.rows, keep, (row: Row) => |row| == |t.columns|);
    StrippedKeptRows(kept, Where(f1, keep), Select(pubmed, keep), a);
  }

  /** After `fillna("")`, the two masks of stage 2 test each row as `KeepsIdentifiers` and `PubMedAt` do. */
  lemma FilledMasks(t: Frame, a: nat, d: nat)
    requires t.Rectangular()
    requires IndexOf(t.columns, IdsColumn) == Some(a) && IndexOf(t.columns, DoiColumn) == Some(d)
    ensures
      var f1 := Assigned(t, IdsColumn, Map(ColumnAt(t, a), FillEmpty));
      var pubmed := Map(ColumnAt(f1, a), HasPubMed);
      var keep := Or(Map(ColumnAt(f1, d), IsPresent), pubmed);
      f1.columns == t.columns && f1.rows == Map(t.rows, FillAt(a)) &&
      (forall i :: 0 <= i < |t.rows| ==> keep[i] == KeepsIdentifiers(d, a)(t.rows[i])) &&
      (forall i :: 0 <= i < |t.rows| ==> pubmed[i] == PubMedAt(a)(f1.rows[i]))
  {
    var f1 := Assigned(t, IdsColumn, Map(ColumnAt(t, a), FillEmpty));
    assert a != d;
    assert f1.rows == Map(t.rows, FillAt(a));
    forall i | 0 <= i < |t.rows|
      ensures HasPubMed(FillEmpty(t.rows[i][a])) == HasPubMed(t.rows[i][a])
    {
      if HasPubMed(FillEmpty(t.rows[i][a])) && t.rows[i][a] == Missing {
        ContainsLength("", PubMedTag);
      }
    }
  }

  /** The masked `.str.replace` on the kept rows cleans their identifiers. */
  lemma StrippedKeptRows(kept: seq<Row>, f2: Frame, pubmed: seq<bool>, a: nat)
    requires f2.Rectangular() && a < |f2.columns| && f2.columns[a] == IdsColumn
    requires IndexOf(f2.columns, IdsColumn) == Some(a)
    requires f2.rows == Map(kept, FillAt(a)) && pubmed == Map(f2.rows, PubMedAt(a))
    ensures AssignedWhere(f2, pubmed, IdsColumn, Map(ColumnAt(f2, a), StrippedCell)) == Frame(f2.columns, Map(kept, CleanAt(a)))
  {
    var last := AssignedWhere(f2, pubmed, IdsColumn, Map(ColumnAt(f2, a), StrippedCell));
    forall i | 0 <= i < |kept|
      ensures last.rows[i] == CleanAt(a)(kept[i])
    {
      assert |f2.rows[i]| == |f2.columns|;
    }
  }

  /** A leading tag is removed with the whitespace before and after it. */
  lemma StripPubMedPrefixRemoves(lead: string, trail: string, rest: string)
    requires AllSpace(lead) && AllSpace(trail)
    requires rest == [] || !IsSpace(rest[0])
    ensures StripPubMedPrefix(lead + PubMedTag + trail + rest) == rest
  {
    var s := lead + PubMedTag + trail + rest;
    var m := |lead| + |PubMedTag|;
    assert s[|lead|] == 'P';
    SpaceRunExact(s, 0, |lead|);
    assert s[|lead|..][..|PubMedTag|] == PubMedTag;
    assert forall k :: m <= k < m + |trail| ==> s[k] == trail[k - m];
    assert m + |trail| < |s| ==> s[m + |trail|] == rest[0];
    SpaceRunExact(s, m, |trail|);
    assert s[m + |trail|..] == rest;
  }

  /** Text whose first non-blank characters are not the tag is left as it is,
      even when the tag appears further on. */
  lemma StripPubMedPrefixKeeps(lead: string, rest: string)
    requires AllSpace(lead)
    requires rest == [] || !IsSpace(rest[0])
    requires !StartsWith(rest, PubMedTag)
    ensures StripPubMedPrefix(lead + rest) == lead + rest
  {
    var s := lead + rest;
    assert |lead| < |s| ==> s[|lead|] == rest[0];
    SpaceRunExact(s, 0, |lead|);
    assert s[|lead|..] == rest;
  }

  /** Stage 2 reads the identifiers column before the DOI column. */
  lemma FilteredByIdentifiersErrors(t: Frame)
    requires t.Rectangular()
    ensures FilteredByIdentifiers(t) == Err(KeyError(IdsColumn)) <==> IdsColumn !in t.columns
    ensures FilteredByIdentifiers(t) == Err(KeyError(DoiColumn)) <==> IdsColumn in t.columns && DoiColumn !in t.columns
    ensures FilteredByIdentifiers(t).Ok? <==> IdsColumn in t.columns && DoiColumn in t.columns
  {
  }

  /** Every row stage 2 writes is the cleaned form of a row with a DOI or a
      PubMed identifier, every such row is written, and the rows keep their order. */
  lemma FilteredByIdentifiersRows(t: Frame, a: nat, d: nat)
    requires t.Rectangular()
    requires IndexOf(t.columns, IdsColumn) == Some(a) && IndexOf(t.columns, DoiColumn) == Some(d)
    ensures FilteredByIdentifiers(t).Ok?
    ensures var out := FilteredByIdentifiers(t).value;
      out.columns == t.columns &&
      IsSubsequence(out.rows, Map(t.rows, CleanAt(a))) &&
      (forall i :: 0 <= i < |t.rows| && KeepsIdentifiers(d, a)(t.rows[i]) ==> CleanAt(a)(t.rows[i]) in out.rows) &&
      (forall x :: x in out.rows ==>
         (exists i :: 0 <= i < |t.rows| && KeepsIdentifiers(d, a)(t.rows[i]) && x == CleanAt(a)(t.rows[i])))
  {
    var keep := KeepsIdentifiers(d, a);
    FilterSubsequence(t.rows, keep);
    MapSubsequence(Filter(t.rows, keep), t.rows, CleanAt(a));
    MapFilterMembers(t.rows, keep, CleanAt(a));
  }

  /** The row test of stage 2 in words: a DOI, or "PubMed:" in the identifiers text;
      a missing identifiers cell counts as empty text. */
  lemma KeepsIdentifiersMeans(d: nat, a: nat, row: Row)
    requires d < |row| && a < |row|
    ensures KeepsIdentifiers(d, a)(row) <==> row[d] != Missing || (row[a].Str? && Contains(row[a].s, "PubMed:"))
    ensures KeepsIdentifiers(d, a)(row) <==> row[d] != Missing || HasPubMed(FillEmpty(row[a]))
  {
    if row[a] == Missing && HasPubMed(FillEmpty(row[a])) {
      ContainsLength("", PubMedTag);
    }
  }

  /** Stage 2 rewrites only the identifiers cell: a missing one becomes empty text,
      one holding the tag loses a leading tag, any other is kept. */
  lemma CleanAtChangesIdentifiersOnly(a: nat, row: Row)
    requires a < |row|
    ensures |CleanAt(a)(row)| == |row|
    ensures forall k :: 0 <= k < |row| && k != a ==> CleanAt(a)(row)[k] == row[k]
    ensures row[a] == Missing ==> CleanAt(a)(row)[a] == Str("")
    ensures HasPubMed(row[a]) ==> CleanAt(a)(row)[a] == Str(StripPubMedPrefix(row[a].s))
    ensures row[a] != Missing && !HasPubMed(row[a]) ==> CleanAt(a)(row)[a] == row[a]
  {
    if HasPubMed(Str("")) {
      ContainsLength("", PubMedTag);
    }
  }

  // ===========================================================================
  // Stage 3: clear_additional_ids_if_doi_present

  /** What stage 3 writes: the identifiers emptied on every row with a DOI; where
      there was no identifiers column, one is appended, empty on every row. */
  function ClearedIds(t: Frame): (r: Result<Frame>)
    requires t.Rectangular()
    ensures r.Ok? ==> r.value.Rectangular() && |r.value.rows| == |t.rows|
  {
    match IndexOf(t.columns, DoiColumn)
    case None => Err(KeyError(DoiColumn))
    case Some(d) =>
      match IndexOf(t.columns, IdsColumn)
      case Some(a) =>
        Ok(Frame(t.columns, seq(|t.rows|, i requires 0 <= i < |t.rows| =>
          if IsPresent(t.rows[i][d]) then t.rows[i][a := Missing] else t.rows[i])))
      case None =>
        Ok(Frame(t.columns + [IdsColumn], seq(|t.rows|, i requires 0 <= i < |t.rows| => t.rows[i] + [Missing])))
  }

  function AllMissing(n: nat): (r: seq<Cell>)
    ensures |r| == n && forall i :: 0 <= i < n ==> r[i] == Missing
  {
    seq(n, i => Missing)
  }

  /** `clear_additional_ids_if_doi_present` */
  method ClearAdditionalIdsIfDoiPresent(input: Frame) returns (output: Result<Frame>)
    requires input.Rectangular()
    ensures output == ClearedIds(input)
  {
    var df := new DataFrame(input);
    var dois := df.Get(DoiColumn);
    if dois.Err? {
      return Err(dois.error);
    }
    var present := Map(dois.value, IsPresent);
    df.AssignWhere(present, IdsColumn, AllMissing(|df.rows|));
    ClearStepAgrees(input, IndexOf(input.columns, DoiColumn).value);
    output := Ok(df.Value());
  }

  /** The masked assignment of stage 3 computes its row-by-row definition. */
  lemma ClearStepAgrees(t: Frame, d: nat)
    requires t.Rectangular() && IndexOf(t.columns, DoiColumn) == Some(d)
    ensures ClearedIds(t).Ok?
    ensures AssignedWhere(t, Map(ColumnAt(t, d), IsPresent), IdsColumn, AllMissing(|t.rows|)) == ClearedIds(t).value
  {
    var r := AssignedWhere(t, Map(ColumnAt(t, d), IsPresent), IdsColumn, AllMissing(|t.rows|));
    var out := ClearedIds(t).value;
    assert r.columns == out.columns;
    forall i | 0 <= i < |t.rows|
      ensures r.rows[i] == out.rows[i]
    {
      if IdsColumn in t.columns {
        var a := IndexOf(t.columns, IdsColumn).value;
        assert |t.rows[i]| == |t.columns|;
        assert t.rows[i][a := t.rows[i][a]] == t.rows[i];
      }
    }
  }

  /** Stage 3 keeps every row and every cell, except that the identifiers become
      missing exactly on the rows with a DOI. */
  lemma ClearedIdsCells(t: Frame, d: nat, a: nat)
    requires t.Rectangular()
    requires IndexOf(t.columns, DoiColumn) == Some(d) && IndexOf(t.columns, IdsColumn) == Some(a)
    ensures ClearedIds(t).Ok?
    ensures var out := ClearedIds(t).value;
      out.columns == t.columns && |out.rows| == |t.rows| &&
      (forall i :: 0 <= i < |t.rows| ==> |out.rows[i]| == |t.rows[i]|) &&
      (forall i, k :: 0 <= i < |t.rows| && 0 <= k < |t.columns| && k != a ==> out.rows[i][k] == t.rows[i][k]) &&
      (forall i :: 0 <= i < |t.rows| ==>
         out.rows[i][a] == if t.rows[i][d] != Missing then Missing else t.rows[i][a])
  {
  }

  /** After stage 3 no row holds both a DOI and an identifier. */
  lemma ClearedIdsExclusive(t: Frame)
    requires t.Rectangular() && ClearedIds(t).Ok?
    ensures var out := ClearedIds(t).value;
      var d := IndexOf(out.columns, DoiColumn).value;
      var a := IndexOf(out.columns, IdsColumn).value;
      forall i :: 0 <= i < |out.rows| ==> out.rows[i][d] == Missing || out.rows[i][a] == Missing
  {
  }

  /** Each row stage 2 writes has the full width, and either a DOI or no DOI and
      identifiers cleaned from a text that held "PubMed:". */
  lemma FilteredRowShapes(t: Frame, d: nat, a: nat)
    requires t.Rectangular()
    requires IndexOf(t.columns, DoiColumn) == Some(d) && IndexOf(t.columns, IdsColumn) == Some(a)
    ensures FilteredByIdentifiers(t).Ok?
    ensures var f := FilteredByIdentifiers(t).value;
      f.columns == t.columns &&
      forall i :: 0 <= i < |f.rows| ==>
        |f.rows[i]| == |f.columns| &&
        (IsPresent(f.rows[i][d]) ||
         (exists j :: 0 <= j < |t.rows| && HasPubMed(t.rows[j][a]) && f.rows[i] == t.rows[j][a := StrippedCell(t.rows[j][a])]))
  {
    var f := FilteredByIdentifiers(t).value;
    FilteredByIdentifiersRows(t, a, d);
    forall i | 0 <= i < |f.rows|
      ensures |f.rows[i]| == |f.columns|
      ensures (IsPresent(f.rows[i][d]) ||
        (exists j :: 0 <= j < |t.rows| && HasPubMed(t.rows[j][a]) && f.rows[i] == t.rows[j][a := StrippedCell(t.rows[j][a])]))
    {
      assert f.rows[i] in f.rows;
      var j :| 0 <= j < |t.rows| && KeepsIdentifiers(d, a)(t.rows[j]) && f.rows[i] == CleanAt(a)(t.rows[j]);
      KeptRowShape(t.rows[j], d, a);
    }
  }

  /** A row kept by stage 2 has its DOI, or held "PubMed:" and had its identifiers cleaned. */
  lemma KeptRowShape(row: Row, d: nat, a: nat)
    requires d < |row| && a < |row| && d != a && KeepsIdentifiers(d, a)(row)
    ensures |CleanAt(a)(row)| == |row|
    ensures IsPresent(CleanAt(a)(row)[d]) || (HasPubMed(row[a]) && CleanAt(a)(row) == row[a := StrippedCell(row[a])])
  {
  }

  /** Stage 2 followed by stage 3: every row written has either a DOI and no
      identifiers, or no DOI and identifiers cleaned from a text that held "PubMed:". */
  lemma DoiTakesPrecedence(t: Frame, d: nat, a: nat)
    requires t.Rectangular()
    requires IndexOf(t.columns, DoiColumn) == Some(d) && IndexOf(t.columns, IdsColumn) == Some(a)
    ensures FilteredByIdentifiers(t).Ok? && FilteredByIdentifiers(t).value.Rectangular()
    ensures ClearedIds(FilteredByIdentifiers(t).value).Ok?
    ensures var out := ClearedIds(FilteredByIdentifiers(t).value).value;
      out.columns == t.columns &&
      forall i :: 0 <= i < |out.rows| ==>
        (IsPresent(out.rows[i][d]) && out.rows[i][a] == Missing) ||
        (out.rows[i][d] == Missing &&
         (exists j :: 0 <= j < |t.rows| && HasPubMed(t.rows[j][a]) && out.rows[i][a] == StrippedCell(t.rows[j][a])))
  {
    FilteredRowShapes(t, d, a);
    var f := FilteredByIdentifiers(t).value;
    var out := ClearedIds(f).value;
    forall i | 0 <= i < |out.rows|
      ensures (IsPresent(out.rows[i][d]) && out.rows[i][a] == Missing) ||
        (out.rows[i][d] == Missing &&
         (exists j :: 0 <= j < |t.rows| && HasPubMed(t.rows[j][a]) && out.rows[i][a] == StrippedCell(t.rows[j][a])))
    {
      if !IsPresent(f.rows[i][d]) {
        var j :| 0 <= j < |t.rows| && HasPubMed(t.rows[j][a]) && f.rows[i] == t.rows[j][a := StrippedCell(t.rows[j][a])];
        assert out.rows[i][a] == StrippedCell(t.rows[j][a]);
      }
    }
  }

  // ===========================================================================
  // Stage 4: remove_rows_with_dates_or_via

  /** Three parts that `int()` accepted, the first a day and the second a month. */
  predicate DateParts(day: Option<int>, month: Option<int>, year: Option<int>)
  {
    day.Some? && month.Some? && year.Some? && 1 <= day.value <= 31 && 1 <= month.value <= 12
  }

  /** `is_date_format` */
  predicate IsDateFormat(v: Cell)
  {
    v.Str? &&
    var parts := SplitOn(v.s, '/');
    |parts| == 3 && DateParts(ParseInt(parts[0]), ParseInt(parts[1]), ParseInt(parts[2]))
  }

  /** `contains_via_institution`: `re.match(r"via [a-zA-Z\s]+", s, re.IGNORECASE)`,
      so "via" in any case at the very start, one space, then a letter or whitespace. */
  predicate ContainsViaInstitution(v: Cell)
  {
    v.Str? && |v.s| >= 5 && ViaAt(v.s, 0) && v.s[3] == ' ' && (IsAsciiLetter(v.s[4]) || IsSpace(v.s[4]))
  }

  /** `contains_keyword`: one of the denylisted phrases occurs, case as written. */
  predicate ContainsKeyword(v: Cell)
  {
    v.Str? && exists k :: 0 <= k < |Keywords| && Contains(v.s, Keywords[k])
  }

  /** `astype(str)` on one cell. */
  function AsText(c: Cell): Cell
  {
    Str(AsStr(c))
  }

  /** A reference stage 4 removes, judged on its text. */
  predicate IsNoise(c: Cell)
  {
    IsDateFormat(AsText(c)) || ContainsViaInstitution(AsText(c)) || ContainsKeyword(AsText(c))
  }

  function NoNoiseAt(j: nat): Row -> bool
  {
    (row: Row) => j < |row| && !IsNoise(row[j])
  }

  /** What stage 4 writes: the rows whose reference is not noise, in their order. */
  function WithoutNoise(t: Frame): Result<Frame>
    requires t.Rectangular()
  {
    match IndexOf(t.columns, RefColumn)
    case None => Err(KeyError(RefColumn))
    case Some(j) => Ok(Frame(t.columns, Filter(t.rows, NoNoiseAt(j))))
  }

  /** `remove_rows_with_dates_or_via` */
  method RemoveRowsWithDatesOrVia(input: Frame) returns (output: Result<Frame>)
    requires input.Rectangular()
    ensures output == WithoutNoise(input)
  {
    var df := new DataFrame(input);
    var refs := df.Get(RefColumn);
    if refs.Err? {
      return Err(refs.error);
    }
    var text := Map(refs.value, AsText);
    var dateMask := Map(text, IsDateFormat);
    var viaMask := Map(text, ContainsViaInstitution);
    var keywordMask := Map(text, ContainsKeyword);
    var remove := Or(Or(dateMask, viaMask), keywordMask);
    var kept := df.Filtered(Not(remove));
    NoiseMaskSelects(input, IndexOf(input.columns, RefColumn).value);
    output := Ok(kept.Value());
  }

  /** The three masks of stage 4, or-ed and negated, select the rows `NoNoiseAt` keeps. */
  lemma NoiseMaskSelects(t: Frame, j: nat)
    requires t.Rectangular() && j < |t.columns|
    ensures var text := Map(ColumnAt(t, j), AsText);
      var remove := Or(Or(Map(text, IsDateFormat), Map(text, ContainsViaInstitution)), Map(text, ContainsKeyword));
      Select(t.rows, Not(remove)) == Filter(t.rows, NoNoiseAt(j))
  {
    ThreeMasksSelect(t, j, AsText, IsDateFormat, ContainsViaInstitution, ContainsKeyword, NoNoiseAt(j));
  }

  /** Rows selected by the negation of three or-ed masks over a rendered column
      are the rows that fail all three tests. */
  lemma ThreeMasksSelect(t: Frame, j: nat, render: Cell -> Cell, p1: Cell -> bool, p2: Cell -> bool, p3: Cell -> bool, keep: Row -> bool)
    requires t.Rectangular() && j < |t.columns|
    requires forall r: Row :: keep(r) == (j < |r| && !(p1(render(r[j])) || p2(render(r[j])) || p3(render(r[j]))))
    ensures var text := Map(ColumnAt(t, j), render);
      Select(t.rows, Not(Or(Or(Map(text, p1), Map(text, p2)), Map(text, p3)))) == Filter(t.rows, keep)
  {
    var text := Map(ColumnAt(t, j), render);
    var remove := Or(Or(Map(text, p1), Map(text, p2)), Map(text, p3));
    forall i | 0 <= i < |t.rows|
      ensures Not(remove)[i] == keep(t.rows[i])
    {
      assert |t.rows[i]| == |t.columns|;
      assert text[i] == render(t.rows[i][j]);
    }
    SelectByPredicate(t.rows, Not(remove), keep);
  }

  /** Stage 4 keeps exactly the rows whose reference is not noise, unchanged and in their order. */
  lemma WithoutNoiseRows(t: Frame, j: nat)
    requires t.Rectangular() && IndexOf(t.columns, RefColumn) == Some(j)
    ensures WithoutNoise(t).Ok?
    ensures var out := WithoutNoise(t).value;
      out.columns == t.columns &&
      IsSubsequence(out.rows, t.rows) &&
      (forall i :: 0 <= i < |t.rows| ==> (t.rows[i] in out.rows <==> !IsNoise(t.rows[i][j]))) &&
      (forall k :: 0 <= k < |out.rows| ==> j < |out.rows[k]| && !IsNoise(out.rows[k][j]))
  {
    var clean := (c: Cell) => !IsNoise(c);
    FilterByCell(t.rows, j, NoNoiseAt(j), clean);
  }

  /** Text made of three slash-free parts is a date exactly when the parts are
      whole numbers with the first in 1..31 and the second in 1..12; the third
      is any whole number. */
  lemma DateFormatOfParts(day: string, month: string, year: string)
    requires '/' !in day && '/' !in month && '/' !in year
    ensures IsDateFormat(Str(day + "/" + month + "/" + year)) <==> DateParts(ParseInt(day), ParseInt(month), ParseInt(year))
  {
    var parts := [day, month, year];
    assert Join(parts, '/') == day + "/" + month + "/" + year by {
      assert Join(parts[2..], '/') == year;
      assert Join(parts[1..], '/') == month + "/" + year;
    }
    SplitJoin(parts, '/');
  }

  /** A day, a month and a year printed with slashes between them form a date
      exactly when the day is in 1..31 and the month in 1..12; the year may be
      any whole number, negative ones included. */
  lemma PrintedDate(day: int, month: int, year: int)
    ensures IsDateFormat(Str(IntToString(day) + "/" + IntToString(month) + "/" + IntToString(year)))
            <==> 1 <= day <= 31 && 1 <= month <= 12
  {
    ParseIntRoundTrip(day);
    ParseIntRoundTrip(month);
    ParseIntRoundTrip(year);
    DateFormatOfParts(IntToString(day), IntToString(month), IntToString(year));
  }

  /** After "via" in any case and one space, a reference is a via note exactly
      when the next character is a letter or whitespace. */
  lemma ViaInstitutionAfterPrefix(via: string, name: string)
    requires |via| == 3 && ViaAt(via, 0)
    ensures ContainsViaInstitution(Str(via + " " + name)) <==> |name| > 0 && (IsAsciiLetter(name[0]) || IsSpace(name[0]))
  {
    var s := via + " " + name;
    assert s[3] == ' ';
    assert |name| > 0 ==> s[4] == name[0];
    assert ViaAt(s, 0) by {
      assert s[0] == via[0] && s[1] == via[1] && s[2] == via[2];
    }
  }

  /** A reference holding a denylisted phrase anywhere is noise. */
  lemma KeywordAnywhere(before: string, k: nat, after: string)
    requires k < |Keywords|
    ensures ContainsKeyword(Str(before + Keywords[k] + after))
    ensures IsNoise(Str(before + Keywords[k] + after))
  {
    var s := before + Keywords[k] + after;
    assert s[|before|..|before| + |Keywords[k]|] == Keywords[k];
    assert OccursAt(s, Keywords[k], |before|);
    ContainsIff(s, Keywords[k]);
  }

  /** A text with only digits and a leading minus holds no denylisted phrase. */
  lemma NumberHoldsNoKeyword(s: string)
    requires forall i :: 0 <= i < |s| ==> IsDigit(s[i]) || s[i] == '-'
    ensures !ContainsKeyword(Str(s))
  {
    forall k | 0 <= k < |Keywords|
      ensures !Contains(s, Keywords[k])
    {
      var kw := Keywords[k];
      assert |kw| > 0 && IsAsciiLetter(kw[0]);
      forall i: nat
        ensures !OccursAt(s, kw, i)
      {
        if i + |kw| <= |s| {
          assert s[i..i + |kw|][0] == s[i];
        }
      }
      ContainsIff(s, kw);
    }
  }

  /** Missing references (read as "nan") and numeric ones are never noise. */
  lemma NonTextNeverNoise(n: int)
    ensures !IsNoise(Missing)
    ensures !IsNoise(Num(n))
  {
    forall k | 0 <= k < |Keywords|
      ensures !Contains("nan", Keywords[k])
    {
      if Contains("nan", Keywords[k]) {
        ContainsLength("nan", Keywords[k]);
      }
    }
    var s := IntToString(n);
    NumberHoldsNoKeyword(s);
    assert '/' !in s;
    assert '/' !in "nan";
  }

  // ===========================================================================
  // Stage 5: remove_via_notes_from_funder_reference

  /** `remove_via_notes`: text loses its via notes and bracketed groups; any
      other value is returned as it is. */
  function RemoveViaNotes(c: Cell): Cell
  {
    if c.Str? then Str(RemoveViaNotesText(c.s)) else c
  }

  /** What stage 5 writes: every reference passed through `remove_via_notes`. */
  function ViaNotesRemoved(t: Frame): Result<Frame>
    requires t.Rectangular()
  {
    match IndexOf(t.columns, RefColumn)
    case None => Err(KeyError(RefColumn))
    case Some(j) =>
      Ok(Frame(t.columns, seq(|t.rows|, i requires 0 <= i < |t.rows| => t.rows[i][j := RemoveViaNotes(t.rows[i][j])])))
  }

  /** `remove_via_notes_from_funder_reference` */
  method RemoveViaNotesFromFunderReference(input: Frame) returns (output: Result<Frame>)
    requires input.Rectangular()
    ensures output == ViaNotesRemoved(input)
  {
    var df := new DataFrame(input);
    var refs := df.Get(RefColumn);
    if refs.Err? {
      return Err(refs.error);
    }
    df.Assign(RefColumn, Map(refs.value, RemoveViaNotes));
    var j := IndexOf(input.columns, RefColumn).value;
    assert df.rows == seq(|input.rows|, i requires 0 <= i < |input.rows| =>
      input.rows[i][j := RemoveViaNotes(input.rows[i][j])]);
    output := Ok(df.Value());
  }

  /** Stage 5 keeps every row and every other column; each reference only loses
      characters, and text without '(' and without "via" before whitespace is kept whole. */
  lemma ViaNotesRemovedCells(t: Frame, j: nat)
    requires t.Rectangular() && IndexOf(t.columns, RefColumn) == Some(j)
    ensures ViaNotesRemoved(t).Ok?
    ensures var out := ViaNotesRemoved(t).value;
      out.columns == t.columns && |out.rows| == |t.rows| &&
      forall i :: 0 <= i < |t.rows| ==>
        |out.rows[i]| == |t.rows[i]| &&
        (forall k :: 0 <= k < |t.rows[i]| && k != j ==> out.rows[i][k] == t.rows[i][k]) &&
        (!t.rows[i][j].Str? ==> out.rows[i][j] == t.rows[i][j]) &&
        (t.rows[i][j].Str? ==> out.rows[i][j].Str? && IsSubsequence(out.rows[i][j].s, t.rows[i][j].s))
  {
    var out := ViaNotesRemoved(t).value;
    forall i | 0 <= i < |t.rows| && t.rows[i][j].Str?
      ensures IsSubsequence(out.rows[i][j].s, t.rows[i][j].s)
    {
      RemoveViaNotesDeletes(t.rows[i][j].s);
    }
  }

  /** `remove_via_notes` returns a non-text value, and a text with no '(' and no
      "via" (any case) followed by whitespace, unchanged. */
  lemma RemoveViaNotesKeeps(c: Cell)
    requires c.Str? ==>
      (forall k :: 0 <= k < |c.s| ==> c.s[k] != '(') &&
      (forall k: nat :: ViaAt(c.s, k) && k + 3 < |c.s| ==> !IsSpace(c.s[k + 3]))
    ensures RemoveViaNotes(c) == c
  {
    if c.Str? {
      RemoveViaNotesKeepsPlainText(c.s);
    }
  }
}
