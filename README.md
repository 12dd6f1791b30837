# Researchfish clean-up and funder matching, modelled in Dafny

This project models the table logic of three Python scripts. They clean a
Researchfish export and match its funding organisations against a reference
list of funders.

- **PuretoResearchfish.py** runs five cleaning stages over a table:
  1. `handle_funder_project_reference` turns "N/A" spellings into missing
     values, then drops rows without a "Funder Project Reference".
  2. `filter_by_dois_and_additional_ids` keeps rows with a DOI or a "PubMed:"
     identifier, and strips the leading "PubMed:" prefix.
  3. `clear_additional_ids_if_doi_present` clears the secondary identifier
     wherever a DOI is present.
  4. `remove_rows_with_dates_or_via` drops rows whose reference looks like a
     date, starts with "via …", or contains one of five denylisted phrases.
  5. `remove_via_notes_from_funder_reference` deletes "(via …)" and "via …"
     notes, then, in one pass, every innermost parenthesised group, from the
     reference text.
- **PureAddFunder.py**:
  - `fuzzy_match_name` accepts the best-scoring reference name when its score
    is at least 90.
  - `process_files`:
    - checks the reference sheet's columns;
    - builds the candidate list and the name→funder-ID dictionary;
    - adds "Matched Name" and "RF Funder ID";
    - drops unmatched rows;
    - renames "Matched Name" to "Name" and moves it to the last column.
- **utils.py**: `get_unique_output_file` picks the first output path of the
  form `base+suffix+ext`, `base+suffix+separator+"1"+ext`, … that does not
  exist. The suffix and the separator are parameters of the model. The
  defaults `"-comparison"` and `"_"` are not modelled. The only caller passes
  the suffix `"_processed"` (PureAddFunder.py:98).

How the model is built:
- A table is a `Frame`: a header (`seq<string>`) and rows of `Cell`s.
  - A cell is `Missing` (NaN/None), `Str(s)` or `Num(n)`.
  - A column is found at the first position of its label.
- Each stage is a method over the `DataFrame` class (`frames.dfy`). The method
  takes the same pandas steps in the same order as the script:
  - column assignment (`df[c] = …`);
  - boolean-mask selection (`df[mask]`);
  - masked assignment (`df.loc[mask, c] = …`);
  - `dropna`, `rename`, and column reordering.
- Each method is proved equal to a function defined row by row
  with `Filter` and `Map`. Lemmas then state what the stage means:
  - which rows survive, and that they keep their order;
  - which cells change;
  - which error is raised when a column is absent.
- Three things are inputs, not code:
  - the file system is a finite set of existing paths;
  - the fuzzywuzzy similarity scorer is any function into [0, 100];
  - the regular expressions are written out as scanners over the text
    (`via_notes.dfy`).

## Model

| member | source | states |
|---|---|---|
| ResearchfishCleaning.NaHandler | PuretoResearchfish.py:38-41 | a cell becomes missing exactly when it is missing or a string whose lower-case form is "n/a" or "na"; every other cell is returned unchanged |
| ResearchfishCleaning.NaTokenSpellings | PuretoResearchfish.py:39 | the strings turned into missing values are exactly the eight spellings of "n/a" and "na" |
| ResearchfishCleaning.HandleFunderProjectReference | PuretoResearchfish.py:33-53 | the stage (normalise the reference column, return early without it, drop rows with a missing reference) equals `HandledReferences`: no output without the column, else the rows whose reference is present and not an N/A token |
| ResearchfishCleaning.HandledReferences | PuretoResearchfish.py:33-53 | stage 1's result: `None` without the reference column, else the header kept and the rows whose reference is present and not an N/A token, in order (its meaning is `HandledReferencesRows`) |
| ResearchfishCleaning.NormalisedOnlyReference | PuretoResearchfish.py:44 | the N/A normalisation changes only cells of "Funder Project Reference"; the table is unchanged when that column is absent |
| ResearchfishCleaning.DroppedWithoutReference | PuretoResearchfish.py:52-53 | after normalisation, `dropna` keeps exactly the rows whose original reference is present and not an N/A token |
| ResearchfishCleaning.HandledReferencesRows | PuretoResearchfish.py:47-53 | no output without the column; otherwise the survivors are a subsequence of the input, an input row survives iff its reference is present, and every survivor has a reference |
| ResearchfishCleaning.FilterByDoisAndAdditionalIds | PuretoResearchfish.py:60-77 | the fill, the two masks, the selection and the masked prefix strip equal `FilteredByIdentifiers`, KeyErrors included |
| ResearchfishCleaning.FilteredByIdentifiers | PuretoResearchfish.py:60-77 | stage 2's result: KeyError for the identifiers column, then for the DOI column, else the kept rows in order with their identifier cleaned (its meaning is `FilteredByIdentifiersRows`) |
| ResearchfishCleaning.IdentifierStepsAgree | PuretoResearchfish.py:64-77 | the four pandas steps equal "keep the rows with a DOI or 'PubMed:', then clean their identifier cell" |
| ResearchfishCleaning.FilteredByIdentifiersErrors | PuretoResearchfish.py:65-68 | KeyError on "Additional source IDs" iff that column is absent, then on the DOI column iff it is absent; success otherwise |
| ResearchfishCleaning.FilteredByIdentifiersRows | PuretoResearchfish.py:67-74 | output rows come in input order, every kept row appears cleaned, and every output row is the cleaned form of a kept input row |
| ResearchfishCleaning.KeepsIdentifiersMeans | PuretoResearchfish.py:65-74 | a row is kept iff its DOI is present or its identifier text contains "PubMed:" (case-sensitive), a missing identifier counting as "" |
| ResearchfishCleaning.CleanAtChangesIdentifiersOnly | PuretoResearchfish.py:65-77 | only the identifier cell changes: a missing one becomes "", a "PubMed:" one loses its prefix, any other stays as it was |
| ResearchfishCleaning.StripPubMedPrefix | PuretoResearchfish.py:77 | the result is a suffix of the input |
| ResearchfishCleaning.StripPubMedPrefixRemoves | PuretoResearchfish.py:77 | leading whitespace, "PubMed:" and the whitespace after it are removed, the rest is kept |
| ResearchfishCleaning.StripPubMedPrefixKeeps | PuretoResearchfish.py:77 | text that does not start (after whitespace) with "PubMed:" is left intact, including its leading whitespace |
| ResearchfishCleaning.ClearAdditionalIdsIfDoiPresent | PuretoResearchfish.py:84-96 | the masked assignment of NaN equals `ClearedIds`, including the KeyError for a missing DOI column |
| ResearchfishCleaning.ClearedIds | PuretoResearchfish.py:84-96 | stage 3's result: KeyError without the DOI column; on success rectangular with the input's row count (cells: `ClearedIdsCells`) |
| ResearchfishCleaning.ClearStepAgrees | PuretoResearchfish.py:92-96 | `loc[mask, ids] = NaN` with the DOI-present mask equals the row-wise clearing |
| ResearchfishCleaning.ClearedIdsCells | PuretoResearchfish.py:92-96 | same header and row count; the identifier cell is missing where the DOI is present and unchanged elsewhere; every other cell is unchanged |
| ResearchfishCleaning.ClearedIdsExclusive | PuretoResearchfish.py:95-96 | no output row has both a DOI and a secondary identifier |
| ResearchfishCleaning.FilteredRowShapes | PuretoResearchfish.py:67-77 | every row kept by the DOI/PubMed filter has a DOI, or is an input row with "PubMed:" whose identifier was cleaned |
| ResearchfishCleaning.KeptRowShape | PuretoResearchfish.py:67-77 | a kept row keeps its DOI, or held "PubMed:" and only its identifier cell was cleaned |
| ResearchfishCleaning.DoiTakesPrecedence | PuretoResearchfish.py:60-96 | after the filter and the clearing stage, each row has a DOI and no identifier, or no DOI and a cleaned "PubMed:" identifier |
| ResearchfishCleaning.RemoveRowsWithDatesOrVia | PuretoResearchfish.py:102-151 | the three masks over `astype(str)` and the negated selection equal `WithoutNoise`, KeyError included |
| ResearchfishCleaning.WithoutNoise | PuretoResearchfish.py:102-151 | stage 4's result: KeyError without the reference column, else the rows whose reference is not noise, in order (its meaning is `WithoutNoiseRows`) |
| ResearchfishCleaning.IsDateFormat | PuretoResearchfish.py:107-119 | `is_date_format` on a cell's text: three '/'-separated parts that `int()` accepts, day 1..31, month 1..12 (its meaning is `DateFormatOfParts`) |
| ResearchfishCleaning.ContainsViaInstitution | PuretoResearchfish.py:122-126 | `contains_via_institution`: "via" in any case at the start, a space, then a letter or whitespace (its meaning is `ViaInstitutionAfterPrefix`) |
| ResearchfishCleaning.ContainsKeyword | PuretoResearchfish.py:129-139 | `contains_keyword`: one of the five phrases occurs, case as written (its meaning is `KeywordAnywhere`) |
| ResearchfishCleaning.NoiseMaskSelects | PuretoResearchfish.py:141-151 | selecting by `~(date \| via \| keyword)` keeps exactly the rows whose reference is not noise |
| ResearchfishCleaning.WithoutNoiseRows | PuretoResearchfish.py:141-151 | same header; survivors are an order-preserving subsequence; an input row survives iff its reference is not date-like, not "via …" and holds no keyword |
| ResearchfishCleaning.DateFormatOfParts | PuretoResearchfish.py:107-119 | "d/m/y" with slash-free parts is date-like iff all three parse with `int` and 1 ≤ d ≤ 31 and 1 ≤ m ≤ 12 (the year is not checked) |
| ResearchfishCleaning.PrintedDate | PuretoResearchfish.py:107-119 | three printed integers joined by "/" are date-like exactly when the day is in 1..31 and the month in 1..12 |
| ResearchfishCleaning.ViaInstitutionAfterPrefix | PuretoResearchfish.py:122-126 | "via" in any case followed by a space matches iff what follows starts with an ASCII letter or whitespace |
| ResearchfishCleaning.KeywordAnywhere | PuretoResearchfish.py:129-139 | a reference holding one of the five phrases anywhere is noise |
| ResearchfishCleaning.NumberHoldsNoKeyword | PuretoResearchfish.py:129-144 | a printed number contains none of the phrases |
| ResearchfishCleaning.NonTextNeverNoise | PuretoResearchfish.py:142-144 | a missing or numeric reference (printed as "nan" or digits) is never noise |
| ResearchfishCleaning.RemoveViaNotesFromFunderReference | PuretoResearchfish.py:158-172 | replacing the column with its cleaned cells equals `ViaNotesRemoved`, KeyError included |
| ResearchfishCleaning.ViaNotesRemoved | PuretoResearchfish.py:158-172 | stage 5's result: KeyError without the reference column, else every reference passed through `remove_via_notes` (its meaning is `ViaNotesRemovedCells`) |
| ResearchfishCleaning.RemoveViaNotes | PuretoResearchfish.py:163-169 | a text cell goes through `RemoveViaNotesText`; any other cell is returned unchanged, as the `isinstance` test at line 164 does (its meaning is `RemoveViaNotesKeeps` and `ViaNotesRemovedCells`) |
| ResearchfishCleaning.ViaNotesRemovedCells | PuretoResearchfish.py:163-172 | only the reference column changes; non-text cells stay as they are; a text cell becomes a subsequence of itself |
| ResearchfishCleaning.RemoveViaNotesKeeps | PuretoResearchfish.py:163-169 | text with no "(" and no "via" followed by whitespace is returned unchanged, and so is every non-text value |
| ViaNotes.RemoveViaNotesText | PuretoResearchfish.py:163-169 | `remove_via_notes` on text: the line-166 substitution, then the line-168 one, in that order (its meaning is `RemoveViaNotesDeletes`) |
| ViaNotes.DropViaNotes | PuretoResearchfish.py:166 | one left-to-right pass of the via-note pattern, deleting each match and copying the characters where none starts (its meaning is `DropViaNotesDeletes` and `DropViaNotesCopies`) |
| ViaNotes.DropGroups | PuretoResearchfish.py:168 | one left-to-right pass of `\([^()]*\)`, so only innermost groups go: "(a (b) c)" becomes "(a  c)" (its meaning is `DropGroupsDeletes` and `DropGroupsCopies`) |
| ViaNotes.RemoveViaNotesDeletes | PuretoResearchfish.py:166-168 | both substitutions only delete characters: the result is a subsequence of the input, never longer |
| ViaNotes.RemoveViaNotesKeepsPlainText | PuretoResearchfish.py:166-168 | with no "(" and no "via"+whitespace, neither substitution changes the text |
| ViaNotes.ViaNoteAfterCodeRemoved | PuretoResearchfish.py:166-168 | a reference code followed by " (via Word)" or " via Word" comes back as the bare code |
| ViaNotes.ParenNoteMatches | PuretoResearchfish.py:166 | the first alternative matches " (via Word)" through its closing parenthesis |
| ViaNotes.InlineNoteMatches | PuretoResearchfish.py:166 | the second alternative matches " via Word" to the end |
| ViaNotes.CodeHasNoMatch | PuretoResearchfish.py:166 | inside a code without whitespace, parentheses or "via", no match starts before the note |
| ViaNotes.CodeCopied | PuretoResearchfish.py:166 | the scan copies such a code unchanged and then continues at the note |
| ViaNotes.DropViaNotesDeletes | PuretoResearchfish.py:166 | the first substitution's result is a subsequence of the text scanned |
| ViaNotes.DropGroupsDeletes | PuretoResearchfish.py:168 | the second substitution's result is a subsequence of the text scanned |
| ViaNotes.DropViaNotesCopies | PuretoResearchfish.py:166 | a stretch where no match starts is copied verbatim |
| ViaNotes.DropGroupsCopies | PuretoResearchfish.py:168 | text with no "(" is copied verbatim by the second substitution |
| ViaNotes.NoNoteNoMatch | PuretoResearchfish.py:166 | without "(" and without "via"+whitespace, no match starts anywhere |
| ViaNotes.NextParen | PuretoResearchfish.py:166 | `[^()]*` stops at the first parenthesis, with none before it |
| ViaNotes.WordRun | PuretoResearchfish.py:166 | `[^\s()]+` takes the longest run without whitespace or parentheses |
| Strings.Strip | PureAddFunder.py:71 | the result neither starts nor ends with whitespace |
| Strings.StripSurrounded | PureAddFunder.py:71 | stripping removes exactly the surrounding whitespace and keeps the inner text |
| Strings.SplitOn | PuretoResearchfish.py:110 | `split('/')` gives at least one piece, none holding '/', and joining them back gives the input |
| Strings.SplitJoin | PuretoResearchfish.py:110 | splitting slash-free pieces joined by '/' gives the pieces back |
| Strings.ParseInt | PuretoResearchfish.py:114 | `int(s)` on text: surrounding whitespace, an optional sign, then digits with single underscores allowed between two of them; `None` where Python raises `ValueError` (its meaning is `ParseIntRoundTrip`) |
| Strings.ParseIntRoundTrip | PuretoResearchfish.py:114 | `int(str(n)) == n` for every integer |
| Strings.ContainsIff | PuretoResearchfish.py:139 | the substring test holds exactly when the pattern occurs at some index |
| Strings.NatToStringInjective | utils.py:20 | different counters print differently |
| Frames.Column | PuretoResearchfish.py:68 | reading a column fails with KeyError exactly when the label is absent, and otherwise gives one cell per row |
| Frames.FillEmpty | PuretoResearchfish.py:65 | `fillna("")` never yields a missing cell and keeps present cells |
| Frames.Select | PuretoResearchfish.py:74 | boolean indexing keeps as many rows as the mask has true entries |
| Frames.SelectByPredicate | PuretoResearchfish.py:74 | a mask computed from a row predicate selects what filtering by that predicate keeps |
| Frames.DropMissingRows | PuretoResearchfish.py:53 | `dropna(subset=[c])` keeps exactly the rows whose cell in `c` is present |
| Frames.FilterSubsequence | PuretoResearchfish.py:151 | filtering keeps the survivors in their order |
| Frames.FilterMembers | PuretoResearchfish.py:151 | an element survives a filter iff it is in the input and passes the test |
| Frames.FilterLength | PureAddFunder.py:86 | a filter never lengthens a table, and keeps every row exactly when all pass |
| Frames.Assigned | PuretoResearchfish.py:65 | `df[c] = v` keeps the row count and the header when `c` exists, and appends `c` to the header otherwise |
| Frames.AssignedReadBack | PureAddFunder.py:80-83 | reading a column back after assigning it gives the values assigned |
| Frames.AssignedNew | PureAddFunder.py:80-83 | assigning a column the table lacks appends one cell to every row |
| Frames.MovedLastHeader | PureAddFunder.py:92-93 | after reordering, the header is the non-"Name" labels in order followed by the "Name" labels, so "Name" is last |
| Frames.NameLastSwapsAppended | PureAddFunder.py:92-93 | reordering a row with appended "Name" and "RF Funder ID" cells swaps those two and keeps the rest |
| Frames.DataFrame.Filtered | PuretoResearchfish.py:151 | `df[mask]` returns a fresh table holding `Where` of the old one: the rows whose mask entry is true, in order |
| Frames.DataFrame.SetColumns | PureAddFunder.py:71 | the header is replaced, the rows unchanged |
| Frames.DataFrame.Get | PuretoResearchfish.py:68 | `df[c]` returns the column or its KeyError and changes nothing |
| Frames.DataFrame.Assign | PuretoResearchfish.py:65 | `df[c] = v` overwrites the column, or appends it when absent |
| Frames.DataFrame.AssignWhere | PuretoResearchfish.py:77 | `df.loc[mask, c] = v` writes only masked rows; a new column is missing elsewhere |
| Frames.DataFrame.DropMissing | PuretoResearchfish.py:53 | `dropna(subset=[c])` returns a new table holding the rows whose cell in `c` is present |
| Frames.DataFrame.Rename | PureAddFunder.py:89 | `rename` returns a new table with every matching label replaced |
| Frames.DataFrame.MoveLast | PureAddFunder.py:92-93 | the reorder returns a new table with the "Name" columns last |
| AddFunder.ExtractOne | PureAddFunder.py:53 | no result iff there are no choices; otherwise a choice with its own score, no choice scoring higher, and no earlier choice scoring as high |
| AddFunder.FuzzyMatchName | PureAddFunder.py:52-57 | a match is a candidate scoring at least the threshold; no match means every candidate scores below it |
| AddFunder.FuzzyMatchNameMeans | PureAddFunder.py:52-57 | a match exists iff some candidate scores ≥ the threshold (90 is enough); the match is a best candidate, the first among ties; none for an empty list |
| AddFunder.MatchOrganisationMeans | PureAddFunder.py:80-82 | a missing organisation is matched as ""; the matched name is a candidate scoring ≥ 90, and a cell stays unmatched iff every candidate scores below 90 |
| AddFunder.Distinct | PureAddFunder.py:75 | `unique()` keeps each value once and loses none; the result is a subsequence of the input, and of any two results the earlier one occurs in the input before the first occurrence of the later one (first-appearance order) |
| AddFunder.CandidateNames | PureAddFunder.py:75 | `Name.dropna().astype(str).unique().tolist()`: the present names' texts, each once, in order of first appearance (its meaning is `CandidateNamesMembers`) |
| AddFunder.CandidateNamesMembers | PureAddFunder.py:75 | the candidates are exactly the texts of the present names, without duplicates |
| AddFunder.Zip | PureAddFunder.py:76 | `dict(zip(names, ids))`: pairs entered left to right (its meaning is `ZipKeys` and `ZipLastWins`) |
| AddFunder.LookupIn | PureAddFunder.py:83 | `Series.map(d)` on one cell: the value stored for the key, missing for an unknown key |
| AddFunder.MatchOrganisation | PureAddFunder.py:80-82 | the "Matched Name" cell: `fillna("")`, `astype(str)`, then `fuzzy_match_name` at 90, missing when there is no match (its meaning is `MatchOrganisationMeans`) |
| AddFunder.ZipKeys | PureAddFunder.py:76 | the dictionary's keys are exactly the names |
| AddFunder.ZipLastWins | PureAddFunder.py:76 | a repeated name maps to the ID of its last occurrence |
| AddFunder.FunderIdOfMeans | PureAddFunder.py:76-83 | the ID looked up for a matched name is the one beside its last occurrence, missing when it does not occur |
| AddFunder.FunderIdOfZip | PureAddFunder.py:76-83 | `Series.map(dict)` on a matched name gives that ID |
| AddFunder.StrippedHeaders | PureAddFunder.py:71 | stripping the headers keeps the table rectangular |
| AddFunder.Processed | PureAddFunder.py:71-73 | ValueError iff "Name" or "RF Funder ID" is absent after stripping the headers; otherwise KeyError iff the organisation column is absent; success otherwise |
| AddFunder.ProcessFiles | PureAddFunder.py:59-95 | stripping the reference sheet's headers and running the matching steps on `DataFrame`s equals `Processed`, both errors included |
| AddFunder.AddMatches | PureAddFunder.py:80-93 | the assignments, `dropna`, `rename` and reorder equal `WithMatches` |
| AddFunder.WithMatches | PureAddFunder.py:80-93 | the steps after the organisation column is read: both columns assigned, unmatched rows dropped, "Matched Name" renamed "Name" and moved last (its meaning is `WithMatchesShape` and `ProcessedCommonCase`) |
| AddFunder.ProcessedShape | PureAddFunder.py:86-93 | on success the output is rectangular, has no more rows than the input, and its last column is "Name" |
| AddFunder.WithMatchesShape | PureAddFunder.py:86-93 | the same, for the steps after the organisation column is read |
| AddFunder.ProcessedCommonCase | PureAddFunder.py:71-93 | when the input lacks the three added columns, the output header is the input's plus "RF Funder ID" then "Name", and the rows are the matched input rows in order, each with its ID and name appended |
| AddFunder.MatchedRowsNamed | PureAddFunder.py:86-89 | every output row is an input row plus two cells, the last a present name; never more output rows than input rows |
| OutputPaths.SplitExt | utils.py:15 | base and extension concatenate to the path; an extension starts with '.' and holds no other '.' and no separator |
| OutputPaths.SplitExtFinds | utils.py:15 | a last component "stem.ext", with a stem that is not all dots, splits at that dot |
| OutputPaths.SplitExtNone | utils.py:15 | a last component without '.' gives no extension |
| OutputPaths.Candidate | utils.py:16-20 | the `n`-th name tried: `base+suffix+ext` for 0, `base+suffix+separator+str(n)+ext` after that (its meaning is `CandidateDistinct`) |
| OutputPaths.CandidateDistinct | utils.py:16-20 | different counters give different names, so the loop cannot revisit a name |
| OutputPaths.GetUniqueOutputFile | utils.py:3-23 | the result does not exist; it is the first candidate not in the set, with every earlier one existing; it is `base+suffix+ext` when that is free; it starts with `base+suffix` and ends with `ext`; the loop terminates on a finite set |

## Left out

- `remove_via_notes` does not strip its result (PuretoResearchfish.py:163-169),
  so spaces around a removed group stay; neither does the model.
- No step of the scripts splits one compound reference into two rows, so the
  model has none.
- OutputPaths.SplitExt: models Windows' `ntpath.splitext`, where `\` and `/`
  both separate path components. On POSIX, `posixpath.splitext` treats `\` as
  an ordinary character, so `d\.x` has the extension `.x` there but none in
  the model.
- File I/O: `read_excel`/`to_excel`, the temporary file between stages, the
  `print` messages, `input()` prompts and the `main` functions. Each stage
  takes and returns a value table instead.
- The round trip through Excel between stages is not modelled. For example,
  an empty string written by one stage may be read back as missing by the
  next.
- `remove_duplicates_from_excel` drives Excel through COM and a shell `copy`.
  It is a foreign call.
- `select_files`, `select_sheet`, `save_output` and the logging setup are UI
  and plumbing. run_program.py is not part of this model: it is a menu that
  launches processes.
- The scoring of fuzzywuzzy's `process.extractOne` is a library that is not
  shown. The model takes it as a parameter: any function giving scores in
  [0, 100]. It keeps only `extractOne`'s choice of the first best-scoring
  candidate.
- Floating-point cells and dates:
  - Numbers are integers, printed by `str(int)`.
  - A float cell (e.g. "1.0") and a datetime cell are not modelled.
  - So an ID column read as floats prints differently.
- Case-insensitive matching folds ASCII letters only. `int()` accepts ASCII
  digits only. Python's full Unicode case folding and Unicode digits are not
  modelled.
- Pandas raises `AttributeError` when `.str.contains` runs on a column with
  no text cells at all. The model treats such cells as "no match".
- Duplicate column labels are not modelled:
  - A label is looked up at its first position (`read_excel` de-duplicates
    headers).
  - Headers that collide only after `str.strip()` are not distinguished.
  - The reorder in `process_files` is the exception: it does move every
    "Name" column.
- AddFunder.Zip: dictionary keys are compared as cells, and every missing
  cell is one key. Python does the same for the one shared NaN object of a
  text column. Distinct NaN objects, as in a float "Name" column with two or
  more blanks, stay apart in the dictionary. `Series.map(dict)` at
  PureAddFunder.py:83 then builds an index with repeated NaN labels and pandas
  raises `InvalidIndexError`. That error is not modelled, because float cells
  are not (see "Floating-point cells" above). For the cells the model has,
  only present names are looked up, so no output changes.
- ResearchfishCleaning.ClearedIds: on a table with no rows that has the DOI
  column but no "Additional source IDs" column, the model appends an empty
  identifiers column and succeeds. The scalar `np.nan` assignment at
  PuretoResearchfish.py:96 may instead raise pandas' `ValueError` ("cannot set
  a frame with no defined index and a scalar"), depending on the pandas
  version. That error is not modelled, and neither is
  `ClearAdditionalIdsIfDoiPresent`'s. Stage 2 never produces that input: it
  raises a `KeyError` without the identifiers column.
- Strings.ParseInt: accepts any number of digits. Recent Python versions
  (3.11 and the security releases of 3.7–3.10) raise `ValueError` for a
  decimal string of more than 4300 digits. The model does not. So a reference
  like "1/1/" followed by 4301 ones is a date for `IsDateFormat` and is
  dropped by stage 4. `is_date_format` would catch the error and keep it.
  `ParseIntRoundTrip` and `PrintedDate` hold for such long numbers in the
  model only.
- AddFunder.StrippedHeaders: header labels are strings. `read_excel` can
  give a non-string label (a numeric header cell). `columns.str.strip()`
  turns such a label into NaN, or raises `AttributeError` when no label is
  text. Neither is modelled.
- A numeric "Name" in the reference sheet is a number key in the
  dictionary. The lookup uses the matched text, so such a name gets no funder
  ID (`FunderIdOfMeans` shows the ID is then missing). The model keeps this
  behaviour of the code.
- Concurrency and the real file system: `os.path.exists` is membership in a
  finite set of paths, fixed while the loop runs.
