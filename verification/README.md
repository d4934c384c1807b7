# Body replication: a verified model of the reconciliation script

The script rewrites the product-model identifiers in the key columns of a
main worksheet. Each identifier of the source variation ("s2") is replaced by
the identifier of the target variation ("s3") of the same abbreviation code.
It reads three sheets:

- the abbreviation sheet: code, variation and description;
- the mapping sheet: a model number and a `ProductModelID`;
- the main sheet, whose columns named `Key…` hold identifiers.

The model follows the script stage by stage. Each stage is one Dafny module:

- `Tables`: cells (blank, i.e. pandas NaN, or text), tables, the fatal errors
  and the Python and pandas helpers the script relies on.
- `Loader`: header renaming, blank-row removal and the mapping-sheet schema
  check.
- `Variation`: the case-insensitive "s3" and "s2" subsets and the
  duplicate-code report.
- `Translation`: the first-wins code → description maps, the last-wins
  model number → identifier lookup, and the pair-builder loop.
- `Substitution`: key-column selection and the find-and-replace engine with
  its log.
- `Writer`: the rebuilt sheet (a class whose cell values and highlight set
  are updated in place).
- `Pipeline`: the whole run. Every fatal condition is an `Err` result, in the
  script's order.

Each loop of the modelled stages is a method with loop invariants, proved
against a specification:

- `Translation.BuildPairs` against `PairsOf` and `MissesOf`, functions
  recursive on the prefix of the codes;
- `Substitution.Substitute` against `GridAfterPairs` and `LogAfterPairs`,
  functions recursive on the prefix of the pairs and of the key columns;
- `Writer.WriteSheet` against the predicate `Shows` (the sheet holds exactly
  the header and the rows) and the set `Highlights` (the logged cells).

Selections (`dropna`, the variation masks, the list comprehension of missing
columns) are `Tables.Filter`, specified by `Tables.KeptPositions`: the
selection is the input at the increasing positions whose element is kept.
This states the order the selection keeps as well as its contents.

The properties the script promises are lemmas about those functions. Among
them:

- a cell changes only if it is a key cell whose text equals a pair's old
  value exactly;
- every changed cell is logged and highlighted;
- every record names a key cell that held the pair's old value when that pair
  was applied;
- pairs apply in sequence, so chained pairs rewrite a cell twice;
- a second run with the same pairs is a no-op when no new value is an old
  value.

The description→identifier lookup is keyed by the mapping sheet's
`ModelNumber` column, as `main.py:93` is written. The comment above it
(`main.py:92`) calls it a map from descriptions, and the schema check
(`main.py:59-62`) requires a `Description` column. The model follows the
code. A mapping sheet without `ModelNumber` passes the schema check and then
fails with `ColumnNotFound("ModelNumber")`.

## Model

| member | source | states |
|---|---|---|
| Tables.CellText | main.py:65 | `astype(str)`: a text cell reads as its text, and the text is "nan" exactly for a blank cell or a cell holding "nan" |
| Tables.StartsWith | main.py:123 | `str.startswith`: the prefix is no longer than the text and matches it character by character |
| Tables.LowerChar | main.py:68-74 | ASCII folding of one character: an upper-case letter becomes the letter 32 code points above, every other character is kept, and no upper-case letter results |
| Tables.Lower | main.py:68-74 | folding of a text for `case=False`: same length, no upper-case letter left |
| Tables.LowerIdempotent | main.py:68-74 | folding a folded text changes nothing |
| Tables.Contains | main.py:68 | substring test: the empty needle is contained, and a contained needle is no longer than the text |
| Tables.ContainsIgnoreCase | main.py:68-74 | case-insensitive substring test with the same two properties |
| Tables.KeptPositions | main.py:49 | the positions of the kept elements: each kept, strictly increasing, and no kept position omitted |
| Tables.Filter | main.py:49 | a mask selection: as many elements as kept positions, the k-th being the element at the k-th kept position |
| Tables.FilterMembers | main.py:49 | an element is selected iff it occurs in the input and is kept |
| Tables.FilterCounts | main.py:49 | a kept element occurs in the selection as often as in the input |
| Tables.FilterAll | main.py:49 | a mask that keeps every element selects the input itself |
| Tables.FirstIndex | main.py:98 | the position of an element's first occurrence |
| Tables.FirstIndexAppend | main.py:98 | appending an element does not move any first occurrence |
| Tables.Distinct | main.py:98 | `unique()`: the same elements as the input, none repeated, listed in the order of their first occurrence in the input, no longer than the input |
| Loader.NormalizeHeaders | main.py:39-42 | fails with `TooFewColumns(n)` exactly when the sheet has fewer than 3 headers; otherwise same length, first three renamed code/variation/description, the rest unchanged |
| Loader.AllBlank | main.py:49 | the `how='all'` test: a row has a value iff some cell is not blank; an empty row has none |
| Loader.DropEmptyRows | main.py:49 | keeps exactly the rows with a non-blank cell, in their original order (the i-th kept row is the row at the i-th position holding a value), each as often as it occurred; a sheet without all-blank rows is returned unchanged |
| Loader.AbbrRows | main.py:40 | row i is read as (code, variation, description) = its first three cells |
| Loader.LoadAbbreviations | main.py:37-49 | error exactly when fewer than 3 columns, carrying the column count found; otherwise the cleaned rows under the canonical names |
| Loader.MissingRequired | main.py:59-62 | lists exactly the required columns absent from the mapping sheet, in the order of the required list; empty iff `Description` and `ProductModelID` are both present |
| Loader.ColumnIndex | main.py:93 | None iff the header is absent; otherwise the first position holding it |
| Variation.VariationRows | main.py:64-78 | exactly the rows whose variation text contains the tag ignoring case, in their original order (the i-th row of the subset is the sheet row at the i-th tagged position), with their multiplicities; empty iff no row carries the tag |
| Variation.NanCarriesNoTag | main.py:65-74 | the text "nan" of a blank variation contains neither tag |
| Variation.HasTag | main.py:65-74 | a row with a blank variation carries neither the s3 nor the s2 tag, as `na=False` after `astype(str)` gives |
| Variation.Codes | main.py:81-98 | the code column of a subset, row for row |
| Variation.DuplicateCodes | main.py:81-86 | no code is reported twice |
| Variation.DuplicateCodesExact | main.py:81-86 | a code is reported iff it occurs at least twice in the subset |
| Translation.FirstDescriptions | main.py:89-90 | the keys are exactly the non-blank codes of the subset |
| Translation.FirstDescriptionWins | main.py:89-90 | a code maps to the description of its earliest row that has one |
| Translation.FirstDescriptionBlank | main.py:89-90 | a code whose rows all lack a description maps to blank |
| Translation.NumberMap | main.py:93 | the keys are exactly the non-blank key cells |
| Translation.NumberMapLastWins | main.py:93 | a key maps to the identifier text of the last row carrying it |
| Translation.NumberLookup | main.py:93 | fails iff `ModelNumber` or `ProductModelID` is absent (naming the first missing one); otherwise the map from the `ModelNumber` cells to the `astype(str)` text of `ProductModelID` built row by row |
| Translation.NumberLookupLastWins | main.py:93 | a model number maps to the `ProductModelID` text of the last row carrying it |
| Translation.DescriptionOf | main.py:101-105 | `dict.get(code)` on the code → description map: present iff the code is a non-blank key whose description is not blank, and then that description |
| Translation.Resolve | main.py:101-107 | a code without a description resolves to nothing; a resolved code has a non-empty description known to the lookup, and resolves to a value of the lookup |
| Translation.PairFor | main.py:99-108 | a code yields a pair iff it resolves through both maps, and the pair holds the s2 and s3 identifiers |
| Translation.PairsOf | main.py:99-114 | no more pairs than codes, every pair made of identifiers of the lookup |
| Translation.PairsInCodeOrder | main.py:99-108 | the pairs are in the order of the codes that yield them, one pair per such code: the k-th pair is that of the k-th yielding code, the order in which the substitution at main.py:146 applies them |
| Translation.MissesOf | main.py:99-114 | no more misses than codes |
| Translation.ResolveMeans | main.py:101-107 | a code resolves to `id` iff its description is present, non-empty, known to the lookup and mapped to `id` |
| Translation.EveryCodeOnce | main.py:96-116 | every code yields exactly one pair or one miss |
| Translation.PairsExact | main.py:96-108 | a pair is built iff some code resolves to its old value through s2 and to its new value through s3 |
| Translation.BuildPairs | main.py:96-116 | the loop's pairs and miss count are those of the specification, and pairs + misses = codes |
| Substitution.KeyColumns | main.py:123 | exactly the positions of the headers starting with "Key", in increasing order |
| Substitution.KeyColumnIff | main.py:123 | a position is selected iff it is a header position and its header starts with "Key" |
| Substitution.KeyColumnsDistinct | main.py:123 | every selected position is a header position and none is selected twice |
| Substitution.Sub | main.py:159 | `replace(old, new)` on one cell: the old value becomes the new value; any other text is kept |
| Substitution.CellAfter | main.py:146-159 | one key cell after the pairs applied in turn: once the last pair has been applied, the cell no longer holds its old value (when it differs from the new value) |
| Substitution.ColumnLog | main.py:148-158 | one column pass logs at most one record per data row, in increasing row order, each at a sheet row in 2..n + 1 of the processed column, with its header and the pair's values |
| Substitution.LogAfterColumns | main.py:147-158 | every record of one pair over the key columns carries that pair's old and new values |
| Substitution.LogAfterPairs | main.py:146-158 | every record carries the values of one of the pairs |
| Substitution.Replaced | main.py:159 | shape kept; in column j a cell equal to the old value becomes the new value; every other cell is unchanged |
| Substitution.GridAfterColumns | main.py:147-159 | one pair over some key columns keeps the row count and every row's width |
| Substitution.GridAfterPairs | main.py:146-159 | all pairs keep the row count and every row's width |
| Substitution.GridAfterColumnsCell | main.py:147-159 | a cell of a processed key column is rewritten by the pair; all others are unchanged |
| Substitution.GridAfterPairsCell | main.py:146-159 | each key cell ends as the pairs applied one after another dictate; non-key cells never change |
| Substitution.CellAfterChanged | main.py:146-159 | a cell that changed held, unchanged, the old value of some pair when that pair was applied |
| Substitution.CellAfterUnmatched | main.py:148-159 | a cell matching no pair's old value is left alone |
| Substitution.ColumnLogSound | main.py:148-158 | every record of one column pass names a data row whose cell held the old value, with the pair's values |
| Substitution.ColumnLogComplete | main.py:148-158 | every matching row of the column is logged at sheet row i + 2 |
| Substitution.ColumnLogEmpty | main.py:148-158 | a column pass over a column with no cell equal to the old value logs nothing |
| Substitution.LogAfterColumnsSound | main.py:147-158 | every record of one pair names a processed key column, its header and a cell that held the old value |
| Substitution.LogAfterColumnsComplete | main.py:147-158 | every match in a processed key column is logged |
| Substitution.LogAfterColumnsEmpty | main.py:147-158 | a pair whose old value no key cell holds logs nothing over all key columns |
| Substitution.LogAfterPairsSound | main.py:146-158 | every record names a key cell that held its pair's old value when that pair was applied |
| Substitution.LogAfterPairsComplete | main.py:146-158 | every such match is logged |
| Substitution.ChangesAreExactMatches | main.py:146-159 | a cell changes only in a key column and only if its text equals some pair's old value exactly |
| Substitution.ChangedCellLogged | main.py:146-159 | one changed cell is named by a record with its sheet coordinates |
| Substitution.ChangedCellsAreLogged | main.py:146-159 | every changed cell is named by a record |
| Substitution.NoMatchSameGrid | main.py:146-159 | when no key cell holds an old value, the table is unchanged |
| Substitution.NoMatchEmptyLog | main.py:146-158 | when no key cell holds an old value, the log is empty |
| Substitution.NoMatchNoChange | main.py:146-159 | both of the above together |
| Substitution.CellAfterSettles | main.py:146-159 | if no new value is an old value, the final text of a cell matches no pair |
| Substitution.SecondRunNoOp | main.py:146-159 | then a second run over the result changes nothing and logs nothing |
| Substitution.ChainedPairsRewriteTwice | main.py:146-159 | pairs ("1","2") then ("2","3") turn "1" into "3" and log both steps |
| Substitution.FirstPairRewritesOnce | main.py:146-159 | example: the pair ("1","2") alone turns "1" into "2" and logs that one step |
| Substitution.ApplyToColumn | main.py:148-159 | the mask loop logs exactly the column's matches and the column is replaced as specified |
| Substitution.NextColumn | main.py:147-159 | after the first k key columns, one more column pass yields the grid and log of the first k + 1 |
| Substitution.ApplyPair | main.py:147-159 | one pair over all key columns, as specified |
| Substitution.Substitute | main.py:140-159 | the rewritten table and log equal `GridAfterPairs` and `LogAfterPairs` |
| Writer.Sheet.constructor | main.py:167 | a new sheet has no values and no highlights |
| Writer.Sheet.SetCell | main.py:182 | sets one cell's value and nothing else |
| Writer.Sheet.Highlight | main.py:187-188 | adds one cell to the highlighted set and nothing else |
| Writer.Highlights | main.py:186-188 | the coordinates of exactly the records of the log |
| Writer.Shows | main.py:179-182 | a sheet that shows the table holds header j at row 1, column j + 1, and data cell (i, j) at row i + 2, column j + 1 |
| Writer.HeaderThenRows | main.py:179-182 | writing [header] + rows line by line puts the header in row 1 and data row i in row i + 2 |
| Writer.WriteSheet | main.py:179-188 | the new sheet holds exactly the header and rows, and highlights exactly the logged cells |
| Writer.LoggedCellInKeyColumn | main.py:152-157 | a record's coordinates lie below the header, inside the table, in a key column whose header is the record's column name |
| Writer.LoggedInKeys | main.py:152-157 | for any choice of key columns, a record lies below the header, inside the table, in a key column named by the record |
| Writer.ChangedCellsHighlighted | main.py:184-188 | every changed cell is highlighted |
| Writer.ChangedCellHighlighted | main.py:184-188 | for any choice of key columns, one changed cell is highlighted |
| Pipeline.Prepare | main.py:36-93 | the checks in order: success exactly when every check passes, and each error exactly when its condition holds and the earlier checks pass: TooFewColumns (with the count found) iff fewer than 3 columns, MissingColumns (listing them) iff a required column is absent, NoVariationRows("s3") iff the s3 subset is empty, NoVariationRows("s2") iff the s3 subset is not and the s2 subset is, ColumnNotFound("ModelNumber") iff both subsets are non-empty and that column is absent; a success holds the two subsets (all tagged rows) and the lookup |
| Pipeline.LookupsOf | main.py:89-93 | the two code → description maps are keyed by exactly the non-blank codes of their subsets, next to the identifier lookup |
| Pipeline.SubsetFirstDescriptionWins | main.py:68-90 | through the variation filter: a code maps to the description of its earliest tagged row that has one |
| Pipeline.NoTargetRowsAbort | main.py:67-72 | when no variation mentions "s3", the run aborts with the s3 error |
| Pipeline.Expected | main.py:36-159 | earlier errors propagate; after them the run fails with NoReplacePairs iff the distinct s2 codes yield no pair; a success holds the duplicate reports of both subsets, the distinct s2 codes, the pairs and miss count built from them (pairs + misses = codes), the key columns, and the substituted table and its log |
| Pipeline.NoPairsIffNothingResolves | main.py:96-118 | no pair is built iff no s2 code resolves on both sides |
| Pipeline.NoPairsNoneResolves | main.py:96-118 | without pairs, no row of the s2 subset has a code resolving on both sides |
| Pipeline.ResolvingCode | main.py:99-108 | when a pair is built, some code of the walk resolves on both sides |
| Pipeline.RowOfCode | main.py:98 | every distinct s2 code is the code of some row of the subset |
| Pipeline.RunWithoutPairs | main.py:117-118 | once the earlier checks pass, the run aborts with NoReplacePairs iff no s2 code resolves on both sides |
| Pipeline.NonKeyColumnsKept | main.py:123-159 | the substitution keeps the table's shape and never touches a non-Key column |
| Pipeline.RunKeepsShape | main.py:140-159 | a successful run keeps the shape and every non-Key column |
| Pipeline.Reconcile | main.py:36-159 | the script up to the substitution returns exactly `Expected` |
| Pipeline.ReconcileAndWrite | main.py:36-188 | a successful run writes a sheet holding the rewritten table and highlighting the logged cells; an error writes nothing |
| Pipeline.ExampleKeepsRows | main.py:49 | example: rows with cells survive cleaning |
| Pipeline.ExampleAbbrRows | main.py:40 | example: rows read as code, variation, description |
| Pipeline.ExampleLoaded | main.py:37-49 | example: the loaded abbreviation rows |
| Pipeline.ExampleTags | main.py:68-74 | example: "S2" matches the s2 tag regardless of case and not the s3 tag |
| Pipeline.ExampleVariations | main.py:68-74 | example: each row lands in its own subset only |
| Pipeline.ExampleLookup | main.py:93 | example: the lookup keyed by ModelNumber |
| Pipeline.ExampleSubsets | main.py:36-93 | example: every check before the pair builder passes |
| Pipeline.ExampleCodes | main.py:81-86 | example: each subset holds its code once, so no duplicate is reported |
| Pipeline.ExampleLookups | main.py:89-90 | example: the first-wins code → description maps of both subsets |
| Pipeline.ExamplePairs | main.py:96-108 | example: one code gives one pair and no miss |
| Pipeline.ExampleKeyColumns | main.py:123 | example: only "KeyModel" is a key column |
| Pipeline.ExampleRewrite | main.py:146-159 | example: "100" becomes "200" at sheet row 3, column 2, and is logged; other cells stay |
| Pipeline.ExampleRun | main.py:36-159 | example: the whole run's result on three small sheets |

## Left out

- Reading and saving workbooks, the existence checks for files and sheets
  (`main.py:22-34`, `43-46`, `161-176`, `190-194`) and copying cell styles:
  file I/O. The model starts from tables in memory, so load failures other
  than the column count are not modelled.
- The fill colour and every `print`: presentation only. The model keeps the
  warnings' data (duplicate codes, miss count) in `Run`.
- The diagnostic scanner over key columns and other sheets
  (`main.py:124-137`). It builds a regular expression by joining the s2
  identifiers with `|` (`main.py:127`, `136`) and, when nothing is found,
  re-reads every sheet of the workbook (`main.py:133-135`). It prints only,
  but it can abort the run: an identifier that is not a valid regular
  expression on its own (such as "1(2") makes the regex compilation fail,
  and the re-read is file I/O that can fail.
- Pipeline.Expected: returns `Ok` on inputs where the scanner above aborts
  the script before the substitution, because regular-expression compilation
  and workbook reading are not modelled. Where it returns `Ok`, the table and
  log are those the script produces when it gets that far.
- pandas dtypes. Main-sheet cells are modelled by their `astype(str)` text.
  The rewrite of a blank key cell to the text "nan" on replace is therefore
  not modelled. Neither are numeric cells whose text differs from their
  spreadsheet value.
- `str.contains` is modelled as plain substring search. The tags "s3" and
  "s2" have no regex metacharacters. Case folding covers ASCII letters only.
- Duplicate or non-string headers: `get_loc` on a repeated header and
  `startswith` on a non-string header are outside the model.
- Row index labels: the log uses the position of the row. This is what the
  default index of a freshly read sheet gives.
- Translation.NumberLookup: a blank model number is left out of the lookup.
  No non-empty description can look it up, so resolution is unaffected.
