/** Table Loader: header normalisation and cleaning of the abbreviation
    sheet, and the schema check of the mapping sheet. Reading the workbooks
    themselves is outside the model: the stages start from tables in memory. */
module Loader {
  import opened Tables

  /** A row of the abbreviation sheet after its first three headers have been
      renamed to `code`, `variation` and `description`. */
  datatype AbbrRow = AbbrRow(code: Cell, variation: Cell, description: Cell)

  const Canonical: seq<string> := ["code", "variation", "description"]

  /** The mapping sheet must carry these columns. */
  const Required: seq<string> := ["Description", "ProductModelID"]

  /** Renames the first three headers; fails when there are fewer than three. */
  function NormalizeHeaders(columns: seq<string>): (r: Result<seq<string>>)
    ensures r.Err? <==> |columns| < 3
    ensures r.Err? ==> r.error == TooFewColumns(|columns|)
    ensures r.Ok? ==> |r.value| == |columns|
    ensures r.Ok? ==> r.value[0] == "code" && r.value[1] == "variation" && r.value[2] == "description"
    ensures r.Ok? ==> forall k :: 3 <= k < |columns| ==> r.value[k] == columns[k]
  {
    if |columns| >= 3 then Ok(Canonical + columns[3..])
    else Err(TooFewColumns(|columns|))
  }

  /** The row has no value: every cell is blank, and so is an empty row. */
  predicate AllBlank(row: seq<Cell>)
    ensures !AllBlank(row) <==> exists k :: 0 <= k < |row| && row[k].Text?
    ensures |row| == 0 ==> AllBlank(row)
  {
    forall k :: 0 <= k < |row| ==> row[k].Blank?
  }

  /** The `dropna(how='all')` mask: the row has a non-blank cell. */
  const HasValue: seq<Cell> -> bool := row => !AllBlank(row)

  /** `dropna(how='all')`: keeps, in order, the rows with at least one
      non-blank cell, each as often as it occurs. */
  function DropEmptyRows(rows: seq<seq<Cell>>): (r: seq<seq<Cell>>)
    ensures |r| == |KeptPositions(rows, HasValue)|
    ensures forall k {:trigger r[k]} :: 0 <= k < |r| ==> r[k] == rows[KeptPositions(rows, HasValue)[k]]
    ensures forall row :: row in r <==> row in rows && !AllBlank(row)
    ensures forall row :: !AllBlank(row) ==> multiset(r)[row] == multiset(rows)[row]
    ensures (forall i :: 0 <= i < |rows| ==> !AllBlank(rows[i])) ==> r == rows
  {
    FilterMembers(rows, HasValue);
    FilterCounts(rows, HasValue);
    FilterAll(rows, HasValue);
    Filter(rows, HasValue)
  }

  /** The abbreviation rows seen through their canonical column names. */
  function AbbrRows(rows: seq<seq<Cell>>): (r: seq<AbbrRow>)
    requires forall row :: row in rows ==> |row| >= 3
    ensures |r| == |rows|
    ensures forall i :: 0 <= i < |rows| ==>
      r[i].code == rows[i][0] && r[i].variation == rows[i][1] && r[i].description == rows[i][2]
  {
    seq(|rows|, i requires 0 <= i < |rows| => AbbrRow(rows[i][0], rows[i][1], rows[i][2]))
  }

  /** The cleaned abbreviation table, or the error for a sheet that has
      fewer than three columns. */
  function LoadAbbreviations(t: Table<Cell>): (r: Result<seq<AbbrRow>>)
    requires WellFormed(t)
    ensures r.Err? <==> |t.columns| < 3
    ensures r.Err? ==> r.error == TooFewColumns(|t.columns|)
    ensures r.Ok? ==> r.value == AbbrRows(DropEmptyRows(t.rows))
  {
    match NormalizeHeaders(t.columns)
    case Err(e) => Err(e)
    case Ok(_) => Ok(AbbrRows(DropEmptyRows(t.rows)))
  }

  /** The mask of the comprehension at the schema check: `c` is not a
      header of the sheet. */
  function Absent(columns: seq<string>): string -> bool {
    c => c !in columns
  }

  /** The required mapping columns that the sheet lacks, in the order of
      `Required`. */
  function MissingRequired(columns: seq<string>): (r: seq<string>)
    ensures |r| == |KeptPositions(Required, Absent(columns))|
    ensures forall k {:trigger r[k]} :: 0 <= k < |r| ==> r[k] == Required[KeptPositions(Required, Absent(columns))[k]]
    ensures forall c :: c in r <==> c in Required && c !in columns
    ensures r == [] <==> "Description" in columns && "ProductModelID" in columns
  {
    FilterMembers(Required, Absent(columns));
    Filter(Required, Absent(columns))
  }

  /** The position of the first header called `name`, as `get_loc` finds it
      in a sheet whose headers are distinct. */
  function ColumnIndex(columns: seq<string>, name: string): (r: Option<nat>)
    ensures r.None? <==> name !in columns
    ensures r.Some? ==> r.value < |columns| && columns[r.value] == name
    ensures r.Some? ==> forall k :: 0 <= k < r.value ==> columns[k] != name
  {
    if |columns| == 0 then None
    else if columns[0] == name then Some(0)
    else match ColumnIndex(columns[1..], name)
      case None => None
      case Some(k) => Some(k + 1)
  }
}
