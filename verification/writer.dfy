/** Annotated Writer: the rebuilt main sheet receives the header row and the
    substituted data, then every logged cell is highlighted. Cell styles and
    the fill colour are not modelled; only values and highlight coordinates. */
module Writer {
  import opened Tables
  import opened Translation
  import opened Substitution

  /** 1-based sheet coordinates. */
  datatype Coord = Coord(row: int, column: int)

  /** The worksheet that replaces the main sheet: the values written into
      its cells and the cells given the highlight fill. */
  class Sheet {
    var values: map<Coord, string>
    var highlighted: set<Coord>

    constructor ()
      ensures values == map[] && highlighted == {}
    {
      values := map[];
      highlighted := {};
    }

    /** Writes one cell of the worksheet. */
    method SetCell(row: int, column: int, value: string)
      modifies this
      ensures values == old(values)[Coord(row, column) := value]
      ensures highlighted == old(highlighted)
    {
      values := values[Coord(row, column) := value];
    }

    /** Fills one cell of the worksheet with the highlight colour. */
    method Highlight(row: int, column: int)
      modifies this
      ensures highlighted == old(highlighted) + {Coord(row, column)}
      ensures values == old(values)
    {
      highlighted := highlighted + {Coord(row, column)};
    }
  }

  /** `k` addresses a cell of `data`, whose first line goes to sheet row 1. */
  ghost predicate InData(data: seq<seq<string>>, k: Coord) {
    1 <= k.row <= |data| && 1 <= k.column <= |data[k.row - 1]|
  }

  /** `k` addresses the header row (row 1) or a cell of data row i (row i + 2). */
  ghost predicate InSheet(header: seq<string>, rows: seq<seq<string>>, k: Coord) {
    1 <= k.column
    && ((k.row == 1 && k.column <= |header|)
        || (2 <= k.row <= |rows| + 1 && k.column <= |rows[k.row - 2]|))
  }

  ghost function SheetText(header: seq<string>, rows: seq<seq<string>>, k: Coord): string
    requires InSheet(header, rows, k)
  {
    if k.row == 1 then header[k.column - 1] else rows[k.row - 2][k.column - 1]
  }

  /** The sheet holds exactly the header in row 1 and data row i in row i + 2. */
  ghost predicate Shows(values: map<Coord, string>, header: seq<string>, rows: seq<seq<string>>)
    ensures Shows(values, header, rows) ==>
      forall j :: 0 <= j < |header| ==> Coord(1, j + 1) in values && values[Coord(1, j + 1)] == header[j]
    ensures Shows(values, header, rows) ==>
      forall i, j :: 0 <= i < |rows| && 0 <= j < |rows[i]| ==>
        Coord(i + 2, j + 1) in values && values[Coord(i + 2, j + 1)] == rows[i][j]
  {
    && (forall k :: k in values <==> InSheet(header, rows, k))
    && (forall k :: k in values ==> InSheet(header, rows, k) && values[k] == SheetText(header, rows, k))
  }

  /** The sheet holds the first `r` lines of `data` and the first `c` cells
      of line r + 1. */
  ghost predicate ShowsUpTo(values: map<Coord, string>, data: seq<seq<string>>, r: nat, c: nat)
    requires r < |data| ==> c <= |data[r]|
  {
    && (forall k :: k in values <==>
         (InData(data, k) && k.row <= r) || (r < |data| && k.row == r + 1 && 1 <= k.column <= c))
    && (forall k :: k in values ==> InData(data, k) && values[k] == data[k.row - 1][k.column - 1])
  }

  /** The coordinates of the log's records. */
  function Highlights(log: seq<Record>): (s: set<Coord>)
    ensures forall r {:trigger r in log} :: r in log ==> Coord(r.row, r.column) in s
    ensures forall k :: k in s ==> exists r {:trigger r in log} :: r in log && k == Coord(r.row, r.column)
  {
    set r | r in log :: Coord(r.row, r.column)
  }

  /** Writing the lines of [header] + rows one after the other puts the
      header in row 1 and data row i in row i + 2. */
  lemma HeaderThenRows(values: map<Coord, string>, header: seq<string>, rows: seq<seq<string>>)
    requires ShowsUpTo(values, [header] + rows, |rows| + 1, 0)
    ensures Shows(values, header, rows)
  {
    var data := [header] + rows;
    assert data[0] == header;
    assert forall i :: 0 <= i < |rows| ==> data[i + 1] == rows[i];
    forall k ensures InData(data, k) <==> InSheet(header, rows, k) {
      if 2 <= k.row <= |rows| + 1 {
        assert data[k.row - 1] == rows[k.row - 2];
      }
    }
  }

  /** Writes the header and the rows into a new sheet, then highlights every
      logged cell. */
  method WriteSheet(header: seq<string>, rows: seq<seq<string>>, log: seq<Record>) returns (sheet: Sheet)
    ensures fresh(sheet)
    ensures Shows(sheet.values, header, rows)
    ensures sheet.highlighted == Highlights(log)
  {
    sheet := new Sheet();
    var data := [header] + rows;
    for r := 0 to |data|
      invariant ShowsUpTo(sheet.values, data, r, 0)
      invariant sheet.highlighted == {}
    {
      for c := 0 to |data[r]|
        invariant ShowsUpTo(sheet.values, data, r, c)
        invariant sheet.highlighted == {}
      {
        sheet.SetCell(r + 1, c + 1, data[r][c]);
      }
    }
    HeaderThenRows(sheet.values, header, rows);
    for n := 0 to |log|
      invariant Shows(sheet.values, header, rows)
      invariant sheet.highlighted == Highlights(log[..n])
    {
      assert log[..n + 1] == log[..n] + [log[n]];
      sheet.Highlight(log[n].row, log[n].column);
    }
    assert log[..|log|] == log;
  }

  /** A logged coordinate lies below the header row, inside the table, in a
      key column whose header is the record's column name. */
  lemma {:induction false} LoggedCellInKeyColumn(columns: seq<string>, rows: seq<seq<string>>, pairs: seq<Pair>, r: Record)
    requires forall i :: 0 <= i < |rows| ==> |rows[i]| == |columns|
    requires KeysFit(rows, KeyColumns(columns))
    requires r in LogAfterPairs(rows, columns, KeyColumns(columns), pairs)
    ensures 2 <= r.row <= |rows| + 1 && 1 <= r.column <= |columns|
    ensures r.columnName == columns[r.column - 1] && StartsWith(r.columnName, KeyPrefix)
  {
    KeyColumnsDistinct(columns);
    LoggedInKeys(columns, rows, KeyColumns(columns), pairs, r);
    KeyColumnIff(columns, r.column - 1);
  }

  /** The same, for any choice of key columns. */
  lemma {:induction false} LoggedInKeys(columns: seq<string>, rows: seq<seq<string>>, keys: seq<nat>, pairs: seq<Pair>, r: Record)
    requires KeysFit(rows, keys) && NoRepeats(keys)
    requires forall c :: 0 <= c < |keys| ==> keys[c] < |columns|
    requires r in LogAfterPairs(rows, columns, keys, pairs)
    ensures 2 <= r.row <= |rows| + 1 && 1 <= r.column <= |columns| && r.column - 1 in keys
    ensures r.columnName == columns[r.column - 1]
  {
    LogAfterPairsSound(rows, columns, keys, pairs);
    var k: nat :| LoggedMatch(rows, columns, keys, pairs, r, k);
  }

  /** Every cell whose text the engine changed is highlighted. */
  lemma {:induction false} ChangedCellsHighlighted(columns: seq<string>, rows: seq<seq<string>>, pairs: seq<Pair>)
    requires forall i :: 0 <= i < |rows| ==> |rows[i]| == |columns|
    requires KeysFit(rows, KeyColumns(columns))
    ensures forall i, j :: (0 <= i < |rows| && 0 <= j < |columns|
      && GridAfterPairs(rows, KeyColumns(columns), pairs)[i][j] != rows[i][j]) ==>
        Coord(i + 2, j + 1) in Highlights(LogAfterPairs(rows, columns, KeyColumns(columns), pairs))
  {
    KeyColumnsDistinct(columns);
    forall i, j | 0 <= i < |rows| && 0 <= j < |columns| && GridAfterPairs(rows, KeyColumns(columns), pairs)[i][j] != rows[i][j]
      ensures Coord(i + 2, j + 1) in Highlights(LogAfterPairs(rows, columns, KeyColumns(columns), pairs))
    {
      ChangedCellHighlighted(columns, rows, KeyColumns(columns), pairs, i, j);
    }
  }

  /** One changed cell is highlighted, for any choice of key columns. */
  lemma {:induction false} ChangedCellHighlighted(columns: seq<string>, rows: seq<seq<string>>, keys: seq<nat>, pairs: seq<Pair>, i: nat, j: nat)
    requires KeysFit(rows, keys) && NoRepeats(keys)
    requires forall c :: 0 <= c < |keys| ==> keys[c] < |columns|
    requires i < |rows| && j < |rows[i]| && GridAfterPairs(rows, keys, pairs)[i][j] != rows[i][j]
    ensures Coord(i + 2, j + 1) in Highlights(LogAfterPairs(rows, columns, keys, pairs))
  {
    var log := LogAfterPairs(rows, columns, keys, pairs);
    ChangedCellLogged(rows, columns, keys, pairs, i, j);
    var r :| r in log && r.row == i + 2 && r.column == j + 1;
    assert Coord(r.row, r.column) in Highlights(log);
  }
}
