/** Key-column selection and the substitution engine: for every replace pair
    in order and every key column in order, the cells whose text equals the
    pair's old value are logged and then replaced by its new value. The main
    table's cells are modelled by their text (`astype(str)`). */
module Substitution {
  import opened Tables
  import opened Translation

  /** One entry of the replacement log. `row` and `column` are the 1-based
      sheet coordinates of the cell: data row i sits below the header row. */
  datatype Record = Record(row: nat, column: nat, columnName: string, oldValue: string, newValue: string)

  const KeyPrefix: string := "Key"

  /** The key columns: the positions of the headers that start with "Key",
      left to right. */
  function KeyColumns(columns: seq<string>): (keys: seq<nat>)
    ensures forall c :: 0 <= c < |keys| ==> keys[c] < |columns| && StartsWith(columns[keys[c]], KeyPrefix)
    ensures forall j {:trigger j in keys} :: 0 <= j < |columns| && StartsWith(columns[j], KeyPrefix) ==> j in keys
    ensures forall a, b :: 0 <= a < b < |keys| ==> keys[a] < keys[b]
  {
    if |columns| == 0 then []
    else
      var keys := KeyColumns(columns[..|columns| - 1]);
      if StartsWith(columns[|columns| - 1], KeyPrefix) then keys + [|columns| - 1] else keys
  }

  /** A position is a key column exactly when its header starts with "Key". */
  lemma KeyColumnIff(columns: seq<string>, j: nat)
    ensures j in KeyColumns(columns) <==> j < |columns| && StartsWith(columns[j], KeyPrefix)
  {
    var keys := KeyColumns(columns);
    if j in keys {
      var c :| 0 <= c < |keys| && keys[c] == j;
    }
  }

  /** Key positions are headers of the table and none is selected twice. */
  lemma KeyColumnsDistinct(columns: seq<string>)
    ensures NoRepeats(KeyColumns(columns))
    ensures forall c :: 0 <= c < |KeyColumns(columns)| ==> KeyColumns(columns)[c] < |columns|
  {
  }

  /** Every key position addresses a cell of every row. */
  ghost predicate KeysFit(rows: seq<seq<string>>, keys: seq<nat>) {
    forall i, c :: 0 <= i < |rows| && 0 <= c < |keys| ==> keys[c] < |rows[i]|
  }

  ghost predicate NoRepeats(keys: seq<nat>) {
    forall a, b :: 0 <= a < b < |keys| ==> keys[a] != keys[b]
  }

  /** `Series.replace(old, new)` on one cell: a cell whose text equals the
      old value exactly becomes the new value; any other cell is kept, even
      one that merely contains the old value. */
  function Sub(v: string, p: Pair): (r: string)
    ensures v == p.oldValue ==> r == p.newValue
    ensures v != p.oldValue ==> r == v
  {
    if v == p.oldValue then p.newValue else v
  }

  /** Column `j` after `replace(p.oldValue, p.newValue)`. */
  function Replaced(rows: seq<seq<string>>, j: nat, p: Pair): (r: seq<seq<string>>)
    requires forall i :: 0 <= i < |rows| ==> j < |rows[i]|
    ensures |r| == |rows| && forall i {:trigger r[i]} :: 0 <= i < |rows| ==> |r[i]| == |rows[i]|
    ensures forall i, c {:trigger r[i][c]} :: 0 <= i < |rows| && 0 <= c < |rows[i]| ==>
      r[i][c] == if c == j then Sub(rows[i][c], p) else rows[i][c]
  {
    seq(|rows|, i requires 0 <= i < |rows| => rows[i][j := Sub(rows[i][j], p)])
  }

  /** The records the mask loop appends for column `j` over rows[..n]: at
      most one per row, in row order, each naming column j + 1 and the pair. */
  function ColumnLog(rows: seq<seq<string>>, j: nat, name: string, p: Pair, n: nat): (r: seq<Record>)
    requires n <= |rows| && forall i :: 0 <= i < |rows| ==> j < |rows[i]|
    ensures |r| <= n
    ensures forall a {:trigger r[a]} :: 0 <= a < |r| ==> (2 <= r[a].row <= n + 1
      && r[a].column == j + 1 && r[a].columnName == name
      && r[a].oldValue == p.oldValue && r[a].newValue == p.newValue)
    ensures forall a, b {:trigger r[a], r[b]} :: 0 <= a < b < |r| ==> r[a].row < r[b].row
  {
    if n == 0 then []
    else
      ColumnLog(rows, j, name, p, n - 1)
        + (if rows[n - 1][j] == p.oldValue then [Record(n + 1, j + 1, name, p.oldValue, p.newValue)] else [])
  }

  /** The grid once pair `p` has been applied to the first `k` key columns. */
  function GridAfterColumns(rows: seq<seq<string>>, keys: seq<nat>, p: Pair, k: nat): (r: seq<seq<string>>)
    requires KeysFit(rows, keys) && k <= |keys|
    ensures |r| == |rows| && forall i {:trigger r[i]} :: 0 <= i < |rows| ==> |r[i]| == |rows[i]|
  {
    if k == 0 then rows
    else Replaced(GridAfterColumns(rows, keys, p, k - 1), keys[k - 1], p)
  }

  /** The records pair `p` logs over the first `k` key columns; each
      carries the pair's two values. */
  function LogAfterColumns(rows: seq<seq<string>>, columns: seq<string>, keys: seq<nat>, p: Pair, k: nat): (r: seq<Record>)
    requires KeysFit(rows, keys) && k <= |keys|
    requires forall c :: 0 <= c < |keys| ==> keys[c] < |columns|
    ensures forall a {:trigger r[a]} :: 0 <= a < |r| ==> r[a].oldValue == p.oldValue && r[a].newValue == p.newValue
  {
    if k == 0 then []
    else
      var before := GridAfterColumns(rows, keys, p, k - 1);
      LogAfterColumns(rows, columns, keys, p, k - 1)
        + ColumnLog(before, keys[k - 1], columns[keys[k - 1]], p, |rows|)
  }

  /** The grid once every pair of `pairs` has been applied, in order. */
  function GridAfterPairs(rows: seq<seq<string>>, keys: seq<nat>, pairs: seq<Pair>): (r: seq<seq<string>>)
    requires KeysFit(rows, keys)
    ensures |r| == |rows| && forall i {:trigger r[i]} :: 0 <= i < |rows| ==> |r[i]| == |rows[i]|
  {
    if |pairs| == 0 then rows
    else GridAfterColumns(GridAfterPairs(rows, keys, pairs[..|pairs| - 1]), keys, pairs[|pairs| - 1], |keys|)
  }

  /** The replacement log of applying `pairs`, in order; the values of
      every record are those of one of the pairs. */
  function LogAfterPairs(rows: seq<seq<string>>, columns: seq<string>, keys: seq<nat>, pairs: seq<Pair>): (r: seq<Record>)
    requires KeysFit(rows, keys)
    requires forall c :: 0 <= c < |keys| ==> keys[c] < |columns|
    ensures forall a {:trigger r[a]} :: 0 <= a < |r| ==> Pair(r[a].oldValue, r[a].newValue) in pairs
  {
    if |pairs| == 0 then []
    else
      var init := pairs[..|pairs| - 1];
      LogAfterPairs(rows, columns, keys, init)
        + LogAfterColumns(GridAfterPairs(rows, keys, init), columns, keys, pairs[|pairs| - 1], |keys|)
  }

  /** Reference semantics of one key cell: its text after the pairs have
      been applied to it one after the other. Once the last pair has been
      applied, the cell no longer holds that pair's old value. */
  function CellAfter(v: string, pairs: seq<Pair>): (r: string)
    ensures |pairs| > 0 && pairs[|pairs| - 1].oldValue != pairs[|pairs| - 1].newValue
      ==> r != pairs[|pairs| - 1].oldValue
  {
    if |pairs| == 0 then v else Sub(CellAfter(v, pairs[..|pairs| - 1]), pairs[|pairs| - 1])
  }

  // ---------------------------------------------------------------------
  // The grid, cell by cell

  lemma {:induction false} GridAfterColumnsCell(rows: seq<seq<string>>, keys: seq<nat>, p: Pair, k: nat)
    requires KeysFit(rows, keys) && k <= |keys|
    ensures forall i, j {:trigger GridAfterColumns(rows, keys, p, k)[i][j]} :: 0 <= i < |rows| && 0 <= j < |rows[i]| ==>
      GridAfterColumns(rows, keys, p, k)[i][j] == if j in keys[..k] then Sub(rows[i][j], p) else rows[i][j]
  {
    if k > 0 {
      GridAfterColumnsCell(rows, keys, p, k - 1);
      assert keys[..k] == keys[..k - 1] + [keys[k - 1]];
      var before := GridAfterColumns(rows, keys, p, k - 1);
      forall i, j {:trigger GridAfterColumns(rows, keys, p, k)[i][j]} | 0 <= i < |rows| && 0 <= j < |rows[i]|
        ensures GridAfterColumns(rows, keys, p, k)[i][j] == if j in keys[..k] then Sub(rows[i][j], p) else rows[i][j]
      {
        assert GridAfterColumns(rows, keys, p, k)[i][j] == if j == keys[k - 1] then Sub(before[i][j], p) else before[i][j];
        assert j in keys[..k] <==> j in keys[..k - 1] || j == keys[k - 1];
      }
    }
  }

  /** Applying the pairs changes key cells as CellAfter says and leaves
      every other cell, the row count and every row's width alone. */
  lemma {:induction false} GridAfterPairsCell(rows: seq<seq<string>>, keys: seq<nat>, pairs: seq<Pair>)
    requires KeysFit(rows, keys)
    ensures |GridAfterPairs(rows, keys, pairs)| == |rows|
    ensures forall i {:trigger GridAfterPairs(rows, keys, pairs)[i]} :: 0 <= i < |rows| ==> |GridAfterPairs(rows, keys, pairs)[i]| == |rows[i]|
    ensures forall i, j {:trigger GridAfterPairs(rows, keys, pairs)[i][j]} :: 0 <= i < |rows| && 0 <= j < |rows[i]| ==>
      GridAfterPairs(rows, keys, pairs)[i][j] == if j in keys then CellAfter(rows[i][j], pairs) else rows[i][j]
  {
    if |pairs| > 0 {
      var init := pairs[..|pairs| - 1];
      GridAfterPairsCell(rows, keys, init);
      GridAfterColumnsCell(GridAfterPairs(rows, keys, init), keys, pairs[|pairs| - 1], |keys|);
      assert keys[..|keys|] == keys;
    }
  }

  /** A key cell that ends up different held, originally, the old value of
      a pair that reached it unchanged. */
  lemma {:induction false} CellAfterChanged(v: string, pairs: seq<Pair>)
    requires CellAfter(v, pairs) != v
    ensures exists k :: 0 <= k < |pairs| && CellAfter(v, pairs[..k]) == v && pairs[k].oldValue == v
  {
    var n := |pairs|;
    var init := pairs[..n - 1];
    if CellAfter(v, init) != v {
      CellAfterChanged(v, init);
      var k :| 0 <= k < |init| && CellAfter(v, init[..k]) == v && init[k].oldValue == v;
      assert init[..k] == pairs[..k];
    } else {
      assert pairs[..n - 1] == init;
    }
  }

  /** A cell whose text equals no pair's old value keeps it. */
  lemma {:induction false} CellAfterUnmatched(v: string, pairs: seq<Pair>)
    requires forall k :: 0 <= k < |pairs| ==> pairs[k].oldValue != v
    ensures CellAfter(v, pairs) == v
  {
    if |pairs| > 0 {
      CellAfterUnmatched(v, pairs[..|pairs| - 1]);
    }
  }

  // ---------------------------------------------------------------------
  // The log, record by record

  lemma {:induction false} ColumnLogSound(rows: seq<seq<string>>, j: nat, name: string, p: Pair, n: nat)
    requires n <= |rows| && forall i :: 0 <= i < |rows| ==> j < |rows[i]|
    ensures forall r {:trigger r in ColumnLog(rows, j, name, p, n)} :: r in ColumnLog(rows, j, name, p, n) ==>
      2 <= r.row < n + 2 && r == Record(r.row, j + 1, name, p.oldValue, p.newValue)
      && rows[r.row - 2][j] == p.oldValue
  {
    if n > 0 {
      ColumnLogSound(rows, j, name, p, n - 1);
    }
  }

  lemma {:induction false} ColumnLogComplete(rows: seq<seq<string>>, j: nat, name: string, p: Pair, n: nat, i: nat)
    requires n <= |rows| && forall i :: 0 <= i < |rows| ==> j < |rows[i]|
    requires i < n && rows[i][j] == p.oldValue
    ensures Record(i + 2, j + 1, name, p.oldValue, p.newValue) in ColumnLog(rows, j, name, p, n)
  {
    if i < n - 1 {
      ColumnLogComplete(rows, j, name, p, n - 1, i);
    }
  }

  lemma {:induction false} LogAfterColumnsSound(rows: seq<seq<string>>, columns: seq<string>, keys: seq<nat>, p: Pair, k: nat)
    requires KeysFit(rows, keys) && k <= |keys| && NoRepeats(keys)
    requires forall c :: 0 <= c < |keys| ==> keys[c] < |columns|
    ensures forall r {:trigger r in LogAfterColumns(rows, columns, keys, p, k)} :: r in LogAfterColumns(rows, columns, keys, p, k) ==>
      1 <= r.column && r.column - 1 in keys[..k] && r.columnName == columns[r.column - 1]
      && r.oldValue == p.oldValue && r.newValue == p.newValue
      && 2 <= r.row < |rows| + 2 && rows[r.row - 2][r.column - 1] == p.oldValue
  {
    if k > 0 {
      LogAfterColumnsSound(rows, columns, keys, p, k - 1);
      var before := GridAfterColumns(rows, keys, p, k - 1);
      var j := keys[k - 1];
      ColumnLogSound(before, j, columns[j], p, |rows|);
      GridAfterColumnsCell(rows, keys, p, k - 1);
      assert j !in keys[..k - 1];
      assert keys[..k] == keys[..k - 1] + [j];
    }
  }

  lemma {:induction false} LogAfterColumnsComplete(rows: seq<seq<string>>, columns: seq<string>, keys: seq<nat>, p: Pair, k: nat, c: nat, i: nat)
    requires KeysFit(rows, keys) && k <= |keys| && NoRepeats(keys)
    requires forall c :: 0 <= c < |keys| ==> keys[c] < |columns|
    requires c < k && i < |rows| && rows[i][keys[c]] == p.oldValue
    ensures Record(i + 2, keys[c] + 1, columns[keys[c]], p.oldValue, p.newValue) in LogAfterColumns(rows, columns, keys, p, k)
  {
    var before := GridAfterColumns(rows, keys, p, k - 1);
    var column := ColumnLog(before, keys[k - 1], columns[keys[k - 1]], p, |rows|);
    assert LogAfterColumns(rows, columns, keys, p, k) == LogAfterColumns(rows, columns, keys, p, k - 1) + column;
    if c < k - 1 {
      LogAfterColumnsComplete(rows, columns, keys, p, k - 1, c, i);
    } else {
      GridAfterColumnsCell(rows, keys, p, k - 1);
      assert keys[c] !in keys[..k - 1];
      ColumnLogComplete(before, keys[c], columns[keys[c]], p, |rows|, i);
    }
  }

  /** What a log record says: pair `k` was applied while the cell at the
      record's coordinates, a key cell, held that pair's old value. */
  ghost predicate LoggedMatch(rows: seq<seq<string>>, columns: seq<string>, keys: seq<nat>, pairs: seq<Pair>, r: Record, k: nat)
    requires KeysFit(rows, keys)
  {
    && k < |pairs|
    && 2 <= r.row < |rows| + 2
    && 1 <= r.column && r.column - 1 in keys
    && r.column - 1 < |columns| && r.columnName == columns[r.column - 1]
    && r.oldValue == pairs[k].oldValue && r.newValue == pairs[k].newValue
    && CellAfter(rows[r.row - 2][r.column - 1], pairs[..k]) == pairs[k].oldValue
  }

  /** Every record addresses a key cell of the data area that held the
      pair's old value when that pair was applied. */
  lemma {:induction false} LogAfterPairsSound(rows: seq<seq<string>>, columns: seq<string>, keys: seq<nat>, pairs: seq<Pair>)
    requires KeysFit(rows, keys) && NoRepeats(keys)
    requires forall c :: 0 <= c < |keys| ==> keys[c] < |columns|
    ensures forall r :: r in LogAfterPairs(rows, columns, keys, pairs) ==>
      exists k :: LoggedMatch(rows, columns, keys, pairs, r, k)
  {
    if |pairs| > 0 {
      var n := |pairs|;
      var init := pairs[..n - 1];
      var last := pairs[n - 1];
      var before := GridAfterPairs(rows, keys, init);
      LogAfterPairsSound(rows, columns, keys, init);
      GridAfterPairsCell(rows, keys, init);
      LogAfterColumnsSound(before, columns, keys, last, |keys|);
      assert keys[..|keys|] == keys;
      forall r | r in LogAfterPairs(rows, columns, keys, pairs)
        ensures exists k :: LoggedMatch(rows, columns, keys, pairs, r, k)
      {
        if r in LogAfterPairs(rows, columns, keys, init) {
          var k: nat :| LoggedMatch(rows, columns, keys, init, r, k);
          assert init[..k] == pairs[..k];
          assert LoggedMatch(rows, columns, keys, pairs, r, k);
        } else {
          assert pairs[..n - 1] == init;
          assert LoggedMatch(rows, columns, keys, pairs, r, n - 1);
        }
      }
    }
  }

  /** Every time a pair meets its old value in a key cell, a record with the
      cell's sheet coordinates and the pair's two values is logged. */
  lemma {:induction false} LogAfterPairsComplete(rows: seq<seq<string>>, columns: seq<string>, keys: seq<nat>, pairs: seq<Pair>, k: nat, i: nat, c: nat)
    requires KeysFit(rows, keys) && NoRepeats(keys)
    requires forall c :: 0 <= c < |keys| ==> keys[c] < |columns|
    requires k < |pairs| && i < |rows| && c < |keys|
    requires CellAfter(rows[i][keys[c]], pairs[..k]) == pairs[k].oldValue
    ensures Record(i + 2, keys[c] + 1, columns[keys[c]], pairs[k].oldValue, pairs[k].newValue)
      in LogAfterPairs(rows, columns, keys, pairs)
  {
    var n := |pairs|;
    var init := pairs[..n - 1];
    var before := GridAfterPairs(rows, keys, init);
    var last := LogAfterColumns(before, columns, keys, pairs[n - 1], |keys|);
    assert LogAfterPairs(rows, columns, keys, pairs) == LogAfterPairs(rows, columns, keys, init) + last;
    if k < n - 1 {
      assert init[..k] == pairs[..k];
      LogAfterPairsComplete(rows, columns, keys, init, k, i, c);
    } else {
      GridAfterPairsCell(rows, keys, init);
      assert pairs[..k] == init;
      assert keys[c] in keys;
      LogAfterColumnsComplete(before, columns, keys, pairs[k], |keys|, c, i);
    }
  }

  // ---------------------------------------------------------------------
  // What the substitution promises

  /** A cell changes only in a key column, and only if its text is exactly
      the old value of some pair: "1234" is never touched by a pair for "123". */
  lemma {:induction false} ChangesAreExactMatches(rows: seq<seq<string>>, keys: seq<nat>, pairs: seq<Pair>)
    requires KeysFit(rows, keys)
    ensures forall i, j :: (0 <= i < |rows| && 0 <= j < |rows[i]|
      && GridAfterPairs(rows, keys, pairs)[i][j] != rows[i][j]) ==>
        j in keys && exists k :: 0 <= k < |pairs| && pairs[k].oldValue == rows[i][j]
  {
    GridAfterPairsCell(rows, keys, pairs);
    forall i, j | 0 <= i < |rows| && 0 <= j < |rows[i]| && GridAfterPairs(rows, keys, pairs)[i][j] != rows[i][j]
      ensures j in keys && exists k :: 0 <= k < |pairs| && pairs[k].oldValue == rows[i][j]
    {
      assert j in keys;
      CellAfterChanged(rows[i][j], pairs);
    }
  }

  /** A cell that changed is named by a record. */
  lemma {:induction false} ChangedCellLogged(rows: seq<seq<string>>, columns: seq<string>, keys: seq<nat>, pairs: seq<Pair>, i: nat, j: nat)
    requires KeysFit(rows, keys) && NoRepeats(keys)
    requires forall c :: 0 <= c < |keys| ==> keys[c] < |columns|
    requires i < |rows| && j < |rows[i]| && GridAfterPairs(rows, keys, pairs)[i][j] != rows[i][j]
    ensures exists r {:trigger r in LogAfterPairs(rows, columns, keys, pairs)} :: r in LogAfterPairs(rows, columns, keys, pairs) && r.row == i + 2 && r.column == j + 1
  {
    GridAfterPairsCell(rows, keys, pairs);
    assert j in keys;
    CellAfterChanged(rows[i][j], pairs);
    var k :| 0 <= k < |pairs| && CellAfter(rows[i][j], pairs[..k]) == rows[i][j] && pairs[k].oldValue == rows[i][j];
    var c :| 0 <= c < |keys| && keys[c] == j;
    LogAfterPairsComplete(rows, columns, keys, pairs, k, i, c);
  }

  lemma {:induction false} ChangedCellsAreLogged(rows: seq<seq<string>>, columns: seq<string>, keys: seq<nat>, pairs: seq<Pair>)
    requires KeysFit(rows, keys) && NoRepeats(keys)
    requires forall c :: 0 <= c < |keys| ==> keys[c] < |columns|
    ensures forall i, j :: (0 <= i < |rows| && 0 <= j < |rows[i]|
      && GridAfterPairs(rows, keys, pairs)[i][j] != rows[i][j]) ==>
        exists r :: r in LogAfterPairs(rows, columns, keys, pairs) && r.row == i + 2 && r.column == j + 1
  {
    forall i, j | 0 <= i < |rows| && 0 <= j < |rows[i]| && GridAfterPairs(rows, keys, pairs)[i][j] != rows[i][j]
      ensures exists r :: r in LogAfterPairs(rows, columns, keys, pairs) && r.row == i + 2 && r.column == j + 1
    {
      ChangedCellLogged(rows, columns, keys, pairs, i, j);
    }
  }

  /** No key cell holds any pair's old value. */
  ghost predicate NothingMatches(rows: seq<seq<string>>, keys: seq<nat>, pairs: seq<Pair>)
    requires KeysFit(rows, keys)
  {
    forall i, c, k :: 0 <= i < |rows| && 0 <= c < |keys| && 0 <= k < |pairs| ==>
      rows[i][keys[c]] != pairs[k].oldValue
  }

  lemma {:induction false} NoMatchSameGrid(rows: seq<seq<string>>, keys: seq<nat>, pairs: seq<Pair>)
    requires KeysFit(rows, keys) && NothingMatches(rows, keys, pairs)
    ensures GridAfterPairs(rows, keys, pairs) == rows
  {
    var out := GridAfterPairs(rows, keys, pairs);
    GridAfterPairsCell(rows, keys, pairs);
    forall i | 0 <= i < |rows| ensures out[i] == rows[i] {
      forall j | 0 <= j < |rows[i]| ensures out[i][j] == rows[i][j] {
        if j in keys {
          var c :| 0 <= c < |keys| && keys[c] == j;
          CellAfterUnmatched(rows[i][j], pairs);
        }
      }
    }
  }

  lemma {:induction false} ColumnLogEmpty(rows: seq<seq<string>>, j: nat, name: string, p: Pair, n: nat)
    requires n <= |rows| && forall i :: 0 <= i < |rows| ==> j < |rows[i]|
    requires forall i :: 0 <= i < n ==> rows[i][j] != p.oldValue
    ensures ColumnLog(rows, j, name, p, n) == []
  {
    if n > 0 {
      ColumnLogEmpty(rows, j, name, p, n - 1);
    }
  }

  /** A pair whose old value no key cell holds logs nothing. */
  lemma {:induction false} LogAfterColumnsEmpty(rows: seq<seq<string>>, columns: seq<string>, keys: seq<nat>, p: Pair, k: nat)
    requires KeysFit(rows, keys) && k <= |keys|
    requires forall c :: 0 <= c < |keys| ==> keys[c] < |columns|
    requires forall i, c :: 0 <= i < |rows| && 0 <= c < |keys| ==> rows[i][keys[c]] != p.oldValue
    ensures LogAfterColumns(rows, columns, keys, p, k) == []
  {
    if k > 0 {
      var j := keys[k - 1];
      var before := GridAfterColumns(rows, keys, p, k - 1);
      GridAfterColumnsCell(rows, keys, p, k - 1);
      forall i | 0 <= i < |rows| ensures j < |before[i]| && before[i][j] != p.oldValue {
        assert j < |rows[i]| && rows[i][j] != p.oldValue;
        assert before[i][j] == if j in keys[..k - 1] then Sub(rows[i][j], p) else rows[i][j];
      }
      ColumnLogEmpty(before, j, columns[j], p, |rows|);
      LogAfterColumnsEmpty(rows, columns, keys, p, k - 1);
    }
  }

  lemma {:induction false} NoMatchEmptyLog(rows: seq<seq<string>>, columns: seq<string>, keys: seq<nat>, pairs: seq<Pair>)
    requires KeysFit(rows, keys)
    requires forall c :: 0 <= c < |keys| ==> keys[c] < |columns|
    requires NothingMatches(rows, keys, pairs)
    ensures LogAfterPairs(rows, columns, keys, pairs) == []
  {
    if |pairs| > 0 {
      var init := pairs[..|pairs| - 1];
      assert forall m :: 0 <= m < |init| ==> init[m] == pairs[m];
      NoMatchEmptyLog(rows, columns, keys, init);
      NoMatchSameGrid(rows, keys, init);
      LogAfterColumnsEmpty(rows, columns, keys, pairs[|pairs| - 1], |keys|);
    }
  }

  /** When no key cell holds any pair's old value, the table comes out as it
      went in and nothing is logged. */
  lemma {:induction false} NoMatchNoChange(rows: seq<seq<string>>, columns: seq<string>, keys: seq<nat>, pairs: seq<Pair>)
    requires KeysFit(rows, keys) && NoRepeats(keys)
    requires forall c :: 0 <= c < |keys| ==> keys[c] < |columns|
    requires NothingMatches(rows, keys, pairs)
    ensures GridAfterPairs(rows, keys, pairs) == rows
    ensures LogAfterPairs(rows, columns, keys, pairs) == []
  {
    NoMatchSameGrid(rows, keys, pairs);
    NoMatchEmptyLog(rows, columns, keys, pairs);
  }

  /** When no pair's new value is any pair's old value, the value a cell ends
      with is matched by no pair: it kept its text, which no pair matches,
      or it took some pair's new value. */
  lemma {:induction false} CellAfterSettles(v: string, pairs: seq<Pair>)
    requires forall a, b :: 0 <= a < |pairs| && 0 <= b < |pairs| ==> pairs[a].newValue != pairs[b].oldValue
    ensures forall k :: 0 <= k < |pairs| ==> pairs[k].oldValue != CellAfter(v, pairs)
    ensures (CellAfter(v, pairs) == v && forall k :: 0 <= k < |pairs| ==> pairs[k].oldValue != v)
      || exists k :: 0 <= k < |pairs| && CellAfter(v, pairs) == pairs[k].newValue
  {
    if |pairs| > 0 {
      var n := |pairs|;
      var init := pairs[..n - 1];
      CellAfterSettles(v, init);
      var u := CellAfter(v, init);
      if u == v && forall k :: 0 <= k < |init| ==> init[k].oldValue != v {
        if v == pairs[n - 1].oldValue {
          assert CellAfter(v, pairs) == pairs[n - 1].newValue;
        }
      } else {
        var k :| 0 <= k < |init| && u == init[k].newValue;
        assert CellAfter(v, pairs) == pairs[k].newValue;
      }
    }
  }

  /** Idempotence: when no pair's new value is any pair's old value, running
      the engine again on its own output changes nothing and logs nothing. */
  lemma {:induction false} SecondRunNoOp(rows: seq<seq<string>>, columns: seq<string>, keys: seq<nat>, pairs: seq<Pair>)
    requires KeysFit(rows, keys) && NoRepeats(keys)
    requires forall c :: 0 <= c < |keys| ==> keys[c] < |columns|
    requires forall a, b :: 0 <= a < |pairs| && 0 <= b < |pairs| ==> pairs[a].newValue != pairs[b].oldValue
    ensures KeysFit(GridAfterPairs(rows, keys, pairs), keys)
    ensures GridAfterPairs(GridAfterPairs(rows, keys, pairs), keys, pairs) == GridAfterPairs(rows, keys, pairs)
    ensures LogAfterPairs(GridAfterPairs(rows, keys, pairs), columns, keys, pairs) == []
  {
    var out := GridAfterPairs(rows, keys, pairs);
    GridAfterPairsCell(rows, keys, pairs);
    forall i, c, k | 0 <= i < |out| && 0 <= c < |keys| && 0 <= k < |pairs|
      ensures out[i][keys[c]] != pairs[k].oldValue
    {
      assert keys[c] in keys;
      CellAfterSettles(rows[i][keys[c]], pairs);
    }
    NoMatchNoChange(out, columns, keys, pairs);
  }

  /** Pairs apply in sequence: when a later pair's old value is an earlier
      pair's new value, the same cell is rewritten twice and logged twice. */
  lemma ChainedPairsRewriteTwice()
    ensures KeyColumns(["KeyA"]) == [0]
    ensures GridAfterPairs([["1"]], [0], [Pair("1", "2"), Pair("2", "3")]) == [["3"]]
    ensures LogAfterPairs([["1"]], ["KeyA"], [0], [Pair("1", "2"), Pair("2", "3")])
      == [Record(2, 1, "KeyA", "1", "2"), Record(2, 1, "KeyA", "2", "3")]
  {
    var rows, keys := [["1"]], [0];
    var p, q := Pair("1", "2"), Pair("2", "3");
    assert StartsWith("KeyA", KeyPrefix);
    assert [p, q][..1] == [p];
    FirstPairRewritesOnce();
    var g1 := GridAfterPairs(rows, keys, [p]);
    var g2 := GridAfterPairs(rows, keys, [p, q]);
    assert g2 == GridAfterColumns(g1, keys, q, 1);
    assert GridAfterColumns(g1, keys, q, 0) == g1;
    assert g2 == Replaced(g1, 0, q);
    assert g2[0] == ["3"];
    assert LogAfterColumns(g1, ["KeyA"], keys, q, 1) == ColumnLog(g1, 0, "KeyA", q, 1);
  }

  /** The first of the chained pairs turns "1" into "2" and logs it. */
  lemma FirstPairRewritesOnce()
    ensures GridAfterPairs([["1"]], [0], [Pair("1", "2")]) == [["2"]]
    ensures LogAfterPairs([["1"]], ["KeyA"], [0], [Pair("1", "2")]) == [Record(2, 1, "KeyA", "1", "2")]
  {
    var rows, keys := [["1"]], [0];
    var p := Pair("1", "2");
    assert [p][..0] == [];
    assert GridAfterPairs(rows, keys, []) == rows;
    var g1 := GridAfterPairs(rows, keys, [p]);
    assert g1 == GridAfterColumns(rows, keys, p, 1);
    assert GridAfterColumns(rows, keys, p, 0) == rows;
    assert g1 == Replaced(rows, 0, p);
    assert g1[0] == ["2"];
    assert LogAfterColumns(rows, ["KeyA"], keys, p, 1) == ColumnLog(rows, 0, "KeyA", p, 1);
  }

  // ---------------------------------------------------------------------
  // The engine

  /** One pass of the engine over column `j` for pair `p`: the mask loop
      logs every matching row, then the column is replaced when any row
      matched. */
  method ApplyToColumn(grid: seq<seq<string>>, j: nat, name: string, p: Pair)
    returns (out: seq<seq<string>>, entries: seq<Record>)
    requires forall i :: 0 <= i < |grid| ==> j < |grid[i]|
    ensures out == Replaced(grid, j, p)
    ensures entries == ColumnLog(grid, j, name, p, |grid|)
  {
    var matched := false;
    entries := [];
    for i := 0 to |grid|
      invariant entries == ColumnLog(grid, j, name, p, i)
      invariant matched <==> exists m :: 0 <= m < i && grid[m][j] == p.oldValue
    {
      if grid[i][j] == p.oldValue {
        entries := entries + [Record(i + 2, j + 1, name, p.oldValue, p.newValue)];
        matched := true;
      }
    }
    if matched {
      out := Replaced(grid, j, p);
    } else {
      out := grid;
      forall i | 0 <= i < |grid| ensures Replaced(grid, j, p)[i] == grid[i] {
        assert grid[i][j] != p.oldValue;
      }
    }
  }

  /** Processes key column k + 1 after the first k: one more column pass
      over the grid those left, its records appended to theirs. */
  method NextColumn(grid: seq<seq<string>>, columns: seq<string>, keys: seq<nat>, p: Pair, k: nat,
                    out: seq<seq<string>>, entries: seq<Record>)
    returns (out': seq<seq<string>>, entries': seq<Record>)
    requires KeysFit(grid, keys) && k < |keys|
    requires forall c :: 0 <= c < |keys| ==> keys[c] < |columns|
    requires out == GridAfterColumns(grid, keys, p, k) && entries == LogAfterColumns(grid, columns, keys, p, k)
    ensures out' == GridAfterColumns(grid, keys, p, k + 1)
    ensures entries' == LogAfterColumns(grid, columns, keys, p, k + 1)
  {
    var j := keys[k];
    var colLog;
    out', colLog := ApplyToColumn(out, j, columns[j], p);
    entries' := entries + colLog;
  }

  method ApplyPair(grid: seq<seq<string>>, columns: seq<string>, keys: seq<nat>, p: Pair)
    returns (out: seq<seq<string>>, entries: seq<Record>)
    requires KeysFit(grid, keys)
    requires forall c :: 0 <= c < |keys| ==> keys[c] < |columns|
    ensures out == GridAfterColumns(grid, keys, p, |keys|)
    ensures entries == LogAfterColumns(grid, columns, keys, p, |keys|)
  {
    out, entries := grid, [];
    for k := 0 to |keys|
      invariant out == GridAfterColumns(grid, keys, p, k)
      invariant entries == LogAfterColumns(grid, columns, keys, p, k)
    {
      out, entries := NextColumn(grid, columns, keys, p, k, out, entries);
    }
  }

  /** The substitution loop over a copy of the main table. */
  method Substitute(columns: seq<string>, rows: seq<seq<string>>, pairs: seq<Pair>)
    returns (out: seq<seq<string>>, log: seq<Record>)
    requires forall i :: 0 <= i < |rows| ==> |rows[i]| == |columns|
    ensures KeysFit(rows, KeyColumns(columns))
    ensures out == GridAfterPairs(rows, KeyColumns(columns), pairs)
    ensures log == LogAfterPairs(rows, columns, KeyColumns(columns), pairs)
  {
    var keys := KeyColumns(columns);
    out, log := rows, [];
    for n := 0 to |pairs|
      invariant out == GridAfterPairs(rows, keys, pairs[..n])
      invariant log == LogAfterPairs(rows, columns, keys, pairs[..n])
    {
      assert pairs[..n + 1][..n] == pairs[..n];
      var pairOut, pairLog := ApplyPair(out, columns, keys, pairs[n]);
      out, log := pairOut, log + pairLog;
    }
    assert pairs[..|pairs|] == pairs;
  }
}
