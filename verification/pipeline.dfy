/** The whole reconciliation run: the stages in the script's order, each
    fatal condition aborting the run with its error, and the rebuilt sheet
    with its highlighted cells. */
module Pipeline {
  import opened Tables
  import opened Loader
  import opened Variation
  import opened Translation
  import opened Substitution
  import opened Writer

  /** What a successful run produces besides the workbook: the duplicate
      warnings, the distinct s2 codes and the pairs and misses they gave,
      the key columns, the substituted rows and the replacement log. */
  datatype Run = Run(
    s3Duplicates: seq<Cell>,
    s2Duplicates: seq<Cell>,
    s2Codes: seq<Cell>,
    pairs: seq<Pair>,
    missing: nat,
    keyColumns: seq<nat>,
    rows: seq<seq<string>>,
    log: seq<Record>)

  /** Rows that all have one cell per header fit every key position. */
  lemma KeysFitWellFormed(main: Table<string>)
    requires WellFormed(main)
    ensures forall i :: 0 <= i < |main.rows| ==> |main.rows[i]| == |main.columns|
    ensures KeysFit(main.rows, KeyColumns(main.columns))
  {
    forall i | 0 <= i < |main.rows| ensures |main.rows[i]| == |main.columns| {
      assert main.rows[i] in main.rows;
    }
  }

  /** The two variation subsets and the identifier lookup, once every
      check before the pair builder has passed. */
  datatype Subsets = Subsets(s3: seq<AbbrRow>, s2: seq<AbbrRow>, numbers: map<string, string>)

  /** Loading, the schema check, the variation filter and the lookup, with
      their fatal checks in the script's order: the abbreviation sheet's
      width, the mapping sheet's required columns, the s3 subset, the s2
      subset and the lookup's key column. */
  function Prepare(abbr: Table<Cell>, mapping: Table<Cell>): (r: Result<Subsets>)
    requires WellFormed(abbr) && WellFormed(mapping)
    ensures (r.Err? && r.error.TooFewColumns?) <==> |abbr.columns| < 3
    ensures r.Err? && r.error.TooFewColumns? ==> r.error.found == |abbr.columns|
    ensures (r.Err? && r.error.MissingColumns?) <==> (|abbr.columns| >= 3 && MissingRequired(mapping.columns) != [])
    ensures r.Err? && r.error.MissingColumns? ==> r.error.names == MissingRequired(mapping.columns)
    ensures r.Ok? ==> (|abbr.columns| >= 3 && "Description" in mapping.columns
      && "ProductModelID" in mapping.columns && "ModelNumber" in mapping.columns)
    ensures (r.Err? && r.error == NoVariationRows(S3Tag)) <==>
      (|abbr.columns| >= 3 && MissingRequired(mapping.columns) == []
       && VariationRows(LoadAbbreviations(abbr).value, S3Tag) == [])
    ensures (r.Err? && r.error == NoVariationRows(S2Tag)) <==>
      (|abbr.columns| >= 3 && MissingRequired(mapping.columns) == []
       && VariationRows(LoadAbbreviations(abbr).value, S3Tag) != []
       && VariationRows(LoadAbbreviations(abbr).value, S2Tag) == [])
    ensures (r.Err? && r.error.ColumnNotFound?) <==>
      (|abbr.columns| >= 3 && MissingRequired(mapping.columns) == []
       && VariationRows(LoadAbbreviations(abbr).value, S3Tag) != []
       && VariationRows(LoadAbbreviations(abbr).value, S2Tag) != []
       && "ModelNumber" !in mapping.columns)
    ensures r.Err? && r.error.ColumnNotFound? ==> r.error.name == "ModelNumber"
    ensures r.Ok? ==> (r.value.s3 == VariationRows(LoadAbbreviations(abbr).value, S3Tag) && r.value.s3 != [])
    ensures r.Ok? ==> (r.value.s2 == VariationRows(LoadAbbreviations(abbr).value, S2Tag) && r.value.s2 != [])
    ensures r.Ok? ==> r.value.numbers == NumberLookup(mapping).value
    ensures r.Ok? <==> (|abbr.columns| >= 3 && MissingRequired(mapping.columns) == []
      && VariationRows(LoadAbbreviations(abbr).value, S3Tag) != []
      && VariationRows(LoadAbbreviations(abbr).value, S2Tag) != []
      && "ModelNumber" in mapping.columns)
    ensures !r.Err? || !r.error.NoReplacePairs?
  {
    match LoadAbbreviations(abbr)
    case Err(e) => Err(e)
    case Ok(rows) =>
      var missingColumns := MissingRequired(mapping.columns);
      if missingColumns != [] then Err(MissingColumns(missingColumns))
      else
        var s3 := VariationRows(rows, S3Tag);
        var s2 := VariationRows(rows, S2Tag);
        if s3 == [] then Err(NoVariationRows(S3Tag))
        else if s2 == [] then Err(NoVariationRows(S2Tag))
        else
          match NumberLookup(mapping)
          case Err(e) => Err(e)
          case Ok(numbers) => Ok(Subsets(s3, s2, numbers))
  }

  /** A sheet that passes the earlier checks but in which no variation
      mentions "s3" aborts the run with the s3 error, before the s2 subset
      is looked at. */
  lemma NoTargetRowsAbort(abbr: Table<Cell>, mapping: Table<Cell>)
    requires WellFormed(abbr) && WellFormed(mapping)
    requires |abbr.columns| >= 3 && MissingRequired(mapping.columns) == []
    requires forall row :: row in abbr.rows ==> !ContainsIgnoreCase(CellText(row[1]), S3Tag)
    ensures Prepare(abbr, mapping) == Err(NoVariationRows(S3Tag))
  {
    var kept := DropEmptyRows(abbr.rows);
    var rows := AbbrRows(kept);
    forall i | 0 <= i < |rows| ensures !HasTag(rows[i], S3Tag) {
      assert kept[i] in kept;
    }
  }

  /** The lookups the pair builder consults: the first-wins maps of the two
      subsets, keyed by exactly their non-blank codes, and the identifier
      lookup. */
  function LookupsOf(sub: Subsets): (lk: Lookups)
    ensures forall c :: c in lk.s2Desc <==> Text(c) in Codes(sub.s2)
    ensures forall c :: c in lk.s3Desc <==> Text(c) in Codes(sub.s3)
    ensures lk.numbers == sub.numbers
  {
    Lookups(FirstDescriptions(sub.s2), FirstDescriptions(sub.s3), sub.numbers)
  }

  /** First wins through the variation filter: among the rows of the sheet
      that carry the tag, the earliest one of a code that has a description
      gives the description the code maps to. */
  lemma {:induction false} SubsetFirstDescriptionWins(rows: seq<AbbrRow>, tag: string, i: nat, c: string)
    requires i < |rows| && HasTag(rows[i], tag) && rows[i].code == Text(c) && rows[i].description.Text?
    requires forall k :: 0 <= k < i && HasTag(rows[k], tag) && rows[k].code == Text(c) ==> rows[k].description.Blank?
    ensures c in FirstDescriptions(VariationRows(rows, tag))
    ensures FirstDescriptions(VariationRows(rows, tag))[c] == rows[i].description
  {
    var subset, idx := VariationRows(rows, tag), KeptPositions(rows, Tagged(tag));
    assert i in idx;
    var n :| 0 <= n < |idx| && idx[n] == i;
    forall m | 0 <= m < n && subset[m].code == Text(c) ensures subset[m].description.Blank? {
      assert subset[m] == rows[idx[m]] && idx[m] < i && Tagged(tag)(rows[idx[m]]);
    }
    FirstDescriptionWins(subset, n, c);
  }

  /** The outcome of a run on the three sheets: the checks of `Prepare`,
      then at least one replace pair, then the substitution. */
  function Expected(abbr: Table<Cell>, mapping: Table<Cell>, main: Table<string>): (r: Result<Run>)
    requires WellFormed(abbr) && WellFormed(mapping) && WellFormed(main)
    ensures Prepare(abbr, mapping).Err? ==> r == Err(Prepare(abbr, mapping).error)
    ensures Prepare(abbr, mapping).Ok? ==> (r.Err? ==> r.error == NoReplacePairs)
    ensures r.Ok? ==> (|r.value.pairs| > 0 && |r.value.pairs| + r.value.missing == |r.value.s2Codes|)
    ensures r.Ok? ==> forall a, b :: 0 <= a < b < |r.value.s2Codes| ==> r.value.s2Codes[a] != r.value.s2Codes[b]
    ensures Prepare(abbr, mapping).Ok? ==> (r.Err? <==>
      PairsOf(LookupsOf(Prepare(abbr, mapping).value), Distinct(Codes(Prepare(abbr, mapping).value.s2))) == [])
    ensures r.Ok? ==> (Prepare(abbr, mapping).Ok?
      && r.value.s3Duplicates == DuplicateCodes(Codes(Prepare(abbr, mapping).value.s3))
      && r.value.s2Duplicates == DuplicateCodes(Codes(Prepare(abbr, mapping).value.s2))
      && r.value.s2Codes == Distinct(Codes(Prepare(abbr, mapping).value.s2))
      && r.value.pairs == PairsOf(LookupsOf(Prepare(abbr, mapping).value), r.value.s2Codes)
      && r.value.missing == MissesOf(LookupsOf(Prepare(abbr, mapping).value), r.value.s2Codes))
    ensures r.Ok? ==> (KeysFit(main.rows, KeyColumns(main.columns))
      && r.value.keyColumns == KeyColumns(main.columns)
      && r.value.rows == GridAfterPairs(main.rows, KeyColumns(main.columns), r.value.pairs)
      && r.value.log == LogAfterPairs(main.rows, main.columns, KeyColumns(main.columns), r.value.pairs))
  {
    match Prepare(abbr, mapping)
    case Err(e) => Err(e)
    case Ok(sub) =>
      var lk := LookupsOf(sub);
      var codes := Distinct(Codes(sub.s2));
      var pairs := PairsOf(lk, codes);
      if pairs == [] then Err(NoReplacePairs)
      else
        KeysFitWellFormed(main);
        EveryCodeOnce(lk, codes);
        var keys := KeyColumns(main.columns);
        Ok(Run(DuplicateCodes(Codes(sub.s3)), DuplicateCodes(Codes(sub.s2)), codes, pairs,
          MissesOf(lk, codes), keys, GridAfterPairs(main.rows, keys, pairs),
          LogAfterPairs(main.rows, main.columns, keys, pairs)))
  }

  /** `code` reaches an identifier through its s2 description and another
      through its s3 description. */
  ghost predicate BothResolve(lk: Lookups, code: Cell) {
    exists a, b :: Resolves(lk.s2Desc, lk.numbers, code, a) && Resolves(lk.s3Desc, lk.numbers, code, b)
  }

  /** Without pairs, no code of the s2 subset resolves on both sides. */
  lemma {:induction false} NoPairsNoneResolves(lk: Lookups, s2: seq<AbbrRow>)
    requires PairsOf(lk, Distinct(Codes(s2))) == []
    ensures forall row :: row in s2 ==> !BothResolve(lk, row.code)
  {
    var codes := Distinct(Codes(s2));
    PairsExact(lk, codes);
    forall row | row in s2 ensures !BothResolve(lk, row.code) {
      var i :| 0 <= i < |s2| && s2[i] == row;
      assert Codes(s2)[i] == row.code;
      assert row.code in Codes(s2);
      var k :| 0 <= k < |codes| && codes[k] == row.code;
      forall a, b ensures !(Resolves(lk.s2Desc, lk.numbers, row.code, a) && Resolves(lk.s3Desc, lk.numbers, row.code, b)) {
        assert Pair(a, b) !in PairsOf(lk, codes);
      }
    }
  }

  /** A code that yields a pair resolves on both sides. */
  lemma {:induction false} ResolvingCode(lk: Lookups, codes: seq<Cell>) returns (k: nat)
    requires PairsOf(lk, codes) != []
    ensures k < |codes| && BothResolve(lk, codes[k])
  {
    PairsExact(lk, codes);
    var p := PairsOf(lk, codes)[0];
    k :| 0 <= k < |codes| && Resolves(lk.s2Desc, lk.numbers, codes[k], p.oldValue)
      && Resolves(lk.s3Desc, lk.numbers, codes[k], p.newValue);
  }

  /** Each distinct code of a subset is the code of one of its rows. */
  lemma RowOfCode(rows: seq<AbbrRow>, code: Cell) returns (i: nat)
    requires code in Distinct(Codes(rows))
    ensures i < |rows| && rows[i].code == code
  {
    i :| 0 <= i < |rows| && Codes(rows)[i] == code;
  }

  /** The pair builder yields nothing exactly when no code of the s2
      subset resolves on both sides. */
  lemma {:induction false} NoPairsIffNothingResolves(lk: Lookups, s2: seq<AbbrRow>)
    ensures PairsOf(lk, Distinct(Codes(s2))) == [] <==> forall row :: row in s2 ==> !BothResolve(lk, row.code)
  {
    if PairsOf(lk, Distinct(Codes(s2))) == [] {
      NoPairsNoneResolves(lk, s2);
    } else {
      var codes := Distinct(Codes(s2));
      var k := ResolvingCode(lk, codes);
      var i := RowOfCode(s2, codes[k]);
      assert s2[i] in s2;
    }
  }

  /** Once the earlier checks pass, the run aborts for want of replace pairs
      exactly when no code of the s2 subset resolves on both sides. */
  lemma RunWithoutPairs(abbr: Table<Cell>, mapping: Table<Cell>, main: Table<string>, sub: Subsets)
    requires WellFormed(abbr) && WellFormed(mapping) && WellFormed(main)
    requires Prepare(abbr, mapping) == Ok(sub)
    ensures Expected(abbr, mapping, main) == Err(NoReplacePairs) <==>
      forall row :: row in sub.s2 ==> !BothResolve(LookupsOf(sub), row.code)
  {
    NoPairsIffNothingResolves(LookupsOf(sub), sub.s2);
  }

  /** The substitution keeps the main table's shape and touches no column
      whose header does not start with "Key". */
  lemma {:induction false} NonKeyColumnsKept(main: Table<string>, pairs: seq<Pair>)
    requires WellFormed(main)
    ensures KeysFit(main.rows, KeyColumns(main.columns))
    ensures |GridAfterPairs(main.rows, KeyColumns(main.columns), pairs)| == |main.rows|
    ensures forall i :: 0 <= i < |main.rows| ==>
      |GridAfterPairs(main.rows, KeyColumns(main.columns), pairs)[i]| == |main.columns|
    ensures forall i, j :: (0 <= i < |main.rows| && 0 <= j < |main.columns|
      && !StartsWith(main.columns[j], KeyPrefix)) ==>
        GridAfterPairs(main.rows, KeyColumns(main.columns), pairs)[i][j] == main.rows[i][j]
  {
    KeysFitWellFormed(main);
    var keys := KeyColumns(main.columns);
    GridAfterPairsCell(main.rows, keys, pairs);
    forall i, j | 0 <= i < |main.rows| && 0 <= j < |main.columns| && !StartsWith(main.columns[j], KeyPrefix)
      ensures GridAfterPairs(main.rows, keys, pairs)[i][j] == main.rows[i][j]
    {
      assert forall c :: 0 <= c < |keys| ==> keys[c] != j;
      assert j !in keys && j < |main.rows[i]|;
    }
  }

  /** A successful run keeps the main table's shape and touches no column
      whose header does not start with "Key". */
  lemma RunKeepsShape(abbr: Table<Cell>, mapping: Table<Cell>, main: Table<string>, run: Run)
    requires WellFormed(abbr) && WellFormed(mapping) && WellFormed(main)
    requires Expected(abbr, mapping, main) == Ok(run)
    ensures |run.rows| == |main.rows|
    ensures forall i :: 0 <= i < |main.rows| ==> |run.rows[i]| == |main.columns|
    ensures forall i, j :: (0 <= i < |main.rows| && 0 <= j < |main.columns|
      && !StartsWith(main.columns[j], KeyPrefix)) ==> run.rows[i][j] == main.rows[i][j]
  {
    NonKeyColumnsKept(main, run.pairs);
  }

  /** The script from loading the sheets up to the end of the substitution
      loop, returning the first fatal error it meets. */
  method Reconcile(abbr: Table<Cell>, mapping: Table<Cell>, main: Table<string>) returns (r: Result<Run>)
    requires WellFormed(abbr) && WellFormed(mapping) && WellFormed(main)
    ensures r == Expected(abbr, mapping, main)
  {
    ghost var prepared := Prepare(abbr, mapping);
    var loaded := LoadAbbreviations(abbr);
    if loaded.Err? {
      return Err(loaded.error);
    }
    var rows := loaded.value;
    var missingColumns := MissingRequired(mapping.columns);
    if missingColumns != [] {
      return Err(MissingColumns(missingColumns));
    }
    var s3 := VariationRows(rows, S3Tag);
    if s3 == [] {
      return Err(NoVariationRows(S3Tag));
    }
    var s2 := VariationRows(rows, S2Tag);
    if s2 == [] {
      return Err(NoVariationRows(S2Tag));
    }
    var s3Duplicates := DuplicateCodes(Codes(s3));
    var s2Duplicates := DuplicateCodes(Codes(s2));
    var lookup := NumberLookup(mapping);
    if lookup.Err? {
      return Err(lookup.error);
    }
    assert prepared == Ok(Subsets(s3, s2, lookup.value));
    var lk := Lookups(FirstDescriptions(s2), FirstDescriptions(s3), lookup.value);
    var codes := Distinct(Codes(s2));
    var pairs, missing := BuildPairs(lk, codes);
    if pairs == [] {
      return Err(NoReplacePairs);
    }
    KeysFitWellFormed(main);
    var out, log := Substitute(main.columns, main.rows, pairs);
    r := Ok(Run(s3Duplicates, s2Duplicates, codes, pairs, missing, KeyColumns(main.columns), out, log));
  }

  /** The run followed by the write of the rebuilt sheet: on success the
      sheet shows the header and the substituted rows and highlights exactly
      the logged cells; on an error nothing is written. */
  method ReconcileAndWrite(abbr: Table<Cell>, mapping: Table<Cell>, main: Table<string>)
    returns (r: Result<Run>, sheet: Option<Sheet>)
    requires WellFormed(abbr) && WellFormed(mapping) && WellFormed(main)
    ensures r == Expected(abbr, mapping, main)
    ensures r.Err? <==> sheet.None?
    ensures r.Ok? ==> (fresh(sheet.value) && Shows(sheet.value.values, main.columns, r.value.rows)
      && sheet.value.highlighted == Highlights(r.value.log))
  {
    r := Reconcile(abbr, mapping, main);
    if r.Err? {
      return r, None;
    }
    var written := WriteSheet(main.columns, r.value.rows, r.value.log);
    sheet := Some(written);
  }

  // ---------------------------------------------------------------------
  // A complete run on small sheets: one code, tagged "S2" in one row and
  // "s3" in another, whose two descriptions the mapping sheet knows.

  const ExampleAbbr: Table<Cell> := Table(["Code", "Var", "Desc"],
    [[Text("A1"), Text("S2"), Text("Widget")], [Text("A1"), Text("s3"), Text("Widget Pro")]])
  const ExampleMapping: Table<Cell> := Table(["Description", "ModelNumber", "ProductModelID"],
    [[Text("w"), Text("Widget"), Text("100")], [Text("p"), Text("Widget Pro"), Text("200")]])
  const ExampleMain: Table<string> := Table(["Name", "KeyModel"], [["a", "999"], ["b", "100"]])

  /** Both example rows have cells, so cleaning keeps them. */
  lemma ExampleKeepsRows()
    ensures DropEmptyRows(ExampleAbbr.rows) == ExampleAbbr.rows
  {
    var abbr := ExampleAbbr;
    assert abbr.rows[0][0].Text? && abbr.rows[1][0].Text?;
    assert !AllBlank(abbr.rows[0]) && !AllBlank(abbr.rows[1]);
  }

  lemma ExampleAbbrRows()
    ensures AbbrRows(ExampleAbbr.rows) == [
      AbbrRow(Text("A1"), Text("S2"), Text("Widget")),
      AbbrRow(Text("A1"), Text("s3"), Text("Widget Pro"))]
  {
    var loaded := AbbrRows(ExampleAbbr.rows);
    assert loaded[0] == AbbrRow(Text("A1"), Text("S2"), Text("Widget"));
    assert loaded[1] == AbbrRow(Text("A1"), Text("s3"), Text("Widget Pro"));
  }

  lemma ExampleLoaded()
    ensures LoadAbbreviations(ExampleAbbr) == Ok([
      AbbrRow(Text("A1"), Text("S2"), Text("Widget")),
      AbbrRow(Text("A1"), Text("s3"), Text("Widget Pro"))])
  {
    ExampleKeepsRows();
    ExampleAbbrRows();
  }

  /** The row tagged "S2" is in the s2 subset only, whatever the letter case,
      and the row tagged "s3" in the s3 subset only. */
  lemma ExampleTags()
    ensures HasTag(AbbrRow(Text("A1"), Text("S2"), Text("Widget")), S2Tag)
    ensures !HasTag(AbbrRow(Text("A1"), Text("S2"), Text("Widget")), S3Tag)
    ensures HasTag(AbbrRow(Text("A1"), Text("s3"), Text("Widget Pro")), S3Tag)
    ensures !HasTag(AbbrRow(Text("A1"), Text("s3"), Text("Widget Pro")), S2Tag)
  {
    assert Lower("S2") == "s2" && Lower("s3") == "s3" && Lower("s2") == "s2";
    assert "s2"[..2] == "s2" && "s3"[..2] == "s3";
    assert !Contains("", "s3") && !Contains("", "s2");
    assert !Contains("2", "s3") && !Contains("3", "s2");
    assert "s2"[1] == '2' && "s3"[1] == '3';
    assert !Contains("s2", "s3") && !Contains("s3", "s2");
  }

  /** The lookup maps each ModelNumber to its identifier. */
  lemma ExampleLookup()
    ensures NumberLookup(ExampleMapping) == Ok(map["Widget" := "100", "Widget Pro" := "200"])
  {
    var columns := ExampleMapping.columns;
    assert ColumnIndex(columns, "ModelNumber") == Some(1);
    assert ColumnIndex(columns, "ProductModelID") == Some(2);
  }

  lemma ExampleVariations()
    ensures VariationRows(
      [AbbrRow(Text("A1"), Text("S2"), Text("Widget")), AbbrRow(Text("A1"), Text("s3"), Text("Widget Pro"))], S3Tag)
      == [AbbrRow(Text("A1"), Text("s3"), Text("Widget Pro"))]
    ensures VariationRows(
      [AbbrRow(Text("A1"), Text("S2"), Text("Widget")), AbbrRow(Text("A1"), Text("s3"), Text("Widget Pro"))], S2Tag)
      == [AbbrRow(Text("A1"), Text("S2"), Text("Widget"))]
  {
    var r2 := AbbrRow(Text("A1"), Text("S2"), Text("Widget"));
    var r3 := AbbrRow(Text("A1"), Text("s3"), Text("Widget Pro"));
    ExampleTags();
    assert [r2, r3][1..] == [r3] && [r3][1..] == [];
  }

  const ExampleSub: Subsets := Subsets(
    [AbbrRow(Text("A1"), Text("s3"), Text("Widget Pro"))],
    [AbbrRow(Text("A1"), Text("S2"), Text("Widget"))],
    map["Widget" := "100", "Widget Pro" := "200"])

  /** Every check before the pair builder passes on the example sheets. */
  lemma ExampleSubsets()
    ensures Prepare(ExampleAbbr, ExampleMapping) == Ok(ExampleSub)
  {
    var r2 := AbbrRow(Text("A1"), Text("S2"), Text("Widget"));
    var r3 := AbbrRow(Text("A1"), Text("s3"), Text("Widget Pro"));
    ExampleLoaded();
    ExampleVariations();
    ExampleLookup();
  }

  /** Only the header starting with "Key" selects a key column. */
  lemma ExampleKeyColumns()
    ensures KeyColumns(ExampleMain.columns) == [1]
  {
    var columns := ExampleMain.columns;
    assert "Name"[..3][0] == 'N' && KeyPrefix[0] == 'K';
    assert !StartsWith(columns[0], KeyPrefix);
    assert "KeyModel"[..3] == KeyPrefix;
    assert columns[..1] == ["Name"] && columns[..1][..0] == [];
  }

  /** The key cell holding "100" becomes "200" and is logged at sheet row 3,
      column 2; the "Name" column and the cell "999" stay as they were. */
  lemma ExampleRewrite()
    ensures KeysFit(ExampleMain.rows, [1])
    ensures GridAfterPairs(ExampleMain.rows, [1], [Pair("100", "200")]) == [["a", "999"], ["b", "200"]]
    ensures LogAfterPairs(ExampleMain.rows, ExampleMain.columns, [1], [Pair("100", "200")])
      == [Record(3, 2, "KeyModel", "100", "200")]
  {
    var rows, columns, keys := ExampleMain.rows, ExampleMain.columns, [1];
    var p := Pair("100", "200");
    assert [p][..0] == [];
    assert GridAfterPairs(rows, keys, [p]) == GridAfterColumns(rows, keys, p, 1);
    assert GridAfterColumns(rows, keys, p, 0) == rows;
    var out := Replaced(rows, 1, p);
    assert out[0] == ["a", "999"] && out[1] == ["b", "200"];
    assert LogAfterColumns(rows, columns, keys, p, 1) == ColumnLog(rows, 1, "KeyModel", p, 2);
    assert ColumnLog(rows, 1, "KeyModel", p, 1) == [];
  }

  /** Each subset holds the code "A1" once, so neither repeats a code. */
  lemma ExampleCodes()
    ensures Codes([AbbrRow(Text("A1"), Text("S2"), Text("Widget"))]) == [Text("A1")]
    ensures Codes([AbbrRow(Text("A1"), Text("s3"), Text("Widget Pro"))]) == [Text("A1")]
    ensures Distinct([Text("A1")]) == [Text("A1")] && DuplicateCodes([Text("A1")]) == []
  {
    assert [Text("A1")][..0] == [];
  }

  /** The first-wins maps of the example subsets. */
  lemma ExampleLookups()
    ensures LookupsOf(ExampleSub)
      == Lookups(map["A1" := Text("Widget")], map["A1" := Text("Widget Pro")], ExampleSub.numbers)
  {
    assert [AbbrRow(Text("A1"), Text("S2"), Text("Widget"))][..0] == [];
    assert [AbbrRow(Text("A1"), Text("s3"), Text("Widget Pro"))][..0] == [];
  }

  /** The one s2 code resolves on both sides: it yields one pair and no miss. */
  lemma ExamplePairs()
    ensures PairsOf(LookupsOf(ExampleSub), [Text("A1")]) == [Pair("100", "200")]
    ensures MissesOf(LookupsOf(ExampleSub), [Text("A1")]) == 0
  {
    var lk := LookupsOf(ExampleSub);
    ExampleLookups();
    assert [Text("A1")][..0] == [];
    assert PairFor(lk, Text("A1")) == Some(Pair("100", "200"));
  }

  /** The whole run on the example sheets. */
  lemma ExampleRun()
    ensures Expected(ExampleAbbr, ExampleMapping, ExampleMain)
      == Ok(Run([], [], [Text("A1")], [Pair("100", "200")], 0, [1],
        [["a", "999"], ["b", "200"]], [Record(3, 2, "KeyModel", "100", "200")]))
  {
    ExampleSubsets();
    ExampleCodes();
    ExamplePairs();
    ExampleKeyColumns();
    ExampleRewrite();
  }
}
