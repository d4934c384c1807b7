/** Translation Builder: the first-wins code-to-description maps of both
    variations, the lookup from the mapping sheet to product model
    identifiers, and the loop that turns every s2 code into one replace pair
    (s2 identifier, s3 identifier) or one miss. */
module Translation {
  import opened Tables
  import opened Loader

  /** One substitution instruction: an s2 identifier and its s3 identifier. */
  datatype Pair = Pair(oldValue: string, newValue: string)

  /** The three dictionaries the pair builder consults. */
  datatype Lookups = Lookups(
    s2Desc: map<string, Cell>,   // code -> description, s2 subset
    s3Desc: map<string, Cell>,   // code -> description, s3 subset
    numbers: map<string, string>) // mapping key -> ProductModelID as text

  /** The first-per-group description map of a subset: rows with a blank
      code are dropped, and each code maps to the first non-blank description
      among its rows (blank when all of them are blank). */
  function FirstDescriptions(rows: seq<AbbrRow>): (m: map<string, Cell>)
    ensures forall c :: c in m <==> exists i :: 0 <= i < |rows| && rows[i].code == Text(c)
  {
    if |rows| == 0 then map[]
    else
      var init := rows[..|rows| - 1];
      var last := rows[|rows| - 1];
      var m := FirstDescriptions(init);
      match last.code
      case Blank => m
      case Text(c) => if c !in m || m[c].Blank? then m[c := last.description] else m
  }

  /** A code whose rows all have a blank description maps to a blank. */
  lemma {:induction false} FirstDescriptionBlank(rows: seq<AbbrRow>, c: string)
    requires c in FirstDescriptions(rows)
    requires forall k :: 0 <= k < |rows| && rows[k].code == Text(c) ==> rows[k].description.Blank?
    ensures FirstDescriptions(rows)[c] == Blank
  {
    var init := rows[..|rows| - 1];
    var last := rows[|rows| - 1];
    if c in FirstDescriptions(init) {
      FirstDescriptionBlank(init, c);
    }
  }

  /** First wins: the description of the earliest row of a code that has a
      description is the one the code maps to; later rows do not change it. */
  lemma {:induction false} FirstDescriptionWins(rows: seq<AbbrRow>, i: nat, c: string)
    requires i < |rows| && rows[i].code == Text(c) && rows[i].description.Text?
    requires forall k :: 0 <= k < i && rows[k].code == Text(c) ==> rows[k].description.Blank?
    ensures c in FirstDescriptions(rows) && FirstDescriptions(rows)[c] == rows[i].description
  {
    var init := rows[..|rows| - 1];
    assert forall k :: 0 <= k < |init| ==> init[k] == rows[k];
    if i < |rows| - 1 {
      FirstDescriptionWins(init, i, c);
      assert FirstDescriptions(init)[c].Text?;
    } else if c in FirstDescriptions(init) {
      FirstDescriptionBlank(init, c);
    }
  }

  /** A key column indexing a value column, read as text into a map: every row with a
      non-blank key maps it to the text of its value cell; a later row
      overwrites an earlier one with the same key. A blank key is a NaN key,
      which no description can look up, so it is left out. */
  function NumberMap(rows: seq<seq<Cell>>, key: nat, value: nat): (m: map<string, string>)
    requires forall row :: row in rows ==> key < |row| && value < |row|
    ensures forall k :: k in m <==> exists i :: 0 <= i < |rows| && rows[i][key] == Text(k)
  {
    if |rows| == 0 then map[]
    else
      var init := rows[..|rows| - 1];
      var last := rows[|rows| - 1];
      assert forall row :: row in init ==> row in rows;
      var m := NumberMap(init, key, value);
      match last[key]
      case Blank => m
      case Text(k) => m[k := CellText(last[value])]
  }

  /** Last wins: a key maps to the identifier of the last row carrying it. */
  lemma {:induction false} NumberMapLastWins(rows: seq<seq<Cell>>, key: nat, value: nat, i: nat, k: string)
    requires forall row :: row in rows ==> key < |row| && value < |row|
    requires i < |rows| && rows[i][key] == Text(k)
    requires forall j :: i < j < |rows| ==> rows[j][key] != Text(k)
    ensures k in NumberMap(rows, key, value) && NumberMap(rows, key, value)[k] == CellText(rows[i][value])
  {
    var init := rows[..|rows| - 1];
    assert forall row :: row in init ==> row in rows;
    if i < |rows| - 1 {
      NumberMapLastWins(init, key, value, i, k);
    }
  }

  /** The identifier lookup of the mapping sheet, keyed by its `ModelNumber`
      column; indexing by a column the sheet lacks fails. */
  function NumberLookup(mapping: Table<Cell>): (r: Result<map<string, string>>)
    requires WellFormed(mapping)
    ensures r.Err? <==> "ModelNumber" !in mapping.columns || "ProductModelID" !in mapping.columns
    ensures r.Err? ==> r.error == ColumnNotFound(if "ModelNumber" !in mapping.columns then "ModelNumber" else "ProductModelID")
    ensures r.Ok? ==> forall k :: k in r.value <==>
      exists i :: 0 <= i < |mapping.rows| && mapping.rows[i][ColumnIndex(mapping.columns, "ModelNumber").value] == Text(k)
    ensures r.Ok? ==> r.value == NumberMap(mapping.rows,
      ColumnIndex(mapping.columns, "ModelNumber").value, ColumnIndex(mapping.columns, "ProductModelID").value)
  {
    match ColumnIndex(mapping.columns, "ModelNumber")
    case None => Err(ColumnNotFound("ModelNumber"))
    case Some(key) =>
      match ColumnIndex(mapping.columns, "ProductModelID")
      case None => Err(ColumnNotFound("ProductModelID"))
      case Some(value) => Ok(NumberMap(mapping.rows, key, value))
  }

  /** Last wins, on the mapping sheet: a model number maps to the
      `ProductModelID` text of the last row that carries it. */
  lemma NumberLookupLastWins(mapping: Table<Cell>, i: nat, k: string)
    requires WellFormed(mapping)
    requires "ModelNumber" in mapping.columns && "ProductModelID" in mapping.columns
    requires i < |mapping.rows| && mapping.rows[i][ColumnIndex(mapping.columns, "ModelNumber").value] == Text(k)
    requires forall j :: i < j < |mapping.rows| ==>
      mapping.rows[j][ColumnIndex(mapping.columns, "ModelNumber").value] != Text(k)
    ensures NumberLookup(mapping).Ok? && k in NumberLookup(mapping).value
    ensures NumberLookup(mapping).value[k] == CellText(mapping.rows[i][ColumnIndex(mapping.columns, "ProductModelID").value])
  {
    NumberMapLastWins(mapping.rows, ColumnIndex(mapping.columns, "ModelNumber").value,
      ColumnIndex(mapping.columns, "ProductModelID").value, i, k);
  }

  /** `descs.get(code)`, for a code and description that are text: a
      description comes back only for a code the map knows, and it is the
      text stored under that code. */
  function DescriptionOf(descs: map<string, Cell>, code: Cell): (r: Option<string>)
    ensures r.Some? <==> code.Text? && code.value in descs && descs[code.value].Text?
    ensures r.Some? ==> descs[code.value] == Text(r.value)
  {
    if code.Text? && code.value in descs && descs[code.value].Text?
    then Some(descs[code.value].value) else None
  }

  /** The identifier a code reaches through its description, when the
      description is non-empty and the lookup knows it. */
  function Resolve(descs: map<string, Cell>, numbers: map<string, string>, code: Cell): (r: Option<string>)
    ensures DescriptionOf(descs, code).None? ==> r.None?
    ensures r.Some? ==> DescriptionOf(descs, code).value != "" && DescriptionOf(descs, code).value in numbers
    ensures r.Some? ==> r.value in numbers.Values
  {
    match DescriptionOf(descs, code)
    case Some(d) => if d != "" && d in numbers then Some(numbers[d]) else None
    case None => None
  }

  /** The pair one s2 code yields, if both of its identifiers resolve. */
  function PairFor(lk: Lookups, code: Cell): (r: Option<Pair>)
    ensures r.Some? <==> Resolve(lk.s2Desc, lk.numbers, code).Some? && Resolve(lk.s3Desc, lk.numbers, code).Some?
    ensures r.Some? ==> (r.value.oldValue == Resolve(lk.s2Desc, lk.numbers, code).value
      && r.value.newValue == Resolve(lk.s3Desc, lk.numbers, code).value)
  {
    match Resolve(lk.s2Desc, lk.numbers, code)
    case None => None
    case Some(s2Number) =>
      match Resolve(lk.s3Desc, lk.numbers, code)
      case None => None
      case Some(s3Number) => Some(Pair(s2Number, s3Number))
  }

  /** The pairs that a run over `codes` appends, in order: at most one per
      code, each made of two identifiers the lookup holds. */
  function PairsOf(lk: Lookups, codes: seq<Cell>): (r: seq<Pair>)
    ensures |r| <= |codes|
    ensures forall p :: p in r ==> p.oldValue in lk.numbers.Values && p.newValue in lk.numbers.Values
  {
    if |codes| == 0 then []
    else
      var rest := PairsOf(lk, codes[..|codes| - 1]);
      match PairFor(lk, codes[|codes| - 1])
      case Some(p) => rest + [p]
      case None => rest
  }

  /** The mask of the codes that yield a pair. */
  function Yields(lk: Lookups): Cell -> bool {
    c => PairFor(lk, c).Some?
  }

  /** The pairs come in the order of the codes that yield them, one pair per
      such code: the k-th pair is that of the k-th yielding code. */
  lemma {:induction false} PairsInCodeOrder(lk: Lookups, codes: seq<Cell>)
    ensures |PairsOf(lk, codes)| == |KeptPositions(codes, Yields(lk))|
    ensures forall k {:trigger PairsOf(lk, codes)[k]} :: 0 <= k < |PairsOf(lk, codes)| ==>
      PairFor(lk, codes[KeptPositions(codes, Yields(lk))[k]]).Some?
      && PairsOf(lk, codes)[k] == PairFor(lk, codes[KeptPositions(codes, Yields(lk))[k]]).value
    decreases |codes|
  {
    if |codes| > 0 {
      var init := codes[..|codes| - 1];
      PairsInCodeOrder(lk, init);
      var idx := KeptPositions(init, Yields(lk));
      forall k | 0 <= k < |idx| ensures codes[idx[k]] == init[idx[k]] { }
    }
  }

  /** The number of codes of `codes` that yield no pair. */
  function MissesOf(lk: Lookups, codes: seq<Cell>): (n: nat)
    ensures n <= |codes|
  {
    if |codes| == 0 then 0
    else MissesOf(lk, codes[..|codes| - 1]) + (if PairFor(lk, codes[|codes| - 1]).None? then 1 else 0)
  }

  /** `code` reaches the identifier `id`: its description is present,
      non-empty and known to the lookup, which maps it to `id`. */
  ghost predicate Resolves(descs: map<string, Cell>, numbers: map<string, string>, code: Cell, id: string) {
    exists d :: code.Text? && code.value in descs && descs[code.value] == Text(d)
      && d != "" && d in numbers && numbers[d] == id
  }

  /** Each code yields exactly one pair or exactly one miss. */
  lemma {:induction false} EveryCodeOnce(lk: Lookups, codes: seq<Cell>)
    ensures |PairsOf(lk, codes)| + MissesOf(lk, codes) == |codes|
  {
    if |codes| > 0 {
      EveryCodeOnce(lk, codes[..|codes| - 1]);
    }
  }

  lemma ResolveMeans(descs: map<string, Cell>, numbers: map<string, string>, code: Cell, id: string)
    ensures Resolve(descs, numbers, code) == Some(id) <==> Resolves(descs, numbers, code, id)
  {
    if Resolves(descs, numbers, code, id) {
      var d :| code.Text? && code.value in descs && descs[code.value] == Text(d)
        && d != "" && d in numbers && numbers[d] == id;
      assert DescriptionOf(descs, code) == Some(d);
    }
  }

  /** The pairs are exactly those of the codes whose s2 and s3 descriptions
      both resolve through the lookup, made of the two identifiers reached. */
  lemma {:induction false} PairsExact(lk: Lookups, codes: seq<Cell>)
    ensures forall p :: p in PairsOf(lk, codes) <==>
      exists k :: 0 <= k < |codes|
        && Resolves(lk.s2Desc, lk.numbers, codes[k], p.oldValue)
        && Resolves(lk.s3Desc, lk.numbers, codes[k], p.newValue)
  {
    if |codes| > 0 {
      var init := codes[..|codes| - 1];
      var last := codes[|codes| - 1];
      PairsExact(lk, init);
      forall p ensures p in PairsOf(lk, codes) <==>
        exists k :: 0 <= k < |codes|
          && Resolves(lk.s2Desc, lk.numbers, codes[k], p.oldValue)
          && Resolves(lk.s3Desc, lk.numbers, codes[k], p.newValue)
      {
        ResolveMeans(lk.s2Desc, lk.numbers, last, p.oldValue);
        ResolveMeans(lk.s3Desc, lk.numbers, last, p.newValue);
        if (exists k :: 0 <= k < |codes|
              && Resolves(lk.s2Desc, lk.numbers, codes[k], p.oldValue)
              && Resolves(lk.s3Desc, lk.numbers, codes[k], p.newValue))
        {
          var k :| 0 <= k < |codes|
            && Resolves(lk.s2Desc, lk.numbers, codes[k], p.oldValue)
            && Resolves(lk.s3Desc, lk.numbers, codes[k], p.newValue);
          if k < |codes| - 1 {
            assert codes[k] == init[k];
          }
        }
      }
    }
  }

  /** The replace-pair builder: walks the distinct s2 codes and either
      appends one pair or counts one miss for each. */
  method BuildPairs(lk: Lookups, codes: seq<Cell>) returns (pairs: seq<Pair>, missing: nat)
    ensures pairs == PairsOf(lk, codes) && missing == MissesOf(lk, codes)
    ensures |pairs| + missing == |codes|
  {
    pairs, missing := [], 0;
    for i := 0 to |codes|
      invariant pairs == PairsOf(lk, codes[..i])
      invariant missing == MissesOf(lk, codes[..i])
    {
      var code := codes[i];
      assert codes[..i + 1][..i] == codes[..i];
      var s2Desc := DescriptionOf(lk.s2Desc, code);
      if s2Desc.Some? && s2Desc.value != "" && s2Desc.value in lk.numbers {
        var s2Number := lk.numbers[s2Desc.value];
        var s3Desc := DescriptionOf(lk.s3Desc, code);
        if s3Desc.Some? && s3Desc.value != "" && s3Desc.value in lk.numbers {
          var s3Number := lk.numbers[s3Desc.value];
          pairs := pairs + [Pair(s2Number, s3Number)];
        } else {
          missing := missing + 1;
        }
      } else {
        missing := missing + 1;
      }
    }
    assert codes[..|codes|] == codes;
    EveryCodeOnce(lk, codes);
  }
}
