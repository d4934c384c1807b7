/** Values shared by every stage of the reconciliation pipeline: spreadsheet
    cells and tables, the pipeline's errors, and the sequence and string
    helpers that pandas and Python provide to the script. */
module Tables {

  datatype Option<T> = None | Some(value: T)

  /** A cell of a sheet as pandas reads it: blank (NaN) or the text it holds. */
  datatype Cell = Blank | Text(value: string)

  /** A sheet read into memory: its header names and its data rows. */
  datatype Table<C> = Table(columns: seq<string>, rows: seq<seq<C>>)

  /** Every data row has exactly one cell per header. */
  ghost predicate WellFormed<C>(t: Table<C>) {
    forall row :: row in t.rows ==> |row| == |t.columns|
  }

  /** The fatal conditions that abort a run. */
  datatype Error =
    | TooFewColumns(found: nat)         // the abbreviation sheet has fewer than 3 columns
    | MissingColumns(names: seq<string>) // required mapping columns that are absent
    | NoVariationRows(tag: string)      // a variation tag selects no row
    | ColumnNotFound(name: string)      // a column the lookup indexes by is absent
    | NoReplacePairs                    // not a single translation pair was resolved

  datatype Result<T> = Ok(value: T) | Err(error: Error)

  /** `astype(str)` of a cell: a blank cell becomes the text "nan", so it
      reads the same as a cell holding that text. */
  function CellText(c: Cell): (t: string)
    ensures c.Text? ==> t == c.value
    ensures t == "nan" <==> c == Blank || c == Text("nan")
  {
    match c
    case Blank => "nan"
    case Text(s) => s
  }

  /** Python's `str.startswith`: the prefix matches `s` character by character. */
  predicate StartsWith(s: string, prefix: string)
    ensures StartsWith(s, prefix) <==> |prefix| <= |s| && forall i :: 0 <= i < |prefix| ==> s[i] == prefix[i]
  {
    |prefix| <= |s| && s[..|prefix|] == prefix
  }

  /** Python's `needle in hay`: some position of `hay` starts with `needle`. */
  predicate Contains(hay: string, needle: string)
    ensures needle == "" ==> Contains(hay, needle)
    ensures Contains(hay, needle) ==> |needle| <= |hay|
    decreases |hay|
  {
    StartsWith(hay, needle) || (|hay| > 0 && Contains(hay[1..], needle))
  }

  /** ASCII lower-casing of one character: an upper-case letter moves to its
      lower-case letter, every other character is kept. */
  function LowerChar(ch: char): (r: char)
    ensures !('A' <= r <= 'Z')
    ensures 'A' <= ch <= 'Z' ==> r as int == ch as int + 32
    ensures !('A' <= ch <= 'Z') ==> r == ch
  {
    if 'A' <= ch <= 'Z' then (ch as int + 32) as char else ch
  }

  /** ASCII lower-casing of a text, as `case=False` compares it: no
      upper-case letter is left. */
  function Lower(s: string): (r: string)
    ensures |r| == |s|
    ensures forall i :: 0 <= i < |r| ==> !('A' <= r[i] <= 'Z')
  {
    seq(|s|, i requires 0 <= i < |s| => LowerChar(s[i]))
  }

  /** Lower-casing a lower-cased text changes nothing. */
  lemma LowerIdempotent(s: string)
    ensures Lower(Lower(s)) == Lower(s)
  {
    var r := Lower(s);
    assert forall i :: 0 <= i < |r| ==> LowerChar(r[i]) == r[i];
  }

  /** `str.contains(needle, case=False)` for a needle without regex
      metacharacters, folding ASCII letters only. */
  predicate ContainsIgnoreCase(hay: string, needle: string)
    ensures needle == "" ==> ContainsIgnoreCase(hay, needle)
    ensures ContainsIgnoreCase(hay, needle) ==> |needle| <= |hay|
  {
    Contains(Lower(hay), Lower(needle))
  }

  /** The positions of `s` whose element satisfies `keep`, in increasing
      order: every such position and no other. */
  ghost function KeptPositions<T>(s: seq<T>, keep: T -> bool): (idx: seq<nat>)
    ensures forall k :: 0 <= k < |idx| ==> idx[k] < |s| && keep(s[idx[k]])
    ensures forall a, b :: 0 <= a < b < |idx| ==> idx[a] < idx[b]
    ensures forall i {:trigger i in idx} :: 0 <= i < |s| && keep(s[i]) ==> i in idx
  {
    if |s| == 0 then []
    else
      var init := KeptPositions(s[..|s| - 1], keep);
      if keep(s[|s| - 1]) then init + [|s| - 1] else init
  }

  /** The elements of `s` that satisfy `keep`, in their original order: a
      boolean-mask selection or a list comprehension with a condition. */
  function Filter<T>(s: seq<T>, keep: T -> bool): (r: seq<T>)
    ensures |r| == |KeptPositions(s, keep)|
    ensures forall k {:trigger r[k]} :: 0 <= k < |r| ==> r[k] == s[KeptPositions(s, keep)[k]]
  {
    if |s| == 0 then []
    else
      var rest := Filter(s[..|s| - 1], keep);
      if keep(s[|s| - 1]) then rest + [s[|s| - 1]] else rest
  }

  /** The selection holds exactly the kept elements. */
  lemma {:induction false} FilterMembers<T(!new)>(s: seq<T>, keep: T -> bool)
    ensures forall x :: x in Filter(s, keep) <==> x in s && keep(x)
  {
    var r, idx := Filter(s, keep), KeptPositions(s, keep);
    forall x | x in s && keep(x) ensures x in r {
      var i :| 0 <= i < |s| && s[i] == x;
      assert i in idx;
      var k :| 0 <= k < |idx| && idx[k] == i;
      assert r[k] == x;
    }
  }

  /** Each kept element occurs in the selection as often as in `s`. */
  lemma {:induction false} FilterCounts<T(!new)>(s: seq<T>, keep: T -> bool)
    ensures forall x :: keep(x) ==> multiset(Filter(s, keep))[x] == multiset(s)[x]
    decreases |s|
  {
    if |s| > 0 {
      var init := s[..|s| - 1];
      var last := s[|s| - 1];
      FilterCounts(init, keep);
      assert s == init + [last];
      assert multiset(s) == multiset(init) + multiset{last};
      if keep(last) {
        assert multiset(Filter(s, keep)) == multiset(Filter(init, keep)) + multiset{last};
      }
    }
  }

  /** A selection that keeps every element is `s` itself. */
  lemma {:induction false} FilterAll<T>(s: seq<T>, keep: T -> bool)
    ensures (forall k :: 0 <= k < |s| ==> keep(s[k])) ==> Filter(s, keep) == s
    decreases |s|
  {
    if |s| > 0 && forall k :: 0 <= k < |s| ==> keep(s[k]) {
      var init := s[..|s| - 1];
      assert s == init + [s[|s| - 1]];
      FilterAll(init, keep);
      assert Filter(s, keep) == init + [s[|s| - 1]];
    }
  }

  /** The position of the first occurrence of `x` in `s`. */
  function FirstIndex<T(==)>(s: seq<T>, x: T): (i: nat)
    requires x in s
    ensures i < |s| && s[i] == x && forall k :: 0 <= k < i ==> s[k] != x
  {
    if s[0] == x then 0 else 1 + FirstIndex(s[1..], x)
  }

  /** Appending an element does not move the first occurrence of any
      element already present. */
  lemma {:induction false} FirstIndexAppend<T>(s: seq<T>, y: T)
    ensures forall x :: x in s ==> FirstIndex(s + [y], x) == FirstIndex(s, x)
  {
    forall x | x in s ensures FirstIndex(s + [y], x) == FirstIndex(s, x) {
      var i := FirstIndex(s, x);
      assert (s + [y])[i] == x;
      assert forall k :: 0 <= k < i ==> (s + [y])[k] == s[k];
    }
  }

  /** pandas `unique()`: each element once, in order of first appearance. */
  function Distinct<T(==,!new)>(s: seq<T>): (r: seq<T>)
    ensures forall x :: x in r <==> x in s
    ensures forall a, b :: 0 <= a < b < |r| ==> r[a] != r[b]
    ensures forall a, b :: 0 <= a < b < |r| ==> FirstIndex(s, r[a]) < FirstIndex(s, r[b])
    ensures |r| <= |s|
  {
    if |s| == 0 then []
    else
      var init := s[..|s| - 1];
      assert s == init + [s[|s| - 1]];
      FirstIndexAppend(init, s[|s| - 1]);
      var d := Distinct(init);
      if s[|s| - 1] in d then d else d + [s[|s| - 1]]
  }
}
