/** Variation Filter: the s3 (target) and s2 (source) subsets of the
    abbreviation rows, and the codes that repeat inside a subset. */
module Variation {
  import opened Tables
  import opened Loader

  const S3Tag: string := "s3"  // target variation
  const S2Tag: string := "s2"  // source variation

  /** The `variation` column, turned into text, contains `tag` whatever the
      letter case; a blank variation reads as "nan" and so carries neither
      tag. */
  predicate HasTag(row: AbbrRow, tag: string)
    ensures row.variation.Blank? && (tag == S3Tag || tag == S2Tag) ==> !HasTag(row, tag)
  {
    NanCarriesNoTag();
    ContainsIgnoreCase(CellText(row.variation), tag)
  }

  lemma NanCarriesNoTag()
    ensures !ContainsIgnoreCase("nan", S3Tag) && !ContainsIgnoreCase("nan", S2Tag)
  {
    assert Lower("nan") == "nan" && Lower(S3Tag) == "s3" && Lower(S2Tag) == "s2";
    assert "nan"[1..] == "an" && "an"[1..] == "n" && "n"[1..] == "";
    assert "an"[..2][0] == 'a' && "nan"[..2][0] == 'n';
    assert !Contains("n", "s3") && !Contains("n", "s2");
  }

  /** The mask of the variation filter for `tag`. */
  function Tagged(tag: string): AbbrRow -> bool {
    row => HasTag(row, tag)
  }

  /** The subset of one variation: exactly the rows carrying the tag, in their
      original order and multiplicity. */
  function VariationRows(rows: seq<AbbrRow>, tag: string): (r: seq<AbbrRow>)
    ensures |r| == |KeptPositions(rows, Tagged(tag))|
    ensures forall k {:trigger r[k]} :: 0 <= k < |r| ==> r[k] == rows[KeptPositions(rows, Tagged(tag))[k]]
    ensures forall row :: row in r <==> row in rows && HasTag(row, tag)
    ensures forall row :: HasTag(row, tag) ==> multiset(r)[row] == multiset(rows)[row]
    ensures r == [] <==> forall i :: 0 <= i < |rows| ==> !HasTag(rows[i], tag)
  {
    FilterMembers(rows, Tagged(tag));
    FilterCounts(rows, Tagged(tag));
    Filter(rows, Tagged(tag))
  }

  /** The `code` column of a subset. */
  function Codes(rows: seq<AbbrRow>): (r: seq<Cell>)
    ensures |r| == |rows| && forall i :: 0 <= i < |rows| ==> r[i] == rows[i].code
  {
    seq(|rows|, i requires 0 <= i < |rows| => rows[i].code)
  }

  /** The duplicate-code report: every code met again after its first
      occurrence, listed once. */
  function DuplicateCodes(codes: seq<Cell>): (r: seq<Cell>)
    ensures forall a, b :: 0 <= a < b < |r| ==> r[a] != r[b]
  {
    if |codes| == 0 then []
    else
      var init := codes[..|codes| - 1];
      var last := codes[|codes| - 1];
      var d := DuplicateCodes(init);
      if last in init && last !in d then d + [last] else d
  }

  /** The duplicate report names exactly the codes that occur more than once. */
  lemma {:induction false} DuplicateCodesExact(codes: seq<Cell>)
    ensures forall c :: c in DuplicateCodes(codes) <==> multiset(codes)[c] >= 2
  {
    if |codes| > 0 {
      var init := codes[..|codes| - 1];
      var last := codes[|codes| - 1];
      assert codes == init + [last];
      DuplicateCodesExact(init);
      forall c ensures c in DuplicateCodes(codes) <==> multiset(codes)[c] >= 2 {
        assert multiset(codes)[c] == multiset(init)[c] + (if c == last then 1 else 0);
        assert c in init <==> multiset(init)[c] >= 1;
      }
    }
  }
}
