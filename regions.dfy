/** Splitting the cleaned table by region: for each configured region code, the rows whose
    `REGIONID` equals it (`df.loc[df['REGIONID'] == s]`), one output file per code. */
module Regions {
  import opened Wrappers
  import opened Masks
  import opened Cleaning

  /** The regions an output file is written for. */
  const STATES: seq<string> := ["QLD1", "NSW1"]

  /** `df['REGIONID'] == code` for one row: an exact, case-sensitive comparison; a missing
      region never equals a code. */
  function InRegion(code: string): Row -> bool {
    (row: Row) => row.regionId == Some(code)
  }

  /** The rows of one region's output file: only rows whose region is exactly `code`, and
      every such row, as often as it occurs in the table. */
  function RegionRows(rows: seq<Row>, code: string): (r: seq<Row>)
    ensures forall x :: x in r ==> x.regionId == Some(code)
    ensures forall x ::
      multiset(r)[x] == if x.regionId == Some(code) then multiset(rows)[x] else 0
  {
    SelectWhere(rows, InRegion(code));
    Select(rows, Where(rows, InRegion(code)))
  }

  /** The outputs of a run: one per configured region, QLD1 and NSW1, each holding that
      region's rows. */
  function RegionFiles(rows: seq<Row>): (files: map<string, seq<Row>>)
    ensures files.Keys == {"QLD1", "NSW1"}
    ensures forall s :: s in files ==> files[s] == RegionRows(rows, s)
  {
    map s | s in STATES :: RegionRows(rows, s)
  }

  /** A region's output keeps the table's row order: output row k is table row `pos[k]`, the
      positions ascend, and every row of the region is among them. */
  lemma RegionRowsKeepOrder(rows: seq<Row>, code: string)
    ensures var pos := KeptPositions(Where(rows, InRegion(code)));
      && |RegionRows(rows, code)| == |pos|
      && StrictlyIncreasing(pos)
      && (forall k :: 0 <= k < |pos| ==> pos[k] < |rows| && RegionRows(rows, code)[k] == rows[pos[k]])
      && (forall i :: 0 <= i < |rows| && rows[i].regionId == Some(code) ==> i in pos)
  {
    SelectPicksKeptPositions(rows, Where(rows, InRegion(code)));
  }

  /** The loop over `states`: each iteration writes `<code>.csv` with that region's rows.
      The written files are returned as a map from region code to rows; a code listed
      twice is written twice with the same rows. */
  method SplitByRegion(rows: seq<Row>, states: seq<string>) returns (files: map<string, seq<Row>>)
    ensures files.Keys == set s | s in states
    ensures forall s :: s in files ==> files[s] == RegionRows(rows, s)
  {
    files := map[];
    for i := 0 to |states|
      invariant files.Keys == set s | s in states[..i]
      invariant forall s :: s in files ==> files[s] == RegionRows(rows, s)
    {
      assert states[..i + 1] == states[..i] + [states[i]];
      files := files[states[i] := RegionRows(rows, states[i])];
    }
    assert states[..|states|] == states;
  }
}
