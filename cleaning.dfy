/** The cleaning steps applied in place to the price table: drop exact duplicate rows,
    drop rows with every field missing, then drop the row labelled with the last index label. */
module Cleaning {
  import opened Wrappers
  import opened Failures
  import opened Masks

  /** One row of the table projected to `REGIONID`, `SETTLEMENTDATE` and `RRP`; None stands
      for a missing value (NaN). */
  datatype Row = Row(regionId: Option<string>, settlementDate: Option<string>, rrp: Option<real>)

  /** `dropna(how='all')` removes exactly the rows for which this is false. */
  predicate HasSomeValue(row: Row) {
    row.regionId.Some? || row.settlementDate.Some? || row.rrp.Some?
  }

  /** `~df.duplicated(keep='first')`: a row is kept when no earlier row equals it on all
      three fields (two missing values count as equal). */
  function FirstOccurrences(rows: seq<Row>): (m: seq<bool>)
    ensures |m| == |rows|
  {
    seq(|rows|, i requires 0 <= i < |rows| => rows[i] !in rows[..i])
  }

  /** The table after `drop_duplicates()`: no two rows are equal, and a row is in it
      exactly when it is in the input. */
  function Deduplicated(rows: seq<Row>): (r: seq<Row>)
    ensures NoDuplicates(r)
    ensures forall x :: x in r <==> x in rows
  {
    FirstOccurrencesDistinct(rows);
    FirstOccurrencesCover(rows);
    Select(rows, FirstOccurrences(rows))
  }

  /** The table after `dropna(axis=0, how='all')`: no blank row remains, and every row with
      at least one value is kept, as often as it occurred. */
  function WithoutBlankRows(rows: seq<Row>): (r: seq<Row>)
    ensures forall x :: x in r <==> x in rows && HasSomeValue(x)
    ensures forall x :: multiset(r)[x] == if HasSomeValue(x) then multiset(rows)[x] else 0
  {
    SelectWhere(rows, HasSomeValue);
    Select(rows, Where(rows, HasSomeValue))
  }

  /** The mask of `drop(index=target)`: every row except those labelled `target`. */
  function IsNot(target: int): int -> bool {
    l => l != target
  }

  /** The rows left when duplicates and blank rows are gone and the last row is dropped.
      Cleaning fails, with the empty-frame error, exactly when no row of the table has a
      value; otherwise the rows left are distinct, non-blank and taken from the table. */
  function Clean(table: seq<Row>): (r: Result<seq<Row>, Failure>)
    ensures r.Err? ==> r.error == EmptyFrame
    ensures r.Err? <==> forall x :: x in table ==> !HasSomeValue(x)
    ensures r.Ok? ==> NoDuplicates(r.value)
    ensures r.Ok? ==> forall x :: x in r.value ==> HasSomeValue(x) && x in table
  {
    var deduped := Deduplicated(table);
    SelectKeepsDistinct(deduped, Where(deduped, HasSomeValue));
    var kept := WithoutBlankRows(deduped);
    if kept == [] then Err(EmptyFrame) else Ok(kept[..|kept| - 1])
  }

  // ---- drop_duplicates ----

  /** Keeping first occurrences leaves no two equal rows. */
  lemma {:induction false} FirstOccurrencesDistinct(rows: seq<Row>)
    ensures NoDuplicates(Select(rows, FirstOccurrences(rows)))
  {
    if rows != [] {
      var n := |rows| - 1;
      assert FirstOccurrences(rows)[..n] == FirstOccurrences(rows[..n]);
      FirstOccurrencesDistinct(rows[..n]);
      var prev := Select(rows[..n], FirstOccurrences(rows[..n]));
      if rows[n] !in rows[..n] {
        forall k | 0 <= k < |prev|
          ensures prev[k] != rows[n]
        {
          SelectFromInput(rows[..n], FirstOccurrences(rows[..n]), prev[k]);
        }
      }
    }
  }

  /** Keeping first occurrences loses no distinct row and adds none. */
  lemma {:induction false} FirstOccurrencesCover(rows: seq<Row>)
    ensures forall x :: x in Select(rows, FirstOccurrences(rows)) <==> x in rows
  {
    forall x | x in Select(rows, FirstOccurrences(rows)) {
      SelectFromInput(rows, FirstOccurrences(rows), x);
    }
    if rows != [] {
      var n := |rows| - 1;
      assert FirstOccurrences(rows)[..n] == FirstOccurrences(rows[..n]);
      FirstOccurrencesCover(rows[..n]);
      assert rows == rows[..n] + [rows[n]];
    }
  }

  /** Deduplication keeps the first occurrence of each row, in the original order: result
      row k is input row `pos[k]`, the positions ascend, each is a row seen for the first
      time, and every first occurrence is among them. */
  lemma DeduplicatedKeepsFirstOccurrences(rows: seq<Row>)
    ensures var pos := KeptPositions(FirstOccurrences(rows));
      && |Deduplicated(rows)| == |pos|
      && StrictlyIncreasing(pos)
      && (forall k :: 0 <= k < |pos| ==>
            pos[k] < |rows| && rows[pos[k]] !in rows[..pos[k]] && Deduplicated(rows)[k] == rows[pos[k]])
      && (forall i :: 0 <= i < |rows| && rows[i] !in rows[..i] ==> i in pos)
  {
    SelectPicksKeptPositions(rows, FirstOccurrences(rows));
  }

  /** A table without repeated rows is left as it is. */
  lemma DeduplicatedOfDistinct(rows: seq<Row>)
    requires NoDuplicates(rows)
    ensures Deduplicated(rows) == rows
  {
    SelectAll(rows, FirstOccurrences(rows));
  }

  /** Deduplicating twice is deduplicating once. */
  lemma DeduplicatedIdempotent(rows: seq<Row>)
    ensures Deduplicated(Deduplicated(rows)) == Deduplicated(rows)
  {
    DeduplicatedOfDistinct(Deduplicated(rows));
  }

  // ---- dropna(how='all') ----

  /** Removing blank rows keeps the remaining rows in their original order. */
  lemma WithoutBlankRowsKeepsOrder(rows: seq<Row>)
    ensures var pos := KeptPositions(Where(rows, HasSomeValue));
      && |WithoutBlankRows(rows)| == |pos|
      && StrictlyIncreasing(pos)
      && (forall k :: 0 <= k < |pos| ==> pos[k] < |rows| && WithoutBlankRows(rows)[k] == rows[pos[k]])
      && (forall i :: 0 <= i < |rows| && HasSomeValue(rows[i]) ==> i in pos)
  {
    SelectPicksKeptPositions(rows, Where(rows, HasSomeValue));
  }

  /** A table without blank rows is left as it is; so the step is idempotent. */
  lemma WithoutBlankRowsOfFilled(rows: seq<Row>)
    requires forall x :: x in rows ==> HasSomeValue(x)
    ensures WithoutBlankRows(rows) == rows
  {
    SelectAll(rows, Where(rows, HasSomeValue));
  }

  // ---- drop(index=df.index[-1]) ----

  /** Index labels stay unique and ascending, so dropping the last label removes exactly the
      last row and no other. */
  lemma {:induction false} DropLastLabel<T>(index: seq<int>, rows: seq<T>)
    requires |index| == |rows| > 0 && StrictlyIncreasing(index)
    ensures Select(rows, Where(index, IsNot(index[|index| - 1]))) == rows[..|rows| - 1]
  {
    var n := |rows| - 1;
    var mask := Where(index, IsNot(index[n]));
    assert mask[..n] == Where(index[..n], IsNot(index[n]));
    SelectAll(rows[..n], mask[..n]);
  }

  // ---- the three steps together ----

  /** Re-running the first two steps on their own output changes nothing. */
  lemma CleaningStepsIdempotent(table: seq<Row>)
    ensures var kept := WithoutBlankRows(Deduplicated(table));
      WithoutBlankRows(Deduplicated(kept)) == kept
  {
    var deduped := Deduplicated(table);
    var kept := WithoutBlankRows(deduped);
    SelectKeepsDistinct(deduped, Where(deduped, HasSomeValue));
    DeduplicatedOfDistinct(kept);
    WithoutBlankRowsOfFilled(kept);
  }

  /** The data frame being cleaned: its rows and their index labels, both changed in place. */
  class Frame {
    var index: seq<int>
    var rows: seq<Row>

    /** One label per row; labels ascend, and so are unique. */
    ghost predicate Valid()
      reads this
    {
      |index| == |rows| && StrictlyIncreasing(index)
    }

    /** `pd.read_csv(...)`: the parsed rows in file order, labelled 0, 1, 2, ... */
    constructor ReadCsv(table: seq<Row>)
      ensures Valid()
      ensures rows == table && index == seq(|table|, i => i)
    {
      rows := table;
      index := seq(|table|, i => i);
    }

    /** `df.drop_duplicates(inplace=True)`: rows and labels of the first occurrences stay. */
    method DropDuplicates()
      requires Valid()
      modifies this
      ensures Valid()
      ensures rows == Deduplicated(old(rows))
      ensures index == Select(old(index), FirstOccurrences(old(rows)))
    {
      SelectKeepsIncreasing(index, FirstOccurrences(rows));
      SelectPicksKeptPositions(index, FirstOccurrences(rows));
      SelectPicksKeptPositions(rows, FirstOccurrences(rows));
      index := Select(index, FirstOccurrences(rows));
      rows := Deduplicated(rows);
    }

    /** `df.dropna(axis=0, how='all', inplace=True)`: rows and labels of non-blank rows stay. */
    method DropBlankRows()
      requires Valid()
      modifies this
      ensures Valid()
      ensures rows == WithoutBlankRows(old(rows))
      ensures index == Select(old(index), Where(old(rows), HasSomeValue))
    {
      var mask := Where(rows, HasSomeValue);
      SelectKeepsIncreasing(index, mask);
      SelectPicksKeptPositions(index, mask);
      SelectPicksKeptPositions(rows, mask);
      index := Select(index, mask);
      rows := WithoutBlankRows(rows);
    }

    /** `df.index[-1]`: the last label, or None where pandas raises IndexError. */
    function LastLabel(): (r: Option<int>)
      reads this
      requires Valid()
      ensures r.None? <==> rows == []
      ensures r.Some? ==> r.value == index[|index| - 1]
      ensures r.Some? ==> forall i :: 0 <= i < |index| - 1 ==> index[i] < r.value
    {
      if index == [] then None else Some(index[|index| - 1])
    }

    /** `df.drop(index=target, axis=0, inplace=True)`: every row labelled `target` goes.
        The label must be present; pandas raises KeyError otherwise. */
    method Drop(target: int)
      requires Valid() && target in index
      modifies this
      ensures Valid()
      ensures rows == Select(old(rows), Where(old(index), IsNot(target)))
      ensures index == Select(old(index), Where(old(index), IsNot(target)))
    {
      var mask := Where(index, IsNot(target));
      SelectKeepsIncreasing(index, mask);
      SelectPicksKeptPositions(index, mask);
      SelectPicksKeptPositions(rows, mask);
      rows := Select(rows, mask);
      index := Select(index, mask);
    }
  }
}
