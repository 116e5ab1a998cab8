/**
 * Re-selecting a thumbnail after rows were deleted or moved away (Phototonic.cpp, in
 * deleteImages, pasteThumbs and dropOp): the remembered row is clamped to the last row, and
 * nothing is selected when the view is empty.
 */
module RowReselect {
  import opened Wrappers
  import opened Text
  import opened Collections
  import opened CopyMove

  /**
   * The row made current after the view shrank to `rowCount` rows: none when the view is
   * empty (Phototonic.cpp:1931, 3393), otherwise `row` pulled down to the last row.
   */
  function ClampedRow(row: int, rowCount: nat): (r: Option<int>)
    ensures r.None? <==> rowCount == 0
    ensures r.Some? ==> r.value <= row && (r.value == row <==> row < rowCount)
    ensures r.Some? && 0 <= row ==> 0 <= r.value < rowCount
  {
    if rowCount == 0 then None
    else if row >= rowCount then Some(rowCount - 1)
    else Some(row)
  }

  /** For a row that is not negative, the clamped row is the valid row nearest to it. */
  lemma ClampedRowIsNearest(row: int, rowCount: nat, k: int)
    requires 0 <= row && 0 <= k < rowCount
    ensures ClampedRow(row, rowCount).Some?
    ensures var c := ClampedRow(row, rowCount).value;
      (if k <= row then row - k else k - row) >= (if c <= row then row - c else c - row)
  {
  }

  /**
   * The re-selection after a copy or move to another folder (Phototonic.cpp:1929-1937,
   * 3390-3397), when the dialog's latest row may be absent: nothing when no row was processed
   * or the view is empty, otherwise the latest row clamped to the last row.
   */
  function AfterBatch(latest: Option<int>, rowCount: nat): (r: Option<int>)
    ensures r.None? <==> latest.None? || rowCount == 0
    ensures r.Some? ==> r.value <= latest.value
    ensures r.Some? && 0 <= latest.value ==> 0 <= r.value < rowCount
  {
    if latest.None? then None else ClampedRow(latest.value, rowCount)
  }

  /** The smallest of the deleted rows (std::sort followed by at(0)). */
  function LowestRow(rows: seq<int>): (m: int)
    requires rows != []
    ensures m in rows && forall k :: 0 <= k < |rows| ==> m <= rows[k]
  {
    if |rows| == 1 then rows[0]
    else
      var rest := LowestRow(rows[1..]);
      if rows[0] <= rest then rows[0] else rest
  }

  /**
   * deleteImages (Phototonic.cpp:2073-2083): when something was deleted and rows remain,
   * the lowest deleted row is re-selected, clamped to the last remaining row.
   */
  function DeleteReselect(deletedRows: seq<int>, rowCount: nat): (r: Option<int>)
    ensures r.None? <==> rowCount == 0 || deletedRows == []
    ensures r.Some? ==> exists k :: 0 <= k < |deletedRows| && r == ClampedRow(deletedRows[k], rowCount)
    ensures r.Some? && (forall k :: 0 <= k < |deletedRows| ==> 0 <= deletedRows[k]) ==>
      0 <= r.value < rowCount && forall k :: 0 <= k < |deletedRows| ==> r.value <= deletedRows[k]
  {
    if rowCount == 0 || deletedRows == [] then None
    else ClampedRow(LowestRow(deletedRows), rowCount)
  }

  /**
   * After a corrected batch over distinct rows of the model (CopyMove.LatestRow), the
   * caller's re-selection picks a row of the view exactly when something was processed and the
   * view is not empty, and that row is never negative.
   */
  lemma BatchReselectInRange(existing: set<Path>, isCopy: bool, model: seq<Path>, indexRows: seq<int>,
                             destDir: Path, abortFrom: nat, rowCount: nat)
    requires RowsIn(indexRows, |model|) && NoDuplicates(indexRows)
    ensures var r := SelectionFrom(existing, isCopy, model, indexRows, destDir, |indexRows| - 1, abortFrom, []);
      var s := AfterBatch(LatestRow(r.rowList, isCopy), rowCount);
      && (s.None? <==> r.rowList == [] || rowCount == 0)
      && (s.Some? ==> 0 <= s.value < rowCount)
  {
    var r := SelectionFrom(existing, isCopy, model, indexRows, destDir, |indexRows| - 1, abortFrom, []);
    SelectedRowsDistinct(existing, isCopy, model, indexRows, destDir, abortFrom);
    var l := LatestRow(r.rowList, isCopy);
    if l.Some? {
      var k :| 0 <= k < |r.rowList| && r.rowList[k] == l.value;
      assert 0 <= l.value;
    }
  }
}
