/**
 * The "Copy to..." / "Move to..." dialog (CopyMoveToDialog.cpp): a one-column table of
 * bookmarked destinations with a single-row selection, buttons to add and delete rows, and the
 * two ways out, both of which write the rows back as the new set of bookmarks.
 */
module CopyMoveTo {
  import opened Wrappers
  import opened Text
  import opened Collections
  import opened BookmarkStore

  /** Paths in strictly increasing code-unit order, the order pathsTableModel->sort(0) leaves. */
  predicate Ascending(s: seq<Path>)
  {
    forall i, j :: 0 <= i < j < |s| ==> LexLess(s[i], s[j])
  }

  function InsertPath(x: Path, s: seq<Path>): seq<Path>
  {
    if s == [] || LexLess(x, s[0]) then [x] + s else [s[0]] + InsertPath(x, s[1..])
  }

  /** The rows after pathsTableModel->sort(0) (CopyMoveToDialog.cpp:171), as an insertion sort. */
  function SortPaths(s: seq<Path>): seq<Path>
  {
    if s == [] then [] else InsertPath(s[0], SortPaths(s[1..]))
  }

  /** Insertion adds exactly the inserted path. */
  lemma {:induction false} InsertPathMultiset(x: Path, s: seq<Path>)
    ensures multiset(InsertPath(x, s)) == multiset(s) + multiset{x}
  {
    if s != [] && !LexLess(x, s[0]) {
      InsertPathMultiset(x, s[1..]);
      assert s == [s[0]] + s[1..];
    }
  }

  /** Every path of `s` comes after `y`. */
  predicate Below(y: Path, s: seq<Path>)
  {
    forall j :: 0 <= j < |s| ==> LexLess(y, s[j])
  }

  lemma ConsAscending(y: Path, s: seq<Path>)
    requires Ascending(s) && Below(y, s)
    ensures Ascending([y] + s)
  {
    var r := [y] + s;
    forall i, j | 0 <= i < j < |r|
      ensures LexLess(r[i], r[j])
    {
      assert r[j] == s[j - 1];
      if i > 0 {
        assert r[i] == s[i - 1];
      }
    }
  }

  /** Inserting a new path into ascending paths keeps them ascending. */
  lemma {:induction false} InsertPathSpec(x: Path, s: seq<Path>)
    requires Ascending(s) && x !in s
    ensures Ascending(InsertPath(x, s)) && multiset(InsertPath(x, s)) == multiset(s) + multiset{x}
  {
    InsertPathMultiset(x, s);
    if s == [] {
    } else if LexLess(x, s[0]) {
      forall j | 0 <= j < |s|
        ensures LexLess(x, s[j])
      {
        if j > 0 {
          LexLessTransitive(x, s[0], s[j]);
        }
      }
      ConsAscending(x, s);
    } else {
      LexLessTotal(x, s[0]);
      var tail := InsertPath(x, s[1..]);
      InsertPathSpec(x, s[1..]);
      forall j | 0 <= j < |tail|
        ensures LexLess(s[0], tail[j])
      {
        assert tail[j] in multiset(tail);
        if tail[j] != x {
          assert tail[j] in multiset(s[1..]);
          var k :| 0 <= k < |s[1..]| && s[1..][k] == tail[j];
          assert s[k + 1] == tail[j];
        }
      }
      ConsAscending(s[0], tail);
    }
  }

  /** Sorting paths without duplicates gives them in strictly increasing order, the same paths. */
  lemma {:induction false} SortPathsSpec(s: seq<Path>)
    requires NoDuplicates(s)
    ensures Ascending(SortPaths(s)) && multiset(SortPaths(s)) == multiset(s)
  {
    if s != [] {
      assert s == [s[0]] + s[1..];
      SortPathsSpec(s[1..]);
      var sorted := SortPaths(s[1..]);
      assert s[0] !in multiset(s[1..]);
      assert s[0] !in sorted by {
        assert s[0] !in multiset(sorted);
      }
      InsertPathSpec(s[0], sorted);
    }
  }

  /**
   * The dialog's table in single-selection mode (CopyMoveToDialog.cpp:114): the selected row
   * and the view's current row, which a click sets together and `add` does not move.
   */
  datatype PathList = PathList(rows: seq<Path>, selected: Option<nat>, current: Option<nat>)

  predicate ListInv(l: PathList)
  {
    && (l.selected.Some? ==> l.selected.value < |l.rows|)
    && (l.current.Some? ==> l.current.value < |l.rows|)
  }

  /** The path of the selected row, if a row is selected. */
  function Chosen(l: PathList): Option<Path>
    requires ListInv(l)
  {
    if l.selected.Some? then Some(l.rows[l.selected.value]) else None
  }

  /** add (CopyMoveToDialog.cpp:69-84) with `dirName` the directory the user picked. */
  function Added(l: PathList, dirName: Path): (r: PathList)
    requires ListInv(l)
    ensures ListInv(r)
  {
    if dirName == [] then l else PathList(l.rows + [dirName], Some(|l.rows|), l.current)
  }

  /**
   * remove (CopyMoveToDialog.cpp:86-92) followed by the single-selection view's reaction to the
   * removal: when the removed row is the current one, the next row (the previous one when it
   * was the last) becomes current and selected; otherwise the selection goes with the row and
   * the current row keeps its path.
   */
  function Removed(l: PathList): (r: PathList)
    requires ListInv(l)
    ensures ListInv(r)
  {
    if l.selected.None? then l
    else
      var k := l.selected.value;
      var rows := l.rows[..k] + l.rows[k + 1..];
      if l.current == l.selected then
        if rows == [] then PathList(rows, None, None)
        else
          var next := if k < |rows| then k else k - 1;
          PathList(rows, Some(next), Some(next))
      else
        PathList(rows, None, if l.current.Some? && l.current.value > k then Some(l.current.value - 1) else l.current)
  }

  /**
   * Adding a directory appends exactly that row and makes it the selected one; an empty choice
   * changes nothing.
   */
  lemma AddedSpec(l: PathList, dirName: Path)
    requires ListInv(l)
    ensures dirName == [] ==> Added(l, dirName) == l
    ensures dirName != [] ==>
      && multiset(Added(l, dirName).rows) == multiset(l.rows) + multiset{dirName}
      && Added(l, dirName).rows[..|l.rows|] == l.rows
      && Chosen(Added(l, dirName)) == Some(dirName)
      && Added(l, dirName).current == l.current
  {
  }

  /**
   * Deleting drops exactly the selected row and keeps the others in order; with no selection
   * nothing changes.
   */
  lemma {:induction false} RemovedRows(l: PathList)
    requires ListInv(l)
    ensures l.selected.None? ==> Removed(l) == l
    ensures l.selected.Some? ==>
      && multiset(Removed(l).rows) + multiset{l.rows[l.selected.value]} == multiset(l.rows)
      && (forall i :: 0 <= i < |Removed(l).rows| ==>
            Removed(l).rows[i] == l.rows[if i < l.selected.value then i else i + 1])
  {
    if l.selected.Some? {
      var i := l.selected.value;
      assert Removed(l).rows == l.rows[..i] + l.rows[i + 1..];
      DeleteAtSpec(l.rows, i, Removed(l).rows);
    }
  }

  /** Deleting position `i` removes that one element and shifts the later ones down by one. */
  lemma DeleteAtSpec(rows: seq<Path>, i: nat, rest: seq<Path>)
    requires i < |rows| && rest == rows[..i] + rows[i + 1..]
    ensures multiset(rest) + multiset{rows[i]} == multiset(rows)
    ensures forall j :: 0 <= j < |rest| ==> rest[j] == rows[if j < i then j else j + 1]
  {
    assert rows == rows[..i] + [rows[i]] + rows[i + 1..];
  }

  /**
   * What is selected after a deletion: when the deleted row was also the current one and other
   * rows remain, its neighbour below (above, for the last row) is selected and current;
   * otherwise nothing is selected and the current row, if it survives, keeps its path.
   */
  lemma RemovedSelection(l: PathList)
    requires ListInv(l) && l.selected.Some?
    ensures l.current == l.selected && |l.rows| > 1 ==>
      var k := l.selected.value;
      && Chosen(Removed(l)) == Some(l.rows[if k + 1 < |l.rows| then k + 1 else k - 1])
      && Removed(l).current == Removed(l).selected
    ensures l.current == l.selected && |l.rows| == 1 ==> Removed(l) == PathList([], None, None)
    ensures l.current != l.selected ==>
      && Chosen(Removed(l)).None?
      && (Removed(l).current.Some? <==> l.current.Some?)
      && (l.current.Some? ==> Removed(l).rows[Removed(l).current.value] == l.rows[l.current.value])
  {
  }

  /** Deleting a row just added undoes the addition, and nothing is selected afterwards. */
  lemma AddThenRemove(l: PathList, dirName: Path)
    requires ListInv(l) && dirName != []
    ensures Removed(Added(l, dirName)) == PathList(l.rows, None, l.current)
  {
    assert (l.rows + [dirName])[..|l.rows|] == l.rows;
  }

  /** What savePaths (CopyMoveToDialog.cpp:41-48) writes: the set of row texts. */
  ghost function RowSet(rows: seq<Path>): set<Path>
  {
    set p | p in rows
  }

  /**
   * Opening the dialog lists every bookmark once, so closing it without edits writes back the
   * same set of bookmarks.
   */
  lemma ReopenUnchanged(rows: seq<Path>, paths: set<Path>)
    requires Ascending(rows) && forall p :: p in rows <==> p in paths
    ensures RowSet(rows) == paths
    ensures Lists(rows, paths) && |rows| == |paths|
  {
    forall i, j | 0 <= i < j < |rows|
      ensures rows[i] != rows[j]
    {
      if rows[i] == rows[j] {
        LexLessIrreflexive(rows[i]);
      }
    }
    ListsCardinality(rows, paths);
  }

  /** How the dialog was closed: QDialog::accept or QDialog::reject, or not yet. */
  datatype Verdict = Open | Accepted | Rejected

  class CopyMoveToDialog {
    var rows: seq<Path>            // pathsTableModel, one column
    var selected: Option<nat>      // the selected row, if any
    var current: Option<nat>       // the view's current row, if any
    var selectedPath: Path
    var copyOp: bool
    var currentPath: Path
    var destinationLabel: string
    var verdict: Verdict

    function List(): PathList
      reads this
    {
      PathList(rows, selected, current)
    }

    ghost predicate Valid()
      reads this
    {
      ListInv(List())
    }

    /**
     * The constructor (CopyMoveToDialog.cpp:94-172): one row per bookmark, in the order the
     * set yields them, then sorted.
     */
    constructor (store: BookmarkSettings, thumbsPath: Path, move: bool)
      ensures Valid() && selected.None? && current.None? && verdict == Open
      ensures copyOp == !move && currentPath == thumbsPath && selectedPath == []
      ensures destinationLabel == "Destination:"
      ensures Ascending(rows) && forall p :: p in rows <==> p in store.bookmarkPaths
    {
      copyOp := !move;
      currentPath := thumbsPath;
      selectedPath := [];
      destinationLabel := "Destination:";
      verdict := Open;
      selected := None;
      current := None;
      var loaded: seq<Path> := [];
      var remaining := store.bookmarkPaths;
      while remaining != {}
        invariant remaining <= store.bookmarkPaths && NoDuplicates(loaded)
        invariant forall p :: p in loaded <==> p in store.bookmarkPaths - remaining
        decreases remaining
      {
        var bookmarkPath :| bookmarkPath in remaining;
        assert bookmarkPath !in loaded;
        loaded := loaded + [bookmarkPath];
        remaining := remaining - {bookmarkPath};
      }
      SortPathsSpec(loaded);
      var sorted := SortPaths(loaded);
      forall p ensures p in sorted <==> p in loaded {
        assert p in sorted <==> p in multiset(sorted);
        assert p in loaded <==> p in multiset(loaded);
      }
      rows := sorted;
    }

    /** selection (CopyMoveToDialog.cpp:26-34): the label names the selected destination. */
    method Selection()
      requires Valid()
      modifies this
      ensures List() == old(List()) && selectedPath == old(selectedPath)
      ensures copyOp == old(copyOp) && currentPath == old(currentPath) && verdict == old(verdict)
      ensures destinationLabel ==
        if selected.Some? then "Destination: " + rows[selected.value] else old(destinationLabel)
    {
      if selected.Some? {
        destinationLabel := "Destination:" + " " + rows[selected.value];
      }
    }

    /**
     * The user clicks a row, which becomes selected and current, or clears the selection, which
     * leaves the current row where it is; the view reports the change to `selection`.
     */
    method Select(row: Option<nat>)
      requires Valid() && (row.Some? ==> row.value < |rows|)
      modifies this
      ensures Valid() && rows == old(rows) && selected == row
      ensures current == if row.Some? then row else old(current)
      ensures selectedPath == old(selectedPath) && copyOp == old(copyOp) && verdict == old(verdict)
      ensures currentPath == old(currentPath)
      ensures destinationLabel ==
        if row.Some? then "Destination: " + rows[row.value] else old(destinationLabel)
    {
      selected := row;
      if row.Some? {
        current := row;
      }
      Selection();
    }

    method SavePaths(store: BookmarkSettings)
      modifies store
      ensures store.bookmarkPaths == RowSet(rows)
    {
      store.bookmarkPaths := {};
      var i := 0;
      while i < |rows|
        invariant i <= |rows|
        invariant store.bookmarkPaths == RowSet(rows[..i])
      {
        assert rows[..i + 1] == rows[..i] + [rows[i]];
        store.bookmarkPaths := store.bookmarkPaths + {rows[i]};
        i := i + 1;
      }
      assert rows[..i] == rows;
    }

    /** copyOrMove (CopyMoveToDialog.cpp:50-61), the OK button and a double click. */
    method CopyOrMove(store: BookmarkSettings)
      requires Valid()
      modifies this, store
      ensures store.bookmarkPaths == RowSet(rows)
      ensures List() == old(List()) && copyOp == old(copyOp)
      ensures currentPath == old(currentPath) && destinationLabel == old(destinationLabel)
      ensures Chosen(List()).Some? ==> verdict == Accepted && selectedPath == Chosen(List()).value
      ensures Chosen(List()).None? ==> verdict == Rejected && selectedPath == old(selectedPath)
    {
      SavePaths(store);
      if selected.Some? {
        selectedPath := rows[selected.value];
        verdict := Accepted;
      } else {
        verdict := Rejected;
      }
    }

    /** justClose (CopyMoveToDialog.cpp:63-67), the Cancel button: edits are kept all the same. */
    method JustClose(store: BookmarkSettings)
      modifies this, store
      ensures store.bookmarkPaths == RowSet(rows) && verdict == Rejected
      ensures List() == old(List()) && selectedPath == old(selectedPath)
      ensures copyOp == old(copyOp) && currentPath == old(currentPath)
      ensures destinationLabel == old(destinationLabel)
    {
      SavePaths(store);
      verdict := Rejected;
    }

    method Add(dirName: Path)
      requires Valid()
      modifies this
      ensures Valid() && List() == Added(old(List()), dirName)
      ensures selectedPath == old(selectedPath) && copyOp == old(copyOp) && verdict == old(verdict)
      ensures currentPath == old(currentPath)
      ensures destinationLabel == if dirName == [] then old(destinationLabel) else "Destination: " + dirName
    {
      if dirName == [] {
        return;
      }
      rows := rows + [dirName];
      selected := Some(|rows| - 1);
      Selection();
    }

    /**
     * remove (CopyMoveToDialog.cpp:86-92): when the view re-selects a neighbour, `selection`
     * relabels the dialog with it.
     */
    method Remove()
      requires Valid()
      modifies this
      ensures Valid() && List() == Removed(old(List()))
      ensures selectedPath == old(selectedPath) && copyOp == old(copyOp) && verdict == old(verdict)
      ensures currentPath == old(currentPath)
      ensures destinationLabel ==
        if Chosen(List()).Some? then "Destination: " + Chosen(List()).value else old(destinationLabel)
    {
      if selected.Some? {
        var next := Removed(List());
        rows, selected, current := next.rows, next.selected, next.current;
        Selection();
      }
    }
  }
}
