/**
 * Removing a set of rows from an item model one row at a time, highest first, as
 * CopyMoveDialog::execute does after a move (CopyMoveDialog.cpp:155-159).
 */
module RowRemoval {

  /** The entries of `s` whose index is not in `removed`, in their original order. */
  function Kept<T>(s: seq<T>, removed: set<int>): seq<T>
  {
    if s == [] then []
    else Kept(s[..|s| - 1], removed) + (if |s| - 1 in removed then [] else [s[|s| - 1]])
  }

  /** QStandardItemModel::removeRow on the row list. */
  function RemoveAt<T>(s: seq<T>, k: int): (r: seq<T>)
    requires 0 <= k < |s|
    ensures |r| == |s| - 1
    ensures forall i :: 0 <= i < k ==> r[i] == s[i]
    ensures forall i :: k <= i < |r| ==> r[i] == s[i + 1]
  {
    s[..k] + s[k + 1..]
  }

  /** `Kept` keeps an entry exactly when its index is not removed. */
  lemma {:induction false} KeptMembers<T>(s: seq<T>, removed: set<int>)
    ensures forall i :: 0 <= i < |s| && i !in removed ==> s[i] in Kept(s, removed)
    ensures forall x :: x in Kept(s, removed) ==> exists i :: 0 <= i < |s| && i !in removed && s[i] == x
  {
    if s != [] {
      var p := s[..|s| - 1];
      KeptMembers(p, removed);
      forall x | x in Kept(s, removed)
        ensures exists i :: 0 <= i < |s| && i !in removed && s[i] == x
      {
        if x in Kept(p, removed) {
          var i :| 0 <= i < |p| && i !in removed && p[i] == x;
          assert s[i] == x;
        } else {
          assert s[|s| - 1] == x;
        }
      }
    }
  }

  /** Removing only indices at or beyond the end keeps everything. */
  lemma {:induction false} KeptAllBelow<T>(s: seq<T>, removed: set<int>)
    requires forall r :: r in removed ==> r >= |s|
    ensures Kept(s, removed) == s
  {
    if s != [] {
      KeptAllBelow(s[..|s| - 1], removed);
    }
  }

  /**
   * When every index removed so far lies above `k`, removing row `k` from what is left is the
   * same as having removed `k` along with the others; and row `k` is still there to remove.
   */
  lemma {:induction false} RemoveBelowRemoved<T>(s: seq<T>, removed: set<int>, k: int)
    requires 0 <= k < |s|
    requires forall r :: r in removed ==> r > k
    ensures k < |Kept(s, removed)| && Kept(s, removed)[k] == s[k]
    ensures Kept(s, removed + {k}) == RemoveAt(Kept(s, removed), k)
  {
    var p := s[..|s| - 1];
    if |s| - 1 == k {
      RemoveLast(s, removed);
    } else {
      RemoveBelowRemoved(p, removed, k);
      var a := Kept(p, removed);
      var tail := if |s| - 1 in removed then [] else [s[|s| - 1]];
      assert Kept(s, removed) == a + tail;
      assert Kept(s, removed + {k}) == RemoveAt(a, k) + tail;
      assert (a + tail)[..k] == a[..k];
      assert (a + tail)[k + 1..] == a[k + 1..] + tail;
    }
  }

  /** The base case: removing the last row when nothing below it was removed. */
  lemma RemoveLast<T>(s: seq<T>, removed: set<int>)
    requires s != [] && forall r :: r in removed ==> r > |s| - 1
    ensures Kept(s, removed) == s
    ensures Kept(s, removed + {|s| - 1}) == RemoveAt(s, |s| - 1)
  {
    var p := s[..|s| - 1];
    KeptAllBelow(p, removed);
    KeptAllBelow(p, removed + {|s| - 1});
    assert s == p + [s[|s| - 1]];
  }

  predicate Ascending(s: seq<int>)
  {
    forall i, j :: 0 <= i < j < |s| ==> s[i] <= s[j]
  }

  /** Putting a value no larger than the first in front of an ascending sequence keeps it ascending. */
  lemma AscendingCons(x: int, s: seq<int>)
    requires Ascending(s) && (s != [] ==> x <= s[0])
    ensures Ascending([x] + s)
  {
    var r := [x] + s;
    forall i, j | 0 <= i < j < |r| ensures r[i] <= r[j] {
      if i == 0 {
        assert s[0] <= s[j - 1];
      } else {
        assert r[i] == s[i - 1] && r[j] == s[j - 1];
      }
    }
  }

  /** Places `x` into an ascending sequence. */
  function Insert(x: int, s: seq<int>): (r: seq<int>)
    requires Ascending(s)
    ensures Ascending(r) && multiset(r) == multiset(s) + multiset{x}
    ensures r != [] && (r[0] == x || (s != [] && r[0] == s[0]))
  {
    if s == [] then [x]
    else if x <= s[0] then
      AscendingCons(x, s);
      [x] + s
    else
      assert s == [s[0]] + s[1..];
      assert Ascending(s[1..]) by {
        forall i, j | 0 <= i < j < |s| - 1 ensures s[1..][i] <= s[1..][j] {
          assert s[1..][i] == s[i + 1] && s[1..][j] == s[j + 1];
        }
      }
      var rest := Insert(x, s[1..]);
      assert s[1..] != [] ==> s[0] <= s[1..][0];
      AscendingCons(s[0], rest);
      [s[0]] + rest
  }

  /** std::sort on a list of rows. */
  function SortRows(s: seq<int>): (r: seq<int>)
    ensures Ascending(r) && multiset(r) == multiset(s)
  {
    if s == [] then []
    else
      assert s == [s[0]] + s[1..];
      Insert(s[0], SortRows(s[1..]))
  }

  ghost function RowSet(s: seq<int>): set<int>
  {
    set x | x in s
  }
}
