/**
 * Browser-style directory history of the main window (Phototonic.cpp): a list of visited
 * directories, a cursor into it, a flag that suppresses the next record while going back or
 * forward, and the enabled state of the Back and Forward actions.
 */
module PathHistory {
  import opened Wrappers
  import opened Text

  /** The abstract state the history code reads and writes. */
  datatype History = History(
    entries: seq<Path>,     // pathHistoryList
    cursor: int,            // currentHistoryIdx
    needRecord: bool,       // needHistoryRecord
    backEnabled: bool,      // goBackAction->isEnabled()
    forwardEnabled: bool)   // goFrwdAction->isEnabled()

  /**
   * The history invariant: the cursor is -1 exactly when the list is empty and otherwise
   * indexes an entry; Forward is enabled exactly when there is an entry after the cursor;
   * Back is enabled only when there is an entry before it.
   */
  predicate Inv(h: History)
  {
    && -1 <= h.cursor < |h.entries|
    && (h.cursor == -1 <==> h.entries == [])
    && (h.forwardEnabled <==> h.cursor < |h.entries| - 1)
    && (h.backEnabled ==> h.cursor > 0)
  }

  /** The state set up by the main window's constructor and createActions. */
  function Initial(): (h: History)
    ensures Inv(h) && h.entries == [] && h.needRecord
  {
    History([], -1, true, false, false)
  }

  /** addPathHistoryRecord (Phototonic.cpp:3436-3456) on the abstract state. */
  function Record(h: History, dir: Path): (r: History)
    requires Inv(h)
    ensures Inv(r) && r.needRecord
    ensures r.backEnabled == h.backEnabled
  {
    if !h.needRecord then h.(needRecord := true)
    else if h.entries != [] && dir == h.entries[h.cursor] then h
    else
      h.(entries := h.entries[..h.cursor + 1] + [dir],
         cursor := h.cursor + 1,
         forwardEnabled := if h.cursor + 1 < |h.entries| then false else h.forwardEnabled)
  }

  /** goBack (Phototonic.cpp:2253-2262) on the abstract state. */
  function Back(h: History): (r: History)
    requires Inv(h)
    ensures Inv(r) && r.entries == h.entries
  {
    if h.cursor > 0 then
      h.(needRecord := false, cursor := h.cursor - 1, forwardEnabled := true,
         backEnabled := if h.cursor - 1 == 0 then false else h.backEnabled)
    else h
  }

  /** goForward (Phototonic.cpp:2264-2273) on the abstract state. */
  function Forward(h: History): (r: History)
    requires Inv(h)
    ensures Inv(r) && r.entries == h.entries
  {
    if h.cursor < |h.entries| - 1 then
      h.(needRecord := false, cursor := h.cursor + 1,
         forwardEnabled := if h.cursor + 1 == |h.entries| - 1 then false else h.forwardEnabled)
    else h
  }

  /**
   * The tail of a successful directory load (Phototonic.cpp:3489-3492): record the directory,
   * then enable Back when there is somewhere to go back to.
   */
  function Loaded(h: History, dir: Path): (r: History)
    requires Inv(h)
    ensures Inv(r)
    ensures r.backEnabled <==> r.cursor > 0
  {
    var g := Record(h, dir);
    if g.cursor > 0 then g.(backEnabled := true) else g
  }

  /** While the flag is down, a record only re-arms it: list, cursor and actions stay. */
  lemma RecordWhenSuppressed(h: History, dir: Path)
    requires Inv(h) && !h.needRecord
    ensures Record(h, dir) == h.(needRecord := true)
  {
  }

  /**
   * An armed record either finds the directory already under the cursor and changes nothing,
   * or inserts it right after the cursor, moves onto it and drops every later entry.
   */
  lemma RecordWhenArmed(h: History, dir: Path)
    requires Inv(h) && h.needRecord
    ensures h.entries != [] && dir == h.entries[h.cursor] ==> Record(h, dir) == h
    ensures !(h.entries != [] && dir == h.entries[h.cursor]) ==>
      var r := Record(h, dir);
      && r.entries == h.entries[..h.cursor + 1] + [dir]
      && r.cursor == h.cursor + 1 == |r.entries| - 1
      && r.entries[r.cursor] == dir
      && !r.forwardEnabled
  {
  }

  /** Recording the same directory twice in a row is the same as recording it once. */
  lemma RecordIdempotent(h: History, dir: Path)
    requires Inv(h) && h.needRecord
    ensures Record(Record(h, dir), dir) == Record(h, dir)
  {
  }

  /** Back and Forward move the cursor by exactly one, only inside the list, and never edit it. */
  lemma StepsMoveByOne(h: History)
    requires Inv(h)
    ensures h.cursor > 0 ==> Back(h).cursor == h.cursor - 1 && !Back(h).needRecord
    ensures h.cursor <= 0 ==> Back(h) == h
    ensures h.cursor < |h.entries| - 1 ==> Forward(h).cursor == h.cursor + 1 && !Forward(h).needRecord
    ensures h.cursor == |h.entries| - 1 ==> Forward(h) == h
  {
  }

  /** Going back and then forward returns to the same cursor, and the reverse. */
  lemma BackThenForward(h: History)
    requires Inv(h)
    ensures h.cursor > 0 ==> Forward(Back(h)).cursor == h.cursor
    ensures h.cursor < |h.entries| - 1 ==> Back(Forward(h)).cursor == h.cursor
  {
  }

  /**
   * Going back and then loading the directory Back navigated to leaves the list and the
   * cursor where Back put them: the revisit is not recorded, and the flag is re-armed.
   */
  lemma {:induction false} RevisitNotRecorded(h: History)
    requires Inv(h) && h.cursor > 0
    ensures var b := Back(h);
      var r := Loaded(b, b.entries[b.cursor]);
      r.entries == h.entries && r.cursor == h.cursor - 1 && r.needRecord
  {
  }

  /** The history part of the main window, whose fields the methods below update in place. */
  class Navigator {
    var pathHistoryList: seq<Path>
    var currentHistoryIdx: int
    var needHistoryRecord: bool
    var goBackEnabled: bool
    var goForwardEnabled: bool

    function State(): History
      reads this
    {
      History(pathHistoryList, currentHistoryIdx, needHistoryRecord, goBackEnabled, goForwardEnabled)
    }

    ghost predicate Valid()
      reads this
    {
      Inv(State())
    }

    /** Phototonic.cpp:102-103 with the actions disabled at creation (Phototonic.cpp:588, 594). */
    constructor ()
      ensures Valid() && State() == Initial()
    {
      pathHistoryList := [];
      currentHistoryIdx := -1;
      needHistoryRecord := true;
      goBackEnabled := false;
      goForwardEnabled := false;
    }

    method AddPathHistoryRecord(dir: Path)
      requires Valid()
      modifies this
      ensures Valid() && State() == Record(old(State()), dir)
    {
      if !needHistoryRecord {
        needHistoryRecord := true;
        return;
      }
      if pathHistoryList != [] && dir == pathHistoryList[currentHistoryIdx] {
        return;
      }
      currentHistoryIdx := currentHistoryIdx + 1;
      pathHistoryList := pathHistoryList[..currentHistoryIdx] + [dir] + pathHistoryList[currentHistoryIdx..];
      ghost var inserted := pathHistoryList;
      ghost var at := currentHistoryIdx;
      assert inserted[..at + 1] == old(pathHistoryList)[..at] + [dir];
      if currentHistoryIdx != |pathHistoryList| - 1 {
        goForwardEnabled := false;
        var i := |pathHistoryList| - 1;
        while i > currentHistoryIdx
          invariant currentHistoryIdx == at && !goForwardEnabled
          invariant goBackEnabled == old(goBackEnabled) && needHistoryRecord
          invariant at <= i < |inserted|
          invariant pathHistoryList == inserted[..i + 1]
        {
          pathHistoryList := pathHistoryList[..i] + pathHistoryList[i + 1..];
          i := i - 1;
        }
      }
    }

    method GoBack() returns (target: Option<Path>)
      requires Valid()
      modifies this
      ensures Valid() && State() == Back(old(State()))
      ensures target == if old(currentHistoryIdx) > 0 then Some(pathHistoryList[currentHistoryIdx]) else None
    {
      target := None;
      if currentHistoryIdx > 0 {
        needHistoryRecord := false;
        currentHistoryIdx := currentHistoryIdx - 1;
        target := Some(pathHistoryList[currentHistoryIdx]);
        goForwardEnabled := true;
        if currentHistoryIdx == 0 {
          goBackEnabled := false;
        }
      }
    }

    method GoForward() returns (target: Option<Path>)
      requires Valid()
      modifies this
      ensures Valid() && State() == Forward(old(State()))
      ensures target == if old(currentHistoryIdx) < |pathHistoryList| - 1 then Some(pathHistoryList[currentHistoryIdx]) else None
    {
      target := None;
      if currentHistoryIdx < |pathHistoryList| - 1 {
        needHistoryRecord := false;
        currentHistoryIdx := currentHistoryIdx + 1;
        target := Some(pathHistoryList[currentHistoryIdx]);
        if currentHistoryIdx == |pathHistoryList| - 1 {
          goForwardEnabled := false;
        }
      }
    }

    method DirectoryLoaded(dir: Path)
      requires Valid()
      modifies this
      ensures Valid() && State() == Loaded(old(State()), dir)
    {
      AddPathHistoryRecord(dir);
      if currentHistoryIdx > 0 {
        goBackEnabled := true;
      }
    }
  }
}
