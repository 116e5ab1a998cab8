/**
 * The bookmarks pane (Bookmarks.cpp): a flat tree with one item per bookmarked directory,
 * labelled with the directory's own name and carrying its full path as tooltip, a command to
 * delete the selected bookmark, and the drop handler that forwards a drop to the main window.
 */
module Bookmarks {
  import opened Wrappers
  import opened Text
  import opened Collections
  import opened BookmarkStore

  /** A top-level tree item: column 0 text and tooltip. */
  datatype Item = Item(text: string, toolTip: Path)

  function ToolTips(items: seq<Item>): (paths: seq<Path>)
    ensures |paths| == |items| && forall i :: 0 <= i < |items| ==> paths[i] == items[i].toolTip
  {
    seq(|items|, i requires 0 <= i < |items| => items[i].toolTip)
  }

  /** The items show `paths`: one item per path, labelled with the path's file name. */
  ghost predicate Shows(items: seq<Item>, paths: set<Path>)
  {
    && Lists(ToolTips(items), paths)
    && forall i :: 0 <= i < |items| ==> items[i].text == FileName(items[i].toolTip)
  }

  /**
   * A pane showing `paths` has one item per bookmark, and each item's text is the last
   * component of its tooltip path.
   */
  lemma ShownItems(items: seq<Item>, paths: set<Path>)
    requires Shows(items, paths)
    ensures |items| == |paths|
    ensures forall i :: 0 <= i < |items| ==>
      && items[i].toolTip in paths
      && Separator !in items[i].text
      && items[i].text == items[i].toolTip[|items[i].toolTip| - |items[i].text|..]
  {
    ListsCardinality(ToolTips(items), paths);
    forall i | 0 <= i < |items|
      ensures Separator !in items[i].text
      ensures items[i].text == items[i].toolTip[|items[i].toolTip| - |items[i].text|..]
    {
      FileNameSuffix(items[i].toolTip);
    }
  }

  /** Deleting the bookmark of one shown item leaves one bookmark fewer. */
  lemma RemovingShownPath(items: seq<Item>, paths: set<Path>, i: nat)
    requires Shows(items, paths) && i < |items|
    ensures items[i].toolTip in paths
    ensures |paths - {items[i].toolTip}| == |items| - 1
  {
    assert ToolTips(items)[i] == items[i].toolTip;
    ListsCardinality(ToolTips(items), paths);
  }

  /** Appending the item of a path not yet shown shows that path as well. */
  lemma ShowsOneMore(items: seq<Item>, paths: set<Path>, remaining: set<Path>, p: Path)
    requires remaining <= paths && Shows(items, paths - remaining) && p in remaining
    ensures Shows(items + [Item(FileName(p), p)], paths - (remaining - {p}))
  {
    var item := Item(FileName(p), p);
    assert p !in ToolTips(items);
    assert ToolTips(items + [item]) == ToolTips(items) + [p];
  }

  /** Who started a drag: no widget of this application, or a widget of the named class. */
  datatype DropSource = External | Widget(className: string)

  /** The dropOp signal: keyboard modifiers, whether a directory is dropped, the dropped path. */
  datatype DropOp = DropOp(modifiers: int, dirOp: bool, path: Path)

  /** What dropEvent does with a drop: nothing, a dropOp signal, or a read past the URL list. */
  datatype DropResult = Ignored | Forwarded(op: DropOp) | ReadsPastEnd

  /**
   * dropEvent (Bookmarks.cpp:83-91) as written: a drop from inside the application is
   * forwarded, marked as a directory operation exactly when it comes from the file system tree,
   * with the first of the dropped `urls` (already turned into local paths). The first URL is
   * read without a check, and dragEnterEvent (Bookmarks.cpp:68-76) accepts every drag, so a
   * drag from inside the application that carries no URL reads past the end of the list.
   */
  function DropEventAsWritten(source: DropSource, modifiers: int, urls: seq<Path>): (r: DropResult)
    ensures r.Ignored? <==> source.External?
    ensures r.ReadsPastEnd? <==> source.Widget? && urls == []
    ensures r.Forwarded? ==> r.op == DropOp(modifiers, source.className == "FileSystemTree", urls[0])
  {
    if source.External? then Ignored
    else if urls == [] then ReadsPastEnd
    else Forwarded(DropOp(modifiers, source.className == "FileSystemTree", urls[0]))
  }

  /**
   * A drop that comes from a widget of the application but carries no URL reaches the unchecked
   * read, whatever the widget. No such drag is known: line edits start drags only when enabled,
   * the file system tree drags its entries as URLs, and the thumbnail view's startDrag
   * (ThumbsViewer.h:168) is not part of this model; the guard in `DropEvent` is defensive.
   */
  lemma UrlLessWidgetDropReadsPastEnd(className: string, modifiers: int)
    ensures DropEventAsWritten(Widget(className), modifiers, []) == ReadsPastEnd
  {
  }

  /** dropEvent as evidently intended: a drop without a URL is ignored like an external one. */
  function DropEvent(source: DropSource, modifiers: int, urls: seq<Path>): (r: Option<DropOp>)
    ensures r.Some? <==> source.Widget? && urls != []
    ensures r.Some? ==> r.value.dirOp == (source.className == "FileSystemTree")
    ensures r.Some? ==> r.value.path == urls[0] && r.value.modifiers == modifiers
  {
    if source.External? || urls == [] then None
    else Some(DropOp(modifiers, source.className == "FileSystemTree", urls[0]))
  }

  /** Wherever the code as written does not read past the end, the corrected drop does the same. */
  lemma DropEventAgrees(source: DropSource, modifiers: int, urls: seq<Path>)
    ensures DropEventAsWritten(source, modifiers, urls).Forwarded? <==> DropEvent(source, modifiers, urls).Some?
    ensures DropEventAsWritten(source, modifiers, urls).Forwarded? ==>
      DropEvent(source, modifiers, urls).value == DropEventAsWritten(source, modifiers, urls).op
  {
  }

  class BookMarks {
    var items: seq<Item>
    var selection: seq<nat>    // selectedItems(), as item positions

    ghost predicate Valid()
      reads this
    {
      forall k :: 0 <= k < |selection| ==> selection[k] < |items|
    }

    /** Bookmarks.cpp:30-41: the pane is filled from the bookmarks when it is created. */
    constructor (store: BookmarkSettings)
      ensures Valid() && Shows(items, store.bookmarkPaths) && selection == []
    {
      items := [];
      selection := [];
      new;
      ReloadBookmarks(store);
    }

    /** reloadBookmarks (Bookmarks.cpp:43-53): clear, then one item per bookmark in set order. */
    method ReloadBookmarks(store: BookmarkSettings)
      modifies this
      ensures Valid() && Shows(items, store.bookmarkPaths) && selection == []
    {
      items := [];
      selection := [];
      var remaining := store.bookmarkPaths;
      while remaining != {}
        invariant remaining <= store.bookmarkPaths && selection == []
        invariant Shows(items, store.bookmarkPaths - remaining)
        decreases remaining
      {
        var itemPath :| itemPath in remaining;
        ShowsOneMore(items, store.bookmarkPaths, remaining, itemPath);
        items := items + [Item(FileName(itemPath), itemPath)];
        remaining := remaining - {itemPath};
      }
    }

    /** The user changes the selection. */
    method Select(positions: seq<nat>)
      requires forall k :: 0 <= k < |positions| ==> positions[k] < |items|
      modifies this
      ensures Valid() && items == old(items) && selection == positions
    {
      selection := positions;
    }

    /**
     * removeBookmark (Bookmarks.cpp:60-66): with exactly one item selected, its path leaves the
     * bookmarks and the pane is rebuilt; otherwise nothing happens.
     */
    method RemoveBookmark(store: BookmarkSettings)
      requires Valid()
      modifies this, store
      ensures |old(selection)| == 1 ==>
        && store.bookmarkPaths == old(store.bookmarkPaths) - {old(items[selection[0]].toolTip)}
        && Valid() && Shows(items, store.bookmarkPaths) && selection == []
      ensures |old(selection)| != 1 ==>
        store.bookmarkPaths == old(store.bookmarkPaths) && items == old(items) && selection == old(selection)
    {
      if |selection| == 1 {
        store.bookmarkPaths := store.bookmarkPaths - {items[selection[0]].toolTip};
        ReloadBookmarks(store);
      }
    }
  }
}
