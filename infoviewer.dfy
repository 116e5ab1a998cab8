/**
 * The image information pane (InfoViewer.cpp): a two-column key/value table filled one entry at
 * a time, with bold section titles and a text filter that keeps only the entries whose key
 * contains it, ignoring case.
 */
module InfoViewer {
  import opened Wrappers
  import opened Text

  /** A value cell: its text and its tooltip. */
  datatype Cell = Cell(text: string, toolTip: string)

  /** A table row: the key cell, the value cell if one was set, and whether the key is bold. */
  datatype InfoRow = InfoRow(key: string, value: Option<Cell>, bold: bool)

  /** One call made to fill the pane: addEntry(key, value) or addTitleEntry(title). */
  datatype Entry = KeyValue(key: string, value: string) | Title(title: string)

  /** The rows one call appends under `filter` (InfoViewer.cpp:84-109). */
  function RowOf(e: Entry, filter: string): (r: seq<InfoRow>)
    ensures |r| <= 1
    ensures r != [] <==> e.Title? || MatchesFilter(filter, e.key)
    ensures r != [] ==>
      && r[0].key == (if e.Title? then e.title else e.key)
      && (r[0].bold <==> e.Title?)
      && (r[0].value.Some? <==> e.KeyValue? && e.value != [])
      && (r[0].value.Some? ==> r[0].value.value.text == e.value && r[0].value.value.toolTip == e.value)
  {
    match e
    case Title(title) => [InfoRow(title, None, true)]
    case KeyValue(key, value) =>
      if !MatchesFilter(filter, key) then []
      else [InfoRow(key, if value == [] then None else Some(Cell(value, value)), false)]
  }

  /** The rows a sequence of calls appends, one call after the other. */
  function Rows(entries: seq<Entry>, filter: string): seq<InfoRow>
  {
    if entries == [] then [] else RowOf(entries[0], filter) + Rows(entries[1..], filter)
  }

  /** Filling the pane in two batches gives the rows of the two batches, in order. */
  lemma {:induction false} RowsAppend(a: seq<Entry>, b: seq<Entry>, filter: string)
    ensures Rows(a + b, filter) == Rows(a, filter) + Rows(b, filter)
  {
    if a == [] {
      assert a + b == b;
    } else {
      assert (a + b)[0] == a[0] && (a + b)[1..] == a[1..] + b;
      RowsAppend(a[1..], b, filter);
    }
  }

  /**
   * Every title makes a row and every key/value entry makes one exactly when its key passes the
   * filter, so an empty filter shows one row per call.
   */
  lemma {:induction false} RowsCount(entries: seq<Entry>, filter: string)
    ensures |Rows(entries, filter)| <= |entries|
    ensures filter == [] ==> |Rows(entries, filter)| == |entries|
    ensures (forall i :: 0 <= i < |entries| ==> entries[i].Title?) ==> |Rows(entries, filter)| == |entries|
  {
    if entries != [] {
      RowsCount(entries[1..], filter);
    }
  }

  /** Every row that is not a title has a key that passes the filter. */
  lemma {:induction false} RowsMatchFilter(entries: seq<Entry>, filter: string)
    ensures forall i :: 0 <= i < |Rows(entries, filter)| ==>
      Rows(entries, filter)[i].bold || MatchesFilter(filter, Rows(entries, filter)[i].key)
  {
    if entries != [] {
      RowsMatchFilter(entries[1..], filter);
      var head, r := RowOf(entries[0], filter), Rows(entries, filter);
      forall i | 0 <= i < |r|
        ensures r[i].bold || MatchesFilter(filter, r[i].key)
      {
        if i >= |head| {
          assert r[i] == Rows(entries[1..], filter)[i - |head|];
        }
      }
    }
  }

  /** The filter ignores case: a lower-cased filter shows the same rows. */
  lemma {:induction false} RowsIgnoreFilterCase(entries: seq<Entry>, filter: string)
    ensures Rows(entries, Lower(filter)) == Rows(entries, filter)
  {
    if entries != [] {
      RowsIgnoreFilterCase(entries[1..], filter);
      if entries[0].KeyValue? {
        FilterIgnoresCase(filter, entries[0].key);
      }
    }
  }

  class InfoView {
    var rows: seq<InfoRow>       // imageInfoModel
    var filterText: string       // filterLineEdit->text()

    /** InfoViewer.cpp:28-69: an empty table and an empty filter. */
    constructor ()
      ensures rows == [] && filterText == []
    {
      rows := [];
      filterText := [];
    }

    /** The user edits the filter line. */
    method SetFilterText(text: string)
      modifies this
      ensures filterText == text && rows == old(rows)
    {
      filterText := text;
    }

    /** clear (InfoViewer.cpp:79-82). */
    method Clear()
      modifies this
      ensures rows == [] && filterText == old(filterText)
    {
      rows := [];
    }

    /** addEntry (InfoViewer.cpp:84-99). */
    method AddEntry(key: string, value: string)
      modifies this
      ensures rows == old(rows) + Rows([KeyValue(key, value)], filterText)
      ensures filterText == old(filterText)
    {
      if filterText != [] && !Contains(Lower(key), Lower(filterText)) {
        return;
      }
      var atRow := |rows|;
      rows := rows + [InfoRow(key, None, false)];
      if value != [] {
        rows := rows[atRow := rows[atRow].(value := Some(Cell(value, value)))];
      }
    }

    /** addTitleEntry (InfoViewer.cpp:101-109). */
    method AddTitleEntry(title: string)
      modifies this
      ensures rows == old(rows) + Rows([Title(title)], filterText)
      ensures filterText == old(filterText)
    {
      rows := rows + [InfoRow(title, None, true)];
    }
  }
}
