# Phototonic core, modelled in Dafny

Phototonic is a Qt image viewer and organiser. This project models the parts of it that keep
state and make decisions, leaving aside images and drawing:

- **The copy/move progress dialog** (`CopyMoveDialog.cpp`, module `CopyMove`):
  - `autoRename` picks a fresh `name_copy_N.ext` when the destination is taken.
  - `copyOrMoveFile` copies or moves one file, with that single retry.
  - `execute` runs the batch: either the clipboard list is pasted into the current
    directory, or the selected thumbnail rows are moved or copied. It stops at the first
    failure or at the Cancel button. After a move, the processed rows are removed from the
    thumbnail model, highest first.
- **The thumbnail re-selection after a batch** (`Phototonic.cpp`, modules `RowReselect` and
  `RowRemoval`).
- **The browsing history, the viewer's rotation steppers and the thumbnail zoom actions**
  (`Phototonic.cpp`, modules `PathHistory` and `ViewerSteps`).
- **Loading the files named on the command line** (`Phototonic.cpp`, module `StartupFiles`).
- **The keyboard-shortcut editor** (`ShortcutsTable.cpp`, module `Shortcuts`):
  - a filtered table of the actions of `Settings::actionKeys`;
  - the key handler that builds the key sequence text, sweeps the actions already bound to
    that key sequence in Qt's spelling (each clear confirmed by the user), then assigns it to
    the selected action.
- **The "Copy to…/Move to…" dialog** (`CopyMoveToDialog.cpp`, module `CopyMoveTo`): a sorted
  table of bookmarked destinations, with add and delete buttons and two ways out that write the
  rows back as the bookmarks.
- **The bookmarks pane** (`Bookmarks.cpp`, module `Bookmarks`) and the set of bookmarks it
  shows (module `BookmarkStore`).
- **The image information pane** (`InfoViewer.cpp`, module `InfoViewer`): a key/value table
  with bold titles and a key filter that lower-cases both sides.

## How the model is organised

- Shared pieces:
  - `Wrappers` holds `Option`.
  - `Text` holds the string operations the code calls: lower-casing, `contains`, the
    UTF-16 code-unit order used by sorting, `lastIndexOf`, file names and decimal numbers.
  - `Collections` holds facts about lists without duplicates.
  - `Disk` models the file system as the set of existing paths. Its `QFile::copy` and
    `QFile::rename` succeed exactly when the source exists and the destination does not; the
    disk has no other way to fail.
- Pure decisions are functions on values. Each comes with lemmas that state what it promises.
- Components whose fields the source updates in place are classes. The classes are
  `CopyMoveDialog`, `ShortcutsTable`, `CopyMoveToDialog`, `BookMarks`, `InfoView`,
  `Navigator`, `RotationSetting`, `ThumbsZoom` and `StartupSettings`.
  - Each method's `ensures` ties the new state to a specification function of the old state.
  - Loops are methods with invariants.
- Choices that come from outside the program are parameters:
  - the user's answer to a confirmation box;
  - the directory picked in a file dialog;
  - the step at which the Cancel button is clicked;
  - the text Qt gives a key code;
  - the text Qt writes back for a typed key sequence, with its modifiers in Qt's order;
  - `absoluteFilePath`.
- `QMap` iterates its keys in ascending order, so a map iteration is given the key sequence
  together with a precondition that the sequence lists the keys in strictly ascending order.
- `QSet` iteration order is unspecified. Loops over a set pick the next element with `:|`,
  and their contracts do not depend on the order.

## Model

| member | source | states |
|---|---|---|
| Text.ContainsIffOccurs | InfoViewer.cpp:87 | `Contains` holds exactly when the substring occurs at some position |
| Text.FilterIgnoresCase | ShortcutsTable.cpp:164-166 | the filter test gives the same answer when either the filter or the text is lower-cased first, and an empty filter passes everything |
| Text.LowerCharIdempotent | ShortcutsTable.cpp:165 | lowering a lowered character changes nothing |
| Text.LexLessIrreflexive | CopyMoveToDialog.cpp:171 | no string sorts before itself |
| Text.LexLessTransitive | CopyMoveToDialog.cpp:171 | the sort order is transitive |
| Text.LexLessTotal | CopyMoveToDialog.cpp:171 | any two different strings are ordered one way or the other |
| Text.Utf16 | CopyMoveToDialog.cpp:171 | a character is one code unit below U+10000 and a surrogate pair above |
| Text.CodeUnitKeyOrder | CopyMoveToDialog.cpp:171 | comparing two characters by key is comparing their UTF-16 code units, and different characters have different keys |
| Text.SurrogatePairSortsBelowHalfwidth | CopyMoveToDialog.cpp:171 | U+1F600 sorts before U+FF5E, against the order of their scalar values |
| Text.LastIndexOf | CopyMoveDialog.cpp:34 | the result is -1 or a position inside the string |
| Text.LastIndexOfSpec | CopyMoveDialog.cpp:34 | the position found holds the character and no later one does; the result is -1 exactly when the character is absent |
| Text.FileNameSuffix | Bookmarks.cpp:48 | a file name has no separator and is a suffix of its path; it is the whole path when the path has no separator |
| Text.FileNameOfJoin | CopyMoveDialog.cpp:113-114 | the file name of `dir/name` is `name` when `name` has no separator |
| Text.DecimalDigits | CopyMoveDialog.cpp:41 | the decimal form of a counter is a nonempty run of digits |
| Collections.NoDupCount | CopyMoveDialog.cpp:155-158 | a list without duplicates holds each value at most once (multiset count) |
| Collections.CountsDistinct | CopyMoveDialog.cpp:155-158 | a list holding every value at most once has no duplicates |
| Collections.ListsCardinality | CopyMoveToDialog.cpp:166-170 | a duplicate-free listing of a set has as many entries as the set has elements |
| Disk.Transferred | CopyMoveDialog.cpp:54-58 | a copy or rename succeeds exactly when the source exists and the destination does not (the model has no other failure); on success the destination exists and nothing else but the source disappears (nothing disappears for a copy); a failure changes nothing |
| Disk.FileSystem.Exists | CopyMoveDialog.cpp:44 | the answer is whether the path exists |
| Disk.FileSystem.Copy | CopyMoveDialog.cpp:55 | the disk and the result are those of `Transferred` for a copy |
| Disk.FileSystem.Rename | CopyMoveDialog.cpp:57 | the disk and the result are those of `Transferred` for a move |
| CopyMove.SplitAtLastDot | CopyMoveDialog.cpp:34-36 | a name with a dot splits at its last dot: stem + "." + extension rebuilds the name, and the extension has no dot |
| CopyMove.SplitWithoutDot | CopyMoveDialog.cpp:34-36 | a name without a dot is used whole as both stem and extension |
| CopyMove.Candidate | CopyMoveDialog.cpp:39-44 | the name `stem_copy_N.ext` tried at counter N; `FirstFreeSpec` and `AutoRename` state which counter is used |
| CopyMove.FirstFree | CopyMoveDialog.cpp:39-44 | the counter the rename loop stops at; what it promises is stated by `FirstFreeSpec`: at most INT_MAX, every earlier candidate taken, the chosen one free unless the bound was reached |
| CopyMove.FirstFreeSpec | CopyMoveDialog.cpp:39-44 | the counter chosen is at most INT_MAX; every earlier candidate exists in the destination; the chosen one is free unless the bound was reached |
| CopyMove.AutoRename | CopyMoveDialog.cpp:32-47 | the loop returns the candidate at the first free counter from 1 |
| CopyMove.CopyOrMoveSpec | CopyMoveDialog.cpp:49-73 | a first attempt that can succeed is kept; a failure on a free destination changes nothing; a destination that exists is always replaced by the first free `_copy_N` name, and only then is the destination replaced; a success needs the source, never overwrites, and only the source may disappear; a failure leaves the disk alone |
| CopyMove.CopyOrMoveFile | CopyMoveDialog.cpp:49-73 | the result, the destination used and the disk are those of `CopyOrMove` |
| CopyMove.TransferTo | CopyMoveDialog.cpp:111-122 | one step of either loop: the file is copied or moved under its own name into the destination; what it promises is stated by `TransferToSpec` and `TransferCount` |
| CopyMove.TransferToSpec | CopyMoveDialog.cpp:111-122 | each step targets a path inside the destination directory, never overwrites, only adds when copying, and changes nothing when it fails |
| CopyMove.PasteFrom | CopyMoveDialog.cpp:109-129 | the list keeps its length and the loop stops between the start and the end |
| CopyMove.PasteFromStep | CopyMoveDialog.cpp:124-128 | one turn stops on a failure or on the abort flag, and otherwise rewrites its slot and goes on from the next one |
| CopyMove.PasteFrame | CopyMoveDialog.cpp:127 | slots before the start and from the stopping slot on are left as they were |
| CopyMove.PasteDestinations | CopyMoveDialog.cpp:114-127 | every slot the loop got through now names a file inside the destination directory |
| CopyMove.PasteOutcome | CopyMoveDialog.cpp:124-125 | the loop stops early only when the abort flag is seen or the transfer of the stopping slot fails, and never after the step at which Cancel was clicked |
| CopyMove.PasteCopyAddsFresh | CopyMoveDialog.cpp:109-129 | a copying paste only adds files, and each rewritten slot names a file that did not exist before and exists now |
| CopyMove.SelectionFrom | CopyMoveDialog.cpp:132-153 | the selection loop stops at a position between -1 and where it started |
| CopyMove.SelectionFromStep | CopyMoveDialog.cpp:148-152 | one turn stops on a failure or the abort flag, and otherwise records its row and goes on below |
| CopyMove.RowsDown | CopyMoveDialog.cpp:132 | the selected rows walked from the last one down, one per position |
| CopyMove.SelectionRowList | CopyMoveDialog.cpp:131-153 | the processed rows are exactly the selected rows above the stopping position, last selected first |
| CopyMove.SelectionOutcome | CopyMoveDialog.cpp:132-153 | the selection loop stops early only on a row whose transfer fails or once the abort flag is seen |
| CopyMove.SelectionAbortBound | CopyMoveDialog.cpp:132-153 | the selection loop never goes on past the step at which the abort flag is seen |
| CopyMove.TransferCount | CopyMoveDialog.cpp:49-73 | a successful copy adds one file and removes none, a successful move keeps the number of files, and a failure changes nothing |
| CopyMove.SelectionCount | CopyMoveDialog.cpp:132-153 | each recorded row made one transfer: a copy adds one file per recorded row, a move keeps the number of files; one more file is added only by the step at which the abort flag is seen |
| CopyMove.RowsDownDistinct | CopyMoveDialog.cpp:152 | rows taken from distinct selected rows are distinct and inside the model |
| CopyMove.SelectedRowsDistinct | CopyMoveDialog.cpp:131-153 | the rows the loop processed are distinct rows of the model |
| CopyMove.SelectionFromAsWritten | CopyMoveDialog.cpp:132-153 | the loop as written over rows that need not index the current model ends on a missing item only at a clipboard row outside the model, and never when every row it reaches is inside it |
| CopyMove.SelectionAsWrittenAgrees | CopyMoveDialog.cpp:132-153 | when every clipboard row indexes the model, the loop as written runs exactly as `SelectionFrom` says |
| CopyMove.StaleCutRowsReachNullItem | CopyMoveDialog.cpp:133-134 | rows 5 to 7 cut before opening a directory of three images: the paste reaches row 7 first and finds no item |
| CopyMove.GuardedSelection | CopyMoveDialog.cpp:131-153 | the guarded paste runs exactly when every clipboard row indexes the model, and then ends as the loop as written does, never on a missing item |
| CopyMove.LatestRowAsWritten | CopyMoveDialog.cpp:160 | `rowList.at(0)` has no value exactly when the list is empty |
| CopyMove.FirstFailureLeavesNoRow | CopyMoveDialog.cpp:145-160 | a move whose only selected file is missing processes no row, so line 160 reads past the end of an empty list |
| CopyMove.LatestRow | CopyMoveDialog.cpp:155-160 | there is no row to re-select exactly when nothing was processed (the source has no earlier value: `latestRow` is never initialised, CopyMoveDialog.h:42); otherwise a processed row: the lowest after a move, the first processed after a copy |
| CopyMove.CopyMoveDialog.constructor | CopyMoveDialog.cpp:75-96 | a new dialog is not aborted and has no latest row yet |
| CopyMove.CopyMoveDialog.Abort | CopyMoveDialog.cpp:167-170 | the abort flag is set and nothing else changes |
| CopyMove.CopyMoveDialog.Execute | CopyMoveDialog.cpp:98-165 | pasting leaves the disk and the clipboard list as `PasteFrom` computes them; otherwise the disk is as `SelectionFrom` computes it, a move removes exactly the processed rows, and the latest row is `LatestRow` of them; `nFiles` counts the selected rows |
| CopyMove.CopyMoveDialog.CopyOrMoveSelection | CopyMoveDialog.cpp:130-161 | the disk, the model rows and the latest row are those the selection loop, the removal and `LatestRow` give |
| CopyMove.CopyMoveDialog.TransferStep | CopyMoveDialog.cpp:111-122 | the abort flag is set once Cancel is clicked, and the step's outcome is `TransferTo` |
| CopyMove.CopyMoveDialog.PasteFiles | CopyMoveDialog.cpp:109-129 | the loop leaves the disk and the rewritten list that `PasteFrom` computes |
| CopyMove.CopyMoveDialog.CopyOrMoveSelected | CopyMoveDialog.cpp:131-153 | the loop leaves the disk and the processed rows that `SelectionFrom` computes |
| CopyMove.RemoveRows | CopyMoveDialog.cpp:155-158 | the model afterwards holds exactly the rows that were not processed, in their order |
| CopyMove.SortedRows | CopyMoveDialog.cpp:156 | sorting distinct rows inside the model gives strictly ascending rows, the same set of them |
| CopyMove.RemoveNext | CopyMoveDialog.cpp:157-158 | each removal, taken from the highest row down, hits a row still in range and removes that row of the original model |
| CopyMove.SortedDistinct | CopyMoveDialog.cpp:156 | sorting a list without duplicates leaves it strictly ascending |
| RowRemoval.RemoveAt | CopyMoveDialog.cpp:158 | removing a row shifts the rows after it up by one and keeps those before it |
| RowRemoval.Kept | CopyMoveDialog.cpp:155-158 | the rows left after removing a set of indices; what it promises is stated by `KeptMembers`: an entry is kept exactly when its index was not removed; `RemoveNext` ties it to removing rows from the highest down |
| RowRemoval.KeptMembers | CopyMoveDialog.cpp:155-158 | an entry is kept exactly when its index was not removed |
| RowRemoval.KeptAllBelow | CopyMoveDialog.cpp:157 | removing only indices past the end keeps everything |
| RowRemoval.RemoveBelowRemoved | CopyMoveDialog.cpp:157-158 | removing row k after only higher rows were removed removes the original row k |
| RowRemoval.RemoveLast | CopyMoveDialog.cpp:157-158 | the first removal, of the highest row, removes the original row |
| RowRemoval.AscendingCons | CopyMoveDialog.cpp:156 | a value no larger than the head can go in front of an ascending list |
| RowRemoval.Insert | CopyMoveDialog.cpp:156 | inserting into an ascending list keeps it ascending and adds exactly that value |
| RowRemoval.SortRows | CopyMoveDialog.cpp:156 | `std::sort` gives an ascending permutation of its input |
| RowReselect.ClampedRow | Phototonic.cpp:1930-1937 | there is no row exactly when the view is empty; otherwise the row is kept when inside the view and pulled down to the last row when not |
| RowReselect.AfterBatch | Phototonic.cpp:3390-3397 | nothing is re-selected exactly when the dialog has no latest row or the view is empty; otherwise the latest row pulled down into the view, never negative when the latest row is not |
| RowReselect.ClampedRowIsNearest | Phototonic.cpp:3391-3397 | the clamped row is the valid row nearest to the remembered one |
| RowReselect.LowestRow | Phototonic.cpp:2074-2075 | the result is a deleted row no larger than any other |
| RowReselect.DeleteReselect | Phototonic.cpp:2073-2083 | nothing is re-selected exactly when no rows remain or nothing was deleted; otherwise it is a clamped deleted row, in range and no larger than any deleted row |
| RowReselect.BatchReselectInRange | Phototonic.cpp:1929-1937 | after a batch over distinct rows of the model, the caller re-selects a row exactly when something was processed and the view is not empty, and that row is inside the view |
| PathHistory.Initial | Phototonic.cpp:102-103 | the history starts empty, ready to record, with both actions disabled |
| PathHistory.Record | Phototonic.cpp:3436-3456 | recording keeps the history invariant, re-arms the flag and leaves Back enabled as it was |
| PathHistory.Back | Phototonic.cpp:2253-2262 | going back keeps the invariant and never edits the list |
| PathHistory.Forward | Phototonic.cpp:2264-2273 | going forward keeps the invariant and never edits the list |
| PathHistory.Loaded | Phototonic.cpp:3489-3492 | after a load, Back is enabled exactly when there is an earlier entry |
| PathHistory.RecordWhenSuppressed | Phototonic.cpp:3438-3441 | with the flag down, a record only re-arms it |
| PathHistory.RecordWhenArmed | Phototonic.cpp:3443-3455 | the current directory is not recorded twice; any other directory goes right after the cursor, drops the forward entries and disables Forward |
| PathHistory.RecordIdempotent | Phototonic.cpp:3443-3445 | recording the same directory twice is the same as recording it once |
| PathHistory.StepsMoveByOne | Phototonic.cpp:2253-2273 | Back and Forward move the cursor by exactly one inside the list, suppress the next record, and do nothing at the ends |
| PathHistory.BackThenForward | Phototonic.cpp:2253-2273 | Back then Forward (and Forward then Back) return to the same cursor |
| PathHistory.RevisitNotRecorded | Phototonic.cpp:2253-2262 | loading the directory reached by Back records nothing |
| PathHistory.Navigator.constructor | Phototonic.cpp:102-103 | the history starts as `Initial` |
| PathHistory.Navigator.AddPathHistoryRecord | Phototonic.cpp:3436-3456 | the new state is `Record` of the old one |
| PathHistory.Navigator.GoBack | Phototonic.cpp:2253-2262 | the new state is `Back` of the old one, and the directory visited is the entry at the new cursor |
| PathHistory.Navigator.GoForward | Phototonic.cpp:2264-2273 | the new state is `Forward` of the old one, and the directory visited is the entry at the new cursor |
| PathHistory.Navigator.DirectoryLoaded | Phototonic.cpp:3489-3492 | the new state is `Loaded` of the old one |
| ViewerSteps.RotatedLeft | Phototonic.cpp:1660-1666 | the four orientations map to the four orientations, and the result is 90 less or wraps into 0..270 |
| ViewerSteps.RotatedRight | Phototonic.cpp:1669-1676 | the four orientations map to the four orientations, and the result is 90 more or wraps into 0..270 |
| ViewerSteps.QuarterTurnsInverse | Phototonic.cpp:1660-1676 | on the four orientations the two quarter turns undo each other |
| ViewerSteps.FourQuarterTurns | Phototonic.cpp:1660-1676 | four quarter turns in one direction come back to the start |
| ViewerSteps.FreeRotatedLeft | Phototonic.cpp:1745-1751 | angles in 0..360 stay in 0..360; the result is one degree less or 359 |
| ViewerSteps.FreeRotatedRight | Phototonic.cpp:1754-1761 | angles in 0..360 stay in 0..360; the result is one degree more or 1 |
| ViewerSteps.FreeRotationInverseInside | Phototonic.cpp:1745-1761 | away from the wrap the one-degree steps undo each other |
| ViewerSteps.FreeRotationNotInverseAtWrap | Phototonic.cpp:1745-1761 | at the wrap they do not: 0 goes to 359 and back to 360, 360 goes to 1 and back to 0 |
| ViewerSteps.RotationSetting.constructor | Phototonic.cpp:2512 | the rotation starts at 0 |
| ViewerSteps.RotationSetting.RotateLeft | Phototonic.cpp:1660-1666 | the rotation becomes `RotatedLeft` of the old one |
| ViewerSteps.RotationSetting.RotateRight | Phototonic.cpp:1669-1676 | the rotation becomes `RotatedRight` of the old one |
| ViewerSteps.RotationSetting.FreeRotateLeft | Phototonic.cpp:1745-1751 | the rotation becomes `FreeRotatedLeft` of the old one |
| ViewerSteps.RotationSetting.FreeRotateRight | Phototonic.cpp:1754-1761 | the rotation becomes `FreeRotatedRight` of the old one |
| ViewerSteps.InitialZoom | Phototonic.cpp:387-402 | for any size read, Enlarge is enabled exactly off the maximum and Shrink exactly off the minimum; a size on the grid of steps starts the zoom invariant |
| ViewerSteps.ZoomIn | Phototonic.cpp:1555-1564 | below the maximum the size grows by one step, Shrink is enabled and Enlarge is disabled only on reaching the maximum; otherwise nothing changes; actions disabled only at their bound stay so, and on the grid the zoom invariant is kept |
| ViewerSteps.ZoomOut | Phototonic.cpp:1566-1575 | above the minimum the size shrinks by one step, Enlarge is enabled and Shrink is disabled only on reaching the minimum; otherwise nothing changes; actions disabled only at their bound stay so, and on the grid the zoom invariant is kept |
| ViewerSteps.StepStaysInside | Phototonic.cpp:1557-1558 | a whole number of steps below the maximum stays within it after one more step |
| ViewerSteps.ZoomInThenOut | Phototonic.cpp:1555-1575 | whenever the first step moved the size, enlarging then shrinking (or the reverse) returns to the same size, on the grid or not |
| ViewerSteps.OffGridPassesMaximum | Phototonic.cpp:1555-1564 | a stored size of 220 with steps of 50 up to 300 is enlarged to 270 and then to 320, past the maximum, with Enlarge still enabled |
| ViewerSteps.ThumbsZoom.constructor | Phototonic.cpp:387-402 | the state starts as `InitialZoom` of whatever size was stored |
| ViewerSteps.ThumbsZoom.ThumbsZoomIn | Phototonic.cpp:1555-1564 | the new state is `ZoomIn` of the old one, and the thumbnails are refreshed exactly when the size was below the maximum |
| ViewerSteps.ThumbsZoom.ThumbsZoomOut | Phototonic.cpp:1566-1575 | the new state is `ZoomOut` of the old one, and the thumbnails are refreshed exactly when the size was above the minimum |
| StartupFiles.FirstIndex | Phototonic.cpp:147 | the position found holds the value and no earlier position does |
| StartupFiles.Dedup | Phototonic.cpp:142-150 | the paths with repeats dropped; what it promises is stated by `DedupSameElements`, `DedupNoDuplicates`, `DedupMember` and `DedupFirstOccurrenceOrder` |
| StartupFiles.DedupSameElements | Phototonic.cpp:142-150 | the file list holds exactly the paths given |
| StartupFiles.DedupNoDuplicates | Phototonic.cpp:147-149 | the file list holds each path once |
| StartupFiles.DedupMember | Phototonic.cpp:147-149 | every listed path was given |
| StartupFiles.FirstIndexExtend | Phototonic.cpp:143-150 | a first occurrence stays first when the list grows |
| StartupFiles.DedupFirstOccurrenceOrder | Phototonic.cpp:143-150 | the paths are listed in the order of their first occurrence |
| StartupFiles.AbsolutePaths | Phototonic.cpp:143-145 | one absolute path per argument from `filesStartAt` on |
| StartupFiles.StartupSettings.constructor | Phototonic.cpp:142 | the file list starts empty and not loaded |
| StartupFiles.StartupSettings.LoadStartupFileList | Phototonic.cpp:140-154 | the file list is the de-duplicated absolute paths, and the list is marked loaded |
| Shortcuts.SequenceText | ShortcutsTable.cpp:69-83 | the text of a pressed key with its modifiers; what it promises is stated by `SequenceTextParts`: the key's text comes last, the first modifier held comes first, and the key text determines the modifiers |
| Shortcuts.SequenceTextParts | ShortcutsTable.cpp:69-83 | the sequence text ends with the key's text and starts with the first modifier held; without modifiers it is the key's text; for a given key text it determines the modifiers |
| Shortcuts.ClearConflicts | ShortcutsTable.cpp:94-108 | the sweep keeps the set of actions |
| Shortcuts.ClearConflictsSpec | ShortcutsTable.cpp:94-108 | the sweep keeps every text, only empties shortcuts that are the typed key sequence in Qt's spelling (`QKeySequence(text).toString()`), leaves actions it did not reach alone, changes nothing when it clears nothing, and once complete leaves no swept action bound to that key sequence, in whatever order its modifiers were typed |
| Shortcuts.FilteredRows | ShortcutsTable.cpp:156-173 | at most one row per action |
| Shortcuts.FilteredRowsSpec | ShortcutsTable.cpp:161-171 | each row shows an action's text and current shortcut, and an action has a row exactly when its text passes the filter |
| Shortcuts.FilteredRowsOrdered | ShortcutsTable.cpp:161-163 | the rows follow the ascending key order, so no action appears twice |
| Shortcuts.Refresh | ShortcutsTable.cpp:156-173 | the rebuilt table; what it promises is stated by `RefreshInv` (rows name existing actions, no selection) and `RefreshConsistent` (each action's text and key sequence shown once) |
| Shortcuts.RefreshInv | ShortcutsTable.cpp:156-173 | a refresh leaves rows that name existing actions and no selection |
| Shortcuts.RefreshConsistent | ShortcutsTable.cpp:156-173 | a refresh makes the table show each action's current text and key sequence, once |
| Shortcuts.ReassignAsWritten | ShortcutsTable.cpp:94-116 | the sweep and assignment as written; `DeclineLeavesStaleRow` states its flaw: a refusal after a clear returns without the refresh and leaves a row showing a cleared shortcut |
| Shortcuts.KeyPressAsWritten | ShortcutsTable.cpp:60-117 | the key handler as written; `DeclineLeavesStaleRow` states that it can leave the table inconsistent with the actions |
| Shortcuts.DeclineLeavesStaleRow | ShortcutsTable.cpp:101-105 | with two actions holding Ctrl+X, accepting the first clear and declining the second leaves a table whose first row still shows the cleared shortcut |
| Shortcuts.Reassign | ShortcutsTable.cpp:94-116 | the sweep and assignment with the refresh owed after a refusal; what it promises is stated, through `KeyPress`, by `KeyPressDeclined`, `KeyPressAssigns`, `SweepThenAssign` and `KeyPressKeepsConsistent` |
| Shortcuts.KeyPress | ShortcutsTable.cpp:60-117 | the corrected key handler; what it promises is stated by `KeyPressIgnored`, `KeyPressDeclined`, `KeyPressAssigns` and `KeyPressKeepsConsistent` |
| Shortcuts.KeyPressIgnored | ShortcutsTable.cpp:62-92 | without a selection, or on an ignored or reserved key, nothing changes |
| Shortcuts.KeyPressDeclined | ShortcutsTable.cpp:101-104 | a refusal keeps every action's text and the selected action's shortcut; only shortcuts bound to the typed key sequence and already cleared change; the table is either untouched or freshly rebuilt |
| Shortcuts.SweepThenAssign | ShortcutsTable.cpp:94-113 | after a completed sweep and the assignment, the selected action holds the typed key sequence in Qt's spelling, no other action is bound to it, no text changes and no other action gains a shortcut |
| Shortcuts.ReorderedModifiersConflict | ShortcutsTable.cpp:69-113 | pressing Ctrl+Shift+C for Paste Image, typed "Shift+Ctrl+C", conflicts with Copy Image's default "Ctrl+Shift+C" (Phototonic.cpp:2750); once accepted, Copy Image is cleared, Paste Image holds "Ctrl+Shift+C" and the rebuilt table shows both |
| Shortcuts.KeyPressAssigns | ShortcutsTable.cpp:110-113 | a completed press gives the selected row's action the typed key sequence in Qt's spelling on top of the sweep's result; without a clear, the selected cell shows the text as typed and the selection stays |
| Shortcuts.KeyPressKeepsConsistent | ShortcutsTable.cpp:60-117 | the corrected press keeps every row showing its action's current key sequence, as Qt writes it or as it was typed |
| Shortcuts.ClearEntry | ShortcutsTable.cpp:133-141 | the table after the popup's clear; what it promises is stated by `ClearEntrySpec`: only the right-clicked row's action loses its shortcut and the table stays consistent |
| Shortcuts.ClearEntrySpec | ShortcutsTable.cpp:133-141 | clearing empties the right-clicked row's shortcut, changes no other action and keeps the table consistent |
| Shortcuts.SweepConflicts | ShortcutsTable.cpp:94-108 | the loop over the map, comparing each action's shortcut text with the temporary action's, leaves the actions, the completion and the refresh flag that `ClearConflicts` computes |
| Shortcuts.ShortcutsTable.constructor | ShortcutsTable.cpp:27-50 | an empty table, no selection and an empty filter |
| Shortcuts.ShortcutsTable.Select | ShortcutsTable.cpp:31-32 | only the selection changes |
| Shortcuts.ShortcutsTable.AddRow | ShortcutsTable.cpp:52-58 | exactly the row (description, shortcut, action) is appended |
| Shortcuts.ShortcutsTable.RefreshShortcuts | ShortcutsTable.cpp:156-173 | the new table is `Refresh` of the old one |
| Shortcuts.ShortcutsTable.SetFilter | ShortcutsTable.cpp:150-154 | the filter is stored and the table is refreshed with it |
| Shortcuts.ShortcutsTable.ShowShortcutPopupMenu | ShortcutsTable.cpp:143-148 | only the remembered entry changes |
| Shortcuts.ShortcutsTable.ClearSelectedShortcut | ShortcutsTable.cpp:133-141 | the new table is `ClearEntry` of the old one for the remembered entry |
| Shortcuts.ShortcutsTable.KeyPressEvent | ShortcutsTable.cpp:60-117 | the new table is `KeyPress` of the old one |
| Shortcuts.ShortcutsTable.ReassignShortcut | ShortcutsTable.cpp:94-116 | the new table is `Reassign` of the old one |
| Shortcuts.ShortcutsTable.AssignSelected | ShortcutsTable.cpp:110-113 | the selected row's shortcut cell takes the text as typed and its action the key sequence in Qt's spelling, and nothing else changes |
| CopyMoveTo.InsertPathMultiset | CopyMoveToDialog.cpp:171 | insertion adds exactly the inserted path |
| CopyMoveTo.ConsAscending | CopyMoveToDialog.cpp:171 | a path below every path of a sorted list can go in front of it |
| CopyMoveTo.InsertPathSpec | CopyMoveToDialog.cpp:171 | inserting a new path into sorted paths keeps them sorted and adds exactly that path |
| CopyMoveTo.SortPaths | CopyMoveToDialog.cpp:171 | the rows sorted by `QString` order; what it promises is stated by `SortPathsSpec`: a strictly ascending permutation of paths without duplicates |
| CopyMoveTo.SortPathsSpec | CopyMoveToDialog.cpp:171 | sorting paths without duplicates gives a strictly ascending permutation of them |
| CopyMoveTo.Added | CopyMoveToDialog.cpp:69-84 | adding keeps the selection and the current row inside the table |
| CopyMoveTo.Removed | CopyMoveToDialog.cpp:86-92 | deleting keeps the selection and the current row inside the table |
| CopyMoveTo.AddedSpec | CopyMoveToDialog.cpp:69-84 | an empty choice changes nothing; otherwise exactly that row is appended and becomes the selected one, and the current row stays |
| CopyMoveTo.RemovedRows | CopyMoveToDialog.cpp:86-92 | with no selection nothing changes; otherwise exactly the selected row goes and the others keep their order |
| CopyMoveTo.RemovedSelection | CopyMoveToDialog.cpp:86-114 | when the deleted row was current and others remain, the row below it (above it, for the last row) becomes selected and current; otherwise nothing is selected and the current row keeps its path |
| CopyMoveTo.AddThenRemove | CopyMoveToDialog.cpp:69-92 | deleting a row just added restores the rows, leaves nothing selected and keeps the current row |
| CopyMoveTo.ReopenUnchanged | CopyMoveToDialog.cpp:41-48 | the rows loaded from the bookmarks list each bookmark once, so saving them without edits writes back the same bookmarks |
| CopyMoveTo.CopyMoveToDialog.constructor | CopyMoveToDialog.cpp:94-172 | the table lists every bookmark once in ascending order, nothing is selected or current, and the label, the operation and the current path are set |
| CopyMoveTo.CopyMoveToDialog.Selection | CopyMoveToDialog.cpp:26-34 | with a selected row the label becomes "Destination: " and its path; otherwise nothing changes |
| CopyMoveTo.CopyMoveToDialog.Select | CopyMoveToDialog.cpp:26-34 | a clicked row becomes selected and current and the label follows it; clearing the selection keeps the current row |
| CopyMoveTo.CopyMoveToDialog.SavePaths | CopyMoveToDialog.cpp:41-48 | the bookmarks become exactly the set of row paths |
| CopyMoveTo.CopyMoveToDialog.CopyOrMove | CopyMoveToDialog.cpp:50-61 | the rows are saved; with a selected row the dialog accepts with that path, otherwise it rejects |
| CopyMoveTo.CopyMoveToDialog.JustClose | CopyMoveToDialog.cpp:63-67 | the rows are saved and the dialog rejects |
| CopyMoveTo.CopyMoveToDialog.Add | CopyMoveToDialog.cpp:69-84 | the table becomes `Added` of the old one, and the label names the new row |
| CopyMoveTo.CopyMoveToDialog.Remove | CopyMoveToDialog.cpp:86-92 | the table becomes `Removed` of the old one, and when a neighbour was selected instead the label names it |
| Bookmarks.ToolTips | Bookmarks.cpp:50 | one tooltip per item, in order |
| Bookmarks.ShownItems | Bookmarks.cpp:46-51 | a pane showing the bookmarks has one item per bookmark, and each item's text is the last component of its tooltip path |
| Bookmarks.RemovingShownPath | Bookmarks.cpp:62-63 | the path of a shown item is a bookmark, and deleting it leaves one bookmark fewer than there are items |
| Bookmarks.DropEventAsWritten | Bookmarks.cpp:83-91 | a drop from outside is ignored; a drop from a widget of the application reads past the end exactly when it carries no URL, and is otherwise forwarded with the modifiers, the first path, and as a directory operation exactly when the widget is the file system tree |
| Bookmarks.UrlLessWidgetDropReadsPastEnd | Bookmarks.cpp:89 | a drop from any widget of the application that carries no URL reads past the end of the URL list; no drag that produces one is known, so the corrected guard is defensive |
| Bookmarks.DropEvent | Bookmarks.cpp:83-91 | a drop is forwarded exactly when it comes from a widget of the application and carries a URL, as a directory operation exactly when that widget is the file system tree, with the first dropped path and the modifiers |
| Bookmarks.DropEventAgrees | Bookmarks.cpp:83-91 | wherever the code as written forwards a drop, the corrected drop forwards the same one, and nowhere else |
| Bookmarks.BookMarks.constructor | Bookmarks.cpp:30-41 | the pane shows the bookmarks and nothing is selected |
| Bookmarks.BookMarks.ReloadBookmarks | Bookmarks.cpp:43-53 | the pane shows the bookmarks and nothing is selected |
| Bookmarks.BookMarks.RemoveBookmark | Bookmarks.cpp:60-66 | with exactly one item selected its path leaves the bookmarks and the pane shows the rest; otherwise nothing changes |
| InfoViewer.RowOf | InfoViewer.cpp:84-109 | a title always makes one bold row; a key/value entry makes a row exactly when its key passes the filter, with a value cell, whose tooltip is the value, exactly when the value is nonempty |
| InfoViewer.Rows | InfoViewer.cpp:84-104 | the rows a run of calls adds; what it promises is stated by `RowsAppend`, `RowsCount`, `RowsMatchFilter` and `RowsIgnoreFilterCase` |
| InfoViewer.RowsAppend | InfoViewer.cpp:91-104 | filling the pane in two batches gives the rows of each batch, in order |
| InfoViewer.RowsCount | InfoViewer.cpp:84-104 | never more rows than calls; one row per call under an empty filter or when all calls are titles |
| InfoViewer.RowsMatchFilter | InfoViewer.cpp:86-89 | every row that is not a title has a key that passes the filter |
| InfoViewer.RowsIgnoreFilterCase | InfoViewer.cpp:87 | a lower-cased filter shows the same rows |
| InfoViewer.InfoView.constructor | InfoViewer.cpp:28-69 | the table and the filter start empty |
| InfoViewer.InfoView.Clear | InfoViewer.cpp:79-82 | the table is emptied and the filter kept |
| InfoViewer.InfoView.AddEntry | InfoViewer.cpp:84-99 | the rows grow by what `Rows` gives for this entry under the current filter |
| InfoViewer.InfoView.AddTitleEntry | InfoViewer.cpp:101-109 | the rows grow by one bold title row |

## Left out

- Images, painting, layouts, icons, fonts other than the bold flag, window titles, status texts and translations.
- Event processing is not modelled. A click on Cancel during `QApplication::processEvents` is modelled by the step `cancelAt` at which it arrives.
- The dialog's progress label and its `QString::arg` formatting are left out.
- `QFileInfo::absoluteFilePath` and `QUrl::toLocalFile` are not modelled: the first is a parameter and dropped URLs arrive as local paths.
- `QKeySequence` parsing is not modelled: `keyText` stands for `QKeySequence(key).toString()` and `canonical` for `QKeySequence(text).toString()`. Both are parameters; only `ReorderedModifiersConflict` fixes values of them.
- `confirmOverwriteShortcut` (ShortcutsTable.cpp:119-131) is modelled as an oracle. Only its answer matters.
- The reserved-key warning box is not modelled; only the early return is.
- The shortcut popup menu and its placement are not modelled; only the remembered entry is.
- The header items and the hidden key column of the shortcuts table are not modelled; the key column is the row's `action` field.
- `pathDoubleClick` (CopyMoveToDialog.cpp:36-39) only calls `copyOrMove`, so it is not modelled separately.
- The `QFileDialog` shown by `add` is not modelled; the picked directory is a parameter.
- Drag enter, drag move and `resizeTreeColumn` in the bookmarks pane are not modelled.
- The info pane's `copyEntry`, `showInfoViewMenu` and `showEvent`/`filterItems`, which only emit `updateInfo`, are not modelled.
- Settings files, `ThumbsViewer.cpp`, `Settings.h`, `THUMB_SIZE_MIN` and `THUMB_SIZE_MAX` are not part of this model. The zoom bounds are parameters, with the maximum a whole number of minimum steps; the stored size may be any number.
- The deletion loop of `deleteImages` is not modelled; only its re-selection is (`RowReselect.DeleteReselect`).
- `goTo` is not modelled; its load is modelled by `PathHistory.Navigator.DirectoryLoaded`.
- CopyMove.AutoRename: the counter is unbounded, so the signed overflow of `++idx` at INT_MAX is not modelled. The loop bound at INT_MAX is kept.
- CopyMove.AutoRename, CopyMove.Candidate and CopyMove.CopyOrMoveSpec: a file name holding a `QString::arg` place marker (`%` and a digit, as in "a%1b.jpg") is treated as plain text. `QString::arg` replaces the lowest-numbered marker, which may be the one in the file name, so for such names the source tries other candidates than the model.
- CopyMove.CopyMoveDialog.PasteFiles: the source writes each rewritten slot of `Settings::copyCutFileList` as it goes. The model builds the rewritten list as a value and `Execute` stores it once, so the order of those writes is not captured.
- A name without a dot is split the way the code does it: both parts are the whole name, so "README" becomes "README_copy_1.README".
- Bookmarks.BookMarks.ReloadBookmarks: `insertTopLevelItem(0, item)` on an item already in the tree does not move it, so items stay in set order. The model states which items there are, not their order.
- Shortcuts.ShortcutsTable.KeyPressEvent, Shortcuts.ShortcutsTable.ReassignShortcut, CopyMove.CopyMoveDialog.Execute and CopyMove.CopyMoveDialog.CopyOrMoveSelection follow the corrected definitions listed under Findings. The as-written behaviour is modelled beside them.
- Disk.Transferred: the disk is deterministic and fails only on a missing source or an existing destination. A missing destination directory, permissions and I/O errors are not modelled, so a transfer into a deleted directory succeeds in the model.
- Text.Lower, Text.LowerChar, Text.FilterIgnoresCase, Shortcuts.FilteredRowsSpec, InfoViewer.RowOf and InfoViewer.RowsIgnoreFilterCase: lowering covers the capitals of Basic Latin, Latin-1, Greek and Cyrillic only. `QString::toLower` lowers every cased letter, including letters outside these blocks and those whose lowercase form is longer, so filters on such letters may match in the source and not in the model.
- CopyMoveTo.RemovedSelection: the view's current row is set by clicks only. Keyboard navigation and the focus-in that makes the first row current without selecting it are not modelled.
- CopyMove.SelectionFrom, CopyMove.CopyMoveDialog.Execute, CopyMove.CopyMoveDialog.CopyOrMoveSelection and CopyMove.CopyMoveDialog.CopyOrMoveSelected: the clipboard rows are assumed to index the current thumbnail model (`RowsIn`), the condition under which `CopyMove.GuardedSelection` runs the paste. In the source they were recorded at the cut (Phototonic.cpp:1448) and survive a change of directory or a zoom that rebuilds the model (Phototonic.cpp:1562, 1573, 2192-2212, 2234-2237). A row past the end then makes `item(row)` null and CopyMoveDialog.cpp:133-134 dereferences it, which `CopyMove.SelectionFromAsWritten` models as `NullItem`. A stale row that is still in range transfers whatever file now sits at that row, which the model does not single out.
- CopyMove.SelectionCount: it counts files. It does not say which file each transfer created, because a later move could take away an earlier destination.

## Findings

| source | as written | input that shows it | evidently intended | confidence | as-written member | corrected member |
|---|---|---|---|---|---|---|
| CopyMoveDialog.cpp:160 | `latestRow = rowList.at(0)` runs even when no row was processed | moving one selected file that no longer exists: the first transfer fails, `rowList` is empty and `at(0)` reads out of range | re-select nothing when nothing was processed: `latestRow` (CopyMoveDialog.h:42) is never initialised and each batch runs in a fresh dialog (Phototonic.cpp:1923, 3386), so there is no earlier row to keep | not executed | CopyMove.LatestRowAsWritten, CopyMove.FirstFailureLeavesNoRow | CopyMove.LatestRow, RowReselect.BatchReselectInRange |
| Bookmarks.cpp:89 | the first dropped URL is read without a check, and `dragEnterEvent` accepts every drag | a drop whose source is a widget of the application and whose URL list is empty; `urls().at(0)` then reads out of range. No drag that produces one is known: line edits do not start drags unless enabled, the file system tree (FileSystemTree.cpp:31) drags its entries as URLs, and the thumbnail view's `startDrag` (ThumbsViewer.h:168) is not part of this model | ignore a drop that carries no URL, as a defensive guard | low: the input is not known to arise; not executed | Bookmarks.DropEventAsWritten, Bookmarks.UrlLessWidgetDropReadsPastEnd | Bookmarks.DropEvent, Bookmarks.DropEventAgrees |
| CopyMoveDialog.cpp:133-134 | the file of each clipboard row is read through `item(row)` of the current thumbnail model without a check | cut rows 5 to 7 of a directory of ten images (Phototonic.cpp:1448), click a bookmark whose directory has three images (Phototonic.cpp:2234-2237), move the bookmarks' current item to another bookmark and paste (Phototonic.cpp:1894-1896, 1910, 1924): row 7 comes first, `item(7)` is null and is dereferenced | paste over the selection only while every clipboard row indexes the current model, and refuse it otherwise | not executed | CopyMove.SelectionFromAsWritten, CopyMove.StaleCutRowsReachNullItem | CopyMove.GuardedSelection, CopyMove.SelectionAsWrittenAgrees |
| ShortcutsTable.cpp:101-104 | declining a later conflict returns at once, skipping the refresh owed for conflicts already cleared | actions A and B both hold Ctrl+X; the user presses Ctrl+X, accepts clearing A and declines B: A's shortcut is empty but its row still shows Ctrl+X | refresh the table before returning when something was cleared | not executed | Shortcuts.KeyPressAsWritten, Shortcuts.DeclineLeavesStaleRow | Shortcuts.KeyPress, Shortcuts.KeyPressKeepsConsistent |
