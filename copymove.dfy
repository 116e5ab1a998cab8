/**
 * The copy/move progress dialog (CopyMoveDialog.cpp): picking a fresh "_copy_N" name when the
 * destination is taken, one copy or move with that single retry, and the batch over the cut
 * or copied files with its bookkeeping of the clipboard list and the thumbnail rows.
 */
module CopyMove {
  import opened Wrappers
  import opened Text
  import opened Disk
  import opened RowRemoval
  import opened Collections

  /** std::numeric_limits<int>::max(), the bound on the rename counter. */
  const IntMax: int := 0x7fff_ffff

  /** QString::left: the first `n` characters, or the whole string when `n` is negative or too large. */
  function Left(s: string, n: int): string
  {
    if n < 0 || n >= |s| then s else s[..n]
  }

  /** QString::right: the last `n` characters, or the whole string when `n` is negative or too large. */
  function Right(s: string, n: int): string
  {
    if n < 0 || n >= |s| then s else s[|s| - n..]
  }

  /** The stem and extension autoRename cuts a file name into (CopyMoveDialog.cpp:34-36). */
  datatype NameParts = NameParts(stem: string, ext: string)

  function SplitName(currFile: string): (parts: NameParts)
  {
    var extSep := LastIndexOf(currFile, '.');
    NameParts(Left(currFile, extSep), Right(currFile, |currFile| - extSep - 1))
  }

  /** A name with a dot splits around its last dot, and the two parts rebuild it. */
  lemma SplitAtLastDot(currFile: string)
    requires '.' in currFile
    ensures var parts := SplitName(currFile);
      && parts.stem + "." + parts.ext == currFile
      && '.' !in parts.ext
  {
    LastIndexOfSpec(currFile, '.');
    var k := LastIndexOf(currFile, '.');
    assert currFile[k] == '.';
    assert currFile == currFile[..k] + "." + currFile[k + 1..];
  }

  /** A name without a dot is used whole as stem and as extension: "README" gives "README_copy_1.README". */
  lemma SplitWithoutDot(currFile: string)
    requires '.' !in currFile
    ensures SplitName(currFile) == NameParts(currFile, currFile)
  {
    LastIndexOfSpec(currFile, '.');
  }

  /** The candidate for counter `n` (CopyMoveDialog.cpp:41). */
  function Candidate(parts: NameParts, n: nat): string
  {
    parts.stem + "_copy_" + DecimalString(n) + "." + parts.ext
  }

  /** The candidate for counter `n` already exists in `destDir`. */
  predicate Taken(existing: set<Path>, destDir: Path, parts: NameParts, n: nat)
  {
    Join(destDir, Candidate(parts, n)) in existing
  }

  /**
   * The counter autoRename stops at when it starts trying at `n`: the first candidate whose path
   * in `destDir` does not exist, or the bound if all of them up to it exist.
   */
  function FirstFree(existing: set<Path>, destDir: Path, parts: NameParts, n: nat): nat
    requires 1 <= n <= IntMax
    decreases IntMax - n
  {
    if !Taken(existing, destDir, parts, n) || n == IntMax then n
    else FirstFree(existing, destDir, parts, n + 1)
  }

  /**
   * The counter chosen is within the bound; every candidate before it is taken; and, unless the
   * bound was reached, its own candidate is free.
   */
  lemma {:induction false} FirstFreeSpec(existing: set<Path>, destDir: Path, parts: NameParts, n: nat)
    requires 1 <= n <= IntMax
    ensures var m := FirstFree(existing, destDir, parts, n);
      && n <= m <= IntMax
      && (forall k :: n <= k < m ==> Taken(existing, destDir, parts, k))
      && (m < IntMax ==> !Taken(existing, destDir, parts, m))
    decreases IntMax - n
  {
    if Taken(existing, destDir, parts, n) && n < IntMax {
      FirstFreeSpec(existing, destDir, parts, n + 1);
      var m := FirstFree(existing, destDir, parts, n + 1);
      assert FirstFree(existing, destDir, parts, n) == m;
      forall k | n <= k < m ensures Taken(existing, destDir, parts, k) {
        if k > n {
          assert n + 1 <= k < m;
        }
      }
    }
  }

  /** autoRename (CopyMoveDialog.cpp:32-47). */
  method AutoRename(fs: FileSystem, destDir: Path, currFile: string) returns (newFile: string)
    ensures newFile == Candidate(SplitName(currFile), FirstFree(fs.existing, destDir, SplitName(currFile), 1))
  {
    var extSep := LastIndexOf(currFile, '.');
    var parts := NameParts(Left(currFile, extSep), Right(currFile, |currFile| - extSep - 1));
    newFile := "";
    var idx := 1;
    var taken := true;
    while taken
      invariant 1 <= idx <= IntMax + 1
      invariant idx == 1 ==> taken
      invariant idx > 1 ==> newFile == Candidate(parts, idx - 1)
      invariant idx > 1 && taken ==> idx <= IntMax
      invariant idx > 1 && taken ==> FirstFree(fs.existing, destDir, parts, 1) == FirstFree(fs.existing, destDir, parts, idx)
      invariant !taken ==> idx > 1 && FirstFree(fs.existing, destDir, parts, 1) == idx - 1
      decreases IntMax + 1 - idx, taken
    {
      ghost var at := idx;
      newFile := Candidate(parts, idx);
      idx := idx + 1;
      var found := fs.Exists(Join(destDir, newFile));
      taken := idx <= IntMax && found;
      if at > 1 {
        assert FirstFree(fs.existing, destDir, parts, 1) == FirstFree(fs.existing, destDir, parts, at);
      }
    }
  }

  /** One copy or move with its auto-rename retry: success, the destination finally used, and the new disk. */
  datatype Outcome = Outcome(ok: bool, dstPath: Path, existing: set<Path>)

  /** CopyMoveDialog::copyOrMoveFile (CopyMoveDialog.cpp:49-73) on the abstract disk. */
  function CopyOrMove(existing: set<Path>, isCopy: bool, srcFile: string, srcPath: Path,
                      dstPath: Path, dstDir: Path): Outcome
  {
    var first := Transferred(existing, isCopy, srcPath, dstPath);
    if !first.ok && dstPath in existing then
      var parts := SplitName(srcFile);
      var newDestPath := Join(dstDir, Candidate(parts, FirstFree(existing, dstDir, parts, 1)));
      var retry := Transferred(existing, isCopy, srcPath, newDestPath);
      Outcome(retry.ok, newDestPath, retry.existing)
    else Outcome(first.ok, dstPath, first.existing)
  }

  /**
   * What one copy or move promises: the first destination is kept when it works; a failure on
   * a free destination changes nothing; a taken destination is replaced by the first free
   * "_copy_N" name; nothing that existed is ever overwritten, and only the source may disappear.
   */
  lemma CopyOrMoveSpec(existing: set<Path>, isCopy: bool, srcFile: string, srcPath: Path,
                       dstPath: Path, dstDir: Path)
    ensures var o := CopyOrMove(existing, isCopy, srcFile, srcPath, dstPath, dstDir);
      && (Transferred(existing, isCopy, srcPath, dstPath).ok ==> o.ok && o.dstPath == dstPath)
      && (!Transferred(existing, isCopy, srcPath, dstPath).ok && dstPath !in existing ==>
            o == Outcome(false, dstPath, existing))
      && (dstPath in existing ==>
            o.dstPath == Join(dstDir, Candidate(SplitName(srcFile), FirstFree(existing, dstDir, SplitName(srcFile), 1))))
      && (o.dstPath != dstPath ==>
            dstPath in existing && !Transferred(existing, isCopy, srcPath, dstPath).ok && o.dstPath == Join(dstDir, Candidate(SplitName(srcFile), FirstFree(existing, dstDir, SplitName(srcFile), 1))))
      && (o.ok ==> srcPath in existing && o.dstPath !in existing && o.dstPath in o.existing && existing - {srcPath} <= o.existing)
      && (o.ok ==> o.existing == if isCopy then existing + {o.dstPath} else existing - {srcPath} + {o.dstPath})
      && (!o.ok ==> o.existing == existing)
  {
  }

  /** CopyMoveDialog::copyOrMoveFile: `dstPath` is an in-out parameter, returned here as `newDstPath`. */
  method CopyOrMoveFile(fs: FileSystem, isCopy: bool, srcFile: string, srcPath: Path,
                        dstPath: Path, dstDir: Path) returns (res: bool, newDstPath: Path)
    modifies fs
    ensures Outcome(res, newDstPath, fs.existing) == CopyOrMove(old(fs.existing), isCopy, srcFile, srcPath, dstPath, dstDir)
  {
    newDstPath := dstPath;
    if isCopy {
      res := fs.Copy(srcPath, dstPath);
    } else {
      res := fs.Rename(srcPath, dstPath);
    }
    var taken := fs.Exists(dstPath);
    if !res && taken {
      var newName := AutoRename(fs, dstDir, srcFile);
      var newDestPath := Join(dstDir, newName);
      if isCopy {
        res := fs.Copy(srcPath, newDestPath);
      } else {
        res := fs.Rename(srcPath, newDestPath);
      }
      newDstPath := newDestPath;
    }
  }

  /** One step of either loop in execute: `srcPath` goes to `destDir` under its own file name. */
  function TransferTo(existing: set<Path>, isCopy: bool, srcPath: Path, destDir: Path): Outcome
  {
    var name := FileName(srcPath);
    CopyOrMove(existing, isCopy, name, srcPath, Join(destDir, name), destDir)
  }

  /** A step always targets `destDir`, never overwrites, only adds when copying, and changes nothing when it fails. */
  lemma TransferToSpec(existing: set<Path>, isCopy: bool, srcPath: Path, destDir: Path)
    ensures var o := TransferTo(existing, isCopy, srcPath, destDir);
      && StartsWith(o.dstPath, destDir + [Separator])
      && (o.ok ==> o.dstPath !in existing && o.dstPath in o.existing)
      && (o.ok && isCopy ==> existing <= o.existing)
      && (!o.ok ==> o.existing == existing)
  {
    var name := FileName(srcPath);
    CopyOrMoveSpec(existing, isCopy, name, srcPath, Join(destDir, name), destDir);
    var o := TransferTo(existing, isCopy, srcPath, destDir);
    assert o.dstPath[..|destDir| + 1] == destDir + [Separator];
  }

  /** Whether the dialog's abort flag is seen at the check after step `step`. */
  predicate Aborted(abortFrom: nat, step: int)
  {
    abortFrom <= step
  }

  /** Pasting into the current directory from slot `tn` on: the disk, the rewritten list, and where it stopped. */
  datatype PasteRun = PasteRun(existing: set<Path>, files: seq<Path>, stop: nat)

  /**
   * The paste-in-current-directory loop (CopyMoveDialog.cpp:109-129) from slot `tn`: each slot
   * is copied or moved to `destDir` under its own file name; a success overwrites the slot with
   * the destination used; the loop stops at the first failure, or once the abort flag is seen.
   */
  function PasteFrom(existing: set<Path>, isCopy: bool, files: seq<Path>, destDir: Path, tn: nat,
                     abortFrom: nat): (r: PasteRun)
    requires tn <= |files|
    ensures |r.files| == |files| && tn <= r.stop <= |files|
    decreases |files| - tn
  {
    if tn == |files| then PasteRun(existing, files, tn)
    else
      var o := TransferTo(existing, isCopy, files[tn], destDir);
      if !o.ok || Aborted(abortFrom, tn) then PasteRun(o.existing, files, tn)
      else PasteFrom(o.existing, isCopy, files[tn := o.dstPath], destDir, tn + 1, abortFrom)
  }

  /** One turn of the paste loop: stop at slot `tn`, or go on from the next slot with it rewritten. */
  lemma PasteFromStep(existing: set<Path>, isCopy: bool, files: seq<Path>, destDir: Path, tn: nat,
                      abortFrom: nat, o: Outcome)
    requires tn < |files| && o == TransferTo(existing, isCopy, files[tn], destDir)
    ensures !o.ok || Aborted(abortFrom, tn) ==>
      PasteFrom(existing, isCopy, files, destDir, tn, abortFrom) == PasteRun(o.existing, files, tn)
    ensures o.ok && !Aborted(abortFrom, tn) ==>
      PasteFrom(existing, isCopy, files, destDir, tn, abortFrom) ==
      PasteFrom(o.existing, isCopy, files[tn := o.dstPath], destDir, tn + 1, abortFrom)
  {
  }

  /** Slots before the start and from the stopping slot on are left as they were. */
  lemma {:induction false} PasteFrame(existing: set<Path>, isCopy: bool, files: seq<Path>, destDir: Path,
                                      tn: nat, abortFrom: nat)
    requires tn <= |files|
    ensures var r := PasteFrom(existing, isCopy, files, destDir, tn, abortFrom);
      forall j :: 0 <= j < |files| && (j < tn || r.stop <= j) ==> r.files[j] == files[j]
    decreases |files| - tn
  {
    if tn < |files| {
      var o := TransferTo(existing, isCopy, files[tn], destDir);
      if o.ok && !Aborted(abortFrom, tn) {
        PasteFrame(o.existing, isCopy, files[tn := o.dstPath], destDir, tn + 1, abortFrom);
      }
    }
  }

  /** Every slot the paste loop got through now names a file in `destDir`. */
  lemma {:induction false} PasteDestinations(existing: set<Path>, isCopy: bool, files: seq<Path>, destDir: Path,
                                             tn: nat, abortFrom: nat)
    requires tn <= |files|
    ensures var r := PasteFrom(existing, isCopy, files, destDir, tn, abortFrom);
      forall j :: tn <= j < r.stop ==> StartsWith(r.files[j], destDir + [Separator])
    decreases |files| - tn
  {
    if tn < |files| {
      var o := TransferTo(existing, isCopy, files[tn], destDir);
      PasteFromStep(existing, isCopy, files, destDir, tn, abortFrom, o);
      if o.ok && !Aborted(abortFrom, tn) {
        TransferToSpec(existing, isCopy, files[tn], destDir);
        var files' := files[tn := o.dstPath];
        PasteDestinations(o.existing, isCopy, files', destDir, tn + 1, abortFrom);
        PasteFrame(o.existing, isCopy, files', destDir, tn + 1, abortFrom);
        var r := PasteFrom(o.existing, isCopy, files', destDir, tn + 1, abortFrom);
        assert r.files[tn] == o.dstPath;
      }
    }
  }

  /**
   * The paste loop stopped early only on a failing slot (which left the disk as it was) or once
   * the abort flag was seen, and never later than the step at which it was seen.
   */
  lemma {:induction false} PasteOutcome(existing: set<Path>, isCopy: bool, files: seq<Path>, destDir: Path,
                                        tn: nat, abortFrom: nat)
    requires tn <= |files|
    ensures var r := PasteFrom(existing, isCopy, files, destDir, tn, abortFrom);
      && (r.stop < |files| ==> Aborted(abortFrom, r.stop) || !TransferTo(r.existing, isCopy, files[r.stop], destDir).ok)
      && (tn <= abortFrom ==> r.stop <= abortFrom)
    decreases |files| - tn
  {
    if tn < |files| {
      var o := TransferTo(existing, isCopy, files[tn], destDir);
      PasteFromStep(existing, isCopy, files, destDir, tn, abortFrom, o);
      if o.ok && !Aborted(abortFrom, tn) {
        var files' := files[tn := o.dstPath];
        PasteOutcome(o.existing, isCopy, files', destDir, tn + 1, abortFrom);
        PasteFrame(o.existing, isCopy, files', destDir, tn + 1, abortFrom);
        var r := PasteFrom(o.existing, isCopy, files', destDir, tn + 1, abortFrom);
        if r.stop < |files| {
          assert files'[r.stop] == files[r.stop];
        }
      } else {
        TransferToSpec(existing, isCopy, files[tn], destDir);
      }
    }
  }

  /** A copying paste only adds files: each slot it rewrote names a file that did not exist before and exists now. */
  lemma {:induction false} PasteCopyAddsFresh(existing: set<Path>, files: seq<Path>, destDir: Path,
                                              tn: nat, abortFrom: nat)
    requires tn <= |files|
    ensures var r := PasteFrom(existing, true, files, destDir, tn, abortFrom);
      && existing <= r.existing
      && forall j :: tn <= j < r.stop ==> r.files[j] !in existing && r.files[j] in r.existing
    decreases |files| - tn
  {
    if tn < |files| {
      var o := TransferTo(existing, true, files[tn], destDir);
      if o.ok && !Aborted(abortFrom, tn) {
        TransferToSpec(existing, true, files[tn], destDir);
        var files' := files[tn := o.dstPath];
        PasteCopyAddsFresh(o.existing, files', destDir, tn + 1, abortFrom);
        PasteFrame(o.existing, true, files', destDir, tn + 1, abortFrom);
      }
    }
  }

  /** The selection loop from position `tn` down: the disk, the rows processed, and where it stopped. */
  datatype SelectionRun = SelectionRun(existing: set<Path>, rowList: seq<int>, stop: int)

  predicate RowsIn(indexRows: seq<int>, rowCount: int)
  {
    forall k :: 0 <= k < |indexRows| ==> 0 <= indexRows[k] < rowCount
  }

  /**
   * The loop over the selected rows (CopyMoveDialog.cpp:132-153) from position `tn` down to 0:
   * the file of each selected row is copied or moved to `destDir`, and its row appended to
   * `rowList`; it stops at the first failure or once the abort flag is seen.
   */
  function SelectionFrom(existing: set<Path>, isCopy: bool, model: seq<Path>, indexRows: seq<int>,
                         destDir: Path, tn: int, abortFrom: nat, rowList: seq<int>): (r: SelectionRun)
    requires -1 <= tn < |indexRows| && RowsIn(indexRows, |model|)
    ensures -1 <= r.stop <= tn
    decreases tn + 1
  {
    if tn < 0 then SelectionRun(existing, rowList, -1)
    else
      var o := TransferTo(existing, isCopy, model[indexRows[tn]], destDir);
      if !o.ok || Aborted(abortFrom, |indexRows| - 1 - tn) then SelectionRun(o.existing, rowList, tn)
      else SelectionFrom(o.existing, isCopy, model, indexRows, destDir, tn - 1, abortFrom, rowList + [indexRows[tn]])
  }

  /** One turn of the selection loop: stop at position `tn`, or go on below it with its row recorded. */
  lemma SelectionFromStep(existing: set<Path>, isCopy: bool, model: seq<Path>, indexRows: seq<int>,
                          destDir: Path, tn: int, abortFrom: nat, rowList: seq<int>, o: Outcome)
    requires 0 <= tn < |indexRows| && RowsIn(indexRows, |model|)
    requires o == TransferTo(existing, isCopy, model[indexRows[tn]], destDir)
    ensures !o.ok || Aborted(abortFrom, |indexRows| - 1 - tn) ==>
      SelectionFrom(existing, isCopy, model, indexRows, destDir, tn, abortFrom, rowList) == SelectionRun(o.existing, rowList, tn)
    ensures o.ok && !Aborted(abortFrom, |indexRows| - 1 - tn) ==>
      SelectionFrom(existing, isCopy, model, indexRows, destDir, tn, abortFrom, rowList) ==
      SelectionFrom(o.existing, isCopy, model, indexRows, destDir, tn - 1, abortFrom, rowList + [indexRows[tn]])
  {
  }

  /** The selected rows from position `tn` down to just above `stop`, in that order. */
  function RowsDown(indexRows: seq<int>, tn: int, stop: int): (r: seq<int>)
    requires -1 <= stop <= tn < |indexRows|
    ensures |r| == tn - stop
    ensures forall k :: 0 <= k < |r| ==> r[k] == indexRows[tn - k]
    decreases tn - stop
  {
    if tn == stop then [] else [indexRows[tn]] + RowsDown(indexRows, tn - 1, stop)
  }

  /**
   * The processed rows are the selected rows above the stopping position, last selected first,
   * appended to what was already there.
   */
  lemma {:induction false} SelectionRowList(existing: set<Path>, isCopy: bool, model: seq<Path>, indexRows: seq<int>,
                                            destDir: Path, tn: int, abortFrom: nat, rowList: seq<int>)
    requires -1 <= tn < |indexRows| && RowsIn(indexRows, |model|)
    ensures var r := SelectionFrom(existing, isCopy, model, indexRows, destDir, tn, abortFrom, rowList);
      r.rowList == rowList + RowsDown(indexRows, tn, r.stop)
    decreases tn + 1
  {
    if tn >= 0 {
      var o := TransferTo(existing, isCopy, model[indexRows[tn]], destDir);
      SelectionFromStep(existing, isCopy, model, indexRows, destDir, tn, abortFrom, rowList, o);
      if o.ok && !Aborted(abortFrom, |indexRows| - 1 - tn) {
        var rowList' := rowList + [indexRows[tn]];
        SelectionRowList(o.existing, isCopy, model, indexRows, destDir, tn - 1, abortFrom, rowList');
        var r := SelectionFrom(o.existing, isCopy, model, indexRows, destDir, tn - 1, abortFrom, rowList');
        assert SelectionFrom(existing, isCopy, model, indexRows, destDir, tn, abortFrom, rowList) == r;
        assert rowList' + RowsDown(indexRows, tn - 1, r.stop) == rowList + RowsDown(indexRows, tn, r.stop);
      }
    }
  }

  /**
   * The selection loop stopped early only on a failing row (which left the disk as it was) or
   * once the abort flag was seen.
   */
  lemma {:induction false} SelectionOutcome(existing: set<Path>, isCopy: bool, model: seq<Path>, indexRows: seq<int>,
                                            destDir: Path, tn: int, abortFrom: nat, rowList: seq<int>)
    requires -1 <= tn < |indexRows| && RowsIn(indexRows, |model|)
    ensures var r := SelectionFrom(existing, isCopy, model, indexRows, destDir, tn, abortFrom, rowList);
      r.stop >= 0 ==>
        Aborted(abortFrom, |indexRows| - 1 - r.stop) ||
        !TransferTo(r.existing, isCopy, model[indexRows[r.stop]], destDir).ok
    decreases tn + 1
  {
    if tn >= 0 {
      var o := TransferTo(existing, isCopy, model[indexRows[tn]], destDir);
      SelectionFromStep(existing, isCopy, model, indexRows, destDir, tn, abortFrom, rowList, o);
      var r := SelectionFrom(existing, isCopy, model, indexRows, destDir, tn, abortFrom, rowList);
      if o.ok && !Aborted(abortFrom, |indexRows| - 1 - tn) {
        var rowList' := rowList + [indexRows[tn]];
        SelectionOutcome(o.existing, isCopy, model, indexRows, destDir, tn - 1, abortFrom, rowList');
        assert r == SelectionFrom(o.existing, isCopy, model, indexRows, destDir, tn - 1, abortFrom, rowList');
      } else if !o.ok {
        TransferCount(existing, isCopy, model[indexRows[tn]], destDir);
        assert r == SelectionRun(existing, rowList, tn);
        assert !TransferTo(r.existing, isCopy, model[indexRows[r.stop]], destDir).ok;
      } else {
        assert r.stop == tn && Aborted(abortFrom, |indexRows| - 1 - r.stop);
      }
    }
  }

  /** The selection loop never goes on past the step at which the abort flag is seen. */
  lemma {:induction false} SelectionAbortBound(existing: set<Path>, isCopy: bool, model: seq<Path>, indexRows: seq<int>,
                                               destDir: Path, tn: int, abortFrom: nat, rowList: seq<int>)
    requires -1 <= tn < |indexRows| && RowsIn(indexRows, |model|)
    ensures var r := SelectionFrom(existing, isCopy, model, indexRows, destDir, tn, abortFrom, rowList);
      |indexRows| - 1 - tn <= abortFrom ==> |indexRows| - 1 - r.stop <= abortFrom
    decreases tn + 1
  {
    if tn >= 0 {
      var o := TransferTo(existing, isCopy, model[indexRows[tn]], destDir);
      SelectionFromStep(existing, isCopy, model, indexRows, destDir, tn, abortFrom, rowList, o);
      var r := SelectionFrom(existing, isCopy, model, indexRows, destDir, tn, abortFrom, rowList);
      if o.ok && !Aborted(abortFrom, |indexRows| - 1 - tn) {
        var rowList' := rowList + [indexRows[tn]];
        SelectionAbortBound(o.existing, isCopy, model, indexRows, destDir, tn - 1, abortFrom, rowList');
        assert r == SelectionFrom(o.existing, isCopy, model, indexRows, destDir, tn - 1, abortFrom, rowList');
      }
    }
  }

  /** A successful copy adds one file and removes none; a successful move keeps the number of files. */
  lemma TransferCount(existing: set<Path>, isCopy: bool, srcPath: Path, destDir: Path)
    ensures var o := TransferTo(existing, isCopy, srcPath, destDir);
      && (o.ok && isCopy ==> existing <= o.existing && |o.existing| == |existing| + 1)
      && (o.ok && !isCopy ==> |o.existing| == |existing|)
      && (!o.ok ==> o.existing == existing)
  {
    var name := FileName(srcPath);
    CopyOrMoveSpec(existing, isCopy, name, srcPath, Join(destDir, name), destDir);
    var o := TransferTo(existing, isCopy, srcPath, destDir);
    if o.ok && !isCopy {
      assert |existing - {srcPath}| == |existing| - 1;
    }
  }

  /**
   * Every row the selection loop recorded made exactly one transfer: a copy adds one new file
   * per recorded row and removes none, a move leaves the number of files as it was. The only
   * transfer without a recorded row is the one at the step where the abort flag is seen, which
   * breaks out before recording its row.
   */
  lemma {:induction false} SelectionCount(existing: set<Path>, isCopy: bool, model: seq<Path>, indexRows: seq<int>,
                                          destDir: Path, tn: int, abortFrom: nat, rowList: seq<int>)
    requires -1 <= tn < |indexRows| && RowsIn(indexRows, |model|)
    ensures var r := SelectionFrom(existing, isCopy, model, indexRows, destDir, tn, abortFrom, rowList);
      && (isCopy ==> existing <= r.existing)
      && (isCopy ==> var extra := |r.existing| - |existing| - (tn - r.stop);
            0 <= extra <= 1 && (extra == 1 ==> r.stop >= 0 && Aborted(abortFrom, |indexRows| - 1 - r.stop)))
      && (!isCopy ==> |r.existing| == |existing|)
    decreases tn + 1
  {
    if tn >= 0 {
      var o := TransferTo(existing, isCopy, model[indexRows[tn]], destDir);
      SelectionFromStep(existing, isCopy, model, indexRows, destDir, tn, abortFrom, rowList, o);
      TransferCount(existing, isCopy, model[indexRows[tn]], destDir);
      var r := SelectionFrom(existing, isCopy, model, indexRows, destDir, tn, abortFrom, rowList);
      if o.ok && !Aborted(abortFrom, |indexRows| - 1 - tn) {
        var rowList' := rowList + [indexRows[tn]];
        SelectionCount(o.existing, isCopy, model, indexRows, destDir, tn - 1, abortFrom, rowList');
        assert r == SelectionFrom(o.existing, isCopy, model, indexRows, destDir, tn - 1, abortFrom, rowList');
      } else {
        assert r == SelectionRun(o.existing, rowList, tn);
      }
    }
  }

  /** How the selection loop as written ends: as `SelectionFrom` says, or on a row the model no longer has. */
  datatype SelectionEnd = Ran(run: SelectionRun) | NullItem(row: int)

  /**
   * The selection loop (CopyMoveDialog.cpp:132-153) as written, for clipboard rows that need
   * not index the current model: `item(row)` has no item outside `[0, |model|)` and line
   * 133-134 dereferences it. The rows were recorded when the thumbnails were cut or copied
   * (Phototonic.cpp:1448) and are cleared only after a paste (Phototonic.cpp:1947-1949), while
   * opening another directory or zooming rebuilds the model in between.
   */
  function SelectionFromAsWritten(existing: set<Path>, isCopy: bool, model: seq<Path>, indexRows: seq<int>,
                                  destDir: Path, tn: int, abortFrom: nat, rowList: seq<int>): (r: SelectionEnd)
    requires -1 <= tn < |indexRows|
    ensures r.NullItem? ==> !(0 <= r.row < |model|) && r.row in indexRows[..tn + 1]
    ensures RowsIn(indexRows[..tn + 1], |model|) ==> r.Ran?
    decreases tn + 1
  {
    if tn < 0 then Ran(SelectionRun(existing, rowList, -1))
    else if !(0 <= indexRows[tn] < |model|) then NullItem(indexRows[tn])
    else
      var o := TransferTo(existing, isCopy, model[indexRows[tn]], destDir);
      if !o.ok || Aborted(abortFrom, |indexRows| - 1 - tn) then Ran(SelectionRun(o.existing, rowList, tn))
      else
        var r := SelectionFromAsWritten(o.existing, isCopy, model, indexRows, destDir, tn - 1, abortFrom,
                                        rowList + [indexRows[tn]]);
        assert indexRows[..tn] == indexRows[..tn + 1][..tn];
        r
  }

  /** On rows that all index the model, the loop as written runs exactly as `SelectionFrom` says. */
  lemma {:induction false} SelectionAsWrittenAgrees(existing: set<Path>, isCopy: bool, model: seq<Path>,
                                                    indexRows: seq<int>, destDir: Path, tn: int, abortFrom: nat,
                                                    rowList: seq<int>)
    requires -1 <= tn < |indexRows| && RowsIn(indexRows, |model|)
    ensures SelectionFromAsWritten(existing, isCopy, model, indexRows, destDir, tn, abortFrom, rowList) ==
      Ran(SelectionFrom(existing, isCopy, model, indexRows, destDir, tn, abortFrom, rowList))
    decreases tn + 1
  {
    if tn >= 0 {
      var o := TransferTo(existing, isCopy, model[indexRows[tn]], destDir);
      SelectionFromStep(existing, isCopy, model, indexRows, destDir, tn, abortFrom, rowList, o);
      if o.ok && !Aborted(abortFrom, |indexRows| - 1 - tn) {
        SelectionAsWrittenAgrees(o.existing, isCopy, model, indexRows, destDir, tn - 1, abortFrom,
                                 rowList + [indexRows[tn]]);
      }
    }
  }

  /**
   * Rows 5 to 7 of a directory were cut, then a bookmarked directory of three images was
   * opened: pasting into the bookmark under the cursor reaches row 7 first, which the
   * rebuilt model does not have.
   */
  lemma StaleCutRowsReachNullItem()
    ensures SelectionFromAsWritten({"/b/x.jpg", "/b/y.jpg", "/b/z.jpg"}, false, ["/b/x.jpg", "/b/y.jpg", "/b/z.jpg"],
                                   [5, 6, 7], "/c", 2, 1, []) == NullItem(7)
  {
  }

  /**
   * The paste over the selection, guarded as evidently intended: it runs only while every
   * clipboard row indexes the current model, and is refused otherwise; when it runs, it runs
   * as the loop as written does, without reaching a missing item.
   */
  function GuardedSelection(existing: set<Path>, isCopy: bool, model: seq<Path>, indexRows: seq<int>,
                            destDir: Path, abortFrom: nat): (r: Option<SelectionRun>)
    ensures r.Some? <==> RowsIn(indexRows, |model|)
    ensures r.Some? ==>
      SelectionFromAsWritten(existing, isCopy, model, indexRows, destDir, |indexRows| - 1, abortFrom, []) == Ran(r.value)
  {
    if RowsIn(indexRows, |model|) then
      SelectionAsWrittenAgrees(existing, isCopy, model, indexRows, destDir, |indexRows| - 1, abortFrom, []);
      Some(SelectionFrom(existing, isCopy, model, indexRows, destDir, |indexRows| - 1, abortFrom, []))
    else None
  }

  /** The row CopyMoveDialog.cpp:160 reads as written: `rowList.at(0)`, out of range when the list is empty. */
  function LatestRowAsWritten(rowList: seq<int>): (r: Option<int>)
    ensures r.None? <==> rowList == []
  {
    if rowList == [] then None else Some(rowList[0])
  }

  /**
   * When the last selected file cannot be moved (its source is gone), the selection loop
   * processes nothing and `rowList.at(0)` reads past the end of an empty list.
   */
  lemma FirstFailureLeavesNoRow()
    ensures var r := SelectionFrom({}, false, ["/pics/a.jpg"], [0], "/dest", 0, 1, []);
      r.rowList == [] && LatestRowAsWritten(r.rowList).None?
  {
  }

  /**
   * The row to re-select after a batch, corrected: the first processed row (the lowest one once
   * a move has sorted the list), and no row at all when nothing was processed. The source has
   * no earlier value to fall back on: `latestRow` (CopyMoveDialog.h:42) is never initialised by
   * the constructor, and each batch runs in a fresh dialog (Phototonic.cpp:1923, 3386).
   */
  function LatestRow(rowList: seq<int>, isCopy: bool): (r: Option<int>)
    ensures r.None? <==> rowList == []
    ensures r.Some? ==> r.value in rowList
    ensures r.Some? && !isCopy ==> forall k :: 0 <= k < |rowList| ==> r.value <= rowList[k]
    ensures r.Some? && isCopy ==> r.value == rowList[0]
  {
    if rowList == [] then None
    else if isCopy then Some(rowList[0])
    else
      var sorted := SortRows(rowList);
      assert sorted[0] in multiset(sorted);
      forall k | 0 <= k < |rowList| ensures sorted[0] <= rowList[k] {
        assert rowList[k] in multiset(sorted);
      }
      Some(sorted[0])
  }

  /** The clipboard part of the settings: what was cut or copied, and how. */
  class CopyCutSettings {
    var copyCutFileList: seq<Path>
    var copyCutIndexList: seq<int>   // the rows of the selected model indexes
    var isCopyOperation: bool

    constructor (files: seq<Path>, indexRows: seq<int>, isCopy: bool)
      ensures copyCutFileList == files && copyCutIndexList == indexRows && isCopyOperation == isCopy
    {
      copyCutFileList := files;
      copyCutIndexList := indexRows;
      isCopyOperation := isCopy;
    }
  }

  /** The thumbnail model's rows, each holding its file's full path (FileNameRole). */
  class ThumbsModel {
    var rows: seq<Path>

    constructor (rows: seq<Path>)
      ensures this.rows == rows
    {
      this.rows := rows;
    }
  }

  /** Rows taken from distinct selected rows are distinct and in range. */
  lemma RowsDownDistinct(indexRows: seq<int>, tn: int, stop: int, rowCount: int)
    requires -1 <= stop <= tn < |indexRows|
    requires RowsIn(indexRows, rowCount) && NoDuplicates(indexRows)
    ensures RowsIn(RowsDown(indexRows, tn, stop), rowCount) && NoDuplicates(RowsDown(indexRows, tn, stop))
  {
    var r := RowsDown(indexRows, tn, stop);
    forall i, j | 0 <= i < j < |r| ensures r[i] != r[j] {
      assert r[i] == indexRows[tn - i] && r[j] == indexRows[tn - j];
    }
  }

  /** The rows the selection loop processed are distinct rows of the model. */
  lemma SelectedRowsDistinct(existing: set<Path>, isCopy: bool, model: seq<Path>, indexRows: seq<int>,
                             destDir: Path, abortFrom: nat)
    requires RowsIn(indexRows, |model|) && NoDuplicates(indexRows)
    ensures var r := SelectionFrom(existing, isCopy, model, indexRows, destDir, |indexRows| - 1, abortFrom, []);
      RowsIn(r.rowList, |model|) && NoDuplicates(r.rowList)
  {
    var r := SelectionFrom(existing, isCopy, model, indexRows, destDir, |indexRows| - 1, abortFrom, []);
    SelectionRowList(existing, isCopy, model, indexRows, destDir, |indexRows| - 1, abortFrom, []);
    RowsDownDistinct(indexRows, |indexRows| - 1, r.stop, |model|);
  }

  class CopyMoveDialog {
    var abortOp: bool
    var nFiles: int
    var latestRow: Option<int>   // None until a batch over the selection processed a row

    /** Only the abort flag is set; `latestRow` starts without a value. */
    constructor ()
      ensures !abortOp && latestRow.None?
    {
      abortOp := false;
      latestRow := None;
    }

    /** The Cancel button's slot (CopyMoveDialog.cpp:167-170). */
    method Abort()
      modifies this
      ensures abortOp && nFiles == old(nFiles) && latestRow == old(latestRow)
    {
      abortOp := true;
    }

    /**
     * CopyMoveDialog::execute (CopyMoveDialog.cpp:98-165). The Cancel click that event
     * processing may deliver is the step `cancelAt`: abort() runs before that step's transfer.
     * The selected rows are distinct rows of the thumbnail model.
     */
    method Execute(fs: FileSystem, settings: CopyCutSettings, thumbs: ThumbsModel, destDir: Path,
                   pasteInCurrDir: bool, cancelAt: nat)
      requires !pasteInCurrDir ==> RowsIn(settings.copyCutIndexList, |thumbs.rows|)
      requires !pasteInCurrDir ==> NoDuplicates(settings.copyCutIndexList)
      modifies this, fs, settings, thumbs
      ensures nFiles == |settings.copyCutIndexList|
      ensures settings.copyCutIndexList == old(settings.copyCutIndexList)
      ensures settings.isCopyOperation == old(settings.isCopyOperation)
      ensures pasteInCurrDir ==>
        var r := PasteFrom(old(fs.existing), settings.isCopyOperation, old(settings.copyCutFileList), destDir, 0,
                           if old(abortOp) then 0 else cancelAt);
        && fs.existing == r.existing && settings.copyCutFileList == r.files
        && thumbs.rows == old(thumbs.rows) && latestRow == old(latestRow)
      ensures !pasteInCurrDir ==>
        var r := SelectionFrom(old(fs.existing), settings.isCopyOperation, old(thumbs.rows), settings.copyCutIndexList,
                               destDir, |settings.copyCutIndexList| - 1, if old(abortOp) then 0 else cancelAt, []);
        && fs.existing == r.existing && settings.copyCutFileList == old(settings.copyCutFileList)
        && thumbs.rows == (if settings.isCopyOperation then old(thumbs.rows) else Kept(old(thumbs.rows), RowSet(r.rowList)))
        && latestRow == LatestRow(r.rowList, settings.isCopyOperation)
    {
      if pasteInCurrDir {
        settings.copyCutFileList := PasteFiles(fs, settings.isCopyOperation, settings.copyCutFileList, destDir, cancelAt);
      } else {
        CopyOrMoveSelection(fs, settings, thumbs, destDir, cancelAt);
      }
      nFiles := |settings.copyCutIndexList|;
    }

    /** The branch of execute over the selected thumbnails (CopyMoveDialog.cpp:130-161). */
    method CopyOrMoveSelection(fs: FileSystem, settings: CopyCutSettings, thumbs: ThumbsModel, destDir: Path,
                               cancelAt: nat)
      requires RowsIn(settings.copyCutIndexList, |thumbs.rows|) && NoDuplicates(settings.copyCutIndexList)
      modifies this, fs, thumbs
      ensures var r := SelectionFrom(old(fs.existing), settings.isCopyOperation, old(thumbs.rows), settings.copyCutIndexList,
                                     destDir, |settings.copyCutIndexList| - 1, if old(abortOp) then 0 else cancelAt, []);
        && fs.existing == r.existing
        && thumbs.rows == (if settings.isCopyOperation then old(thumbs.rows) else Kept(old(thumbs.rows), RowSet(r.rowList)))
        && latestRow == LatestRow(r.rowList, settings.isCopyOperation)
    {
      var isCopy := settings.isCopyOperation;
      ghost var indexRows, rows0, abortFrom := settings.copyCutIndexList, thumbs.rows, if abortOp then 0 else cancelAt;
      ghost var r := SelectionFrom(fs.existing, isCopy, rows0, indexRows, destDir, |indexRows| - 1, abortFrom, []);
      SelectedRowsDistinct(fs.existing, isCopy, rows0, indexRows, destDir, abortFrom);
      var rowList := CopyOrMoveSelected(fs, isCopy, thumbs.rows, settings.copyCutIndexList, destDir, cancelAt);
      assert rowList == r.rowList && fs.existing == r.existing && thumbs.rows == rows0;
      if !isCopy {
        RemoveRows(thumbs, rowList);
      }
      latestRow := LatestRow(rowList, isCopy);
    }

    /**
     * The body shared by both loops of execute: event processing (where the Cancel click of
     * step `cancelAt` sets the abort flag), then the copy or move of `sourceFile` into `destDir`.
     */
    method TransferStep(fs: FileSystem, isCopy: bool, sourceFile: Path, destDir: Path, step: int, cancelAt: nat)
      returns (res: bool, destFile: Path)
      modifies this, fs
      ensures abortOp <==> old(abortOp) || step == cancelAt
      ensures nFiles == old(nFiles) && latestRow == old(latestRow)
      ensures Outcome(res, destFile, fs.existing) == TransferTo(old(fs.existing), isCopy, sourceFile, destDir)
    {
      if step == cancelAt {
        abortOp := true;
      }
      var currFile := FileName(sourceFile);
      destFile := Join(destDir, currFile);
      res, destFile := CopyOrMoveFile(fs, isCopy, currFile, sourceFile, destFile, destDir);
    }

    /**
     * The paste-in-current-directory loop of execute (CopyMoveDialog.cpp:109-129) over the
     * clipboard list `files`; `pasted` is the list with each pasted slot rewritten to its
     * destination.
     */
    method PasteFiles(fs: FileSystem, isCopy: bool, files: seq<Path>, destDir: Path, cancelAt: nat)
      returns (pasted: seq<Path>)
      modifies this, fs
      ensures nFiles == old(nFiles) && latestRow == old(latestRow)
      ensures var r := PasteFrom(old(fs.existing), isCopy, files, destDir, 0, if old(abortOp) then 0 else cancelAt);
        fs.existing == r.existing && pasted == r.files
    {
      ghost var abortFrom: nat := if abortOp then 0 else cancelAt;
      ghost var final := PasteFrom(fs.existing, isCopy, files, destDir, 0, abortFrom);
      pasted := files;
      var tn := 0;
      while tn < |pasted|
        invariant 0 <= tn <= |pasted| == |files|
        invariant abortOp <==> old(abortOp) || cancelAt < tn
        invariant nFiles == old(nFiles) && latestRow == old(latestRow)
        invariant PasteFrom(fs.existing, isCopy, pasted, destDir, tn, abortFrom) == final
      {
        ghost var before := fs.existing;
        var res, destFile := TransferStep(fs, isCopy, pasted[tn], destDir, tn, cancelAt);
        PasteFromStep(before, isCopy, pasted, destDir, tn, abortFrom, Outcome(res, destFile, fs.existing));
        if !res || abortOp {
          break;
        }
        pasted := pasted[tn := destFile];
        tn := tn + 1;
      }
    }

    /**
     * The loop over the selected rows in execute (CopyMoveDialog.cpp:131-153), over the model's
     * file paths `model` and the selected rows `indexRows`; `rowList` holds the rows whose files
     * were copied or moved, last selected first.
     */
    method CopyOrMoveSelected(fs: FileSystem, isCopy: bool, model: seq<Path>, indexRows: seq<int>, destDir: Path,
                              cancelAt: nat) returns (rowList: seq<int>)
      requires RowsIn(indexRows, |model|)
      modifies this, fs
      ensures nFiles == old(nFiles) && latestRow == old(latestRow)
      ensures var r := SelectionFrom(old(fs.existing), isCopy, model, indexRows, destDir, |indexRows| - 1,
                                     if old(abortOp) then 0 else cancelAt, []);
        fs.existing == r.existing && rowList == r.rowList
    {
      ghost var abortFrom: nat := if abortOp then 0 else cancelAt;
      ghost var final := SelectionFrom(fs.existing, isCopy, model, indexRows, destDir, |indexRows| - 1, abortFrom, []);
      rowList := [];
      var tn := |indexRows| - 1;
      while tn >= 0
        invariant -1 <= tn < |indexRows|
        invariant abortOp <==> old(abortOp) || cancelAt < |indexRows| - 1 - tn
        invariant nFiles == old(nFiles) && latestRow == old(latestRow)
        invariant SelectionFrom(fs.existing, isCopy, model, indexRows, destDir, tn, abortFrom, rowList) == final
      {
        ghost var before := fs.existing;
        var res, destFile := TransferStep(fs, isCopy, model[indexRows[tn]], destDir, |indexRows| - 1 - tn, cancelAt);
        SelectionFromStep(before, isCopy, model, indexRows, destDir, tn, abortFrom, rowList,
                          Outcome(res, destFile, fs.existing));
        if !res || abortOp {
          break;
        }
        rowList := rowList + [indexRows[tn]];
        tn := tn - 1;
      }
    }
  }

  /**
   * The removal at CopyMoveDialog.cpp:155-158: sort the processed rows and remove them from
   * the highest down, so every row is still in range when it is removed.
   */
  method RemoveRows(thumbs: ThumbsModel, rowList: seq<int>)
    requires RowsIn(rowList, |thumbs.rows|) && NoDuplicates(rowList)
    modifies thumbs
    ensures thumbs.rows == Kept(old(thumbs.rows), RowSet(rowList))
  {
    var sorted := SortRows(rowList);
    ghost var orig := thumbs.rows;
    SortedRows(rowList, sorted, |orig|);
    var t := |sorted| - 1;
    assert RowSet(sorted[t + 1..]) == {} by {
      assert sorted[t + 1..] == [];
    }
    KeptAllBelow(orig, {});
    while t >= 0
      invariant -1 <= t < |sorted|
      invariant thumbs.rows == Kept(orig, RowSet(sorted[t + 1..]))
    {
      RemoveNext(orig, sorted, t);
      thumbs.rows := RemoveAt(thumbs.rows, sorted[t]);
      t := t - 1;
    }
    assert sorted[0..] == sorted;
  }

  predicate StrictlyAscending(s: seq<int>)
  {
    forall i, j :: 0 <= i < j < |s| ==> s[i] < s[j]
  }

  /** Sorting distinct rows in range gives strictly ascending rows in range, the same set of them. */
  lemma SortedRows(rowList: seq<int>, sorted: seq<int>, rowCount: int)
    requires RowsIn(rowList, rowCount) && NoDuplicates(rowList)
    requires Ascending(sorted) && multiset(sorted) == multiset(rowList)
    ensures StrictlyAscending(sorted) && RowsIn(sorted, rowCount) && RowSet(sorted) == RowSet(rowList)
  {
    forall x ensures x in sorted <==> x in rowList {
      assert x in sorted <==> x in multiset(sorted);
      assert x in rowList <==> x in multiset(rowList);
    }
    forall k | 0 <= k < |sorted| ensures 0 <= sorted[k] < rowCount {
      assert sorted[k] in rowList;
    }
    SortedDistinct(rowList, sorted);
  }

  /** Removing the next-highest row from what the higher removals left. */
  lemma RemoveNext(orig: seq<Path>, sorted: seq<int>, t: int)
    requires StrictlyAscending(sorted) && RowsIn(sorted, |orig|) && 0 <= t < |sorted|
    ensures sorted[t] < |Kept(orig, RowSet(sorted[t + 1..]))|
    ensures Kept(orig, RowSet(sorted[t..])) == RemoveAt(Kept(orig, RowSet(sorted[t + 1..])), sorted[t])
  {
    var done := RowSet(sorted[t + 1..]);
    forall r | r in done ensures r > sorted[t] {
      assert r in sorted[t + 1..];
    }
    RemoveBelowRemoved(orig, done, sorted[t]);
    assert RowSet(sorted[t..]) == done + {sorted[t]} by {
      assert sorted[t..] == [sorted[t]] + sorted[t + 1..];
    }
  }

  /** Sorting distinct rows leaves them strictly ascending. */
  lemma SortedDistinct(rowList: seq<int>, sorted: seq<int>)
    requires NoDuplicates(rowList)
    requires Ascending(sorted) && multiset(sorted) == multiset(rowList)
    ensures StrictlyAscending(sorted)
  {
    forall x ensures multiset(sorted)[x] <= 1 {
      NoDupCount(rowList, x);
    }
    CountsDistinct(sorted);
  }
}
