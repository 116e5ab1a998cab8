/**
 * The file system as the copy/move code sees it: the set of paths that exist. QFile::copy and
 * QFile::rename refuse to overwrite, so a transfer fails when the target exists, and it fails
 * when the source is missing. This disk is deterministic: it has no other way to fail, so a
 * missing destination directory, a permission or an I/O error is not represented.
 */
module Disk {
  import opened Text

  /** What a copy or rename does to the set of existing paths. */
  datatype Transfer = Transfer(ok: bool, existing: set<Path>)

  function Transferred(existing: set<Path>, isCopy: bool, src: Path, dst: Path): (t: Transfer)
    ensures t.ok <==> src in existing && dst !in existing
    ensures t.ok ==> dst in t.existing && existing - {src} <= t.existing
    ensures t.ok && isCopy ==> existing <= t.existing
    ensures !t.ok ==> t.existing == existing
  {
    if src in existing && dst !in existing then
      Transfer(true, if isCopy then existing + {dst} else existing - {src} + {dst})
    else Transfer(false, existing)
  }

  class FileSystem {
    var existing: set<Path>

    constructor (existing: set<Path>)
      ensures this.existing == existing
    {
      this.existing := existing;
    }

    /** QFile::exists. */
    method Exists(p: Path) returns (b: bool)
      ensures b <==> p in existing
    {
      b := p in existing;
    }

    /** QFile::copy. */
    method Copy(src: Path, dst: Path) returns (ok: bool)
      modifies this
      ensures Transfer(ok, existing) == Transferred(old(existing), true, src, dst)
    {
      ok := src in existing && dst !in existing;
      if ok {
        existing := existing + {dst};
      }
    }

    /** QFile::rename. */
    method Rename(src: Path, dst: Path) returns (ok: bool)
      modifies this
      ensures Transfer(ok, existing) == Transferred(old(existing), false, src, dst)
    {
      ok := src in existing && dst !in existing;
      if ok {
        existing := existing - {src} + {dst};
      }
    }
  }
}
