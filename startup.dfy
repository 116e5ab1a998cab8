/**
 * loadStartupFileList (Phototonic.cpp:140-154): when several files are named on the command
 * line, their absolute paths become Settings::filesList, each path once, in the order of its
 * first occurrence.
 */
module StartupFiles {
  import opened Text
  import opened Collections

  /** Position of the first occurrence of `x` in `s`. */
  function FirstIndex<T(==)>(s: seq<T>, x: T): (k: nat)
    requires x in s
    ensures k < |s| && s[k] == x && x !in s[..k]
  {
    if s[0] == x then 0 else 1 + FirstIndex(s[1..], x)
  }

  /** `s` with every element after its first occurrence dropped, built from the left as the loop does. */
  function Dedup<T(==)>(s: seq<T>): seq<T>
  {
    if s == [] then []
    else
      var d := Dedup(s[..|s| - 1]);
      if s[|s| - 1] in d then d else d + [s[|s| - 1]]
  }

  /** Deduplication keeps exactly the elements of the input. */
  lemma {:induction false} DedupSameElements<T>(s: seq<T>)
    ensures forall x :: x in Dedup(s) <==> x in s
  {
    if s != [] {
      var p := s[..|s| - 1];
      DedupSameElements(p);
      assert s == p + [s[|s| - 1]];
    }
  }

  /** Deduplication leaves every element once. */
  lemma {:induction false} DedupNoDuplicates<T>(s: seq<T>)
    ensures NoDuplicates(Dedup(s))
  {
    if s != [] {
      DedupNoDuplicates(s[..|s| - 1]);
    }
  }

  lemma DedupMember<T>(s: seq<T>, x: T)
    requires x in Dedup(s)
    ensures x in s
  {
    DedupSameElements(s);
  }

  /** A first occurrence inside a prefix is the first occurrence in the whole sequence. */
  lemma FirstIndexExtend<T>(s: seq<T>, y: T, x: T)
    requires x in s
    ensures FirstIndex(s + [y], x) == FirstIndex(s, x)
  {
    var k := FirstIndex(s, x);
    var k' := FirstIndex(s + [y], x);
    assert (s + [y])[k] == x;
  }

  /** Deduplication orders the elements by the position of their first occurrence. */
  lemma {:induction false} DedupFirstOccurrenceOrder<T>(s: seq<T>)
    ensures forall i, j :: 0 <= i < j < |Dedup(s)| ==>
      Dedup(s)[i] in s && Dedup(s)[j] in s && FirstIndex(s, Dedup(s)[i]) < FirstIndex(s, Dedup(s)[j])
  {
    DedupSameElements(s);
    if s != [] {
      var p, y := s[..|s| - 1], s[|s| - 1];
      assert s == p + [y];
      var d := Dedup(p);
      DedupFirstOccurrenceOrder(p);
      DedupSameElements(p);
      forall x | x in p
        ensures FirstIndex(s, x) == FirstIndex(p, x) < |p|
      {
        FirstIndexExtend(p, y, x);
      }
      if y !in d {
        assert FirstIndex(s, y) == |p|;
        var r := Dedup(s);
        assert r == d + [y];
        forall i, j | 0 <= i < j < |r|
          ensures r[i] in s && r[j] in s && FirstIndex(s, r[i]) < FirstIndex(s, r[j])
        {
          assert i < |d| && r[i] == d[i];
          DedupMember(p, d[i]);
          if j < |d| {
            assert r[j] == d[j];
          }
        }
      }
    }
  }

  /** The absolute path of every argument from `from` on. */
  function AbsolutePaths(args: seq<Path>, from: nat, absolute: Path -> Path): (r: seq<Path>)
    requires from <= |args|
    ensures |r| == |args| - from
  {
    seq(|args| - from, k requires 0 <= k < |args| - from => absolute(args[from + k]))
  }

  /** The part of the settings that loadStartupFileList writes. */
  class StartupSettings {
    var filesList: seq<Path>
    var isFileListLoaded: bool

    constructor ()
      ensures filesList == [] && !isFileListLoaded
    {
      filesList := [];
      isFileListLoaded := false;
    }

    /**
     * `absolute` stands for QFileInfo::absoluteFilePath, whose behaviour is not part of this
     * model. The only caller (Phototonic.cpp:120, guarded at line 119) passes `filesStartAt`
     * inside the list.
     */
    method LoadStartupFileList(arguments: seq<Path>, filesStartAt: nat, absolute: Path -> Path)
      requires filesStartAt <= |arguments|
      modifies this
      ensures filesList == Dedup(AbsolutePaths(arguments, filesStartAt, absolute))
      ensures isFileListLoaded
    {
      ghost var paths := AbsolutePaths(arguments, filesStartAt, absolute);
      filesList := [];
      var i := filesStartAt;
      while i < |arguments|
        invariant filesStartAt <= i <= |arguments|
        invariant filesList == Dedup(paths[..i - filesStartAt])
      {
        var path := absolute(arguments[i]);
        assert paths[..i + 1 - filesStartAt] == paths[..i - filesStartAt] + [path];
        if path !in filesList {
          filesList := filesList + [path];
        }
        i := i + 1;
      }
      assert paths[..i - filesStartAt] == paths;
      isFileListLoaded := true;
    }
  }
}
