/**
 * Collecting files from a directory traversal. `os.walk` itself is not
 * modelled: its output is an input here, the sequence of directories it
 * visits in order, each with the names of the files directly inside it.
 */
module Walk {
  import opened Wrappers
  import opened Strings
  import opened Masks
  import Paths

  /** One directory visited by the traversal: its path and its file names. */
  datatype WalkEntry = WalkEntry(root: string, files: seq<string>)

  /**
   * Whether the file `name` in directory `root` is collected: its name
   * ends with `suffix` and, when a sub-directory filter is given, the
   * filter text occurs somewhere in `root`.
   */
  predicate Wanted(root: string, name: string, suffix: string, within: Option<string>)
  {
    EndsWith(name, suffix) && (within.None? || Contains(root, within.value))
  }

  /** The collected paths of one directory, in the order of its file names. */
  function PickedFiles(root: string, files: seq<string>, suffix: string, within: Option<string>): seq<string>
  {
    if files == [] then []
    else
      PickedFiles(root, files[..|files| - 1], suffix, within)
      + (if Wanted(root, files[|files| - 1], suffix, within) then [Paths.Join(root, files[|files| - 1])] else [])
  }

  /** The collected paths of the whole traversal, directory after directory. */
  function Collected(walk: seq<WalkEntry>, suffix: string, within: Option<string>): seq<string>
  {
    if walk == [] then []
    else
      Collected(walk[..|walk| - 1], suffix, within)
      + PickedFiles(walk[|walk| - 1].root, walk[|walk| - 1].files, suffix, within)
  }

  lemma {:induction false} PickedNone(root: string, files: seq<string>, suffix: string, within: Option<string>)
    requires within.Some? && !Contains(root, within.value)
    ensures PickedFiles(root, files, suffix, within) == []
  {
    if files != [] {
      PickedNone(root, files[..|files| - 1], suffix, within);
    }
  }

  /**
   * The collection loops: every directory of the traversal in order and,
   * when no filter is given or the directory path contains the filter
   * text, every file in it whose name ends with `suffix`, appended as
   * `os.path.join(root, name)`.
   */
  method CollectFiles(walk: seq<WalkEntry>, suffix: string, within: Option<string>) returns (paths: seq<string>)
    ensures paths == Collected(walk, suffix, within)
  {
    paths := [];
    for i := 0 to |walk|
      invariant paths == Collected(walk[..i], suffix, within)
    {
      assert walk[..i + 1][..i] == walk[..i];
      var root, files := walk[i].root, walk[i].files;
      if within.None? || Contains(root, within.value) {
        for j := 0 to |files|
          invariant paths == Collected(walk[..i], suffix, within) + PickedFiles(root, files[..j], suffix, within)
        {
          assert files[..j + 1][..j] == files[..j];
          if EndsWith(files[j], suffix) {
            paths := paths + [Paths.Join(root, files[j])];
          }
        }
        assert files[..|files|] == files;
      } else {
        PickedNone(root, files, suffix, within);
      }
    }
    assert walk[..|walk|] == walk;
  }

  /** Where a collected path comes from: directory `i`, file `j`. */
  predicate CollectedFrom(walk: seq<WalkEntry>, suffix: string, within: Option<string>, p: string, i: int, j: int)
  {
    && 0 <= i < |walk| && 0 <= j < |walk[i].files|
    && Wanted(walk[i].root, walk[i].files[j], suffix, within)
    && p == Paths.Join(walk[i].root, walk[i].files[j])
  }

  lemma {:induction false} PickedMembers(root: string, files: seq<string>, suffix: string, within: Option<string>, p: string)
    ensures p in PickedFiles(root, files, suffix, within)
        <==> exists j :: 0 <= j < |files| && Wanted(root, files[j], suffix, within) && p == Paths.Join(root, files[j])
  {
    if files != [] {
      var n := |files|;
      PickedMembers(root, files[..n - 1], suffix, within, p);
      assert forall j :: 0 <= j < n - 1 ==> files[..n - 1][j] == files[j];
    }
  }

  /**
   * A path is collected exactly when some file of some visited directory
   * passes the filters and joins with its directory to that path.
   */
  lemma {:induction false} CollectedMembers(walk: seq<WalkEntry>, suffix: string, within: Option<string>, p: string)
    ensures p in Collected(walk, suffix, within) <==> exists i, j :: CollectedFrom(walk, suffix, within, p, i, j)
  {
    if walk != [] {
      var n := |walk|;
      var pre, last := walk[..n - 1], walk[n - 1];
      CollectedMembers(pre, suffix, within, p);
      PickedMembers(last.root, last.files, suffix, within, p);
      var picked := PickedFiles(last.root, last.files, suffix, within);
      assert Collected(walk, suffix, within) == Collected(pre, suffix, within) + picked;
      if p in Collected(pre, suffix, within) {
        var i, j :| CollectedFrom(pre, suffix, within, p, i, j);
        assert CollectedFrom(walk, suffix, within, p, i, j);
      } else if p in picked {
        var j :| 0 <= j < |last.files| && Wanted(last.root, last.files[j], suffix, within) && p == Paths.Join(last.root, last.files[j]);
        assert CollectedFrom(walk, suffix, within, p, n - 1, j);
      } else {
        forall i, j | 0 <= i < n - 1
          ensures CollectedFrom(walk, suffix, within, p, i, j) == CollectedFrom(pre, suffix, within, p, i, j)
        {
          assert walk[i] == pre[i];
        }
      }
    }
  }

  /** The mask that keeps, among the unfiltered paths, those from directories containing `sub`. */
  function DirectoryMask(walk: seq<WalkEntry>, suffix: string, sub: string): (mask: seq<bool>)
    ensures |mask| == |Collected(walk, suffix, None)|
  {
    if walk == [] then []
    else
      var last := walk[|walk| - 1];
      DirectoryMask(walk[..|walk| - 1], suffix, sub)
      + seq(|PickedFiles(last.root, last.files, suffix, None)|, _ => Contains(last.root, sub))
  }

  lemma {:induction false} PickedWithin(root: string, files: seq<string>, suffix: string, sub: string)
    requires Contains(root, sub)
    ensures PickedFiles(root, files, suffix, Some(sub)) == PickedFiles(root, files, suffix, None)
  {
    if files != [] {
      PickedWithin(root, files[..|files| - 1], suffix, sub);
    }
  }

  /**
   * The paths collected with a sub-directory filter are exactly the
   * unfiltered paths whose directory contains the filter text, in the
   * same relative order.
   */
  lemma {:induction false} FilterSelects(walk: seq<WalkEntry>, suffix: string, sub: string)
    ensures Select(Collected(walk, suffix, None), DirectoryMask(walk, suffix, sub)) == Collected(walk, suffix, Some(sub))
  {
    if walk != [] {
      var pre, last := walk[..|walk| - 1], walk[|walk| - 1];
      var picked := PickedFiles(last.root, last.files, suffix, None);
      FilterSelects(pre, suffix, sub);
      SelectAppend(Collected(pre, suffix, None), DirectoryMask(pre, suffix, sub),
                   picked, seq(|picked|, _ => Contains(last.root, sub)));
      SelectConstant(picked, Contains(last.root, sub));
      if Contains(last.root, sub) {
        PickedWithin(last.root, last.files, suffix, sub);
      } else {
        PickedNone(last.root, last.files, suffix, Some(sub));
      }
    }
  }

  /** Filtering by sub-directory only ever drops paths; it never adds or reorders any. */
  lemma FilterIsSubsequence(walk: seq<WalkEntry>, suffix: string, sub: string)
    ensures IsSubsequence(Collected(walk, suffix, Some(sub)), Collected(walk, suffix, None))
  {
    FilterSelects(walk, suffix, sub);
  }
}
