/**
 * `get_outdated_docs`, which `MySTBuilder` (builder.py:54-75) and
 * `MySTXRefBuilder` (builder.py:146-162) implement with the same loop. The
 * builders differ only in the target path, so it is a parameter here:
 * `MystOutputPath` or `XRefTargetPath` from module Paths.
 *
 * The filesystem is a map from path to modification time; a path missing
 * from it is one that `os.path.getmtime` fails on.
 */
module Staleness {
  import opened Paths

  /** Modification times of the files that can be statted. */
  type MTimes = map<Path, real>

  /** The target's time, or 0 when it cannot be statted (`except Exception: targetmtime = 0`). */
  function TargetTime(fs: MTimes, p: Path): real {
    if p in fs then fs[p] else 0.0
  }

  /**
   * Whether the loop yields `d`: never built before, or built and its
   * source statted with a time strictly after the target's. A source that
   * cannot be statted (`except OSError: pass`) is never yielded.
   */
  predicate IsOutdated(d: DocId, allDocs: set<DocId>, fs: MTimes,
                       targetPath: DocId -> Path, sourcePath: DocId -> Path)
  {
    d !in allDocs ||
    (sourcePath(d) in fs && fs[sourcePath(d)] > TargetTime(fs, targetPath(d)))
  }

  /** The documents of `found` that are outdated, in `found`'s order. */
  function Outdated(found: seq<DocId>, allDocs: set<DocId>, fs: MTimes,
                    targetPath: DocId -> Path, sourcePath: DocId -> Path): seq<DocId>
  {
    if found == [] then []
    else
      var last := found[|found| - 1];
      Outdated(found[..|found| - 1], allDocs, fs, targetPath, sourcePath) +
      (if IsOutdated(last, allDocs, fs, targetPath, sourcePath) then [last] else [])
  }

  /** The generator loop of `get_outdated_docs`, collecting what it yields. */
  method GetOutdatedDocs(found: seq<DocId>, allDocs: set<DocId>, fs: MTimes,
                         targetPath: DocId -> Path, sourcePath: DocId -> Path)
    returns (outdated: seq<DocId>)
    ensures outdated == Outdated(found, allDocs, fs, targetPath, sourcePath)
  {
    outdated := [];
    for i := 0 to |found|
      invariant outdated == Outdated(found[..i], allDocs, fs, targetPath, sourcePath)
    {
      var docname := found[i];
      assert found[..i + 1][..i] == found[..i];
      if docname !in allDocs {
        outdated := outdated + [docname];
        continue;
      }
      var targetmtime := if targetPath(docname) in fs then fs[targetPath(docname)] else 0.0;
      var sourcePathOf := sourcePath(docname);
      if sourcePathOf in fs {
        var srcmtime := fs[sourcePathOf];
        if srcmtime > targetmtime {
          outdated := outdated + [docname];
        }
      }
    }
    assert found[..|found|] == found;
  }

  /** A document is selected exactly when it is in `found` and outdated. */
  lemma {:induction false} OutdatedMembership(found: seq<DocId>, allDocs: set<DocId>, fs: MTimes,
                                              targetPath: DocId -> Path, sourcePath: DocId -> Path, d: DocId)
    ensures d in Outdated(found, allDocs, fs, targetPath, sourcePath) <==>
            d in found && IsOutdated(d, allDocs, fs, targetPath, sourcePath)
  {
    if found != [] {
      var init := found[..|found| - 1];
      OutdatedMembership(init, allDocs, fs, targetPath, sourcePath, d);
      assert found == init + [found[|found| - 1]];
    }
  }

  /** A document found but never built is always selected, whatever the times. */
  lemma NeverBuiltIsOutdated(found: seq<DocId>, allDocs: set<DocId>, fs: MTimes,
                             targetPath: DocId -> Path, sourcePath: DocId -> Path, d: DocId)
    requires d in found && d !in allDocs
    ensures d in Outdated(found, allDocs, fs, targetPath, sourcePath)
  {
    OutdatedMembership(found, allDocs, fs, targetPath, sourcePath, d);
  }

  /**
   * A built document whose source can be statted is selected if and only if
   * the source is strictly newer than the target, a missing target counting
   * as time 0.
   */
  lemma BuiltOutdatedIffSourceNewer(found: seq<DocId>, allDocs: set<DocId>, fs: MTimes,
                                    targetPath: DocId -> Path, sourcePath: DocId -> Path, d: DocId)
    requires d in found && d in allDocs && sourcePath(d) in fs
    ensures d in Outdated(found, allDocs, fs, targetPath, sourcePath) <==>
            fs[sourcePath(d)] > (if targetPath(d) in fs then fs[targetPath(d)] else 0.0)
  {
    OutdatedMembership(found, allDocs, fs, targetPath, sourcePath, d);
  }

  /** Equal times mean "not stale". */
  lemma EqualTimesNotOutdated(found: seq<DocId>, allDocs: set<DocId>, fs: MTimes,
                              targetPath: DocId -> Path, sourcePath: DocId -> Path, d: DocId)
    requires d in allDocs && sourcePath(d) in fs && targetPath(d) in fs
    requires fs[sourcePath(d)] == fs[targetPath(d)]
    ensures d !in Outdated(found, allDocs, fs, targetPath, sourcePath)
  {
    OutdatedMembership(found, allDocs, fs, targetPath, sourcePath, d);
  }

  /** A built document whose source cannot be statted is silently left out. */
  lemma MissingSourceNotOutdated(found: seq<DocId>, allDocs: set<DocId>, fs: MTimes,
                                 targetPath: DocId -> Path, sourcePath: DocId -> Path, d: DocId)
    requires d in allDocs && sourcePath(d) !in fs
    ensures d !in Outdated(found, allDocs, fs, targetPath, sourcePath)
  {
    OutdatedMembership(found, allDocs, fs, targetPath, sourcePath, d);
  }

  /** `s` is `t` with some elements removed, the rest kept in order. */
  predicate IsSubsequence(s: seq<DocId>, t: seq<DocId>)
  {
    if s == [] then true
    else if t == [] then false
    else if s[|s| - 1] == t[|t| - 1] then IsSubsequence(s[..|s| - 1], t[..|t| - 1])
    else IsSubsequence(s, t[..|t| - 1])
  }

  /** No element occurs twice. */
  predicate Distinct(s: seq<DocId>)
  {
    forall i, j :: 0 <= i < j < |s| ==> s[i] != s[j]
  }

  /** The selection keeps `found`'s iteration order. */
  lemma {:induction false} OutdatedIsSubsequence(found: seq<DocId>, allDocs: set<DocId>, fs: MTimes,
                                                 targetPath: DocId -> Path, sourcePath: DocId -> Path)
    ensures IsSubsequence(Outdated(found, allDocs, fs, targetPath, sourcePath), found)
  {
    if found != [] {
      var init := found[..|found| - 1];
      var last := found[|found| - 1];
      var oi := Outdated(init, allDocs, fs, targetPath, sourcePath);
      OutdatedIsSubsequence(init, allDocs, fs, targetPath, sourcePath);
      assert found == init + [last];
      if IsOutdated(last, allDocs, fs, targetPath, sourcePath) {
        var o := oi + [last];
        assert Outdated(found, allDocs, fs, targetPath, sourcePath) == o;
        assert o[|o| - 1] == last && o[..|o| - 1] == oi;
      } else {
        assert Outdated(found, allDocs, fs, targetPath, sourcePath) == oi + [];
        assert oi + [] == oi;
        SubsequenceOfPrefix(oi, init, last);
      }
    }
  }

  /** A subsequence of `t` is a subsequence of `t` extended by one element. */
  lemma {:induction false} SubsequenceOfPrefix(s: seq<DocId>, t: seq<DocId>, x: DocId)
    requires IsSubsequence(s, t)
    ensures IsSubsequence(s, t + [x])
    decreases |t|, 1
  {
    assert (t + [x])[..|t + [x]| - 1] == t;
    if s != [] && s[|s| - 1] == x {
      SubsequenceDropLast(s, t);
    }
  }

  /** Dropping the last element of a subsequence leaves a subsequence. */
  lemma {:induction false} SubsequenceDropLast(s: seq<DocId>, t: seq<DocId>)
    requires s != [] && IsSubsequence(s, t)
    ensures IsSubsequence(s[..|s| - 1], t)
    decreases |t|, 0
  {
    var t' := t[..|t| - 1];
    assert t == t' + [t[|t| - 1]];
    if s[|s| - 1] == t[|t| - 1] {
      SubsequenceOfPrefix(s[..|s| - 1], t', t[|t| - 1]);
    } else {
      SubsequenceDropLast(s, t');
      SubsequenceOfPrefix(s[..|s| - 1], t', t[|t| - 1]);
    }
  }

  /** Each document is selected at most once, as `found_docs` is a set. */
  lemma {:induction false} OutdatedDistinct(found: seq<DocId>, allDocs: set<DocId>, fs: MTimes,
                                            targetPath: DocId -> Path, sourcePath: DocId -> Path)
    requires Distinct(found)
    ensures Distinct(Outdated(found, allDocs, fs, targetPath, sourcePath))
  {
    if found != [] {
      var init := found[..|found| - 1];
      var last := found[|found| - 1];
      assert Distinct(init);
      OutdatedDistinct(init, allDocs, fs, targetPath, sourcePath);
      OutdatedMembership(init, allDocs, fs, targetPath, sourcePath, last);
      assert last !in init;
    }
  }
}
