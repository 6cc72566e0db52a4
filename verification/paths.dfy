/**
 * Document ids, file names and the output paths of the two builders
 * (`MySTBuilder` and `MySTXRefBuilder` in builder.py).
 *
 * Paths are plain strings joined with '/'. `title_to_name` (the slug
 * function) and Sphinx's `env.doc2path` belong to code that is not part of
 * this model; they are carried as function values in `Builder`.
 */
module Paths {

  type DocId = string
  type Path = string

  /** What a builder knows about its environment. */
  datatype Builder = Builder(
    outdir: Path,                    // the builder's output directory
    titleToName: string -> string,   // `title_to_name`, the slug function
    doc2path: DocId -> Path          // `env.doc2path`, the source file of a document
  )

  /**
   * `os.path.basename`: the part of `p` after its last '/'. The three
   * ensures clauses determine the result (see `BasenameUnique`).
   */
  function Basename(p: string): (b: string)
    ensures '/' !in b
    ensures |b| <= |p| && b == p[|p| - |b|..]
    ensures |b| == |p| || p[|p| - |b| - 1] == '/'
  {
    if p == [] || p[|p| - 1] == '/' then []
    else Basename(p[..|p| - 1]) + [p[|p| - 1]]
  }

  /** Any suffix of `p` free of '/' and preceded by '/' (or by nothing) is `Basename(p)`. */
  lemma BasenameUnique(p: string, b: string)
    requires '/' !in b
    requires |b| <= |p| && b == p[|p| - |b|..]
    requires |b| == |p| || p[|p| - |b| - 1] == '/'
    ensures b == Basename(p)
  {
  }

  /** `pathlib.Path(dir) / name`, rendered by `os.fspath`. */
  function Join(dir: Path, name: string): Path {
    dir + "/" + name
  }

  /** `_slugify`: the slug of the last component of a document id. */
  function Slugify(b: Builder, doc: DocId): string {
    b.titleToName(Basename(doc))
  }

  /** `MySTBuilder._get_output_path`: `<outdir>/<slug>.myst.json`. */
  function MystOutputPath(b: Builder, doc: DocId): Path {
    Join(b.outdir, Slugify(b, doc) + ".myst.json")
  }

  /** `MySTXRefBuilder._get_target_path`: `<outdir>/content/<slug>.json`. */
  function XRefTargetPath(b: Builder, doc: DocId): Path {
    Join(Join(b.outdir, "content"), Slugify(b, doc) + ".json")
  }

  /** Prefixing a directory does not change the basename. */
  lemma {:induction false} BasenameUnderDirectory(d1: DocId, d2: DocId, dir: string)
    requires d1 == dir + "/" + d2
    ensures Basename(d1) == Basename(d2)
    decreases |d2|
  {
    assert d1[|d1| - 1] == if d2 == [] then '/' else d2[|d2| - 1];
    if d2 != [] && d2[|d2| - 1] != '/' {
      var i1, i2 := d1[..|d1| - 1], d2[..|d2| - 1];
      assert i1 == dir + "/" + i2;
      BasenameUnderDirectory(i1, i2, dir);
    }
  }

  /**
   * Output paths depend only on the last component of the document id:
   * `a/intro` and `b/intro` share one artifact in either builder.
   */
  lemma TargetPathsDependOnBasename(b: Builder, d1: DocId, d2: DocId, dir: string)
    requires d1 == dir + "/" + d2
    ensures Basename(d1) == Basename(d2)
    ensures MystOutputPath(b, d1) == MystOutputPath(b, d2)
    ensures XRefTargetPath(b, d1) == XRefTargetPath(b, d2)
  {
    BasenameUnderDirectory(d1, d2, dir);
  }
}
