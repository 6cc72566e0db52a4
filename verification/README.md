# sphinx-ext-mystmd builders, modelled in Dafny

This project models the logic of the two Sphinx builders in
`src/sphinx_ext_mystmd/builder.py`. `MySTBuilder` (`myst`) writes one
`<slug>.myst.json` file per document. `MySTXRefBuilder` (`myst-xref`) writes
one `content/<slug>.json` artifact per document and then a
`myst.xref.json` cross-reference manifest. The model proves properties of
five parts of them, without any I/O or Sphinx plumbing:

- **Staleness selection** (`get_outdated_docs`, module `Staleness`): which
  documents are rebuilt. Both builders use the same loop, so it is modelled
  once, with the target-path function as a parameter (`Paths.MystOutputPath`
  or `Paths.XRefTargetPath`). The filesystem is a map from path to
  modification time. A path missing from the map is one that cannot be
  statted.
- **Internal link rewriting** (`transform_internal_links`, module `Links`): an
  in-place pass over an array of node records. URLs are records
  `(scheme, path, rest)`, as `urllib.parse.urlparse` splits them.
- **Reference-kind classification** (`_xref_kind_for_node`, `XRef.XrefKind`).
- **Per-document references** (`_get_written_target_references`,
  `XRef.TargetReferences`): one entry per node with an `identifier`, in the
  order of a breadth-first walk. `breadth_first_walk` comes from `utils.py`,
  which is not part of this model. `Mdast.Walk` defines the meaning assumed
  for it: the root first, then level by level, each node's children in
  order. `Mdast.Preorder` enumerates the same nodes independently, and
  lemmas show that the walk visits every node exactly once.
- **Manifest and frontmatter** (`finish`, `XRef.Finish`; the title part of
  `write_doc`, `XRef.XRefArticle`). `finish` reads each document's artifact
  back, modelled as a lookup in a map from target path to the AST written
  there. The manifest lists the page entries in `found_docs` order, then the
  node entries, in document order and walk order within a document.

`title_to_name` (the slug function) and Sphinx's `env.doc2path` are function
values in `Paths.Builder`. `find_by_type`, `to_text` and the SHA-256 digest
are function parameters of `XRef.XRefArticle`. Modification times are
`real`, as Python's `os.path.getmtime` returns floats.

Output paths depend only on the last component of a document id
(`os.path.basename` in `_slugify`). So `a/intro` and `b/intro` share one
output file in either builder (`Paths.TargetPathsDependOnBasename`).

## Model

| member | source | states |
|---|---|---|
| Paths.Basename | src/sphinx_ext_mystmd/builder.py:40-42 | The result holds no '/', is a suffix of the path, and is either the whole path or preceded by '/'. Together these pin down the last path component. |
| Paths.BasenameUnderDirectory | src/sphinx_ext_mystmd/builder.py:40-41 | Prefixing a document id with a directory does not change its basename. |
| Paths.TargetPathsDependOnBasename | src/sphinx_ext_mystmd/builder.py:40-46 | A document id `dir/d` has the same basename as `d`, and the same output path in both builders (`<slug>.myst.json` and `content/<slug>.json`). |
| Staleness.GetOutdatedDocs | src/sphinx_ext_mystmd/builder.py:54-75 | The generator loop yields exactly `Outdated(found, ...)`: the documents of `found_docs` that are outdated, in iteration order. The loop at 146-162 is the same with another target path. |
| Staleness.OutdatedMembership | src/sphinx_ext_mystmd/builder.py:55-75 | A document is yielded if and only if it is in `found_docs` and is either never built or built with a source that stats strictly newer than its target. |
| Staleness.NeverBuiltIsOutdated | src/sphinx_ext_mystmd/builder.py:54-58 | A found document not in `all_docs` is always yielded, whatever the file times. |
| Staleness.BuiltOutdatedIffSourceNewer | src/sphinx_ext_mystmd/builder.py:151-159 | A built document whose source can be statted is yielded if and only if its source time is strictly greater than its target time. A target that cannot be statted counts as 0. |
| Staleness.EqualTimesNotOutdated | src/sphinx_ext_mystmd/builder.py:60-72 | A built document whose source and target have equal times is not yielded. |
| Staleness.MissingSourceNotOutdated | src/sphinx_ext_mystmd/builder.py:160-162 | A built document whose source cannot be statted is silently left out. |
| Staleness.OutdatedIsSubsequence | src/sphinx_ext_mystmd/builder.py:147-162 | The yielded documents are a subsequence of `found_docs`, in iteration order. |
| Staleness.OutdatedDistinct | src/sphinx_ext_mystmd/builder.py:55-75 | When `found_docs` has no repeats (it is a set), no document is yielded twice. |
| Links.RewriteRecord | src/sphinx_ext_mystmd/builder.py:25-34 | A record changes exactly when it is a link whose URL has an empty scheme, a non-empty path, and a path among the document names. Its path then gains `.myst.json`, while its scheme, the rest of its URL, its type, kind and identifier are kept. |
| Links.RewrittenPathNamesDocument | src/sphinx_ext_mystmd/builder.py:29-33 | Removing the `.myst.json` suffix from a rewritten path gives back a known document id. |
| Links.RewriteIdempotent | src/sphinx_ext_mystmd/builder.py:27-34 | A second pass changes nothing, unless a suffixed path is itself a document id. |
| Links.TransformInternalLinks | src/sphinx_ext_mystmd/builder.py:18-34 | The pass succeeds exactly when every link record has a `url`, and each record then becomes its `RewriteRecord` image. At the first link without a `url` the pass raises `KeyError`: the records before it are already rewritten and the rest are untouched. |
| Mdast.BfsPermutesPreorder | src/sphinx_ext_mystmd/builder.py:134 | The assumed breadth-first walk of a queue of trees visits the same nodes as their depth-first enumeration, each as often (multiset equality). |
| Mdast.WalkVisitsEveryNode | src/sphinx_ext_mystmd/builder.py:134 | The walk of a tree starts at the root and visits every node exactly once. |
| Mdast.BfsQueueOrder | src/sphinx_ext_mystmd/builder.py:134 | Every node already in the queue is visited before anything queued behind it or below it. |
| Mdast.BfsLevelOrder | src/sphinx_ext_mystmd/builder.py:134 | The walk is level order: a whole level, then the walk of the level of their children. |
| XRef.XrefKindPrecedence | src/sphinx_ext_mystmd/builder.py:117-124 | A container gets its own kind, or "figure" when it has none. Any other node's kind starts with its type, equals the type exactly when the node has no kind, and otherwise continues with ':' and the kind. |
| XRef.XrefKindExamples | src/sphinx_ext_mystmd/builder.py:117-124 | Examples: a table container gives "table", a container with no kind gives "figure", inline math gives "math:inline", and a paragraph gives "paragraph". |
| XRef.IdentifiedReferences | src/sphinx_ext_mystmd/builder.py:134-141 | There is one entry per identifier-bearing node of the walk, each with an identifier, `data` equal to the artifact path and `url` equal to the page URL. |
| XRef.IdentifiedReferencesMembership | src/sphinx_ext_mystmd/builder.py:135-141 | The entries are exactly the nodes of the walk that carry an identifier, each with that identifier and its classified kind. |
| XRef.IdentifiedReferencesAppend | src/sphinx_ext_mystmd/builder.py:134-141 | Entries come out in walk order: the entries of a concatenated walk are the concatenated entries. |
| XRef.CountIdentifiedBfs | src/sphinx_ext_mystmd/builder.py:134-135 | The walk meets as many identifier-bearing nodes as the queued trees hold. |
| XRef.TargetReferencesCount | src/sphinx_ext_mystmd/builder.py:126-141 | A document contributes one entry per identifier-bearing node of its AST. |
| XRef.XRefArticle | src/sphinx_ext_mystmd/builder.py:170-203 | The title is the text of the first heading, or None when there is no heading. `content_includes_title` is true exactly when there is a title. The artifact also carries the slug, the location `/<doc>`, the source's digest and empty dependencies and citations. |
| XRef.ReadArtifacts | src/sphinx_ext_mystmd/builder.py:130-131 | A successful read yields one AST per path. |
| XRef.ReadArtifactsSucceedIff | src/sphinx_ext_mystmd/builder.py:130-131 | Reading succeeds exactly when every artifact was written, and yields what was written. |
| XRef.ReadArtifactsFailAtFirstMissing | src/sphinx_ext_mystmd/builder.py:218-224 | A failed read names the first path, in order, that was never written. |
| XRef.ConcatMapAppend | src/sphinx_ext_mystmd/builder.py:218-224 | Concatenating entries per document distributes over splitting the document list. |
| XRef.ConcatMapEntry | src/sphinx_ext_mystmd/builder.py:218-224 | Every entry of the flattened list is an entry of one document's list. |
| XRef.DocumentReferencesCount | src/sphinx_ext_mystmd/builder.py:218-224 | The node entries number the identifier-bearing nodes summed over all artifacts. |
| XRef.DocumentReferencesEntry | src/sphinx_ext_mystmd/builder.py:218-224 | Every node entry has an identifier and points at the artifact and page of one of the documents. |
| XRef.DocumentReferencesAppend | src/sphinx_ext_mystmd/builder.py:218-224 | Node entries keep document order. |
| XRef.FinishSucceedsIff | src/sphinx_ext_mystmd/builder.py:209-233 | `finish` produces a manifest exactly when every document's artifact can be read back. |
| XRef.FinishLayout | src/sphinx_ext_mystmd/builder.py:209-231 | The manifest has `version` "1" and `myst` "1.36.0". Its first `|found_docs|` entries are page entries in `found_docs` order, each with kind "page", no identifier, the page URL and the artifact path. Its length is `|found_docs|` plus the number of identifier-bearing nodes over all artifacts. |
| XRef.FinishNodeEntry | src/sphinx_ext_mystmd/builder.py:218-225 | Every entry after the page entries is a node entry of one of the documents. |
| XRef.FinishFailsAtFirstMissing | src/sphinx_ext_mystmd/builder.py:218-224 | When `finish` fails, it names the artifact of the first document, in `found_docs` order, that was never written. |

## Left out

- Sphinx integration (`prepare_writing`, `get_target_uri`, logging, and the registration in `__init__.py`): framework glue with no logic of its own.
- File I/O (`open`, `json.dump`, `json.load`, `mkdir`): times are a map, and artifacts are ASTs in a map keyed by target path. The manifest is returned, not written.
- An artifact that exists but holds invalid JSON, or JSON without an `mdast` key: only a missing artifact is modelled as a failure of `finish`.
- A source file that fails to stat with an error other than `OSError`: such an error propagates out of `get_outdated_docs` in the source, but the model treats every stat failure of a source as "cannot be statted".
- `MySTNodeVisitor` (`transform.py`) is not part of this model: the AST is a given tree.
- `title_to_name`, `to_text`, `find_by_type` and `breadth_first_walk` (`utils.py`) are not part of this model. The first three are uninterpreted function values, and the walk is the breadth-first order defined in `Mdast`.
- The SHA-256 digest is a function parameter, and reading the source file is given as its bytes.
- URL parsing and unparsing: URLs are already split into scheme, path and rest, so any normalisation that `urlunparse` might apply is not modelled.
- Path normalisation by `pathlib` (duplicate or trailing separators): paths are joined with '/'.
- Links.TransformInternalLinks: the link records are a flat array in walk order, not nodes shared with the AST, so aliasing between the pass and the tree it came from is not captured.
- `MySTBuilder.write_doc`'s plain `{kind, mdast}` output: it has no logic beyond I/O.
- JSON `null` values for `kind` or `identifier`: a key present with value `null` is treated as absent.
