/**
 * `MySTBuilderMixin.transform_internal_links` (builder.py:18-34): links to a
 * document of the project get the suffix of the anticipated MyST JSON
 * output appended to their path.
 *
 * The tree's nodes are an array of mutable records, in the order of the
 * walk that `find_by_type` performs; the method rewrites the `url` of the
 * link records in place and leaves every other record alone.
 */
module Links {
  import opened Wrappers
  import opened Paths
  import opened Mdast

  const MystSuffix := ".myst.json"

  /** `set(self.env.found_docs)`. */
  function DocSet(foundDocs: seq<DocId>): (s: set<DocId>)
    ensures forall d :: d in s <==> d in foundDocs
  {
    set d | d in foundDocs
  }

  /** A link with no scheme and a non-empty path that names a known document. */
  predicate IsInternalLink(n: Fields, docnames: set<DocId>)
  {
    && n.nodeType == "link"
    && n.url.Some?
    && n.url.value.scheme == ""
    && n.url.value.path != ""
    && n.url.value.path in docnames
  }

  /** What the pass does to one node record. */
  function RewriteRecord(n: Fields, docnames: set<DocId>): (r: Fields)
    ensures r.nodeType == n.nodeType && r.kind == n.kind && r.identifier == n.identifier
    ensures r.url.Some? == n.url.Some?
    ensures r != n <==> IsInternalLink(n, docnames)
    ensures r != n ==> r.url.value.scheme == n.url.value.scheme && r.url.value.rest == n.url.value.rest
    ensures r != n ==> r.url.value.path == n.url.value.path + MystSuffix
  {
    if IsInternalLink(n, docnames) then
      var u := n.url.value;
      n.(url := Some(u.(path := u.path + MystSuffix)))
    else n
  }

  /**
   * A rewritten link names the document it points to: removing the suffix
   * from its new path gives back a known document id.
   */
  lemma RewrittenPathNamesDocument(n: Fields, docnames: set<DocId>)
    requires RewriteRecord(n, docnames) != n
    ensures var p := RewriteRecord(n, docnames).url.value.path;
            |p| > |MystSuffix| && p[|p| - |MystSuffix|..] == MystSuffix &&
            p[..|p| - |MystSuffix|] in docnames
  {
    var p := RewriteRecord(n, docnames).url.value.path;
    assert p == n.url.value.path + MystSuffix;
    assert p[..|p| - |MystSuffix|] == n.url.value.path;
  }

  /**
   * Re-running the pass does not add the suffix twice, unless the suffixed
   * path is itself a document id.
   */
  lemma RewriteIdempotent(n: Fields, docnames: set<DocId>)
    requires n.url.Some? ==> n.url.value.path + MystSuffix !in docnames
    ensures RewriteRecord(RewriteRecord(n, docnames), docnames) == RewriteRecord(n, docnames)
  {
  }

  /**
   * The loop of `transform_internal_links` over the walk's records: every
   * link record whose URL has no scheme, a non-empty path and a path in
   * `found_docs` gains the suffix; nothing else changes. A link record
   * without a `url` makes the source raise `KeyError`: the pass then stops
   * at the first such record (`ok` is false), the records before it already rewritten and the
   * rest untouched.
   */
  method TransformInternalLinks(nodes: array<Fields>, foundDocs: seq<DocId>) returns (ok: bool)
    modifies nodes
    ensures ok <==> forall i :: 0 <= i < nodes.Length && old(nodes[i]).nodeType == "link" ==> old(nodes[i]).url.Some?
    ensures ok ==> forall i :: 0 <= i < nodes.Length ==> nodes[i] == RewriteRecord(old(nodes[i]), DocSet(foundDocs))
    ensures !ok ==> exists j :: 0 <= j < nodes.Length && old(nodes[j]).nodeType == "link" && old(nodes[j]).url.None? &&
                      (forall k :: 0 <= k < j && old(nodes[k]).nodeType == "link" ==> old(nodes[k]).url.Some?) &&
                      (forall k :: 0 <= k < j ==> nodes[k] == RewriteRecord(old(nodes[k]), DocSet(foundDocs))) &&
                      (forall k :: j <= k < nodes.Length ==> nodes[k] == old(nodes[k]))
  {
    var docnames := DocSet(foundDocs);
    for i := 0 to nodes.Length
      invariant forall k :: 0 <= k < i && old(nodes[k]).nodeType == "link" ==> old(nodes[k]).url.Some?
      invariant forall k :: 0 <= k < i ==> nodes[k] == RewriteRecord(old(nodes[k]), docnames)
      invariant forall k :: i <= k < nodes.Length ==> nodes[k] == old(nodes[k])
    {
      var link := nodes[i];
      if link.nodeType != "link" {
        continue;
      }
      if link.url.None? {
        return false;
      }
      var parsed := link.url.value;
      if parsed.scheme != "" || parsed.path == "" {
        continue;
      }
      if parsed.path !in docnames {
        continue;
      }
      var newPath := parsed.path + MystSuffix;
      nodes[i] := link.(url := Some(parsed.(path := newPath)));
    }
    return true;
  }
}
