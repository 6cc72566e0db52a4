/**
 * The cross-reference builder `MySTXRefBuilder` (builder.py:100-236): how a
 * node's reference kind is classified, the reference entries of one written
 * artifact, the frontmatter of an artifact, and the manifest that `finish`
 * assembles.
 *
 * Reading an artifact back (`open` and `json.load` of its target path)
 * is a lookup in `written`, a map from target path to the AST stored
 * there. `find_by_type`, `to_text` and the SHA-256 digest are parameters.
 */
module XRef {
  import opened Wrappers
  import opened Paths
  import opened Mdast

  const AstVersion := "1"
  const MystVersion := "1.36.0"

  /**
   * `_xref_kind_for_node`: a container's own kind or "figure"; otherwise
   * the type, qualified by the kind when there is one.
   */
  function XrefKind(n: Fields): string {
    if n.nodeType == "container" then
      if n.kind.Some? then n.kind.value else "figure"
    else if n.kind.Some? then
      n.nodeType + ":" + n.kind.value
    else
      n.nodeType
  }

  /**
   * The container rule comes first; any other node's kind starts with its
   * type, equals it exactly when the node has no kind, and otherwise
   * continues with ':' and the node's kind.
   */
  lemma XrefKindPrecedence(n: Fields)
    ensures n.nodeType == "container" ==>
              XrefKind(n) == (if n.kind.Some? then n.kind.value else "figure")
    ensures n.nodeType != "container" ==>
              var k := XrefKind(n);
              |n.nodeType| <= |k| && k[..|n.nodeType|] == n.nodeType &&
              (k == n.nodeType <==> n.kind.None?) &&
              (n.kind.Some? ==> k[|n.nodeType|..] == ":" + n.kind.value)
  {
    if n.nodeType != "container" && n.kind.Some? {
      var k := XrefKind(n);
      assert k == n.nodeType + (":" + n.kind.value);
      assert |k| > |n.nodeType|;
    }
  }

  /** The classification of a table container, a container with no kind, inline math and a paragraph. */
  lemma XrefKindExamples()
    ensures XrefKind(Fields("container", Some("table"), Some("t1"), None)) == "table"
    ensures XrefKind(Fields("container", None, Some("f1"), None)) == "figure"
    ensures XrefKind(Fields("math", Some("inline"), Some("eq1"), None)) == "math:inline"
    ensures XrefKind(Fields("paragraph", None, Some("p1"), None)) == "paragraph"
  {
  }

  /** An entry of the manifest's `references` list; a page entry has no identifier. */
  datatype Reference = Reference(identifier: Option<string>, kind: string, data: Path, url: string)

  /** The page URL of a document: `/<slug>`. */
  function PageUrl(b: Builder, doc: DocId): string {
    "/" + Slugify(b, doc)
  }

  /** The page entry of `finish` for one document. */
  function PageReference(b: Builder, doc: DocId): Reference {
    Reference(None, "page", XRefTargetPath(b, doc), PageUrl(b, doc))
  }

  /**
   * The entry `_get_written_target_references` yields for a node with an
   * identifier, in the artifact at `data` of the page at `url`.
   */
  function NodeReference(data: Path, url: string, n: Fields): Reference {
    Reference(n.identifier, XrefKind(n), data, url)
  }

  /** The number of nodes of `nodes` that carry an identifier. */
  function CountIdentified(nodes: seq<Node>): nat {
    if nodes == [] then 0
    else (if nodes[0].fields.identifier.Some? then 1 else 0) + CountIdentified(nodes[1..])
  }

  /**
   * The loop body of `_get_written_target_references` over a walk: one entry
   * per node with an identifier, in walk order, all of them pointing at the
   * document's artifact and page.
   */
  function IdentifiedReferences(data: Path, url: string, walk: seq<Node>): (refs: seq<Reference>)
    ensures |refs| == CountIdentified(walk)
    ensures forall i :: 0 <= i < |refs| ==>
              refs[i].identifier.Some? &&
              refs[i].data == data &&
              refs[i].url == url
  {
    if walk == [] then []
    else
      var rest := IdentifiedReferences(data, url, walk[1..]);
      if walk[0].fields.identifier.Some? then [NodeReference(data, url, walk[0].fields)] + rest
      else rest
  }

  /** Entries come out in walk order: the walk of a concatenation is the concatenation. */
  lemma {:induction false} IdentifiedReferencesAppend(data: Path, url: string, w1: seq<Node>, w2: seq<Node>)
    ensures IdentifiedReferences(data, url, w1 + w2) ==
            IdentifiedReferences(data, url, w1) + IdentifiedReferences(data, url, w2)
  {
    if w1 == [] {
      assert w1 + w2 == w2;
    } else {
      assert (w1 + w2)[0] == w1[0];
      assert (w1 + w2)[1..] == w1[1..] + w2;
      IdentifiedReferencesAppend(data, url, w1[1..], w2);
    }
  }

  /** The entries are exactly those of the walk's nodes that carry an identifier. */
  lemma {:induction false} IdentifiedReferencesMembership(data: Path, url: string, walk: seq<Node>, r: Reference)
    ensures r in IdentifiedReferences(data, url, walk) <==>
            exists n :: n in walk && n.fields.identifier.Some? && r == NodeReference(data, url, n.fields)
  {
    if walk != [] {
      IdentifiedReferencesMembership(data, url, walk[1..], r);
      assert walk == [walk[0]] + walk[1..];
      if r in IdentifiedReferences(data, url, walk) && r !in IdentifiedReferences(data, url, walk[1..]) {
        assert walk[0] in walk;
      }
      if exists n :: n in walk[1..] && n.fields.identifier.Some? && r == NodeReference(data, url, n.fields) {
        var n :| n in walk[1..] && n.fields.identifier.Some? && r == NodeReference(data, url, n.fields);
        assert n in walk;
      }
    }
  }

  lemma {:induction false} CountIdentifiedAppend(a: seq<Node>, c: seq<Node>)
    ensures CountIdentified(a + c) == CountIdentified(a) + CountIdentified(c)
  {
    if a == [] {
      assert a + c == c;
    } else {
      assert (a + c)[0] == a[0];
      assert (a + c)[1..] == a[1..] + c;
      CountIdentifiedAppend(a[1..], c);
    }
  }

  /** The walk of a queue meets as many identifier-bearing nodes as the queued trees hold. */
  lemma {:induction false} CountIdentifiedBfs(queue: seq<Node>)
    ensures CountIdentified(Bfs(queue)) == CountIdentified(PreorderSeq(queue))
    decreases |PreorderSeq(queue)|
  {
    if queue != [] {
      var head, tail := queue[0], queue[1..];
      PreorderSeqAppend(tail, head.children);
      assert PreorderSeq(queue) == [head] + PreorderSeq(head.children) + PreorderSeq(tail);
      CountIdentifiedBfs(tail + head.children);
      assert Bfs(queue) == [head] + Bfs(tail + head.children);
      CountIdentifiedAppend([head], Bfs(tail + head.children));
      CountIdentifiedAppend(PreorderSeq(tail), PreorderSeq(head.children));
      CountIdentifiedAppend([head] + PreorderSeq(head.children), PreorderSeq(tail));
      CountIdentifiedAppend([head], PreorderSeq(head.children));
    }
  }

  /** `_get_written_target_references(doc)` on the AST read back from its artifact. */
  function TargetReferences(b: Builder, doc: DocId, mdast: Node): seq<Reference> {
    IdentifiedReferences(XRefTargetPath(b, doc), PageUrl(b, doc), Walk(mdast))
  }

  /**
   * A document contributes one entry per node of its AST that carries an
   * identifier, whatever order the walk visits them in.
   */
  lemma TargetReferencesCount(b: Builder, doc: DocId, root: Node)
    ensures |TargetReferences(b, doc, root)| == CountIdentified(Preorder(root))
  {
    var w := Walk(root);
    assert |TargetReferences(b, doc, root)| == CountIdentified(w);
    CountIdentifiedBfs([root]);
    PreorderSeqSingleton(root);
  }

  /** The frontmatter block of an artifact. */
  datatype Frontmatter = Frontmatter(title: Option<string>, contentIncludesTitle: bool)

  /** The JSON object `write_doc` stores for one document. */
  datatype Article = Article(
    kind: string,
    sha256: string,
    slug: string,
    location: string,
    dependencies: seq<string>,
    frontmatter: Frontmatter,
    mdast: Node,
    citeOrder: seq<string>,
    citeData: map<string, string>
  )

  /**
   * The artifact of `write_doc` for a document whose AST (links already
   * rewritten) is `mdast` and whose source file holds `source`. The title is
   * the text of the first heading `find_by_type` yields, if any.
   */
  function XRefArticle(b: Builder, docName: DocId, source: seq<bv8>, mdast: Node,
                       findByType: (string, Node) -> seq<Node>, toText: Node -> string,
                       sha256: seq<bv8> -> string): (a: Article)
    ensures a.frontmatter.contentIncludesTitle <==> a.frontmatter.title.Some?
    ensures a.frontmatter.title.Some? <==> findByType("heading", mdast) != []
    ensures a.frontmatter.title.Some? ==> a.frontmatter.title.value == toText(findByType("heading", mdast)[0])
    ensures a.kind == "Article" && a.sha256 == sha256(source)
    ensures a.slug == Slugify(b, docName) && a.location == "/" + docName
    ensures a.mdast == mdast && a.dependencies == [] && a.citeOrder == [] && a.citeData == map[]
  {
    var headings := findByType("heading", mdast);
    var title := if headings != [] then Some(toText(headings[0])) else None;
    Article("Article", sha256(source), Slugify(b, docName), "/" + docName, [],
            Frontmatter(title, title.Some?), mdast, [], map[])
  }

  /** The manifest that `finish` writes to `<outdir>/myst.xref.json`. */
  datatype Manifest = Manifest(version: string, myst: string, references: seq<Reference>)

  /** Opening an artifact that was never written fails the whole pass. */
  datatype FinishError = ArtifactNotFound(path: Path)

  /** The target path of each document, in order. */
  function TargetPaths(b: Builder, docs: seq<DocId>): (paths: seq<Path>)
    ensures |paths| == |docs|
    ensures forall i :: 0 <= i < |docs| ==> paths[i] == XRefTargetPath(b, docs[i])
  {
    seq(|docs|, i requires 0 <= i < |docs| => XRefTargetPath(b, docs[i]))
  }

  /**
   * Opening and loading the artifacts at `paths` in order: the first one
   * that was never written fails the pass.
   */
  function ReadArtifacts(paths: seq<Path>, written: map<Path, Node>): (r: Result<seq<Node>, FinishError>)
    ensures r.Success? ==> |r.value| == |paths|
  {
    if paths == [] then Success([])
    else if paths[0] !in written then Failure(ArtifactNotFound(paths[0]))
    else match ReadArtifacts(paths[1..], written)
      case Failure(e) => Failure(e)
      case Success(rest) => Success([written[paths[0]]] + rest)
  }

  /** Reading succeeds exactly when every artifact was written, and yields what was written. */
  lemma {:induction false} ReadArtifactsSucceedIff(paths: seq<Path>, written: map<Path, Node>)
    ensures ReadArtifacts(paths, written).Success? <==> forall i :: 0 <= i < |paths| ==> paths[i] in written
    ensures ReadArtifacts(paths, written).Success? ==>
              var asts := ReadArtifacts(paths, written).value;
              |asts| == |paths| && forall i :: 0 <= i < |paths| ==> asts[i] == written[paths[i]]
  {
    if paths != [] {
      ReadArtifactsSucceedIff(paths[1..], written);
      if paths[0] in written && ReadArtifacts(paths[1..], written).Success? {
        var rest := ReadArtifacts(paths[1..], written).value;
        assert ReadArtifacts(paths, written).value == [written[paths[0]]] + rest;
        forall i | 0 < i < |paths| ensures ReadArtifacts(paths, written).value[i] == written[paths[i]] {
          assert paths[i] == paths[1..][i - 1];
        }
      }
      if !ReadArtifacts(paths[1..], written).Success? {
        var i :| 0 <= i < |paths[1..]| && paths[1..][i] !in written;
        assert paths[i + 1] !in written;
      }
      if forall i :: 0 <= i < |paths[1..]| ==> paths[1..][i] in written {
      } else {
        var i :| 0 <= i < |paths[1..]| && paths[1..][i] !in written;
        assert paths[i + 1] !in written;
      }
    }
  }

  /** When reading fails, it names the first path, in order, that was not written. */
  lemma {:induction false} ReadArtifactsFailAtFirstMissing(paths: seq<Path>, written: map<Path, Node>)
    requires ReadArtifacts(paths, written).Failure?
    ensures exists i :: 0 <= i < |paths| &&
              ReadArtifacts(paths, written).error == ArtifactNotFound(paths[i]) &&
              paths[i] !in written &&
              forall j :: 0 <= j < i ==> paths[j] in written
  {
    if paths[0] in written {
      ReadArtifactsFailAtFirstMissing(paths[1..], written);
      var i :| 0 <= i < |paths[1..]| &&
               ReadArtifacts(paths[1..], written).error == ArtifactNotFound(paths[1..][i]) &&
               paths[1..][i] !in written &&
               forall j :: 0 <= j < i ==> paths[1..][j] in written;
      assert paths[1..][i] == paths[i + 1];
      forall j | 0 <= j < i + 1 ensures paths[j] in written {
        if j > 0 {
          assert paths[j] == paths[1..][j - 1];
        }
      }
    }
  }

  /** The entries `f` gives each document in turn, `asts[i]` going with `docs[i]`. */
  function ConcatMap(f: (DocId, Node) -> seq<Reference>, docs: seq<DocId>, asts: seq<Node>): seq<Reference>
    requires |asts| == |docs|
  {
    if docs == [] then []
    else f(docs[0], asts[0]) + ConcatMap(f, docs[1..], asts[1..])
  }

  /** Concatenating per document distributes over splitting the documents. */
  lemma {:induction false} ConcatMapAppend(f: (DocId, Node) -> seq<Reference>, d1: seq<DocId>, a1: seq<Node>,
                                           d2: seq<DocId>, a2: seq<Node>)
    requires |a1| == |d1| && |a2| == |d2|
    ensures ConcatMap(f, d1 + d2, a1 + a2) == ConcatMap(f, d1, a1) + ConcatMap(f, d2, a2)
  {
    if d1 == [] {
      assert d1 + d2 == d2 && a1 + a2 == a2;
    } else {
      assert (d1 + d2)[1..] == d1[1..] + d2 && (a1 + a2)[1..] == a1[1..] + a2;
      ConcatMapAppend(f, d1[1..], a1[1..], d2, a2);
    }
  }

  /**
   * `target_references` of `finish` once the artifacts are read: the entries
   * of each document in turn, `asts[i]` being the AST of `docs[i]`.
   */
  function DocumentReferences(b: Builder, docs: seq<DocId>, asts: seq<Node>): seq<Reference>
    requires |asts| == |docs|
  {
    ConcatMap((d, a) => TargetReferences(b, d, a), docs, asts)
  }

  /** The number of identifier-bearing nodes over all the ASTs. */
  function TotalIdentified(asts: seq<Node>): nat {
    if asts == [] then 0 else CountIdentified(Preorder(asts[0])) + TotalIdentified(asts[1..])
  }

  /** There is one node entry per identifier-bearing node of the artifacts. */
  lemma {:induction false} DocumentReferencesCount(b: Builder, docs: seq<DocId>, asts: seq<Node>)
    requires |asts| == |docs|
    ensures |DocumentReferences(b, docs, asts)| == TotalIdentified(asts)
  {
    if docs != [] {
      DocumentReferencesCount(b, docs[1..], asts[1..]);
      TargetReferencesCount(b, docs[0], asts[0]);
    }
  }

  /** Every entry of the concatenation is an entry `f` gives one of the documents. */
  lemma {:induction false} ConcatMapEntry(f: (DocId, Node) -> seq<Reference>, docs: seq<DocId>, asts: seq<Node>, k: nat)
    requires |asts| == |docs|
    requires k < |ConcatMap(f, docs, asts)|
    ensures exists i, j :: 0 <= i < |docs| && 0 <= j < |f(docs[i], asts[i])| &&
              ConcatMap(f, docs, asts)[k] == f(docs[i], asts[i])[j]
  {
    var here := f(docs[0], asts[0]);
    var rest := ConcatMap(f, docs[1..], asts[1..]);
    if k < |here| {
      assert ConcatMap(f, docs, asts)[k] == here[k];
    } else {
      assert ConcatMap(f, docs, asts)[k] == rest[k - |here|];
      ConcatMapEntry(f, docs[1..], asts[1..], k - |here|);
      var i, j :| 0 <= i < |docs[1..]| && 0 <= j < |f(docs[1..][i], asts[1..][i])| &&
                  rest[k - |here|] == f(docs[1..][i], asts[1..][i])[j];
      assert docs[1..][i] == docs[i + 1] && asts[1..][i] == asts[i + 1];
    }
  }

  /**
   * Every node entry carries an identifier and points at the artifact and
   * the page of one of the documents.
   */
  lemma DocumentReferencesEntry(b: Builder, docs: seq<DocId>, asts: seq<Node>, k: nat)
    requires |asts| == |docs|
    requires k < |DocumentReferences(b, docs, asts)|
    ensures DocumentReferences(b, docs, asts)[k].identifier.Some?
    ensures exists d :: d in docs &&
              DocumentReferences(b, docs, asts)[k].data == XRefTargetPath(b, d) &&
              DocumentReferences(b, docs, asts)[k].url == PageUrl(b, d)
  {
    var f := (d, a) => TargetReferences(b, d, a);
    assert DocumentReferences(b, docs, asts) == ConcatMap(f, docs, asts);
    ConcatMapEntry(f, docs, asts, k);
    var i, j :| 0 <= i < |docs| && 0 <= j < |f(docs[i], asts[i])| &&
                ConcatMap(f, docs, asts)[k] == f(docs[i], asts[i])[j];
    var r := TargetReferences(b, docs[i], asts[i])[j];
    assert r.identifier.Some? && r.data == XRefTargetPath(b, docs[i]) && r.url == PageUrl(b, docs[i]);
    assert docs[i] in docs;
  }

  /** Node entries keep document order: those of `d1 + d2` are those of `d1`, then those of `d2`. */
  lemma DocumentReferencesAppend(b: Builder, d1: seq<DocId>, a1: seq<Node>, d2: seq<DocId>, a2: seq<Node>)
    requires |a1| == |d1| && |a2| == |d2|
    ensures DocumentReferences(b, d1 + d2, a1 + a2) ==
            DocumentReferences(b, d1, a1) + DocumentReferences(b, d2, a2)
  {
    ConcatMapAppend((d, a) => TargetReferences(b, d, a), d1, a1, d2, a2);
  }

  /** `page_references` of `finish`, in `found_docs` order. */
  function PageReferences(b: Builder, docs: seq<DocId>): seq<Reference> {
    seq(|docs|, i requires 0 <= i < |docs| => PageReference(b, docs[i]))
  }

  /** `finish`: page entries, then node entries, under the two version strings. */
  function Finish(b: Builder, docs: seq<DocId>, written: map<Path, Node>): Result<Manifest, FinishError> {
    match ReadArtifacts(TargetPaths(b, docs), written)
    case Failure(e) => Failure(e)
    case Success(asts) =>
      Success(Manifest(AstVersion, MystVersion, PageReferences(b, docs) + DocumentReferences(b, docs, asts)))
  }

  /** The manifest is produced exactly when every document's artifact can be read back. */
  lemma FinishSucceedsIff(b: Builder, docs: seq<DocId>, written: map<Path, Node>)
    ensures Finish(b, docs, written).Success? <==>
            forall i :: 0 <= i < |docs| ==> XRefTargetPath(b, docs[i]) in written
  {
    ReadArtifactsSucceedIff(TargetPaths(b, docs), written);
  }

  /**
   * The manifest carries the two version strings; its first `|found_docs|`
   * entries are the page entries in `found_docs` order, followed by one node
   * entry per identifier-bearing node of the artifacts read back.
   */
  lemma FinishLayout(b: Builder, docs: seq<DocId>, written: map<Path, Node>)
    requires Finish(b, docs, written).Success?
    ensures var m := Finish(b, docs, written).value;
            m.version == "1" && m.myst == "1.36.0" &&
            |m.references| == |docs| + TotalIdentified(ReadArtifacts(TargetPaths(b, docs), written).value) &&
            forall i :: 0 <= i < |docs| ==>
              m.references[i].kind == "page" &&
              m.references[i].identifier.None? &&
              m.references[i].url == PageUrl(b, docs[i]) &&
              m.references[i].data == XRefTargetPath(b, docs[i])
  {
    var asts := ReadArtifacts(TargetPaths(b, docs), written).value;
    DocumentReferencesCount(b, docs, asts);
  }

  /**
   * Every entry after the page entries is a node entry: it carries an
   * identifier and points at the artifact and page of one of the documents.
   */
  lemma FinishNodeEntry(b: Builder, docs: seq<DocId>, written: map<Path, Node>, k: nat)
    requires Finish(b, docs, written).Success?
    requires |docs| <= k < |Finish(b, docs, written).value.references|
    ensures var r := Finish(b, docs, written).value.references[k];
            r.identifier.Some? &&
            exists d :: d in docs && r.data == XRefTargetPath(b, d) && r.url == PageUrl(b, d)
  {
    var asts := ReadArtifacts(TargetPaths(b, docs), written).value;
    var pages := PageReferences(b, docs);
    var nodeRefs := DocumentReferences(b, docs, asts);
    assert Finish(b, docs, written).value.references == pages + nodeRefs;
    assert |pages| == |docs|;
    DocumentReferencesEntry(b, docs, asts, k - |docs|);
    var r := nodeRefs[k - |docs|];
    assert Finish(b, docs, written).value.references[k] == r;
    var d :| d in docs && r.data == XRefTargetPath(b, d) && r.url == PageUrl(b, d);
  }

  /** When `finish` fails, it names the artifact of the first document, in `found_docs` order, that was not written. */
  lemma FinishFailsAtFirstMissing(b: Builder, docs: seq<DocId>, written: map<Path, Node>)
    requires Finish(b, docs, written).Failure?
    ensures exists i :: 0 <= i < |docs| &&
              Finish(b, docs, written).error == ArtifactNotFound(XRefTargetPath(b, docs[i])) &&
              XRefTargetPath(b, docs[i]) !in written &&
              forall j :: 0 <= j < i ==> XRefTargetPath(b, docs[j]) in written
  {
    ReadArtifactsFailAtFirstMissing(TargetPaths(b, docs), written);
  }
}
