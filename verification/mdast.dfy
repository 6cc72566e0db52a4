/**
 * The MyST AST that the builders write, and the breadth-first walk over it.
 *
 * A node is a JSON object with a required `type`, an optional `kind`, an
 * optional `identifier` and, for links, a `url`; its children are an ordered
 * sequence. URLs are taken as already split by `urllib.parse.urlparse` into a
 * scheme, a path and the rest (netloc, params, query and fragment together).
 *
 * `breadth_first_walk` lives in utils.py, which is not part of this model.
 * `Walk` is the meaning assumed for it at builder.py:134: the root first,
 * then level by level, the children of each node in order. `Preorder` is an
 * independent enumeration of the same nodes, used to show that the walk
 * visits every node exactly once.
 */
module Mdast {
  import opened Wrappers

  datatype Url = Url(scheme: string, path: string, rest: string)

  /** The keys of a node that the builders read or write. */
  datatype Fields = Fields(
    nodeType: string,
    kind: Option<string>,
    identifier: Option<string>,
    url: Option<Url>
  )

  datatype Node = Node(fields: Fields, children: seq<Node>)

  /** Every node of the tree, parent before children (depth first). */
  function Preorder(n: Node): (s: seq<Node>)
    ensures s != [] && s[0] == n
    decreases n
  {
    [n] + PreorderSeq(n.children)
  }

  /** Every node of every tree of `ns`, one tree after the other. */
  function PreorderSeq(ns: seq<Node>): seq<Node>
    decreases ns
  {
    if ns == [] then [] else Preorder(ns[0]) + PreorderSeq(ns[1..])
  }

  lemma {:induction false} PreorderSeqAppend(a: seq<Node>, b: seq<Node>)
    ensures PreorderSeq(a + b) == PreorderSeq(a) + PreorderSeq(b)
  {
    if a == [] {
      assert a + b == b;
    } else {
      assert (a + b)[0] == a[0];
      assert (a + b)[1..] == a[1..] + b;
      PreorderSeqAppend(a[1..], b);
    }
  }

  /**
   * Breadth-first walk from a queue: emit the head, enqueue its children at
   * the back. It visits every node of the queued trees exactly once.
   */
  function Bfs(queue: seq<Node>): seq<Node>
    decreases |PreorderSeq(queue)|
  {
    if queue == [] then []
    else
      var head := queue[0];
      PreorderSeqAppend(queue[1..], head.children);
      assert |PreorderSeq(queue)| == 1 + |PreorderSeq(queue[1..] + head.children)|;
      [head] + Bfs(queue[1..] + head.children)
  }

  /** The walk of a queue visits every node of the queued trees exactly once. */
  lemma {:induction false} BfsPermutesPreorder(queue: seq<Node>)
    ensures multiset(Bfs(queue)) == multiset(PreorderSeq(queue))
    decreases |PreorderSeq(queue)|
  {
    if queue != [] {
      var head, tail := queue[0], queue[1..];
      PreorderSeqAppend(tail, head.children);
      assert PreorderSeq(queue) == [head] + PreorderSeq(head.children) + PreorderSeq(tail);
      BfsPermutesPreorder(tail + head.children);
    }
  }

  lemma PreorderSeqSingleton(n: Node)
    ensures PreorderSeq([n]) == Preorder(n)
  {
    assert [n][1..] == [];
    assert Preorder(n) + [] == Preorder(n);
  }

  /** The walk assumed for `breadth_first_walk(root)`. */
  function Walk(root: Node): seq<Node> {
    Bfs([root])
  }

  /** The walk starts at the root and visits every node of the tree exactly once. */
  lemma WalkVisitsEveryNode(root: Node)
    ensures Walk(root) != [] && Walk(root)[0] == root
    ensures multiset(Walk(root)) == multiset(Preorder(root))
    ensures |Walk(root)| == |Preorder(root)|
  {
    PreorderSeqSingleton(root);
    BfsPermutesPreorder([root]);
    var w := Walk(root);
    assert |w| == |multiset(w)| == |multiset(Preorder(root))| == |Preorder(root)|;
  }

  /** The children of the nodes of `level`, in order: the next level. */
  function NextLevel(level: seq<Node>): seq<Node>
    decreases level
  {
    if level == [] then [] else level[0].children + NextLevel(level[1..])
  }

  /** Whatever waits in the queue behind `q` is emitted after all of `q`. */
  lemma {:induction false} BfsQueueOrder(q: seq<Node>, r: seq<Node>)
    ensures Bfs(q + r) == q + Bfs(r + NextLevel(q))
    decreases |q|
  {
    if q == [] {
      assert q + r == r;
      assert r + NextLevel(q) == r;
    } else {
      var head, tail := q[0], q[1..];
      var r' := r + head.children;
      calc {
        Bfs(q + r);
        { assert (q + r)[0] == head && (q + r)[1..] + head.children == tail + r'; }
        [head] + Bfs(tail + r');
        { BfsQueueOrder(tail, r'); }
        [head] + (tail + Bfs(r' + NextLevel(tail)));
        { assert r' + NextLevel(tail) == r + NextLevel(q); }
        [head] + (tail + Bfs(r + NextLevel(q)));
        { assert q == [head] + tail; }
        q + Bfs(r + NextLevel(q));
      }
    }
  }

  /** The walk is level order: a whole level, then the walk of the next one. */
  lemma BfsLevelOrder(level: seq<Node>)
    ensures Bfs(level) == level + Bfs(NextLevel(level))
  {
    BfsQueueOrder(level, []);
    assert level + [] == level;
    assert [] + NextLevel(level) == NextLevel(level);
  }
}
