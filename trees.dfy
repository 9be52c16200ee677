/**
  * The input of the embedder: an ordered rooted tree as the `id_tree` crate
  * offers it. Every node has an identity (`NodeId`), the text its `Visualize`
  * implementation produces (as UTF-8 bytes), the `emphasize` flag, and its
  * children in declaration order.
  *
  * The queries the embedder asks of the tree (post-order and pre-order
  * traversal, ancestors, parent, height) are defined here on the value.
  * Positions inside the tree are addressed by routes: the sequence of child
  * indices that leads from the root to a node.
  */
module Trees {

  datatype Option<+T> = None | Some(value: T)

  /** Opaque identity of a node; the embedder only uses it as a map key. */
  type NodeId = nat

  newtype byte = b: int | 0 <= b < 256

  datatype Node = Node(id: NodeId, text: seq<byte>, emphasize: bool, kids: seq<Node>)

  /** A tree that may be empty (no root node). */
  type Tree = Option<Node>

  // ---------------------------------------------------------------------
  // Node identities and well-formedness

  function Ids(t: Node): set<NodeId>
    decreases t
  {
    {t.id} + IdsIn(t.kids)
  }

  function IdsIn(ks: seq<Node>): set<NodeId>
    decreases ks
  {
    if ks == [] then {} else Ids(ks[0]) + IdsIn(ks[1..])
  }

  /**
    * A valid id tree: no node id occurs twice. This is what makes the tree a
    * tree (a node is never its own descendant, no node has two parents).
    */
  predicate Unique(t: Node)
    decreases t
  {
    && t.id !in IdsIn(t.kids)
    && (forall i, j :: 0 <= i < j < |t.kids| ==> Ids(t.kids[i]) !! Ids(t.kids[j]))
    && (forall i :: 0 <= i < |t.kids| ==> Unique(t.kids[i]))
  }

  lemma IdsInAt(ks: seq<Node>, id: NodeId)
    ensures id in IdsIn(ks) <==> exists i :: 0 <= i < |ks| && id in Ids(ks[i])
    decreases ks
  {
    if ks != [] {
      IdsInAt(ks[1..], id);
      if id in IdsIn(ks[1..]) {
        var i :| 0 <= i < |ks[1..]| && id in Ids(ks[1..][i]);
        assert id in Ids(ks[i + 1]);
      }
      if exists i :: 0 <= i < |ks| && id in Ids(ks[i]) {
        var i :| 0 <= i < |ks| && id in Ids(ks[i]);
        if i > 0 {
          assert ks[1..][i - 1] == ks[i];
        }
      }
    }
  }

  lemma KidIdsIn(t: Node, i: nat)
    requires i < |t.kids|
    ensures Ids(t.kids[i]) <= IdsIn(t.kids) <= Ids(t)
  {
    forall id | id in Ids(t.kids[i]) ensures id in IdsIn(t.kids) {
      IdsInAt(t.kids, id);
    }
  }

  // ---------------------------------------------------------------------
  // Routes: child-index paths from the root

  predicate ValidRoute(t: Node, r: seq<nat>)
    decreases r
  {
    r == [] || (r[0] < |t.kids| && ValidRoute(t.kids[r[0]], r[1..]))
  }

  function Descend(t: Node, r: seq<nat>): Node
    requires ValidRoute(t, r)
    decreases r
  {
    if r == [] then t else Descend(t.kids[r[0]], r[1..])
  }

  /** The first child whose subtree holds `id`. */
  function KidWith(ks: seq<Node>, id: NodeId): (i: nat)
    requires id in IdsIn(ks)
    ensures i < |ks| && id in Ids(ks[i])
    ensures forall j :: 0 <= j < i ==> id !in Ids(ks[j])
    decreases ks
  {
    if id in Ids(ks[0]) then 0
    else
      var i := KidWith(ks[1..], id);
      assert forall j :: 1 <= j <= i ==> ks[j] == ks[1..][j - 1];
      1 + i
  }

  /** The route from `t` to the node `id` (models `tree.get(id)`). */
  function Route(t: Node, id: NodeId): (r: seq<nat>)
    requires id in Ids(t)
    ensures ValidRoute(t, r) && Descend(t, r).id == id
    decreases t
  {
    if t.id == id then []
    else
      var i := KidWith(t.kids, id);
      var r := Route(t.kids[i], id);
      assert ([i] + r)[1..] == r;
      [i] + r
  }

  /** The subtree rooted at node `id`. */
  function Find(t: Node, id: NodeId): Node
    requires id in Ids(t)
  {
    Descend(t, Route(t, id))
  }

  /** The number of ancestors of node `id`, its level. */
  function Depth(t: Node, id: NodeId): nat
    requires id in Ids(t)
  {
    |Route(t, id)|
  }

  /** Ancestor ids, nearest first (the order of `id_tree`'s `ancestor_ids`). */
  function AncestorsAlong(t: Node, r: seq<nat>): (a: seq<NodeId>)
    requires ValidRoute(t, r)
    ensures |a| == |r|
    ensures forall j :: 0 <= j < |a| ==> a[j] in Ids(t)
    decreases r
  {
    if r == [] then []
    else
      KidIdsIn(t, r[0]);
      AncestorsAlong(t.kids[r[0]], r[1..]) + [t.id]
  }

  function AncestorIds(t: Node, id: NodeId): seq<NodeId>
    requires id in Ids(t)
  {
    AncestorsAlong(t, Route(t, id))
  }

  function ParentAlong(t: Node, r: seq<nat>): (p: Option<NodeId>)
    requires ValidRoute(t, r)
    ensures p.Some? <==> r != []
    ensures p.Some? ==> p.value in Ids(t)
    decreases r
  {
    if r == [] then None
    else if |r| == 1 then Some(t.id)
    else
      KidIdsIn(t, r[0]);
      ParentAlong(t.kids[r[0]], r[1..])
  }

  /** The parent of node `id` (models `node.parent()`), `None` for the root. */
  function Parent(t: Node, id: NodeId): Option<NodeId>
    requires id in Ids(t)
  {
    ParentAlong(t, Route(t, id))
  }

  /**
    * The nodes whose parent is `p`: the children of `p` in declaration
    * order, or the root alone when `p` is `None`.
    */
  function KidsOf(t: Node, p: Option<NodeId>): seq<Node>
    requires p.Some? ==> p.value in Ids(t)
  {
    match p
    case None => [t]
    case Some(pid) => Find(t, pid).kids
  }

  /** The number of levels of the tree (`id_tree`'s `height`). */
  function Height(t: Node): nat
    decreases t
  {
    1 + HeightIn(t.kids)
  }

  function HeightIn(ks: seq<Node>): nat
    decreases ks
  {
    if ks == [] then 0
    else
      var h, g := Height(ks[0]), HeightIn(ks[1..]);
      if h < g then g else h
  }

  function TreeHeight(tree: Tree): nat
  {
    match tree
    case None => 0
    case Some(root) => Height(root)
  }

  // ---------------------------------------------------------------------
  // Traversals

  /** Post-order: every child subtree in declaration order, then the node. */
  function PostOrder(t: Node): seq<Node>
    decreases t
  {
    PostOrderIn(t.kids) + [t]
  }

  function PostOrderIn(ks: seq<Node>): seq<Node>
    decreases ks
  {
    if ks == [] then [] else PostOrder(ks[0]) + PostOrderIn(ks[1..])
  }

  /** Pre-order: the node, then every child subtree in declaration order. */
  function PreOrder(t: Node): seq<Node>
    decreases t
  {
    [t] + PreOrderIn(t.kids)
  }

  function PreOrderIn(ks: seq<Node>): seq<Node>
    decreases ks
  {
    if ks == [] then [] else PreOrder(ks[0]) + PreOrderIn(ks[1..])
  }

  function IdsOf(s: seq<Node>): set<NodeId>
  {
    set n | n in s :: n.id
  }

  predicate DistinctIds(s: seq<Node>)
  {
    forall i, j :: 0 <= i < j < |s| ==> s[i].id != s[j].id
  }

  function IdSeq(s: seq<Node>): (r: seq<NodeId>)
    ensures |r| == |s| && forall i :: 0 <= i < |s| ==> r[i] == s[i].id
  {
    seq(|s|, i requires 0 <= i < |s| => s[i].id)
  }

  /**
    * The post-order number of node `id` (its `ord`): the start of its
    * subtree's block in the post-order of `t`, plus the size of that block,
    * minus one, because the node closes its own block.
    */
  function OffsetAlong(t: Node, r: seq<nat>): nat
    requires ValidRoute(t, r)
    decreases r
  {
    if r == [] then 0 else |PostOrderIn(t.kids[..r[0]])| + OffsetAlong(t.kids[r[0]], r[1..])
  }

  function PostOrderNumber(t: Node, id: NodeId): nat
    requires id in Ids(t)
  {
    OffsetAlong(t, Route(t, id)) + |PostOrder(Find(t, id))| - 1
  }
}
