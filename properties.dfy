/**
  * What the records of an embedding promise, stated on the records alone
  * (`Expected(t, id)` is the record `Embedder.Embed` returns for node `id`):
  * the widths, the post-order numbering, the levels and parent links, and
  * the packing of siblings side by side under their parent.
  */
module Properties {
  import opened Trees
  import opened TreeLemmas
  import opened Layout

  // ---------------------------------------------------------------------
  // Widths

  /**
    * A node's own width is its text length plus one, so it is never zero;
    * the width it reserves is the larger of its own width and its
    * children's, and a leaf reserves exactly its own width.
    */
  lemma RecordWidths(t: Node, id: NodeId)
    requires id in Ids(t)
    ensures var e := Expected(t, id);
      && e.xExtent == |e.text| + 1
      && e.xExtent <= e.xExtentChildren && e.xExtentOfChildren <= e.xExtentChildren
      && (e.xExtentChildren == e.xExtent || e.xExtentChildren == e.xExtentOfChildren)
      && (Find(t, id).kids == [] ==> e.xExtentOfChildren == 0 && e.xExtentChildren == e.xExtent)
  {
  }

  /** The reserved widths of the records of the first `n` nodes of `ks`, summed. */
  function ReservedSum(t: Node, ks: seq<Node>, n: nat): nat
    requires n <= |ks| && forall i :: 0 <= i < |ks| ==> ks[i].id in Ids(t)
  {
    if n == 0 then 0 else ReservedSum(t, ks, n - 1) + Expected(t, ks[n - 1].id).xExtentChildren
  }

  /** A parent's `xExtentOfChildren` is the sum of its children's reserved widths. */
  lemma ChildrenSum(t: Node, pid: NodeId)
    requires Unique(t) && pid in Ids(t)
    ensures var kids := Find(t, pid).kids;
      && (forall i :: 0 <= i < |kids| ==> kids[i].id in Ids(t))
      && Expected(t, pid).xExtentOfChildren == ReservedSum(t, kids, |kids|)
  {
    var kids := Find(t, pid).kids;
    forall i | 0 <= i < |kids|
      ensures kids[i].id in Ids(t) && Expected(t, kids[i].id).xExtentChildren == Footprint(kids[i])
    {
      KidOf(t, pid, i);
    }
    ReservedPrefix(t, kids, |kids|);
    assert kids[..|kids|] == kids;
  }

  lemma {:induction false} ReservedPrefix(t: Node, ks: seq<Node>, n: nat)
    requires n <= |ks|
    requires forall i :: 0 <= i < |ks| ==> ks[i].id in Ids(t) && Expected(t, ks[i].id).xExtentChildren == Footprint(ks[i])
    ensures ReservedSum(t, ks, n) == KidsFootprint(ks[..n])
  {
    if n > 0 {
      ReservedPrefix(t, ks, n - 1);
      KidsFootprintStep(ks, n - 1);
      assert ReservedSum(t, ks, n) == ReservedSum(t, ks, n - 1) + Footprint(ks[n - 1]);
    }
  }

  // ---------------------------------------------------------------------
  // Post-order numbers

  /** The `ord` fields number the nodes 0, 1, ..., n - 1, each number used once. */
  lemma OrdsNumberNodes(t: Node)
    requires Unique(t)
    ensures forall id :: id in Ids(t) ==> Expected(t, id).ord < |Ids(t)|
    ensures forall x, y :: x in Ids(t) && y in Ids(t) && x != y ==> Expected(t, x).ord != Expected(t, y).ord
    ensures forall k :: 0 <= k < |Ids(t)| <==> k in Ords(t)
  {
    var po := PostOrder(t);
    PostOrderDistinct(t);
    PostOrderIds(t);
    DistinctIdsCount(po);
    forall id | id in Ids(t) ensures Expected(t, id).ord < |Ids(t)| {
      PostOrderAt(t, id);
    }
    forall x, y | x in Ids(t) && y in Ids(t) && x != y ensures Expected(t, x).ord != Expected(t, y).ord {
      NumberInjective(t, x, y);
    }
    forall k | 0 <= k < |Ids(t)| ensures k in Ords(t) {
      NumberOfPostOrder(t, k);
      assert Expected(t, po[k].id).ord == k;
    }
  }

  /** The post-order numbers the records hold. */
  function Ords(t: Node): set<nat>
  {
    set id | id in Ids(t) :: Expected(t, id).ord
  }

  /** A sequence of nodes with distinct ids has as many ids as nodes. */
  lemma {:induction false} DistinctIdsCount(s: seq<Node>)
    requires DistinctIds(s)
    ensures |IdsOf(s)| == |s|
  {
    if s != [] {
      var s' := s[..|s| - 1];
      assert DistinctIds(s');
      DistinctIdsCount(s');
      IdsOfPrefix(s, |s| - 1);
      assert s[..|s|] == s;
    }
  }

  /**
    * Children are numbered before their parent, and the whole subtree of an
    * earlier sibling before the whole subtree of a later one.
    */
  lemma OrdsFollowPostOrder(t: Node, pid: NodeId, i: nat, j: nat, x: NodeId, y: NodeId)
    requires Unique(t) && pid in Ids(t) && i < j < |Find(t, pid).kids|
    requires x in Ids(Find(t, pid).kids[i]) && y in Ids(Find(t, pid).kids[j])
    ensures var kids := Find(t, pid).kids;
      && kids[i].id in Ids(t) && kids[j].id in Ids(t) && x in Ids(t) && y in Ids(t)
      && Expected(t, kids[i].id).ord < Expected(t, pid).ord
      && Expected(t, kids[j].id).ord < Expected(t, pid).ord
      && Expected(t, x).ord < Expected(t, y).ord
  {
    KidBeforeParent(t, pid, i);
    KidBeforeParent(t, pid, j);
    SiblingNumbers(t, pid, i, j, x, y);
  }

  // ---------------------------------------------------------------------
  // Levels and parent links

  /**
    * The level of a node is its number of ancestors; the root is the one
    * node at level 0 and the one node without a parent link.
    */
  lemma LevelsCountAncestors(t: Node, id: NodeId)
    requires Unique(t) && id in Ids(t)
    ensures var e := Expected(t, id);
      && e.yOrder == |AncestorIds(t, id)|
      && (e.yOrder == 0 <==> id == t.id)
      && (e.parent == None <==> id == t.id)
  {
    RootFacts(t, id);
  }

  /** Child `i` of `pid` is one level below it and links to its post-order number. */
  lemma KidLinks(t: Node, pid: NodeId, i: nat)
    requires Unique(t) && pid in Ids(t) && i < |Find(t, pid).kids|
    ensures var k := Find(t, pid).kids[i].id;
      && k in Ids(t)
      && Expected(t, k).yOrder == Expected(t, pid).yOrder + 1
      && Expected(t, k).parent == Some(Expected(t, pid).ord)
  {
    KidLevel(t, pid, i);
  }

  // ---------------------------------------------------------------------
  // Centres

  /** The left edge of the width a record reserves. */
  function LeftOf(e: PlacedTreeItem): int
  {
    e.xCenter - e.xExtentChildren / 2
  }

  /** The root is centred in its reserved width, which starts at 0. */
  lemma RootCentre(t: Node)
    ensures var e := Expected(t, t.id);
      e.xCenter == e.xExtentChildren / 2 && LeftOf(e) == 0
  {
    assert Route(t, t.id) == [];
  }

  /** No node's reserved width reaches left of 0. */
  lemma LeftEdgesNotNegative(t: Node, id: NodeId)
    requires id in Ids(t)
    ensures LeftOf(Expected(t, id)) >= 0
  {
  }

  /**
    * Siblings are packed side by side: the first child's reserved width
    * starts half the children's width left of the parent's centre (a
    * subtraction that does not go below zero), each next child's starts
    * where the previous one's ends, and every child is centred in its own.
    */
  lemma SiblingPacking(t: Node, pid: NodeId, i: nat)
    requires Unique(t) && pid in Ids(t) && i < |Find(t, pid).kids|
    ensures var kids, p := Find(t, pid).kids, Expected(t, pid);
      && kids[i].id in Ids(t)
      && p.xExtentOfChildren / 2 <= p.xCenter
      && (i == 0 ==> LeftOf(Expected(t, kids[0].id)) == p.xCenter - p.xExtentOfChildren / 2)
      && (i + 1 < |kids| ==>
            && kids[i + 1].id in Ids(t)
            && LeftOf(Expected(t, kids[i + 1].id))
               == LeftOf(Expected(t, kids[i].id)) + Expected(t, kids[i].id).xExtentChildren)
  {
    var kids := Find(t, pid).kids;
    KidEdge(t, pid, i);
    if i + 1 < |kids| {
      KidEdge(t, pid, i + 1);
    }
  }

  /**
    * The edges of child `i`: its reserved width starts at the children's
    * block start plus the widths before it, and ends where the widths up to
    * and including it end.
    */
  lemma KidEdge(t: Node, pid: NodeId, i: nat)
    requires Unique(t) && pid in Ids(t) && i < |Find(t, pid).kids|
    ensures var n, p := Find(t, pid), Expected(t, pid);
      && n.kids[i].id in Ids(t)
      && p.xExtentOfChildren / 2 <= p.xCenter
      && Expected(t, n.kids[i].id).xExtentChildren == Footprint(n.kids[i])
      && LeftOf(Expected(t, n.kids[i].id)) == p.xCenter - p.xExtentOfChildren / 2 + KidsFootprint(n.kids[..i])
      && LeftOf(Expected(t, n.kids[i].id)) + Expected(t, n.kids[i].id).xExtentChildren
         == p.xCenter - p.xExtentOfChildren / 2 + KidsFootprint(n.kids[..i + 1])
  {
    KidOf(t, pid, i);
    KidCenter(t, pid, i);
    KidsFootprintStep(Find(t, pid).kids, i);
  }

  /**
    * The children's block lies inside the parent's reserved width: it
    * starts no further left and ends no further right.
    */
  lemma ChildrenInsideParent(t: Node, pid: NodeId)
    requires Unique(t) && pid in Ids(t) && Find(t, pid).kids != []
    ensures var kids := Find(t, pid).kids; kids[0].id in Ids(t) && kids[|kids| - 1].id in Ids(t)
    ensures var kids, p := Find(t, pid).kids, Expected(t, pid);
      var first, last := Expected(t, kids[0].id), Expected(t, kids[|kids| - 1].id);
      && LeftOf(p) <= LeftOf(first)
      && LeftOf(last) + last.xExtentChildren <= LeftOf(p) + p.xExtentChildren
  {
    var kids := Find(t, pid).kids;
    BlockEdges(t, pid);
    InsideSpan(Expected(t, pid), Expected(t, kids[0].id), Expected(t, kids[|kids| - 1].id));
  }

  /** The children's block starts at the first child's left edge and ends at the last one's right edge. */
  lemma BlockEdges(t: Node, pid: NodeId)
    requires Unique(t) && pid in Ids(t) && Find(t, pid).kids != []
    ensures var kids := Find(t, pid).kids; kids[0].id in Ids(t) && kids[|kids| - 1].id in Ids(t)
    ensures var kids, p := Find(t, pid).kids, Expected(t, pid);
      var first, last := Expected(t, kids[0].id), Expected(t, kids[|kids| - 1].id);
      && p.xExtentOfChildren <= p.xExtentChildren && p.xExtentOfChildren / 2 <= p.xCenter
      && LeftOf(first) == p.xCenter - p.xExtentOfChildren / 2
      && LeftOf(last) + last.xExtentChildren == p.xCenter - p.xExtentOfChildren / 2 + p.xExtentOfChildren
  {
    var kids := Find(t, pid).kids;
    var m := |kids| - 1;
    ReservedOf(t, pid);
    KidEdge(t, pid, 0);
    KidEdge(t, pid, m);
    assert kids[..m + 1] == kids && kids[..0] == [];
  }

  /** A record's two children widths, read off the node. */
  lemma ReservedOf(t: Node, id: NodeId)
    requires id in Ids(t)
    ensures Expected(t, id).xExtentOfChildren == KidsFootprint(Find(t, id).kids)
    ensures Expected(t, id).xExtentChildren == Footprint(Find(t, id))
    ensures Expected(t, id).xExtentOfChildren <= Expected(t, id).xExtentChildren
  {
  }

  /**
    * The arithmetic of `ChildrenInsideParent`: a block of width
    * `xExtentOfChildren` centred on the parent, inside the parent's wider span.
    */
  lemma InsideSpan(p: PlacedTreeItem, first: PlacedTreeItem, last: PlacedTreeItem)
    requires p.xExtentOfChildren <= p.xExtentChildren && p.xExtentOfChildren / 2 <= p.xCenter
    requires LeftOf(first) == p.xCenter - p.xExtentOfChildren / 2
    requires LeftOf(last) + last.xExtentChildren == p.xCenter - p.xExtentOfChildren / 2 + p.xExtentOfChildren
    ensures LeftOf(p) <= LeftOf(first)
    ensures LeftOf(last) + last.xExtentChildren <= LeftOf(p) + p.xExtentChildren
  {
    Halves(p.xExtentOfChildren, p.xExtentChildren);
  }

  /**
    * Every child is centred within its parent's reserved width: no further
    * than half of it from the parent's centre, on either side.
    */
  lemma CenterInsideParent(t: Node, pid: NodeId, i: nat)
    requires Unique(t) && pid in Ids(t) && i < |Find(t, pid).kids|
    ensures Find(t, pid).kids[i].id in Ids(t)
    ensures var p, k := Expected(t, pid), Expected(t, Find(t, pid).kids[i].id);
      && p.xCenter - p.xExtentChildren / 2 <= k.xCenter
      && k.xCenter <= p.xCenter + p.xExtentChildren / 2
  {
    var kids := Find(t, pid).kids;
    KidEdge(t, pid, i);
    ReservedOf(t, pid);
    PrefixGrows(kids, i + 1, |kids|);
    assert kids[..|kids|] == kids;
    CentreInSpan(Expected(t, pid), Expected(t, kids[i].id));
  }

  /** The arithmetic of `CenterInsideParent`: a nonempty span inside the block is centred inside the parent's span. */
  lemma CentreInSpan(p: PlacedTreeItem, k: PlacedTreeItem)
    requires p.xExtentOfChildren <= p.xExtentChildren && 1 <= k.xExtentChildren
    requires p.xCenter - p.xExtentOfChildren / 2 <= LeftOf(k)
    requires LeftOf(k) + k.xExtentChildren <= p.xCenter - p.xExtentOfChildren / 2 + p.xExtentOfChildren
    ensures p.xCenter - p.xExtentChildren / 2 <= k.xCenter <= p.xCenter + p.xExtentChildren / 2
  {
    Halves(p.xExtentOfChildren, p.xExtentChildren);
  }

  /** The reserved widths of two siblings never overlap: an earlier one ends before a later one starts. */
  lemma SiblingsDisjoint(t: Node, pid: NodeId, i: nat, j: nat)
    requires Unique(t) && pid in Ids(t) && i < j < |Find(t, pid).kids|
    ensures var kids := Find(t, pid).kids; kids[i].id in Ids(t) && kids[j].id in Ids(t)
    ensures var kids := Find(t, pid).kids;
      var ki, kj := Expected(t, kids[i].id), Expected(t, kids[j].id);
      LeftOf(ki) + ki.xExtentChildren <= LeftOf(kj)
  {
    KidEdge(t, pid, i);
    KidEdge(t, pid, j);
    PrefixGrows(Find(t, pid).kids, i + 1, j);
  }

  /** The children's widths summed over a longer prefix are no smaller. */
  lemma {:induction false} PrefixGrows(ks: seq<Node>, i: nat, j: nat)
    requires i <= j <= |ks|
    ensures KidsFootprint(ks[..i]) <= KidsFootprint(ks[..j])
    decreases j - i
  {
    if i < j {
      PrefixGrows(ks, i, j - 1);
      KidsFootprintStep(ks, j - 1);
    }
  }

  /** Halving (rounded down) keeps the order of two widths, and so does the other half. */
  lemma Halves(k: nat, f: nat)
    requires k <= f
    ensures k / 2 <= f / 2 && k - k / 2 <= f - f / 2
  {
  }
}
