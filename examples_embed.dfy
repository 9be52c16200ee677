/**
  * The trees of the crate's embedder tests and the records the embedding
  * holds for them. The tests look records up by position in the result;
  * the result's order is that of a hash map, so here they are looked up
  * by node.
  */
module EmbedExamples {
  import opened Trees
  import opened TreeLemmas
  import opened Layout
  import opened Embedder

  /** A node labelled with one decimal digit (the digit's ASCII code). */
  function Digit(id: NodeId, d: byte, kids: seq<Node>): Node
    requires d < 10
  {
    Node(id, [48 + d], false, kids)
  }

  /** A single node labelled "0". */
  function SingleNode(): Node
  {
    Digit(0, 0, [])
  }

  /**
    * Root "0" with children "1" and "2"; "1" has children "3" and "4"; the
    * node labelled "k" has id `ids[k]`.
    */
  function Five(a: NodeId, b: NodeId, c: NodeId, d: NodeId, e: NodeId): Node
  {
    Digit(a, 0, [Digit(b, 1, [Digit(d, 3, []), Digit(e, 4, [])]), Digit(c, 2, [])])
  }

  /** The five-node tree built by inserting the nodes in label order. */
  function FiveNodes(): Node
  {
    Five(0, 1, 2, 3, 4)
  }

  /**
    * The same shape reached by moving nodes: "4" (id 3) and "3" (id 4) are
    * first inserted under the root and then moved under "1", "3" first.
    */
  function MovedNodes(): Node
  {
    Five(0, 1, 2, 4, 3)
  }

  /** The label "0" is two units wide, and the root is centred at 1. */
  lemma SingleNodeRecord()
    ensures Unique(SingleNode()) && Ids(SingleNode()) == {0}
    ensures Expected(SingleNode(), 0) == PlacedTreeItem(
      yOrder := 0, xCenter := 1, xExtent := 2, xExtentOfChildren := 0, xExtentChildren := 2,
      text := [48], isEmphasized := false, parent := None, ord := 0)
  {
    var t := SingleNode();
    assert Route(t, 0) == [];
  }

  /**
    * The shape of the five-node tree, whatever the node ids: a root with
    * two children, the first of which has two leaf children; every label
    * one byte long.
    */
  ghost predicate FiveShaped(t: Node)
  {
    && |t.kids| == 2 && |t.kids[0].kids| == 2 && t.kids[1].kids == []
    && t.kids[0].kids[0].kids == [] && t.kids[0].kids[1].kids == []
    && |t.text| == 1 && |t.kids[0].text| == 1 && |t.kids[1].text| == 1
    && |t.kids[0].kids[0].text| == 1 && |t.kids[0].kids[1].text| == 1
  }

  /**
    * The records of the five-node tree, whatever its (distinct) node ids:
    * the labels "3" and "4" are centred at 1 and 3 under "1" at 2, and "2"
    * at 5 beside it; the numbers follow the post-order 3, 4, 1, 2, 0.
    */
  lemma FiveRecords(a: NodeId, b: NodeId, c: NodeId, d: NodeId, e: NodeId)
    requires a != b && a != c && a != d && a != e && b != c && b != d && b != e && c != d && c != e && d != e
    ensures var t := Five(a, b, c, d, e);
      && Unique(t) && Ids(t) == {a, b, c, d, e} && |Ids(t)| == 5
      && Expected(t, a) == PlacedTreeItem(0, 3, 2, 6, 6, [48], false, None, 4)
      && Expected(t, b) == PlacedTreeItem(1, 2, 2, 4, 4, [49], false, Some(4), 2)
      && Expected(t, c) == PlacedTreeItem(1, 5, 2, 0, 2, [50], false, Some(4), 3)
      && Expected(t, d) == PlacedTreeItem(2, 1, 2, 0, 2, [51], false, Some(2), 0)
      && Expected(t, e) == PlacedTreeItem(2, 3, 2, 0, 2, [52], false, Some(2), 1)
  {
    var t := Five(a, b, c, d, e);
    FiveUnique(a, b, c, d, e);
    FiveShapedRecords(t);
    FiveIds(a, b, c, d, e);
  }

  /** Five distinct ids make a set of five. */
  lemma FiveIds(a: NodeId, b: NodeId, c: NodeId, d: NodeId, e: NodeId)
    requires a != b && a != c && a != d && a != e && b != c && b != d && b != e && c != d && c != e && d != e
    ensures |{a, b, c, d, e}| == 5
  {
    assert {a, b, c, d, e} == {a, b, c, d} + {e};
    assert {a, b, c, d} == {a, b, c} + {d};
    assert {a, b, c} == {a, b} + {c};
  }

  /** The five-node tree with distinct ids is a valid tree of that shape. */
  lemma FiveUnique(a: NodeId, b: NodeId, c: NodeId, d: NodeId, e: NodeId)
    requires a != b && a != c && a != d && a != e && b != c && b != d && b != e && c != d && c != e && d != e
    ensures Unique(Five(a, b, c, d, e)) && FiveShaped(Five(a, b, c, d, e))
  {
    var t := Five(a, b, c, d, e);
    var n1 := t.kids[0];
    Leaf(n1.kids[0]);
    Leaf(n1.kids[1]);
    Leaf(t.kids[1]);
    TwoKids(n1.kids);
    TwoKids(t.kids);
  }

  /** The tests' five-node tree, ids in label order. */
  lemma FiveNodeRecords()
    ensures Unique(FiveNodes()) && Ids(FiveNodes()) == {0, 1, 2, 3, 4}
    ensures Expected(FiveNodes(), 0) == PlacedTreeItem(0, 3, 2, 6, 6, [48], false, None, 4)
    ensures Expected(FiveNodes(), 1) == PlacedTreeItem(1, 2, 2, 4, 4, [49], false, Some(4), 2)
    ensures Expected(FiveNodes(), 2) == PlacedTreeItem(1, 5, 2, 0, 2, [50], false, Some(4), 3)
    ensures Expected(FiveNodes(), 3) == PlacedTreeItem(2, 1, 2, 0, 2, [51], false, Some(2), 0)
    ensures Expected(FiveNodes(), 4) == PlacedTreeItem(2, 3, 2, 0, 2, [52], false, Some(2), 1)
  {
    FiveRecords(0, 1, 2, 3, 4);
  }

  /**
    * After the moves, node id 4 (labelled "3") is the first child of "1" and
    * is placed and numbered as "3" was: the records follow the labels, not
    * the ids.
    */
  lemma MovedNodeRecords()
    ensures Unique(MovedNodes()) && Ids(MovedNodes()) == {0, 1, 2, 4, 3}
    ensures Expected(MovedNodes(), 0) == PlacedTreeItem(0, 3, 2, 6, 6, [48], false, None, 4)
    ensures Expected(MovedNodes(), 1) == PlacedTreeItem(1, 2, 2, 4, 4, [49], false, Some(4), 2)
    ensures Expected(MovedNodes(), 2) == PlacedTreeItem(1, 5, 2, 0, 2, [50], false, Some(4), 3)
    ensures Expected(MovedNodes(), 4) == PlacedTreeItem(2, 1, 2, 0, 2, [51], false, Some(2), 0)
    ensures Expected(MovedNodes(), 3) == PlacedTreeItem(2, 3, 2, 0, 2, [52], false, Some(2), 1)
  {
    FiveRecords(0, 1, 2, 4, 3);
  }

  lemma FiveShapedRecords(t: Node)
    requires Unique(t) && FiveShaped(t)
    ensures var n1, n2 := t.kids[0], t.kids[1];
      var n3, n4 := n1.kids[0], n1.kids[1];
      && Ids(t) == {t.id, n1.id, n2.id, n3.id, n4.id}
      && Expected(t, t.id) == PlacedTreeItem(0, 3, 2, 6, 6, t.text, t.emphasize, None, 4)
      && Expected(t, n1.id) == PlacedTreeItem(1, 2, 2, 4, 4, n1.text, n1.emphasize, Some(4), 2)
      && Expected(t, n2.id) == PlacedTreeItem(1, 5, 2, 0, 2, n2.text, n2.emphasize, Some(4), 3)
      && Expected(t, n3.id) == PlacedTreeItem(2, 1, 2, 0, 2, n3.text, n3.emphasize, Some(2), 0)
      && Expected(t, n4.id) == PlacedTreeItem(2, 3, 2, 0, 2, n4.text, n4.emphasize, Some(2), 1)
  {
    FiveSizes(t);
    FiveRoot(t);
    FiveTop(t);
    FiveBottom(t);
  }

  /** The widths, post-order lengths and ids of the five-node shape. */
  lemma FiveSizes(t: Node)
    requires FiveShaped(t)
    ensures var n1, n2 := t.kids[0], t.kids[1];
      var n3, n4 := n1.kids[0], n1.kids[1];
      && Footprint(n2) == 2 && Footprint(n3) == 2 && Footprint(n4) == 2
      && Footprint(n1) == 4 && Footprint(t) == 6 && KidsFootprint(t.kids) == 6 && KidsFootprint(n1.kids) == 4
      && KidsFootprint(t.kids[..0]) == 0 && KidsFootprint(t.kids[..1]) == 4
      && KidsFootprint(n1.kids[..0]) == 0 && KidsFootprint(n1.kids[..1]) == 2
      && |PostOrderIn(t.kids)| == 4 && |PostOrderIn(t.kids[..1])| == 3 && |PostOrderIn(t.kids[..2])| == 4
      && |PostOrderIn(n1.kids)| == 2 && |PostOrderIn(n1.kids[..1])| == 1 && |PostOrderIn(n1.kids[..2])| == 2
      && |PostOrder(t)| == 5
      && Ids(t) == {t.id, n1.id, n2.id, n3.id, n4.id}
  {
    var n1, n2 := t.kids[0], t.kids[1];
    Leaf(n2);
    Leaf(n1.kids[0]);
    Leaf(n1.kids[1]);
    TwoKids(n1.kids);
    TwoKids(t.kids);
  }

  /** The root is centred at 3 in its 6 units and numbered last. */
  lemma FiveRoot(t: Node)
    requires FiveShaped(t)
    ensures Expected(t, t.id) == PlacedTreeItem(0, 3, 2, 6, 6, t.text, t.emphasize, None, 4)
  {
    FiveSizes(t);
    assert Route(t, t.id) == [];
  }

  /** The root's children, centred at 2 and 5 under it. */
  lemma FiveTop(t: Node)
    requires Unique(t) && FiveShaped(t)
    ensures var n1, n2 := t.kids[0], t.kids[1];
      && n1.id in Ids(t) && n2.id in Ids(t)
      && Expected(t, n1.id) == PlacedTreeItem(1, 2, 2, 4, 4, n1.text, n1.emphasize, Some(4), 2)
      && Expected(t, n2.id) == PlacedTreeItem(1, 5, 2, 0, 2, n2.text, n2.emphasize, Some(4), 3)
  {
    FiveSizes(t);
    FiveRoot(t);
    assert Find(t, t.id) == t by {
      assert Route(t, t.id) == [];
    }
    var pe := PlacedTreeItem(0, 3, 2, 6, 6, t.text, t.emphasize, None, 4);
    var n1, n2 := t.kids[0], t.kids[1];
    KidRecord(t, t.id, 0, pe, Sized(n1, 2).(yOrder := 1, parent := Some(4), xCenter := 2));
    KidRecord(t, t.id, 1, pe, Sized(n2, 3).(yOrder := 1, parent := Some(4), xCenter := 5));
  }

  /** The children of the root's first child, centred at 1 and 3 under it. */
  lemma FiveBottom(t: Node)
    requires Unique(t) && FiveShaped(t)
    ensures var n1 := t.kids[0];
      var n3, n4 := n1.kids[0], n1.kids[1];
      && n3.id in Ids(t) && n4.id in Ids(t)
      && Expected(t, n3.id) == PlacedTreeItem(2, 1, 2, 0, 2, n3.text, n3.emphasize, Some(2), 0)
      && Expected(t, n4.id) == PlacedTreeItem(2, 3, 2, 0, 2, n4.text, n4.emphasize, Some(2), 1)
  {
    FiveSizes(t);
    FiveTop(t);
    var n1 := t.kids[0];
    KidOf(t, t.id, 0);
    var pe := PlacedTreeItem(1, 2, 2, 4, 4, n1.text, n1.emphasize, Some(4), 2);
    KidRecord(t, n1.id, 0, pe, Sized(n1.kids[0], 0).(yOrder := 2, parent := Some(2), xCenter := 1));
    KidRecord(t, n1.id, 1, pe, Sized(n1.kids[1], 1).(yOrder := 2, parent := Some(2), xCenter := 3));
  }

  /** Child `i` of node `pid` gets the record `e`, given its parent's record `pe`. */
  lemma KidRecord(t: Node, pid: NodeId, i: nat, pe: PlacedTreeItem, e: PlacedTreeItem)
    requires Unique(t) && pid in Ids(t) && i < |Find(t, pid).kids| && Expected(t, pid) == pe
    requires var n, k := Find(t, pid), Find(t, pid).kids[i];
      && pe.xExtentOfChildren / 2 <= pe.xCenter
      && e.ord + 1 + |PostOrderIn(n.kids)| == pe.ord + |PostOrderIn(n.kids[..i + 1])|
      && e == Sized(k, e.ord).(
           yOrder := pe.yOrder + 1, parent := Some(pe.ord),
           xCenter := pe.xCenter - pe.xExtentOfChildren / 2 + KidsFootprint(n.kids[..i]) + Footprint(k) / 2)
    ensures Find(t, pid).kids[i].id in Ids(t) && Expected(t, Find(t, pid).kids[i].id) == e
  {
    KidOf(t, pid, i);
    KidCenter(t, pid, i);
    KidNumbers(t, pid, i);
  }

  /** A leaf labelled with one byte reserves two units and is alone in its post-order. */
  lemma Leaf(n: Node)
    requires n.kids == [] && |n.text| == 1
    ensures Footprint(n) == 2 && |PostOrder(n)| == 1 && Ids(n) == {n.id}
  {
  }

  /** Widths and post-order lengths of the prefixes of a pair of siblings. */
  lemma TwoKids(ks: seq<Node>)
    requires |ks| == 2
    ensures KidsFootprint(ks[..0]) == 0 && KidsFootprint(ks[..1]) == Footprint(ks[0])
    ensures KidsFootprint(ks) == Footprint(ks[0]) + Footprint(ks[1])
    ensures |PostOrderIn(ks[..1])| == |PostOrder(ks[0])|
    ensures PostOrderIn(ks[..2]) == PostOrderIn(ks) && |PostOrderIn(ks)| == |PostOrder(ks[0])| + |PostOrder(ks[1])|
    ensures IdsIn(ks) == Ids(ks[0]) + Ids(ks[1])
  {
    assert ks[..0] == [] && ks[..1] == [ks[0]] && ks[..2] == ks && ks[1..][1..] == [];
    assert KidsFootprint([ks[0]]) == Footprint(ks[0]) by {
      assert [ks[0]][..0] == [];
    }
    assert PostOrderIn([ks[0]]) == PostOrder(ks[0]) by {
      assert [ks[0]][1..] == [];
    }
    assert IdsIn(ks[1..]) == Ids(ks[1]);
  }

  // ---------------------------------------------------------------------
  // The embedder on the tests' trees

  /** An empty tree embeds to no records. */
  method EmbedEmptyTree() returns (embedding: Embedding)
    ensures embedding == []
  {
    embedding := Embed(None);
  }

  /** A single node embeds to its one record. */
  method EmbedSingleNode() returns (embedding: Embedding)
    ensures embedding == [PlacedTreeItem(0, 1, 2, 0, 2, [48], false, None, 0)]
  {
    SingleNodeRecord();
    embedding := Embed(Some(SingleNode()));
    assert Expected(SingleNode(), 0) in embedding;
  }

  /**
    * The five-node tree embeds to its five records, in some order, whatever
    * its ids: `Five(0, 1, 2, 3, 4)` is the tree built in label order and
    * `Five(0, 1, 2, 4, 3)` the one reached by moving nodes.
    */
  method EmbedFiveNodes(a: NodeId, b: NodeId, c: NodeId, d: NodeId, e: NodeId) returns (embedding: Embedding)
    requires a != b && a != c && a != d && a != e && b != c && b != d && b != e && c != d && c != e && d != e
    ensures |embedding| == 5
    ensures PlacedTreeItem(0, 3, 2, 6, 6, [48], false, None, 4) in embedding
    ensures PlacedTreeItem(1, 2, 2, 4, 4, [49], false, Some(4), 2) in embedding
    ensures PlacedTreeItem(1, 5, 2, 0, 2, [50], false, Some(4), 3) in embedding
    ensures PlacedTreeItem(2, 1, 2, 0, 2, [51], false, Some(2), 0) in embedding
    ensures PlacedTreeItem(2, 3, 2, 0, 2, [52], false, Some(2), 1) in embedding
  {
    FiveRecords(a, b, c, d, e);
    var t := Five(a, b, c, d, e);
    embedding := Embed(Some(t));
    assert Expected(t, a) in embedding;
    assert Expected(t, b) in embedding;
    assert Expected(t, c) in embedding;
    assert Expected(t, d) in embedding;
    assert Expected(t, e) in embedding;
  }
}
