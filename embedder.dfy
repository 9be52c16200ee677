/**
  * `Embedder::embed`: the three passes over the helper map (sizing in
  * post-order, levels and parent links in pre-order, centres layer by
  * layer from the root down) and the transfer of the records into the
  * result vector. Each pass is proved against the top-down definition of
  * the record in `Layout`.
  */
module Embedder {
  import opened Trees
  import opened TreeLemmas
  import opened Layout

  /** The helper map from node identity to the node's record. */
  type EmbeddingHelperMap = map<NodeId, PlacedTreeItem>

  /** The result: one record per node, in no particular order. */
  type Embedding = seq<PlacedTreeItem>

  /** The `id_tree` invariant: no node id occurs twice. */
  predicate ValidTree(tree: Tree)
  {
    tree.Some? ==> Unique(tree.value)
  }

  function TreeIds(tree: Tree): set<NodeId>
  {
    match tree
    case None => {}
    case Some(t) => Ids(t)
  }

  predicate NoDuplicates(s: seq<NodeId>)
  {
    forall i, j :: 0 <= i < j < |s| ==> s[i] != s[j]
  }

  // ---------------------------------------------------------------------
  // Pass 1: sizing, in post-order

  /**
    * The children's reserved widths, folded from the first child to the
    * last. `None` stands for the panic raised when a child has no record
    * yet.
    */
  function ChildExtentSum(kids: seq<Node>, items: EmbeddingHelperMap): (r: Option<nat>)
    ensures r.Some? <==> forall k :: k in kids ==> k.id in items
    ensures (forall k :: k in kids ==> k.id in items && items[k.id].xExtentChildren == Footprint(k))
            ==> r == Some(KidsFootprint(kids))
    decreases |kids|
  {
    if kids == [] then Some(0)
    else
      var last := kids[|kids| - 1];
      assert forall k :: k in kids <==> k in kids[..|kids| - 1] || k == last;
      match ChildExtentSum(kids[..|kids| - 1], items)
      case None => None
      case Some(acc) =>
        if last.id in items then Some(acc + items[last.id].xExtentChildren) else None
  }

  /**
    * The first record of a node: its widths, text, emphasis and post-order
    * number; `None` when one of its children has no record yet.
    */
  function CreateFromNode(node: Node, ord: nat, items: EmbeddingHelperMap): (r: Option<PlacedTreeItem>)
    ensures r.Some? <==> forall k :: k in node.kids ==> k.id in items
    ensures (forall k :: k in node.kids ==> k.id in items && items[k.id].xExtentChildren == Footprint(k))
            ==> r == Some(Sized(node, ord))
  {
    var text := node.text;
    var xExtent := |text| + 1;
    match ChildExtentSum(node.kids, items)
    case None => None
    case Some(xExtentOfChildren) =>
      var xExtentChildren := if xExtent < xExtentOfChildren then xExtentOfChildren else xExtent;
      Some(PlacedTreeItem(
        yOrder := 0,
        xCenter := 0,
        xExtent := xExtent,
        xExtentOfChildren := xExtentOfChildren,
        xExtentChildren := xExtentChildren,
        text := text,
        isEmphasized := node.emphasize,
        parent := None,
        ord := ord))
  }

  /**
    * Pass 1: visits the nodes in post-order, numbering them, so that every
    * child has its record before its parent sums the children's widths;
    * the panic branch is never taken.
    */
  method CreateInitialEmbeddingData(tree: Tree) returns (items: EmbeddingHelperMap)
    requires ValidTree(tree)
    ensures items.Keys == TreeIds(tree)
    ensures tree.Some? ==> forall id :: id in items ==>
      items[id] == Sized(Find(tree.value, id), PostOrderNumber(tree.value, id))
  {
    items := map[];
    if tree.Some? {
      var t := tree.value;
      var po := PostOrder(t);
      PostOrderDistinct(t);
      for ord := 0 to |po|
        invariant SizedUpTo(po, items, ord)
      {
        var node := po[ord];
        forall k | k in node.kids
          ensures k.id in items && items[k.id].xExtentChildren == Footprint(k)
        {
          var j := KidVisitedBefore(t, ord, k);
        }
        var newItem := CreateFromNode(node, ord, items);
        match newItem
        case None =>
          assert false;
        case Some(item) =>
          SizedNext(po, items, ord, item);
          items := items[node.id := item];
      }
      assert po[..|po|] == po;
      PostOrderIds(t);
      forall id | id in items
        ensures items[id] == Sized(Find(t, id), PostOrderNumber(t, id))
      {
        var j := IndexWithId(po, id);
        NumberOfPostOrder(t, j);
      }
    }
  }

  /** The first `n` nodes of the post-order `po` have their sized records, and no other node has one. */
  ghost predicate SizedUpTo(po: seq<Node>, items: EmbeddingHelperMap, n: nat)
    requires n <= |po|
  {
    && items.Keys == IdsOf(po[..n])
    && forall j :: 0 <= j < n ==> po[j].id in items && items[po[j].id] == Sized(po[j], j)
  }

  lemma SizedNext(po: seq<Node>, items: EmbeddingHelperMap, n: nat, item: PlacedTreeItem)
    requires DistinctIds(po) && n < |po| && SizedUpTo(po, items, n) && item == Sized(po[n], n)
    ensures SizedUpTo(po, items[po[n].id := item], n + 1)
  {
    IdsOfPrefix(po, n);
    var items' := items[po[n].id := item];
    forall j | 0 <= j < n + 1 ensures po[j].id in items' && items'[po[j].id] == Sized(po[j], j) {
      if j < n {
        assert po[j].id != po[n].id;
      }
    }
  }

  /** A child comes before its parent in post-order. */
  lemma KidVisitedBefore(t: Node, j: nat, k: Node) returns (jk: nat)
    requires Unique(t) && j < |PostOrder(t)| && k in PostOrder(t)[j].kids
    ensures jk < j && PostOrder(t)[jk] == k
  {
    var po := PostOrder(t);
    NumberOfPostOrder(t, j);
    var pid := po[j].id;
    var i :| 0 <= i < |po[j].kids| && po[j].kids[i] == k;
    KidBeforeParent(t, pid, i);
    KidOf(t, pid, i);
    PostOrderAt(t, k.id);
    jk := PostOrderNumber(t, k.id);
  }

  // ---------------------------------------------------------------------
  // Pass 2: levels and parent links, in pre-order

  /**
    * Pass 2: the level of a node is its number of ancestors and its parent
    * link is the post-order number of its nearest ancestor.
    */
  method ApplyYOrder(tree: Tree, items: EmbeddingHelperMap) returns (items': EmbeddingHelperMap)
    requires ValidTree(tree) && items.Keys == TreeIds(tree)
    requires tree.Some? ==> forall id :: id in items ==> items[id].ord == PostOrderNumber(tree.value, id)
    ensures items'.Keys == items.Keys
    ensures tree.Some? ==> forall id :: id in items ==>
      items'[id] == items[id].(yOrder := Depth(tree.value, id), parent := ParentNumber(tree.value, id))
    ensures tree.None? ==> items' == items
  {
    items' := items;
    if tree.Some? {
      var t := tree.value;
      var pre := PreOrder(t);
      PreOrderIds(t);
      for i := 0 to |pre|
        invariant Levelled(t, items, items', IdsOf(pre[..i]))
      {
        var nodeId := pre[i].id;
        assert pre[i] in pre;
        var ancestors := AncestorIds(t, nodeId);
        var level := |ancestors|;
        AncestorRecords(t, items, items', IdsOf(pre[..i]), nodeId);
        var parent := if ancestors == [] then None else Some(items'[ancestors[0]].ord);
        LevelUpdate(t, items, items', IdsOf(pre[..i]), nodeId);
        items' := items'[nodeId := items'[nodeId].(yOrder := level, parent := parent)];
        IdsOfPrefix(pre, i);
      }
      IdsOfWhole(pre);
    }
  }

  /** The records of the nodes in `done` have their level and parent link. */
  ghost predicate Levelled(t: Node, items: EmbeddingHelperMap, items': EmbeddingHelperMap, done: set<NodeId>)
    requires items.Keys == Ids(t)
  {
    && items'.Keys == items.Keys
    && forall id :: id in items ==>
         items'[id] == if id in done then items[id].(yOrder := Depth(t, id), parent := ParentNumber(t, id))
                       else items[id]
  }

  /**
    * The ancestors of a node have records; their number is its level, and
    * the nearest one's record holds the post-order number of its parent.
    */
  lemma AncestorRecords(t: Node, items: EmbeddingHelperMap, items': EmbeddingHelperMap, done: set<NodeId>,
                        id: NodeId)
    requires Unique(t) && items.Keys == Ids(t) && id in Ids(t)
    requires forall x :: x in items ==> items[x].ord == PostOrderNumber(t, x)
    requires Levelled(t, items, items', done)
    ensures var ancestors := AncestorIds(t, id);
      && |ancestors| == Depth(t, id)
      && (ancestors != [] ==> ancestors[0] in items')
      && (if ancestors == [] then None else Some(items'[ancestors[0]].ord)) == ParentNumber(t, id)
  {
    var ancestors := AncestorIds(t, id);
    FirstAncestorIsParent(t, id);
    if ancestors != [] {
      assert items'[ancestors[0]].ord == items[ancestors[0]].ord;
    }
  }

  /** Setting the level and parent link of one more node. */
  lemma LevelUpdate(t: Node, items: EmbeddingHelperMap, items': EmbeddingHelperMap, done: set<NodeId>,
                    id0: NodeId)
    requires items.Keys == Ids(t) && id0 in items && Levelled(t, items, items', done)
    ensures var rec := items[id0].(yOrder := Depth(t, id0), parent := ParentNumber(t, id0));
      && items'[id0].(yOrder := Depth(t, id0), parent := ParentNumber(t, id0)) == rec
      && Levelled(t, items, items'[id0 := rec], done + {id0})
  {
    var rec := items[id0].(yOrder := Depth(t, id0), parent := ParentNumber(t, id0));
    var items'' := items'[id0 := rec];
    forall id | id in items
      ensures items''[id] == if id in done + {id0} then items[id].(yOrder := Depth(t, id), parent := ParentNumber(t, id))
                             else items[id]
    {
      if id != id0 {
        assert items''[id] == items'[id];
      }
    }
  }

  // ---------------------------------------------------------------------
  // Pass 3: centres, layer by layer

  /** Every record reserves the footprint of its node's subtree. */
  ghost predicate Reserved(t: Node, items: EmbeddingHelperMap)
  {
    && items.Keys == Ids(t)
    && forall id :: id in items ==> items[id].xExtentChildren == Footprint(Find(t, id))
  }

  /**
    * Every field of every record is final except perhaps the centre. (The
    * fact about node `id` is brought in by mentioning `Linked(t, id)`.)
    */
  ghost predicate SizedAndLinked(t: Node, items: EmbeddingHelperMap)
  {
    && items.Keys == Ids(t)
    && forall id {:trigger Linked(t, id)} :: id in items ==> items[id] == Linked(t, id).(xCenter := items[id].xCenter)
  }

  /** ... and the nodes above level `layer` have their final centre too. */
  ghost predicate CenteredAbove(t: Node, items: EmbeddingHelperMap, layer: nat)
  {
    && SizedAndLinked(t, items)
    && forall id {:trigger Center(t, id)} :: id in items && Depth(t, id) < layer ==> items[id].xCenter == Center(t, id)
  }

  lemma SizedOrds(t: Node, items: EmbeddingHelperMap)
    requires SizedAndLinked(t, items)
    ensures forall x :: x in items ==> items[x].ord == PostOrderNumber(t, x)
  {
    forall x | x in items ensures items[x].ord == PostOrderNumber(t, x) {
      assert items[x] == Linked(t, x).(xCenter := items[x].xCenter);
    }
  }

  /**
    * Centring some nodes of level `layer` keeps every other field, and the
    * centres above the level.
    */
  lemma CenteredKept(t: Node, items: EmbeddingHelperMap, items': EmbeddingHelperMap, layer: nat)
    requires CenteredAbove(t, items, layer) && items'.Keys == items.Keys
    requires forall id :: id in items ==>
      items'[id] == items[id] || (Depth(t, id) == layer && items'[id] == items[id].(xCenter := Center(t, id)))
    ensures CenteredAbove(t, items', layer)
  {
    forall id | id in items' ensures items'[id] == Linked(t, id).(xCenter := items'[id].xCenter) {
      assert items[id] == Linked(t, id).(xCenter := items[id].xCenter);
    }
    forall id | id in items' && Depth(t, id) < layer ensures items'[id].xCenter == Center(t, id) {
      assert items[id].xCenter == Center(t, id);
    }
  }

  /** Centring all of level `layer` extends the centred levels by one. */
  lemma CenteredNext(t: Node, items: EmbeddingHelperMap, items': EmbeddingHelperMap, layer: nat)
    requires CenteredAbove(t, items, layer) && items'.Keys == items.Keys
    requires forall id :: id in items ==>
      items'[id] == if Depth(t, id) == layer then items[id].(xCenter := Center(t, id)) else items[id]
    ensures CenteredAbove(t, items', layer + 1)
  {
    CenteredKept(t, items, items', layer);
    forall id | id in items' && Depth(t, id) < layer + 1 ensures items'[id].xCenter == Center(t, id) {
      if Depth(t, id) < layer {
        assert items[id].xCenter == Center(t, id);
      }
    }
  }

  /** `ids` in increasing order of their records' post-order numbers. */
  predicate SortedByOrd(ids: seq<NodeId>, items: EmbeddingHelperMap)
  {
    && (forall i :: 0 <= i < |ids| ==> ids[i] in items)
    && (forall i, j :: 0 <= i < j < |ids| ==> items[ids[i]].ord <= items[ids[j]].ord)
  }

  /** `ids` in strictly increasing order of their records' post-order numbers. */
  predicate StrictlyByOrd(ids: seq<NodeId>, items: EmbeddingHelperMap)
  {
    && (forall i :: 0 <= i < |ids| ==> ids[i] in items)
    && (forall i, j :: 0 <= i < j < |ids| ==> items[ids[i]].ord < items[ids[j]].ord)
  }

  function InsertByOrd(x: NodeId, s: seq<NodeId>, items: EmbeddingHelperMap): (r: seq<NodeId>)
    requires x in items && SortedByOrd(s, items)
    ensures multiset(r) == multiset(s) + multiset{x}
    ensures SortedByOrd(r, items)
  {
    if s == [] || items[x].ord <= items[s[0]].ord then [x] + s
    else
      var r' := InsertByOrd(x, s[1..], items);
      assert s == [s[0]] + s[1..];
      FirstStaysFirst(s[0], s[1..], x, r', items);
      [s[0]] + r'
  }

  /** Inserting a larger element behind `m` keeps `m` the smallest. */
  lemma FirstStaysFirst(m: NodeId, s: seq<NodeId>, x: NodeId, r: seq<NodeId>, items: EmbeddingHelperMap)
    requires m in items && SortedByOrd([m] + s, items) && x in items && items[m].ord <= items[x].ord
    requires SortedByOrd(r, items) && multiset(r) == multiset(s) + multiset{x}
    ensures SortedByOrd([m] + r, items)
  {
    assert ([m] + s)[0] == m;
    forall i | 0 <= i < |r| ensures items[m].ord <= items[r[i]].ord {
      var y := r[i];
      assert y in multiset(r);
      if y != x {
        assert y in multiset(s);
        var k :| 0 <= k < |s| && s[k] == y;
        assert ([m] + s)[k + 1] == y;
      }
    }
    forall i, j | 0 <= i < j < |[m] + r| ensures items[([m] + r)[i]].ord <= items[([m] + r)[j]].ord {
      if i > 0 {
        assert ([m] + r)[i] == r[i - 1];
      }
      assert ([m] + r)[j] == r[j - 1];
    }
  }

  /** `sort_by_key` on the records' `ord`: a sorted permutation. */
  function SortByOrd(ids: seq<NodeId>, items: EmbeddingHelperMap): (r: seq<NodeId>)
    requires forall x :: x in ids ==> x in items
    ensures multiset(r) == multiset(ids)
    ensures SortedByOrd(r, items)
  {
    if ids == [] then []
    else
      assert ids == [ids[0]] + ids[1..];
      InsertByOrd(ids[0], SortByOrd(ids[1..], items), items)
  }

  lemma SizedIsReserved(t: Node, items: EmbeddingHelperMap)
    requires SizedAndLinked(t, items)
    ensures Reserved(t, items)
  {
    forall id | id in items ensures items[id].xExtentChildren == Footprint(Find(t, id)) {
      assert items[id] == Linked(t, id).(xCenter := items[id].xCenter);
    }
  }

  /** The ids of level `layer`, each once, in some order. */
  ghost predicate LayerIds(t: Node, s: seq<NodeId>, layer: nat)
  {
    && NoDuplicates(s)
    && forall x :: x in s <==> x in Ids(t) && Depth(t, x) == layer
  }

  /**
    * Pass 3 for one parent `p` on level `layer`: the nodes of the level
    * whose parent is `p` are sorted by post-order number and packed side by
    * side from the left edge of `p`'s children's block, each centred in the
    * width it reserves. The parent, one level up, already has its centre.
    */
  method CenterChildren(t: Node, layer: nat, nodeIdsInLayer: seq<NodeId>, p: Option<NodeId>,
                        items: EmbeddingHelperMap)
    returns (items': EmbeddingHelperMap)
    requires Unique(t) && CenteredAbove(t, items, layer) && LayerIds(t, nodeIdsInLayer, layer)
    requires exists y :: y in nodeIdsInLayer && Parent(t, y) == p
    ensures items'.Keys == items.Keys
    ensures forall id :: id in items ==>
      items'[id] == if Parent(t, id) == p then items[id].(xCenter := Center(t, id)) else items[id]
  {
    var sorted, cursor := ChildrenInOrder(t, layer, nodeIdsInLayer, p, items);
    SizedIsReserved(t, items);
    items' := PlaceRow(t, p, sorted, cursor, items);
  }

  /** The placement loop for the children of `p`, seen on the tree. */
  method PlaceRow(t: Node, p: Option<NodeId>, row: seq<NodeId>, start: nat, items: EmbeddingHelperMap)
    returns (items': EmbeddingHelperMap)
    requires Unique(t) && Reserved(t, items) && (p.Some? ==> p.value in Ids(t)) && start == BlockStart(t, p)
    requires row == IdSeq(KidsOf(t, p)) && NoDuplicates(row)
    requires forall x :: x in row <==> x in Ids(t) && Parent(t, x) == p
    ensures items'.Keys == items.Keys
    ensures forall id :: id in items ==>
      items'[id] == if Parent(t, id) == p then items[id].(xCenter := Center(t, id)) else items[id]
  {
    items' := PlaceSideBySide(row, start, items);
    RowAtCentres(t, p, row, start, items);
    PlacedRow(t, p, row, items, items');
  }

  /**
    * The nodes of the level whose parent is `p`, sorted by post-order
    * number, and the cursor their placement starts from: the children of
    * `p` in declaration order and the left edge of their block.
    */
  method ChildrenInOrder(t: Node, layer: nat, nodeIdsInLayer: seq<NodeId>, p: Option<NodeId>,
                         items: EmbeddingHelperMap)
    returns (sorted: seq<NodeId>, cursor: nat)
    requires Unique(t) && CenteredAbove(t, items, layer) && LayerIds(t, nodeIdsInLayer, layer)
    requires exists y :: y in nodeIdsInLayer && Parent(t, y) == p
    ensures p.Some? ==> p.value in Ids(t)
    ensures sorted == IdSeq(KidsOf(t, p)) && NoDuplicates(sorted)
    ensures forall x :: x in sorted <==> x in Ids(t) && Parent(t, x) == p
    ensures cursor == BlockStart(t, p)
  {
    var group := FilterByParent(t, nodeIdsInLayer, p);
    sorted := SortByOrd(group, items);
    SortedGroupIsKids(t, layer, nodeIdsInLayer, p, group, sorted, items);
    cursor := FirstCursor(t, layer, nodeIdsInLayer, p, items);
  }

  /**
    * The cursor the placement starts from: half the children's width left
    * of the parent's centre, or 0 for the root, which is alone on level 0.
    * A parent without a record would panic; every parent has one.
    */
  method FirstCursor(t: Node, layer: nat, nodeIdsInLayer: seq<NodeId>, p: Option<NodeId>,
                     items: EmbeddingHelperMap)
    returns (cursor: nat)
    requires Unique(t) && CenteredAbove(t, items, layer) && LayerIds(t, nodeIdsInLayer, layer)
    requires exists y :: y in nodeIdsInLayer && Parent(t, y) == p
    ensures p.Some? ==> p.value in Ids(t)
    ensures p.None? ==> layer == 0 && |nodeIdsInLayer| == 1
    ensures cursor == BlockStart(t, p)
  {
    var y :| y in nodeIdsInLayer && Parent(t, y) == p;
    LayerGroup(t, layer, p, y);
    cursor := 0;
    match p
    case Some(parentNodeId) =>
      if parentNodeId in items {
        var placedParentItem := items[parentNodeId];
        ParentBlock(t, items, layer, parentNodeId);
        cursor := placedParentItem.xCenter - placedParentItem.xExtentOfChildren / 2;
      } else {
        assert false;
      }
    case None =>
      assert layer == 0;
      forall x | x in nodeIdsInLayer ensures x == t.id {
        RootFacts(t, x);
      }
      OnlyOnce(nodeIdsInLayer, t.id);
      assert |nodeIdsInLayer| == 1;
  }

  /**
    * The parent's record, already centred, gives the left edge of its
    * children's block; the subtraction does not go below zero.
    */
  lemma ParentBlock(t: Node, items: EmbeddingHelperMap, layer: nat, pid: NodeId)
    requires CenteredAbove(t, items, layer) && pid in Ids(t) && Depth(t, pid) < layer
    ensures items[pid].xExtentOfChildren / 2 <= items[pid].xCenter
    ensures items[pid].xCenter - items[pid].xExtentOfChildren / 2 == BlockStart(t, Some(pid))
  {
    assert items[pid] == Linked(t, pid).(xCenter := items[pid].xCenter);
    assert items[pid].xCenter == Center(t, pid);
    KidsFootprintBelow(Find(t, pid));
  }

  /** Packing the row from the block start reproduces the layout's centres. */
  lemma RowAtCentres(t: Node, p: Option<NodeId>, row: seq<NodeId>, start: nat, items: EmbeddingHelperMap)
    requires Unique(t) && Reserved(t, items) && (p.Some? ==> p.value in Ids(t)) && start == BlockStart(t, p)
    requires row == IdSeq(KidsOf(t, p))
    ensures forall x :: x in row ==> x in items
    ensures forall j {:trigger Center(t, row[j])} :: 0 <= j < |row| ==>
      RowCenters(row, items, start)[j] == Center(t, row[j])
  {
    var kids := KidsOf(t, p);
    forall i | 0 <= i < |kids|
      ensures kids[i].id in Ids(t) && kids[i].id in items
      ensures items[kids[i].id].xExtentChildren == Footprint(kids[i])
      ensures Center(t, kids[i].id) == start + KidsFootprint(kids[..i]) + Footprint(kids[i]) / 2
    {
      KidPlace(t, p, i);
    }
    CentersOfKids(kids, items, start);
  }

  /** The centres of a row of children, in terms of their reserved widths. */
  lemma CentersOfKids(kids: seq<Node>, items: EmbeddingHelperMap, start: nat)
    requires forall i :: 0 <= i < |kids| ==>
      kids[i].id in items && items[kids[i].id].xExtentChildren == Footprint(kids[i])
    ensures forall x :: x in IdSeq(kids) ==> x in items
    ensures forall j :: 0 <= j < |kids| ==>
      RowCenters(IdSeq(kids), items, start)[j] == start + KidsFootprint(kids[..j]) + Footprint(kids[j]) / 2
  {
    RowWidthOfKids(kids, items, 0);
    forall j | 0 <= j < |kids|
      ensures RowCenters(IdSeq(kids), items, start)[j] == start + KidsFootprint(kids[..j]) + Footprint(kids[j]) / 2
    {
      RowWidthOfKids(kids, items, j);
    }
  }

  /** After the placement loop, exactly the nodes whose parent is `p` have their centres. */
  lemma PlacedRow(t: Node, p: Option<NodeId>, row: seq<NodeId>, items: EmbeddingHelperMap,
                  items': EmbeddingHelperMap)
    requires items.Keys == Ids(t) && items'.Keys == items.Keys
    requires forall x :: x in row <==> x in Ids(t) && Parent(t, x) == p
    requires forall j :: 0 <= j < |row| ==> items'[row[j]] == items[row[j]].(xCenter := Center(t, row[j]))
    requires forall id :: id in items && id !in row ==> items'[id] == items[id]
    ensures forall id :: id in items ==>
      items'[id] == if Parent(t, id) == p then items[id].(xCenter := Center(t, id)) else items[id]
  {
    forall id | id in items
      ensures items'[id] == if Parent(t, id) == p then items[id].(xCenter := Center(t, id)) else items[id]
    {
      if Parent(t, id) == p {
        var j :| 0 <= j < |row| && row[j] == id;
      }
    }
  }

  /** The nodes of `nodeIds` whose parent is `p`, in their order there. */
  method FilterByParent(t: Node, nodeIds: seq<NodeId>, p: Option<NodeId>) returns (group: seq<NodeId>)
    requires NoDuplicates(nodeIds) && forall x :: x in nodeIds ==> x in Ids(t)
    ensures NoDuplicates(group)
    ensures forall x :: x in group <==> x in nodeIds && Parent(t, x) == p
  {
    group := [];
    for i := 0 to |nodeIds|
      invariant NoDuplicates(group)
      invariant forall x :: x in group <==> x in nodeIds[..i] && Parent(t, x) == p
    {
      var x := nodeIds[i];
      assert nodeIds[..i + 1] == nodeIds[..i] + [x];
      if Parent(t, x) == p {
        group := group + [x];
      }
    }
    assert nodeIds[..|nodeIds|] == nodeIds;
  }

  /** The widths the first `n` nodes of `row` reserve, summed from left to right. */
  function RowWidth(row: seq<NodeId>, items: EmbeddingHelperMap, n: nat): nat
    requires n <= |row| && forall x :: x in row ==> x in items
  {
    if n == 0 then 0
    else
      assert row[n - 1] in row;
      RowWidth(row, items, n - 1) + items[row[n - 1]].xExtentChildren
  }

  /**
    * The centres the placement gives the nodes of `row` when it starts
    * from `start`: each node is centred in its own reserved width, right
    * after the widths of the nodes before it.
    */
  function RowCenters(row: seq<NodeId>, items: EmbeddingHelperMap, start: nat): (c: seq<nat>)
    requires forall x :: x in row ==> x in items
    ensures |c| == |row|
  {
    seq(|row|, i requires 0 <= i < |row| && row[i] in items =>
      start + RowWidth(row, items, i) + items[row[i]].xExtentChildren / 2)
  }

  /**
    * The placement loop: the nodes of `row` get consecutive reserved widths
    * from `start` on, each centred in its own; no other record changes.
    */
  method PlaceSideBySide(row: seq<NodeId>, start: nat, items: EmbeddingHelperMap)
    returns (items': EmbeddingHelperMap)
    requires NoDuplicates(row) && forall x :: x in row ==> x in items
    ensures items'.Keys == items.Keys
    ensures forall j {:trigger items'[row[j]]} :: 0 <= j < |row| ==>
      items'[row[j]] == items[row[j]].(xCenter := RowCenters(row, items, start)[j])
    ensures forall id {:trigger items'[id]} :: id in items && id !in row ==> items'[id] == items[id]
  {
    ghost var centers := RowCenters(row, items, start);
    var cursor := start;
    items' := items;
    for j := 0 to |row|
      invariant PlacedUpTo(row, centers, items, items', j)
      invariant cursor == start + RowWidth(row, items, j)
    {
      var id := row[j];
      assert id in row;
      if id in items' {
        var item := items'[id];
        var center := cursor + item.xExtentChildren / 2;
        PlaceNext(row, centers, items, items', j, center);
        items' := items'[id := item.(xCenter := center)];
        cursor := cursor + item.xExtentChildren;
      } else {
        assert false;
      }
    }
  }

  /** The first `j` nodes of the row have their centres, the others are untouched. */
  ghost predicate PlacedUpTo(row: seq<NodeId>, centers: seq<nat>, items: EmbeddingHelperMap,
                             items': EmbeddingHelperMap, j: nat)
    requires |centers| == |row|
  {
    && items'.Keys == items.Keys
    && (forall i {:trigger centers[i]} :: 0 <= i < j && i < |row| ==>
          row[i] in items && items'[row[i]] == items[row[i]].(xCenter := centers[i]))
    && (forall k {:trigger items'[row[k]]} :: j <= k < |row| ==> row[k] in items && items'[row[k]] == items[row[k]])
    && (forall id {:trigger items'[id]} :: id in items && id !in row ==> items'[id] == items[id])
  }

  /** Centring node `j` of the row extends the placed prefix by one. */
  lemma PlaceNext(row: seq<NodeId>, centers: seq<nat>, items: EmbeddingHelperMap, items': EmbeddingHelperMap,
                  j: nat, c: nat)
    requires NoDuplicates(row) && (forall x :: x in row ==> x in items) && |centers| == |row| && j < |row|
    requires PlacedUpTo(row, centers, items, items', j) && c == centers[j]
    ensures row[j] in items' && items'[row[j]] == items[row[j]]
    ensures PlacedUpTo(row, centers, items, items'[row[j] := items'[row[j]].(xCenter := c)], j + 1)
  {
    var id := row[j];
    assert id in row;
    var items'' := items'[id := items'[id].(xCenter := c)];
    forall i | 0 <= i < j ensures row[i] in items && items''[row[i]] == items[row[i]].(xCenter := centers[i]) {
      assert row[i] in row && row[i] != id;
    }
    forall k | j + 1 <= k < |row| ensures row[k] in items && items''[row[k]] == items'[row[k]] {
      assert row[k] in row && row[k] != id;
    }
  }

  /** The row's reserved widths are the children's footprints. */
  lemma {:induction false} RowWidthOfKids(kids: seq<Node>, items: EmbeddingHelperMap, j: nat)
    requires j <= |kids|
    requires forall i :: 0 <= i < |kids| ==>
      kids[i].id in items && items[kids[i].id].xExtentChildren == Footprint(kids[i])
    ensures forall x :: x in IdSeq(kids) ==> x in items
    ensures RowWidth(IdSeq(kids), items, j) == KidsFootprint(kids[..j])
  {
    var row := IdSeq(kids);
    if j > 0 {
      RowWidthOfKids(kids, items, j - 1);
      KidsFootprintStep(kids, j - 1);
    }
  }

  /**
    * The filtered and sorted group is the children of `p` in declaration
    * order; for the root, the level is 0 and holds the root alone.
    */
  lemma SortedGroupIsKids(t: Node, layer: nat, nodeIdsInLayer: seq<NodeId>, p: Option<NodeId>,
                          group: seq<NodeId>, sorted: seq<NodeId>, items: EmbeddingHelperMap)
    requires Unique(t) && SizedAndLinked(t, items) && LayerIds(t, nodeIdsInLayer, layer)
    requires exists y :: y in nodeIdsInLayer && Parent(t, y) == p
    requires NoDuplicates(group) && forall x :: x in group <==> x in nodeIdsInLayer && Parent(t, x) == p
    requires multiset(sorted) == multiset(group) && SortedByOrd(sorted, items)
    ensures p.Some? ==> p.value in Ids(t) && Depth(t, p.value) < layer
    ensures sorted == IdSeq(KidsOf(t, p)) && NoDuplicates(sorted)
    ensures forall x :: x in sorted <==> x in Ids(t) && Parent(t, x) == p
  {
    var y :| y in nodeIdsInLayer && Parent(t, y) == p;
    LayerGroup(t, layer, p, y);
    var ids := IdSeq(KidsOf(t, p));
    SizedOrds(t, items);
    KidsByOrd(t, p, items);
    forall x ensures x in group <==> x in ids {
      if x in Ids(t) && Parent(t, x) == p {
        assert Depth(t, x) == layer;
      }
    }
    SameElementsSameMultiset(group, ids);
    SortedUnique(sorted, ids, items);
  }

  lemma SameElementsSameMultiset(a: seq<NodeId>, b: seq<NodeId>)
    requires NoDuplicates(a) && NoDuplicates(b) && forall x :: x in a <==> x in b
    ensures multiset(a) == multiset(b)
  {
    DistinctMultiset(a);
    DistinctMultiset(b);
    assert (set x | x in a) == (set x | x in b);
  }

  /** A sequence without duplicates that holds only `x` holds it once. */
  lemma OnlyOnce(s: seq<NodeId>, x: NodeId)
    requires NoDuplicates(s) && x in s && forall y :: y in s ==> y == x
    ensures |s| == 1
  {
    CountAll(s, x);
    CountDistinct(s, x);
  }

  lemma {:induction false} CountAll(s: seq<NodeId>, x: NodeId)
    requires forall y :: y in s ==> y == x
    ensures multiset(s)[x] == |s|
    decreases |s|
  {
    if s != [] {
      assert s == [s[0]] + s[1..];
      assert s[0] in s && forall y :: y in s[1..] ==> y in s;
      CountAll(s[1..], x);
    }
  }

  lemma {:induction false} CountDistinct(s: seq<NodeId>, x: NodeId)
    requires NoDuplicates(s)
    ensures multiset(s)[x] <= 1
    decreases |s|
  {
    if s != [] {
      assert s == [s[0]] + s[1..];
      if s[0] == x {
        assert x !in s[1..];
      } else {
        CountDistinct(s[1..], x);
      }
    }
  }

  /**
    * The nodes whose parent is `p`, once one of them lies on level `layer`:
    * all of them lie on that level, and they are the children of `p` (the
    * root alone when `p` is `None`).
    */
  lemma LayerGroup(t: Node, layer: nat, p: Option<NodeId>, y: NodeId)
    requires Unique(t) && y in Ids(t) && Depth(t, y) == layer && Parent(t, y) == p
    ensures p.Some? ==> p.value in Ids(t) && Depth(t, p.value) + 1 == layer
    ensures p.None? ==> layer == 0 && y == t.id
    ensures forall x :: x in IdSeq(KidsOf(t, p)) <==> x in Ids(t) && Parent(t, x) == p
    ensures forall x :: x in Ids(t) && Parent(t, x) == p ==> Depth(t, x) == layer
  {
    match p
    case None => RootGroup(t, y);
    case Some(pid) => KidsGroup(t, pid, y);
  }

  /** The nodes without a parent: the root alone, at level 0. */
  lemma RootGroup(t: Node, y: NodeId)
    requires Unique(t) && y in Ids(t) && Parent(t, y) == None
    ensures Depth(t, y) == 0 && y == t.id
    ensures forall x :: x in IdSeq(KidsOf(t, None)) <==> x in Ids(t) && Parent(t, x) == None
    ensures forall x :: x in Ids(t) && Parent(t, x) == None ==> Depth(t, x) == 0
  {
    RootFacts(t, y);
    assert IdSeq(KidsOf(t, None)) == [t.id];
    forall x | x in Ids(t) ensures Parent(t, x) == None <==> x == t.id { RootFacts(t, x); }
  }

  /** The nodes whose parent is `pid`: its children, one level below it. */
  lemma KidsGroup(t: Node, pid: NodeId, y: NodeId)
    requires Unique(t) && y in Ids(t) && Parent(t, y) == Some(pid)
    ensures pid in Ids(t) && Depth(t, pid) + 1 == Depth(t, y)
    ensures forall x :: x in IdSeq(KidsOf(t, Some(pid))) <==> x in Ids(t) && Parent(t, x) == Some(pid)
    ensures forall x :: x in Ids(t) && Parent(t, x) == Some(pid) ==> Depth(t, x) == Depth(t, y)
  {
    ParentIffKid(t, pid, y);
    var kids := Find(t, pid).kids;
    var iy := IndexInIdSeq(kids, y);
    KidLevel(t, pid, iy);
    forall x ensures x in IdSeq(kids) <==> x in Ids(t) && Parent(t, x) == Some(pid) {
      if x in IdSeq(kids) {
        var i := IndexInIdSeq(kids, x);
        KidLevel(t, pid, i);
      }
      if x in Ids(t) {
        ParentIffKid(t, pid, x);
      }
    }
    forall x | x in Ids(t) && Parent(t, x) == Some(pid) ensures Depth(t, x) == Depth(t, y) {
      ParentIffKid(t, pid, x);
      var i := IndexInIdSeq(kids, x);
      KidLevel(t, pid, i);
    }
  }

  /** Each child is found under its own id and centred from the start of its block. */
  lemma KidPlace(t: Node, p: Option<NodeId>, j: nat)
    requires Unique(t) && (p.Some? ==> p.value in Ids(t)) && j < |KidsOf(t, p)|
    ensures var k := KidsOf(t, p)[j];
      && k.id in Ids(t) && Find(t, k.id) == k
      && Center(t, k.id) == BlockStart(t, p) + KidsFootprint(KidsOf(t, p)[..j]) + Footprint(k) / 2
  {
    match p
    case None =>
      assert Route(t, t.id) == [];
    case Some(pid) =>
      KidOf(t, pid, j);
      KidCenter(t, pid, j);
  }

  /** The children of `p` in declaration order have increasing post-order numbers. */
  lemma KidsByOrd(t: Node, p: Option<NodeId>, items: EmbeddingHelperMap)
    requires Unique(t) && items.Keys == Ids(t) && (p.Some? ==> p.value in Ids(t))
    requires forall x :: x in items ==> items[x].ord == PostOrderNumber(t, x)
    ensures StrictlyByOrd(IdSeq(KidsOf(t, p)), items)
  {
    var kids := KidsOf(t, p);
    var ids := IdSeq(kids);
    match p
    case None =>
    case Some(pid) =>
      forall i | 0 <= i < |kids| ensures ids[i] in items { KidOf(t, pid, i); }
      forall i, j | 0 <= i < j < |kids| ensures items[ids[i]].ord < items[ids[j]].ord {
        assert ids[i] in Ids(kids[i]) && ids[j] in Ids(kids[j]);
        SiblingNumbers(t, pid, i, j, ids[i], ids[j]);
      }
  }

  /** A node's children need no more than its footprint. */
  lemma KidsFootprintBelow(n: Node)
    ensures KidsFootprint(n.kids) <= Footprint(n)
  {
  }

  /** A sequence without duplicates holds each of its elements once. */
  lemma {:induction false} DistinctMultiset(s: seq<NodeId>)
    requires NoDuplicates(s)
    ensures multiset(s) == multiset(set x | x in s)
    decreases |s|
  {
    if s != [] {
      var rest := s[1..];
      assert s == [s[0]] + rest;
      DistinctMultiset(rest);
      assert s[0] !in rest;
      assert (set x | x in s) == {s[0]} + (set x | x in rest);
    }
  }

  /**
    * Two sequences sorted by post-order number, one strictly, with the same
    * elements are equal: the order the sort produces is the only one.
    */
  lemma {:induction false} SortedUnique(a: seq<NodeId>, b: seq<NodeId>, items: EmbeddingHelperMap)
    requires SortedByOrd(a, items) && StrictlyByOrd(b, items) && multiset(a) == multiset(b)
    ensures a == b
    decreases |a|
  {
    if a != [] {
      SameHead(a, b, items);
      SortedTail(a, items);
      assert StrictlyByOrd(b[1..], items) by {
        forall i | 0 <= i < |b| - 1 ensures b[1..][i] == b[i + 1] { }
      }
      SortedUnique(a[1..], b[1..], items);
    }
  }

  /** Both sequences start with the element of least post-order number. */
  lemma SameHead(a: seq<NodeId>, b: seq<NodeId>, items: EmbeddingHelperMap)
    requires a != [] && SortedByOrd(a, items) && StrictlyByOrd(b, items) && multiset(a) == multiset(b)
    ensures b != [] && a[0] == b[0] && multiset(a[1..]) == multiset(b[1..])
  {
    assert |b| == |multiset(b)| == |a|;
    var x, y := a[0], b[0];
    assert x in multiset(b) && y in multiset(a);
    var m :| 0 <= m < |b| && b[m] == x;
    var k :| 0 <= k < |a| && a[k] == y;
    assert items[x].ord <= items[y].ord <= items[x].ord;
    assert m == 0;
    MultisetTail(a);
    MultisetTail(b);
  }

  /** The tail's multiset is the whole one less the head. */
  lemma MultisetTail(s: seq<NodeId>)
    requires s != []
    ensures multiset(s[1..]) == multiset(s) - multiset{s[0]}
  {
    assert s == [s[0]] + s[1..];
    assert multiset(s) == multiset{s[0]} + multiset(s[1..]);
  }

  lemma SortedTail(a: seq<NodeId>, items: EmbeddingHelperMap)
    requires a != [] && SortedByOrd(a, items)
    ensures SortedByOrd(a[1..], items)
  {
    forall i, j | 0 <= i < j < |a| - 1 ensures items[a[1..][i]].ord <= items[a[1..][j]].ord {
      assert a[1..][i] == a[i + 1] && a[1..][j] == a[j + 1];
    }
  }

  /**
    * The ids whose record says level `layer`, each once, in the map's
    * iteration order (which the model leaves open).
    */
  method NodesInLayer(layer: nat, items: EmbeddingHelperMap) returns (nodeIds: seq<NodeId>)
    ensures NoDuplicates(nodeIds)
    ensures forall x :: x in nodeIds <==> x in items && items[x].yOrder == layer
  {
    nodeIds := [];
    var unvisited := items.Keys;
    while unvisited != {}
      invariant unvisited <= items.Keys
      invariant NoDuplicates(nodeIds)
      invariant forall x :: x in nodeIds <==> x in items && x !in unvisited && items[x].yOrder == layer
      decreases unvisited
    {
      var id :| id in unvisited;
      if items[id].yOrder == layer {
        nodeIds := nodeIds + [id];
      }
      unvisited := unvisited - {id};
    }
  }

  /** The parent of every node of the list, position by position. */
  method ParentsOf(t: Node, nodeIds: seq<NodeId>) returns (parents: seq<Option<NodeId>>)
    requires forall x :: x in nodeIds ==> x in Ids(t)
    ensures |parents| == |nodeIds|
    ensures forall j :: 0 <= j < |nodeIds| ==> parents[j] == Parent(t, nodeIds[j])
  {
    parents := [];
    for i := 0 to |nodeIds|
      invariant |parents| == i
      invariant forall j :: 0 <= j < i ==> parents[j] == Parent(t, nodeIds[j])
    {
      parents := parents + [Parent(t, nodeIds[i])];
    }
  }

  /**
    * The state of pass 3 on level `layer` after the parents `done` have
    * placed their children.
    */
  ghost predicate CenteredFor(t: Node, items: EmbeddingHelperMap, items': EmbeddingHelperMap, layer: nat,
                              done: seq<Option<NodeId>>)
  {
    && items.Keys == Ids(t)
    && items'.Keys == items.Keys
    && forall id :: id in items ==>
         items'[id] == if Depth(t, id) == layer && Parent(t, id) in done
                       then items[id].(xCenter := Center(t, id)) else items[id]
  }

  lemma CenteredForKept(t: Node, items: EmbeddingHelperMap, items': EmbeddingHelperMap, layer: nat,
                        done: seq<Option<NodeId>>)
    requires CenteredAbove(t, items, layer) && CenteredFor(t, items, items', layer, done)
    ensures CenteredAbove(t, items', layer)
  {
    CenteredKept(t, items, items', layer);
  }

  lemma CenteredForStep(t: Node, items: EmbeddingHelperMap, items': EmbeddingHelperMap,
                        items'': EmbeddingHelperMap, layer: nat, parents: seq<Option<NodeId>>, q: nat)
    requires q < |parents| && CenteredFor(t, items, items', layer, parents[..q])
    requires items''.Keys == items'.Keys
    requires forall id :: id in items' ==>
      items''[id] == if Parent(t, id) == parents[q] then items'[id].(xCenter := Center(t, id)) else items'[id]
    requires forall x :: x in Ids(t) && Parent(t, x) == parents[q] ==> Depth(t, x) == layer
    ensures CenteredFor(t, items, items'', layer, parents[..q + 1])
  {
    assert parents[..q + 1] == parents[..q] + [parents[q]];
    forall id | id in items
      ensures items''[id] == if Depth(t, id) == layer && Parent(t, id) in parents[..q + 1]
                             then items[id].(xCenter := Center(t, id)) else items[id]
    {
      assert Parent(t, id) in parents[..q + 1] <==> Parent(t, id) in parents[..q] || Parent(t, id) == parents[q];
    }
  }

  lemma CenteredForAll(t: Node, items: EmbeddingHelperMap, items': EmbeddingHelperMap, layer: nat,
                       done: seq<Option<NodeId>>)
    requires CenteredFor(t, items, items', layer, done)
    requires forall id :: id in items && Depth(t, id) == layer ==> Parent(t, id) in done
    ensures forall id :: id in items ==>
      items'[id] == if Depth(t, id) == layer then items[id].(xCenter := Center(t, id)) else items[id]
  {
  }

  /**
    * Pass 3 for level `layer`: the nodes of the level are collected in the
    * map's iteration order, and each parent of one of them places its
    * children; a parent seen twice places them again, to the same centres.
    */
  method XCenterLayer(layer: nat, t: Node, items: EmbeddingHelperMap) returns (items': EmbeddingHelperMap)
    requires Unique(t) && CenteredAbove(t, items, layer)
    ensures items'.Keys == items.Keys
    ensures forall id :: id in items ==>
      items'[id] == if Depth(t, id) == layer then items[id].(xCenter := Center(t, id)) else items[id]
  {
    var nodeIdsInLayer := NodesInLayer(layer, items);
    LevelsRecorded(t, items);
    var parentsInLayer := ParentsOf(t, nodeIdsInLayer);

    items' := items;
    for q := 0 to |parentsInLayer|
      invariant CenteredFor(t, items, items', layer, parentsInLayer[..q])
    {
      CenteredForKept(t, items, items', layer, parentsInLayer[..q]);
      var y := nodeIdsInLayer[q];
      LayerGroup(t, layer, parentsInLayer[q], y);
      ghost var before := items';
      items' := CenterChildren(t, layer, nodeIdsInLayer, parentsInLayer[q], items');
      CenteredForStep(t, items, before, items', layer, parentsInLayer, q);
    }
    forall id | id in items && Depth(t, id) == layer
      ensures Parent(t, id) in parentsInLayer[..|parentsInLayer|]
    {
      var j :| 0 <= j < |nodeIdsInLayer| && nodeIdsInLayer[j] == id;
      assert parentsInLayer[j] == Parent(t, id);
    }
    CenteredForAll(t, items, items', layer, parentsInLayer[..|parentsInLayer|]);
  }

  /** The level a record holds is the node's depth. */
  lemma LevelsRecorded(t: Node, items: EmbeddingHelperMap)
    requires SizedAndLinked(t, items)
    ensures forall x :: x in items ==> items[x].yOrder == Depth(t, x)
  {
    forall x | x in items ensures items[x].yOrder == Depth(t, x) {
      assert items[x] == Linked(t, x).(xCenter := items[x].xCenter);
    }
  }

  /**
    * Pass 3: every level from the root down, `height + 1` times; the last
    * round finds no node. An empty tree has no records to centre.
    */
  method ApplyXCenter(tree: Tree, items: EmbeddingHelperMap) returns (items': EmbeddingHelperMap)
    requires ValidTree(tree) && (tree.Some? ==> SizedAndLinked(tree.value, items))
    ensures items'.Keys == items.Keys
    ensures tree.Some? ==> forall id :: id in items ==> items'[id] == Expected(tree.value, id)
    ensures tree.None? ==> items' == items
  {
    items' := items;
    if tree.Some? {
      var t := tree.value;
      for l := 0 to TreeHeight(tree) + 1
        invariant items'.Keys == items.Keys
        invariant CenteredAbove(t, items', l)
      {
        ghost var before := items';
        items' := XCenterLayer(l, t, items');
        CenteredNext(t, before, items', l);
      }
      forall id | id in items' ensures items'[id] == Expected(t, id) {
        DepthBelowHeight(t, id);
        assert items'[id] == Linked(t, id).(xCenter := items'[id].xCenter);
        assert items'[id].xCenter == Center(t, id);
      }
    }
  }

  // ---------------------------------------------------------------------
  // Transfer and the whole embedder

  /**
    * Drains the helper map into a vector in the map's iteration order;
    * `keys` records that order.
    */
  method TransferResult(items: EmbeddingHelperMap) returns (embedding: Embedding, ghost keys: seq<NodeId>)
    ensures |embedding| == |items|
    ensures forall e :: e in embedding <==> exists id :: id in items && items[id] == e
    ensures |keys| == |items|
    ensures NoDuplicates(keys) && forall id :: id in keys <==> id in items
    ensures forall i :: 0 <= i < |keys| ==> keys[i] in items && embedding[i] == items[keys[i]]
  {
    embedding, keys := [], [];
    var rest := items.Keys;
    while rest != {}
      invariant rest <= items.Keys
      invariant |embedding| == |keys| && |keys| + |rest| == |items|
      invariant NoDuplicates(keys)
      invariant forall id :: id in keys <==> id in items && id !in rest
      invariant forall i :: 0 <= i < |keys| ==> keys[i] in items && embedding[i] == items[keys[i]]
      decreases rest
    {
      var id :| id in rest;
      embedding := embedding + [items[id]];
      keys := keys + [id];
      rest := rest - {id};
    }
    forall e | e in embedding ensures exists id :: id in items && items[id] == e {
      var i :| 0 <= i < |embedding| && embedding[i] == e;
      assert items[keys[i]] == e;
    }
    forall id | id in items ensures items[id] in embedding {
      var i :| 0 <= i < |keys| && keys[i] == id;
      assert embedding[i] == items[id];
    }
  }

  /** `embedding` holds one record per node of `t`, each the expected one. */
  ghost predicate IsEmbeddingOf(t: Node, embedding: Embedding)
    requires Unique(t)
  {
    && |embedding| == |Ids(t)|
    && (forall id :: id in Ids(t) ==> Expected(t, id) in embedding)
    && (forall e :: e in embedding ==> exists id :: id in Ids(t) && e == Expected(t, id))
    && (forall i, j :: 0 <= i < j < |embedding| ==> embedding[i].ord != embedding[j].ord)
  }

  /** `Embedder::embed`: one record per node, in no particular order. */
  method Embed(tree: Tree) returns (embedding: Embedding)
    requires ValidTree(tree)
    ensures tree.None? ==> embedding == []
    ensures tree.Some? ==> IsEmbeddingOf(tree.value, embedding)
  {
    var items := CreateInitialEmbeddingData(tree);
    ghost var sized := items;
    items := ApplyYOrder(tree, items);
    if tree.Some? {
      LinkedAfterLevels(tree.value, sized, items);
    }
    items := ApplyXCenter(tree, items);
    ghost var keys;
    embedding, keys := TransferResult(items);
    if tree.Some? {
      EmbeddingOfPlaced(tree.value, items, embedding, keys);
    } else {
      assert items == map[];
    }
  }

  /** After the first two passes every field but the centre is final. */
  lemma LinkedAfterLevels(t: Node, sized: EmbeddingHelperMap, items: EmbeddingHelperMap)
    requires sized.Keys == Ids(t) && items.Keys == sized.Keys
    requires forall id :: id in sized ==> sized[id] == Sized(Find(t, id), PostOrderNumber(t, id))
    requires forall id :: id in sized ==>
      items[id] == sized[id].(yOrder := Depth(t, id), parent := ParentNumber(t, id))
    ensures SizedAndLinked(t, items)
  {
    forall id | id in items ensures items[id] == Linked(t, id).(xCenter := items[id].xCenter) {
    }
  }

  /** Draining the finished map yields the embedding of the tree. */
  lemma EmbeddingOfPlaced(t: Node, items: EmbeddingHelperMap, embedding: Embedding, keys: seq<NodeId>)
    requires Unique(t) && items.Keys == Ids(t)
    requires forall id :: id in items ==> items[id] == Expected(t, id)
    requires |embedding| == |keys| == |items|
    requires NoDuplicates(keys) && forall id :: id in keys <==> id in items
    requires forall i :: 0 <= i < |keys| ==> keys[i] in items && embedding[i] == items[keys[i]]
    ensures IsEmbeddingOf(t, embedding)
  {
    assert |items| == |items.Keys|;
    forall id | id in Ids(t) ensures Expected(t, id) in embedding {
      var i :| 0 <= i < |keys| && keys[i] == id;
    }
    forall e | e in embedding ensures exists id :: id in Ids(t) && e == Expected(t, id) {
      var i :| 0 <= i < |embedding| && embedding[i] == e;
      assert e == Expected(t, keys[i]);
    }
    forall i, j | 0 <= i < j < |embedding| ensures embedding[i].ord != embedding[j].ord {
      NumberInjective(t, keys[i], keys[j]);
    }
  }
}
