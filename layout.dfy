/**
  * What the embedder computes, stated top-down on the tree: the record
  * (`PlacedTreeItem`) every node receives, with its widths, level, parent
  * link, post-order number and horizontal centre.
  */
module Layout {
  import opened Trees
  import opened TreeLemmas

  /** The embedding information for one tree node. */
  datatype PlacedTreeItem = PlacedTreeItem(
    yOrder: nat,             // level; the root has level 0
    xCenter: nat,            // logical x coordinate of the node's centre
    xExtent: nat,            // width of the node's own text
    xExtentOfChildren: nat,  // sum of the children's reserved widths
    xExtentChildren: nat,    // the width the node reserves for its subtree
    text: seq<byte>,
    isEmphasized: bool,
    parent: Option<nat>,     // the parent's post-order number
    ord: nat)                // post-order number

  /** The width of a node's text: its length in bytes plus one unit of padding. */
  function Width(n: Node): nat
  {
    |n.text| + 1
  }

  /** The width a node reserves: the larger of its own width and its children's. */
  function Footprint(n: Node): nat
    decreases n
  {
    var w, c := Width(n), KidsFootprint(n.kids);
    if w < c then c else w
  }

  /** The children's reserved widths summed from left to right. */
  function KidsFootprint(ks: seq<Node>): nat
    decreases ks
  {
    if ks == [] then 0 else KidsFootprint(ks[..|ks| - 1]) + Footprint(ks[|ks| - 1])
  }

  /** The left edge of the children's block under a node centred at `c`. */
  function KidsStart(n: Node, c: nat): nat
    requires Footprint(n) / 2 <= c
  {
    c - KidsFootprint(n.kids) / 2
  }

  /**
    * The centre of the node a route leads to, when `n` is centred at `c`:
    * the children of a node are packed side by side from `KidsStart`, each
    * centred in its own reserved width.
    */
  function CenterAlong(n: Node, c: nat, r: seq<nat>): (x: nat)
    requires ValidRoute(n, r) && Footprint(n) / 2 <= c
    ensures Footprint(Descend(n, r)) / 2 <= x
    decreases r
  {
    if r == [] then c else CenterAlong(n.kids[r[0]], ChildCenter(n, c, r[0]), r[1..])
  }

  /** The centre of child `i` of `n` when `n` is centred at `c`. */
  function ChildCenter(n: Node, c: nat, i: nat): (x: nat)
    requires Footprint(n) / 2 <= c && i < |n.kids|
    ensures Footprint(n.kids[i]) / 2 <= x
  {
    KidsStart(n, c) + KidsFootprint(n.kids[..i]) + Footprint(n.kids[i]) / 2
  }

  /** The centre of node `id`; the root's reserved width starts at 0. */
  function Center(t: Node, id: NodeId): nat
    requires id in Ids(t)
  {
    CenterAlong(t, Footprint(t) / 2, Route(t, id))
  }

  /**
    * The left edge of the block that holds the nodes whose parent is `p`:
    * the children's block under `p`, or 0 for the root.
    */
  function BlockStart(t: Node, p: Option<NodeId>): nat
    requires p.Some? ==> p.value in Ids(t)
  {
    match p
    case None => 0
    case Some(pid) => KidsStart(Find(t, pid), Center(t, pid))
  }

  function ParentNumber(t: Node, id: NodeId): Option<nat>
    requires id in Ids(t)
  {
    match Parent(t, id)
    case None => None
    case Some(p) => Some(PostOrderNumber(t, p))
  }

  /**
    * The record of node `n` after sizing: widths, text, emphasis and
    * post-order number; level, centre and parent link still at their
    * defaults.
    */
  function Sized(n: Node, ord: nat): PlacedTreeItem
  {
    PlacedTreeItem(
      yOrder := 0,
      xCenter := 0,
      xExtent := Width(n),
      xExtentOfChildren := KidsFootprint(n.kids),
      xExtentChildren := Footprint(n),
      text := n.text,
      isEmphasized := n.emphasize,
      parent := None,
      ord := ord)
  }

  /** The record of node `id` with every field but the centre final. */
  function Linked(t: Node, id: NodeId): PlacedTreeItem
    requires id in Ids(t)
  {
    Sized(Find(t, id), PostOrderNumber(t, id)).(yOrder := Depth(t, id), parent := ParentNumber(t, id))
  }

  /** The record the embedding holds for node `id`. */
  function Expected(t: Node, id: NodeId): PlacedTreeItem
    requires id in Ids(t)
  {
    Linked(t, id).(xCenter := Center(t, id))
  }

  // ---------------------------------------------------------------------
  // Steps of the top-down definitions

  lemma KidsFootprintStep(ks: seq<Node>, i: nat)
    requires i < |ks|
    ensures KidsFootprint(ks[..i + 1]) == KidsFootprint(ks[..i]) + Footprint(ks[i])
  {
    assert ks[..i + 1][..i] == ks[..i];
  }

  lemma {:induction false} CenterStep(t: Node, c: nat, r: seq<nat>, i: nat)
    requires ValidRoute(t, r) && Footprint(t) / 2 <= c && i < |Descend(t, r).kids|
    ensures ValidRoute(t, r + [i])
    ensures CenterAlong(t, c, r + [i]) == ChildCenter(Descend(t, r), CenterAlong(t, c, r), i)
    decreases r
  {
    DescendStep(t, r, i);
    var ri := r + [i];
    if r == [] {
      assert ri == [i] && ri[1..] == [];
    } else {
      assert ri[0] == r[0] && ri[1..] == r[1..] + [i];
      CenterStep(t.kids[r[0]], ChildCenter(t, c, r[0]), r[1..], i);
    }
  }

  /**
    * The centre of child `i`: the children's block starts at the parent's
    * centre minus half the children's width, and child `i` sits after the
    * reserved widths of the children before it.
    */
  lemma KidCenter(t: Node, pid: NodeId, i: nat)
    requires Unique(t) && pid in Ids(t) && i < |Find(t, pid).kids|
    ensures var p := Find(t, pid);
      && p.kids[i].id in Ids(t)
      && Footprint(p) / 2 <= Center(t, pid)
      && Center(t, p.kids[i].id)
         == KidsStart(p, Center(t, pid)) + KidsFootprint(p.kids[..i]) + Footprint(p.kids[i]) / 2
  {
    KidOf(t, pid, i);
    CenterStep(t, Footprint(t) / 2, Route(t, pid), i);
  }
}
