/**
  * Facts about the tree queries of module Trees: how routes, parents,
  * ancestors and depths of a child relate to those of its parent, and the
  * shape of the post-order numbering (children first, each subtree a
  * contiguous block, siblings in declaration order).
  */
module TreeLemmas {
  import opened Trees

  // ---------------------------------------------------------------------
  // Routes

  lemma {:induction false} DescendIds(t: Node, r: seq<nat>)
    requires ValidRoute(t, r)
    ensures Ids(Descend(t, r)) <= Ids(t)
    decreases r
  {
    if r != [] {
      DescendIds(t.kids[r[0]], r[1..]);
      KidIdsIn(t, r[0]);
    }
  }

  lemma {:induction false} DescendUnique(t: Node, r: seq<nat>)
    requires Unique(t) && ValidRoute(t, r)
    ensures Unique(Descend(t, r))
    decreases r
  {
    if r != [] {
      DescendUnique(t.kids[r[0]], r[1..]);
    }
  }

  /** In a valid tree, a node inside child `i` is reached through child `i`. */
  lemma RouteInKid(t: Node, i: nat, id: NodeId)
    requires Unique(t) && i < |t.kids| && id in Ids(t.kids[i])
    ensures id in Ids(t) && id != t.id
    ensures Route(t, id) == [i] + Route(t.kids[i], id)
  {
    KidIdsIn(t, i);
    var j := KidWith(t.kids, id);
    assert id in Ids(t.kids[j]) && id in Ids(t.kids[i]);
  }

  /** In a valid tree, the route to the node a route leads to is that route. */
  lemma {:induction false} RouteOfDescend(t: Node, r: seq<nat>)
    requires Unique(t) && ValidRoute(t, r)
    ensures Descend(t, r).id in Ids(t)
    ensures Route(t, Descend(t, r).id) == r
    decreases r
  {
    if r != [] {
      var k := t.kids[r[0]];
      RouteOfDescend(k, r[1..]);
      RouteInKid(t, r[0], Descend(k, r[1..]).id);
    }
  }

  /** Extending a route by one child index. */
  lemma {:induction false} RouteStep(t: Node, r: seq<nat>, i: nat)
    requires ValidRoute(t, r) && i < |Descend(t, r).kids|
    ensures ValidRoute(t, r + [i]) && Descend(t, r + [i]) == Descend(t, r).kids[i]
    ensures AncestorsAlong(t, r + [i]) == [Descend(t, r).id] + AncestorsAlong(t, r)
    ensures ParentAlong(t, r + [i]) == Some(Descend(t, r).id)
    ensures OffsetAlong(t, r + [i]) == OffsetAlong(t, r) + |PostOrderIn(Descend(t, r).kids[..i])|
    decreases r
  {
    if r == [] {
      assert [] + [i] == [i];
      assert [i][1..] == [];
    } else {
      assert (r + [i])[0] == r[0];
      assert (r + [i])[1..] == r[1..] + [i];
      RouteStep(t.kids[r[0]], r[1..], i);
    }
  }

  /** Extending a route by a child index descends to that child. */
  lemma {:induction false} DescendStep(t: Node, r: seq<nat>, i: nat)
    requires ValidRoute(t, r) && i < |Descend(t, r).kids|
    ensures ValidRoute(t, r + [i]) && Descend(t, r + [i]) == Descend(t, r).kids[i]
    decreases r
  {
    if r == [] {
      assert [] + [i] == [i];
      assert [i][1..] == [];
    } else {
      assert (r + [i])[0] == r[0];
      assert (r + [i])[1..] == r[1..] + [i];
      DescendStep(t.kids[r[0]], r[1..], i);
    }
  }

  lemma {:induction false} RouteSplitLast(t: Node, r: seq<nat>, i: nat)
    requires ValidRoute(t, r + [i])
    ensures ValidRoute(t, r) && i < |Descend(t, r).kids|
    decreases r
  {
    if r == [] {
      assert [] + [i] == [i];
    } else {
      assert (r + [i])[1..] == r[1..] + [i];
      RouteSplitLast(t.kids[r[0]], r[1..], i);
    }
  }

  /**
    * Child `i` of node `pid`: its route extends the parent's by `i`, its level
    * is one more, its parent is `pid` and its ancestors are `pid` followed by
    * the parent's ancestors.
    */
  lemma KidOf(t: Node, pid: NodeId, i: nat)
    requires Unique(t) && pid in Ids(t) && i < |Find(t, pid).kids|
    ensures var k := Find(t, pid).kids[i];
      && k.id in Ids(t)
      && Route(t, k.id) == Route(t, pid) + [i]
      && Find(t, k.id) == k
      && Depth(t, k.id) == Depth(t, pid) + 1
      && Parent(t, k.id) == Some(pid)
      && AncestorIds(t, k.id) == [pid] + AncestorIds(t, pid)
  {
    var r := Route(t, pid);
    RouteStep(t, r, i);
    RouteOfDescend(t, r + [i]);
  }

  /** The first ancestor is the parent. */
  lemma {:induction false} AncestorsStartWithParent(t: Node, r: seq<nat>)
    requires ValidRoute(t, r) && r != []
    ensures AncestorsAlong(t, r)[0] == ParentAlong(t, r).value
    decreases r
  {
    if |r| > 1 {
      AncestorsStartWithParent(t.kids[r[0]], r[1..]);
    }
  }

  lemma FirstAncestorIsParent(t: Node, id: NodeId)
    requires id in Ids(t)
    ensures AncestorIds(t, id) == [] <==> Parent(t, id) == None
    ensures AncestorIds(t, id) != [] ==> AncestorIds(t, id)[0] == Parent(t, id).value
  {
    if Route(t, id) != [] {
      AncestorsStartWithParent(t, Route(t, id));
    }
  }

  /** Every node but the root is some child of its parent. */
  lemma NonRootIsKid(t: Node, id: NodeId) returns (pid: NodeId, i: nat)
    requires Unique(t) && id in Ids(t) && id != t.id
    ensures pid in Ids(t) && i < |Find(t, pid).kids| && Find(t, pid).kids[i].id == id
    ensures Parent(t, id) == Some(pid)
  {
    var r := Route(t, id);
    assert r != [];
    var r' := r[..|r| - 1];
    i := r[|r| - 1];
    assert r == r' + [i];
    RouteSplitLast(t, r', i);
    RouteStep(t, r', i);
    RouteOfDescend(t, r');
    pid := Descend(t, r').id;
  }

  /** The root is the only node without a parent and the only node on level 0. */
  lemma RootFacts(t: Node, id: NodeId)
    requires Unique(t) && id in Ids(t)
    ensures Parent(t, id) == None <==> id == t.id
    ensures Depth(t, id) == 0 <==> id == t.id
    ensures AncestorIds(t, id) == [] <==> id == t.id
  {
    if id != t.id {
      var pid, i := NonRootIsKid(t, id);
      KidOf(t, pid, i);
    }
  }

  /** `x` is a child of `pid` exactly when `pid` is the parent of `x`. */
  lemma ParentIffKid(t: Node, pid: NodeId, x: NodeId)
    requires Unique(t) && pid in Ids(t) && x in Ids(t)
    ensures Parent(t, x) == Some(pid) <==> x in IdSeq(Find(t, pid).kids)
  {
    var ks := Find(t, pid).kids;
    if Parent(t, x) == Some(pid) {
      RootFacts(t, x);
      var q, i := NonRootIsKid(t, x);
      assert ks[i].id == x;
      assert IdSeq(ks)[i] == x;
    }
    if x in IdSeq(ks) {
      var i :| 0 <= i < |ks| && IdSeq(ks)[i] == x;
      KidOf(t, pid, i);
    }
  }

  lemma {:induction false} HeightInAt(ks: seq<Node>, i: nat)
    requires i < |ks|
    ensures Height(ks[i]) <= HeightIn(ks)
    decreases ks
  {
    if i > 0 {
      HeightInAt(ks[1..], i - 1);
    }
  }

  lemma {:induction false} RouteBelowHeight(t: Node, r: seq<nat>)
    requires ValidRoute(t, r)
    ensures |r| < Height(t)
    decreases r
  {
    if r != [] {
      RouteBelowHeight(t.kids[r[0]], r[1..]);
      HeightInAt(t.kids, r[0]);
    }
  }

  /** Every level is below `height`, the number of levels. */
  lemma DepthBelowHeight(t: Node, id: NodeId)
    requires id in Ids(t)
    ensures Depth(t, id) < Height(t)
  {
    RouteBelowHeight(t, Route(t, id));
  }

  // ---------------------------------------------------------------------
  // Traversals

  lemma IdsOfWhole(s: seq<Node>)
    ensures IdsOf(s[..|s|]) == IdsOf(s)
  {
    assert s[..|s|] == s;
  }

  /** The ids of a prefix one longer gain the id of the next element. */
  lemma IdsOfPrefix(s: seq<Node>, i: nat)
    requires i < |s|
    ensures IdsOf(s[..i + 1]) == IdsOf(s[..i]) + {s[i].id}
  {
    assert s[..i + 1] == s[..i] + [s[i]];
    IdsOfConcat(s[..i], [s[i]]);
  }

  lemma IdsOfConcat(a: seq<Node>, b: seq<Node>)
    ensures IdsOf(a + b) == IdsOf(a) + IdsOf(b)
  {
    forall id | id in IdsOf(a) ensures id in IdsOf(a + b) {
      var n :| n in a && n.id == id;
      assert n in a + b;
    }
    forall id | id in IdsOf(b) ensures id in IdsOf(a + b) {
      var n :| n in b && n.id == id;
      assert n in a + b;
    }
  }

  lemma {:induction false} PostOrderIds(t: Node)
    ensures IdsOf(PostOrder(t)) == Ids(t)
    decreases t
  {
    PostOrderInIds(t.kids);
    IdsOfConcat(PostOrderIn(t.kids), [t]);
    assert IdsOf([t]) == {t.id};
  }

  lemma {:induction false} PostOrderInIds(ks: seq<Node>)
    ensures IdsOf(PostOrderIn(ks)) == IdsIn(ks)
    decreases ks
  {
    if ks != [] {
      PostOrderIds(ks[0]);
      PostOrderInIds(ks[1..]);
      IdsOfConcat(PostOrder(ks[0]), PostOrderIn(ks[1..]));
    }
  }

  lemma {:induction false} PreOrderIds(t: Node)
    ensures IdsOf(PreOrder(t)) == Ids(t)
    decreases t
  {
    PreOrderInIds(t.kids);
    IdsOfConcat([t], PreOrderIn(t.kids));
    assert IdsOf([t]) == {t.id};
  }

  lemma {:induction false} PreOrderInIds(ks: seq<Node>)
    ensures IdsOf(PreOrderIn(ks)) == IdsIn(ks)
    decreases ks
  {
    if ks != [] {
      PreOrderIds(ks[0]);
      PreOrderInIds(ks[1..]);
      IdsOfConcat(PreOrder(ks[0]), PreOrderIn(ks[1..]));
    }
  }

  lemma DistinctConcat(a: seq<Node>, b: seq<Node>)
    requires DistinctIds(a) && DistinctIds(b) && IdsOf(a) !! IdsOf(b)
    ensures DistinctIds(a + b)
  {
    forall i, j | 0 <= i < j < |a + b| ensures (a + b)[i].id != (a + b)[j].id {
      if j < |a| {
        assert (a + b)[i] == a[i] && (a + b)[j] == a[j];
      } else if i < |a| {
        assert (a + b)[i] == a[i] && a[i] in a && a[i].id in IdsOf(a);
        assert (a + b)[j] == b[j - |a|] && b[j - |a|] in b && b[j - |a|].id in IdsOf(b);
      } else {
        assert (a + b)[i] == b[i - |a|] && (a + b)[j] == b[j - |a|];
      }
    }
  }

  /** In a valid tree, post-order visits every node once. */
  lemma {:induction false} PostOrderDistinct(t: Node)
    requires Unique(t)
    ensures DistinctIds(PostOrder(t))
    decreases t
  {
    PostOrderInDistinct(t.kids);
    PostOrderInIds(t.kids);
    assert IdsOf([t]) == {t.id};
    DistinctConcat(PostOrderIn(t.kids), [t]);
  }

  lemma {:induction false} PostOrderInDistinct(ks: seq<Node>)
    requires forall i :: 0 <= i < |ks| ==> Unique(ks[i])
    requires forall i, j :: 0 <= i < j < |ks| ==> Ids(ks[i]) !! Ids(ks[j])
    ensures DistinctIds(PostOrderIn(ks))
    decreases ks
  {
    if ks != [] {
      PostOrderDistinct(ks[0]);
      assert forall i :: 0 <= i < |ks[1..]| ==> ks[1..][i] == ks[i + 1];
      PostOrderInDistinct(ks[1..]);
      PostOrderIds(ks[0]);
      PostOrderInIds(ks[1..]);
      forall id | id in IdsIn(ks[1..]) ensures id !in Ids(ks[0]) {
        IdsInAt(ks[1..], id);
        var i :| 0 <= i < |ks[1..]| && id in Ids(ks[1..][i]);
        assert Ids(ks[0]) !! Ids(ks[i + 1]);
      }
      DistinctConcat(PostOrder(ks[0]), PostOrderIn(ks[1..]));
    }
  }

  lemma {:induction false} PostOrderInConcat(a: seq<Node>, b: seq<Node>)
    ensures PostOrderIn(a + b) == PostOrderIn(a) + PostOrderIn(b)
    decreases a
  {
    if a == [] {
      assert a + b == b;
    } else {
      assert (a + b)[0] == a[0];
      assert (a + b)[1..] == a[1..] + b;
      PostOrderInConcat(a[1..], b);
    }
  }

  lemma PostOrderInSingle(k: Node)
    ensures PostOrderIn([k]) == PostOrder(k)
  {
    assert [k][1..] == [];
  }

  lemma PostOrderInSplit(ks: seq<Node>, i: nat)
    requires i < |ks|
    ensures PostOrderIn(ks) == PostOrderIn(ks[..i]) + (PostOrder(ks[i]) + PostOrderIn(ks[i + 1..]))
    ensures PostOrderIn(ks[..i + 1]) == PostOrderIn(ks[..i]) + PostOrder(ks[i])
  {
    PostOrderInSplitWhole(ks, i);
    PostOrderInSplitPrefix(ks, i);
  }

  lemma PostOrderInSplitWhole(ks: seq<Node>, i: nat)
    requires i < |ks|
    ensures PostOrderIn(ks) == PostOrderIn(ks[..i]) + (PostOrder(ks[i]) + PostOrderIn(ks[i + 1..]))
  {
    var rest := ks[i..];
    assert ks == ks[..i] + rest;
    PostOrderInConcat(ks[..i], rest);
    PostOrderInCons(rest);
    assert rest[0] == ks[i] && rest[1..] == ks[i + 1..];
  }

  lemma PostOrderInCons(ks: seq<Node>)
    requires ks != []
    ensures PostOrderIn(ks) == PostOrder(ks[0]) + PostOrderIn(ks[1..])
  {
  }

  lemma PostOrderInSplitPrefix(ks: seq<Node>, i: nat)
    requires i < |ks|
    ensures PostOrderIn(ks[..i + 1]) == PostOrderIn(ks[..i]) + PostOrder(ks[i])
  {
    assert ks[..i + 1] == ks[..i] + [ks[i]];
    PostOrderInConcat(ks[..i], [ks[i]]);
    PostOrderInSingle(ks[i]);
  }

  lemma PostOrderInPrefix(ks: seq<Node>, i: nat, j: nat)
    requires i <= j <= |ks|
    ensures |PostOrderIn(ks[..i])| <= |PostOrderIn(ks[..j])|
  {
    assert ks[..j] == ks[..i] + ks[i..j];
    PostOrderInConcat(ks[..i], ks[i..j]);
  }

  /**
    * The post-order of the subtree a route leads to is a contiguous block of
    * the whole post-order, starting at `OffsetAlong`: its `m`-th node is the
    * whole post-order's node at `OffsetAlong + m`.
    */
  lemma {:induction false} PostOrderBlock(t: Node, r: seq<nat>, m: nat, j: nat)
    requires ValidRoute(t, r) && m < |PostOrder(Descend(t, r))| && j == OffsetAlong(t, r) + m
    ensures j < |PostOrder(t)|
    ensures PostOrder(t)[j] == PostOrder(Descend(t, r))[m]
    decreases r
  {
    if r == [] {
      assert j == m;
    } else {
      var i := r[0];
      var k := t.kids[i];
      var o' := OffsetAlong(k, r[1..]);
      PostOrderBlock(k, r[1..], m, o' + m);
      PostOrderInSplitWhole(t.kids, i);
      var a := PostOrderIn(t.kids[..i]);
      var pk := PostOrder(k);
      var rest := pk + PostOrderIn(t.kids[i + 1..]);
      assert PostOrderIn(t.kids) == a + rest;
      assert j == |a| + (o' + m);
      assert (a + rest)[|a| + (o' + m)] == rest[o' + m] == pk[o' + m];
      assert PostOrder(t)[j] == PostOrderIn(t.kids)[j];
      assert Descend(t, r) == Descend(k, r[1..]);
    }
  }

  /** Node `id` sits in the post-order at its post-order number. */
  lemma PostOrderAt(t: Node, id: NodeId)
    requires id in Ids(t)
    ensures PostOrderNumber(t, id) < |PostOrder(t)|
    ensures PostOrder(t)[PostOrderNumber(t, id)] == Find(t, id)
  {
    var r, n := Route(t, id), Find(t, id);
    var b := PostOrder(n);
    PostOrderBlock(t, r, |b| - 1, PostOrderNumber(t, id));
    assert b[|b| - 1] == n;
  }

  /** In a valid tree, the node at post-order position `j` has number `j`. */
  lemma NumberOfPostOrder(t: Node, j: nat)
    requires Unique(t) && j < |PostOrder(t)|
    ensures PostOrder(t)[j].id in Ids(t)
    ensures PostOrderNumber(t, PostOrder(t)[j].id) == j
    ensures Find(t, PostOrder(t)[j].id) == PostOrder(t)[j]
  {
    var n := PostOrder(t)[j];
    PostOrderIds(t);
    assert n in PostOrder(t);
    PostOrderAt(t, n.id);
    PostOrderDistinct(t);
  }

  /** Post-order numbers of distinct nodes differ. */
  lemma NumberInjective(t: Node, x: NodeId, y: NodeId)
    requires Unique(t) && x in Ids(t) && y in Ids(t) && x != y
    ensures PostOrderNumber(t, x) != PostOrderNumber(t, y)
  {
    PostOrderAt(t, x);
    PostOrderAt(t, y);
  }

  /**
    * The numbers of a subtree form the interval that starts at its block
    * offset and ends at the number of its root: descendants come first.
    */
  lemma SubtreeNumbers(t: Node, y: NodeId, x: NodeId)
    requires Unique(t) && y in Ids(t) && x in Ids(Find(t, y))
    ensures x in Ids(t)
    ensures OffsetAlong(t, Route(t, y)) <= PostOrderNumber(t, x) <= PostOrderNumber(t, y)
    ensures x != y ==> PostOrderNumber(t, x) < PostOrderNumber(t, y)
  {
    var r := Route(t, y);
    var b := PostOrder(Descend(t, r));
    PostOrderIds(Descend(t, r));
    var l := IndexWithId(b, x);
    BlockNumber(t, r, l);
    BlockNumber(t, r, |b| - 1);
  }

  /** The `l`-th node of a subtree's post-order has number `OffsetAlong + l`. */
  lemma BlockNumber(t: Node, r: seq<nat>, l: nat)
    requires Unique(t) && ValidRoute(t, r) && l < |PostOrder(Descend(t, r))|
    ensures var n := PostOrder(Descend(t, r))[l];
      n.id in Ids(t) && PostOrderNumber(t, n.id) == OffsetAlong(t, r) + l
  {
    var j := OffsetAlong(t, r) + l;
    PostOrderBlock(t, r, l, j);
    NumberOfPostOrder(t, j);
  }

  lemma IndexInIdSeq(b: seq<Node>, x: NodeId) returns (l: nat)
    requires x in IdSeq(b)
    ensures l < |b| && b[l].id == x
  {
    l :| 0 <= l < |IdSeq(b)| && IdSeq(b)[l] == x;
  }

  /** Child `i` of node `pid` is one level below it and has `pid` as its parent. */
  lemma KidLevel(t: Node, pid: NodeId, i: nat)
    requires Unique(t) && pid in Ids(t) && i < |Find(t, pid).kids|
    ensures var k := Find(t, pid).kids[i];
      && k.id in Ids(t) && Depth(t, k.id) == Depth(t, pid) + 1 && Parent(t, k.id) == Some(pid)
  {
    KidOf(t, pid, i);
  }

  lemma IndexWithId(b: seq<Node>, x: NodeId) returns (l: nat)
    requires x in IdsOf(b)
    ensures l < |b| && b[l].id == x
  {
    var n :| n in b && n.id == x;
    l :| l < |b| && b[l] == n;
  }

  /** Offsets and numbers of the children of `pid`, relative to `pid`'s block. */
  lemma KidNumbers(t: Node, pid: NodeId, i: nat)
    requires Unique(t) && pid in Ids(t) && i < |Find(t, pid).kids|
    ensures var p, k := Find(t, pid), Find(t, pid).kids[i];
      && k.id in Ids(t)
      && OffsetAlong(t, Route(t, k.id)) == OffsetAlong(t, Route(t, pid)) + |PostOrderIn(p.kids[..i])|
      && PostOrderNumber(t, k.id) + 1 == OffsetAlong(t, Route(t, pid)) + |PostOrderIn(p.kids[..i + 1])|
      && PostOrderNumber(t, pid) == OffsetAlong(t, Route(t, pid)) + |PostOrderIn(p.kids)|
  {
    var p := Find(t, pid);
    KidOf(t, pid, i);
    RouteStep(t, Route(t, pid), i);
    PostOrderInSplit(p.kids, i);
  }

  /**
    * Siblings are numbered in declaration order, and the whole subtree of an
    * earlier sibling comes before the whole subtree of a later one.
    */
  lemma SiblingNumbers(t: Node, pid: NodeId, i: nat, j: nat, x: NodeId, y: NodeId)
    requires Unique(t) && pid in Ids(t) && i < j < |Find(t, pid).kids|
    requires x in Ids(Find(t, pid).kids[i]) && y in Ids(Find(t, pid).kids[j])
    ensures x in Ids(t) && y in Ids(t)
    ensures PostOrderNumber(t, x) < PostOrderNumber(t, y)
  {
    var p := Find(t, pid);
    KidNumbers(t, pid, i);
    KidNumbers(t, pid, j);
    KidOf(t, pid, i);
    KidOf(t, pid, j);
    SubtreeNumbers(t, p.kids[i].id, x);
    SubtreeNumbers(t, p.kids[j].id, y);
    PostOrderInPrefix(p.kids, i + 1, j);
  }

  /** A child is numbered before its parent. */
  lemma KidBeforeParent(t: Node, pid: NodeId, i: nat)
    requires Unique(t) && pid in Ids(t) && i < |Find(t, pid).kids|
    ensures Find(t, pid).kids[i].id in Ids(t)
    ensures PostOrderNumber(t, Find(t, pid).kids[i].id) < PostOrderNumber(t, pid)
  {
    var p := Find(t, pid);
    KidNumbers(t, pid, i);
    PostOrderInPrefix(p.kids, i + 1, |p.kids|);
    assert p.kids[..|p.kids|] == p.kids;
  }
}
