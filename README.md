# id-tree-layout: the embedder

This project models `Embedder::embed` from the Rust crate id-tree-layout. The function places the nodes of an ordered rooted tree in the plane, and the crate's drawers turn its result into pictures. For every node reachable from the root, `embed` returns one `PlacedTreeItem` holding:

- the node's level, `y_order`;
- the width of its label, `x_extent`, which is the label's byte length plus one;
- the sum of its children's reserved widths, `x_extent_of_children`;
- the width it reserves for its whole subtree, `x_extent_children`, which is the larger of the two widths above;
- its label and emphasis;
- its post-order number, `ord`;
- its parent's post-order number;
- the horizontal centre of the node, `x_center`.

The embedder makes three passes over a hash map from node id to record:

1. **Sizing**, in post-order. This pass numbers the nodes and sums each node's children's widths.
2. **Levels and parent links**, in pre-order.
3. **Centring**, layer by layer from the root down. For each parent of a node on the layer, it sorts that parent's children by post-order number and packs them side by side. The packing starts at the parent's centre minus half the children's width; the root's starts at 0.

Finally, the map is drained into the result vector.

The model is split into these files:

- `trees.dfy` (module `Trees`): the input tree as a value. A tree is `Option<Node>`; a `Node` has an id, a label as bytes, an emphasis flag and an ordered sequence of children. The module also defines the traversals and relations the embedder asks the tree library for: post-order, pre-order, ancestors, parent, depth and height.
- `tree_lemmas.dfy` (module `TreeLemmas`): facts about those traversals on a tree whose ids are all distinct.
- `layout.dfy` (module `Layout`): the record every node should receive, defined top-down on the tree (`Expected`). It is built from the node's footprint `Footprint`, its `Depth`, its `PostOrderNumber`, its parent's number and its centre `Center`.
- `embedder.dfy` (module `Embedder`): the embedder itself. The three passes and the transfer are written as methods that loop over the tree and update the map. Each pass is proved to establish its part of `Expected`, and `Embed` is proved to return exactly the expected records.
- `properties.dfy` (module `Properties`): what the records promise, stated on the records alone.
- `examples_embed.dfy` (module `EmbedExamples`): the crate's test trees and the records the embedder returns for them.

## Model

| member | source | states |
|---|---|---|
| Embedder.Embed | src/embedder.rs:69-86 | An empty tree gives an empty embedding. Otherwise there is exactly one record per node, every record is the expected record of some node, every node's expected record is present, and the `ord`s are pairwise distinct. |
| Embedder.ChildExtentSum | src/embedder.rs:100-110 | The fold over the children succeeds (does not panic) exactly when every child already has a record. When every child's record reserves that child's footprint, the fold yields the sum of the children's footprints. |
| Embedder.CreateFromNode | src/embedder.rs:89-126 | A record is produced exactly when all children have records. When their records are right, it is the sized record: width = label length + 1, the children's sum, their maximum, the label, the emphasis, the given `ord`, level 0, no parent, centre 0. |
| Embedder.CreateInitialEmbeddingData | src/embedder.rs:88-142 | The map holds exactly the tree's ids. Each node's record is its sized record, numbered with its post-order position. The panic branch is never taken. |
| Embedder.SizedNext | src/embedder.rs:131-138 | Inserting the record of the next node in post-order extends the sized prefix by one node and touches no other key. |
| Embedder.KidVisitedBefore | src/embedder.rs:104-108 | Every child of the node at post-order position `j` sits at an earlier position, so its record exists when the parent is sized. |
| Embedder.ApplyYOrder | src/embedder.rs:144-154 | Keeps the keys. Sets each record's level to the node's depth and its parent link to the post-order number of the parent (none for the root), and changes no other field. |
| Embedder.AncestorRecords | src/embedder.rs:147-148 | The number of ancestors is the depth, and the first ancestor's record holds the parent's post-order number. |
| Embedder.LevelUpdate | src/embedder.rs:149-151 | Writing one node's level and parent link extends the set of finished nodes by that node and leaves the other records as they were. |
| Embedder.NodesInLayer | src/embedder.rs:158-163 | Collects each id whose record has level `layer`, once, and no other id. |
| Embedder.LevelsRecorded | src/embedder.rs:158-159 | After pass 2, the level a record holds is its node's depth, so the layer scan finds exactly the nodes at that depth. |
| Embedder.ParentsOf | src/embedder.rs:165-168 | Gives the parent of each collected node, position by position. Duplicates are kept. |
| Embedder.FilterByParent | src/embedder.rs:170-180 | Gives, without duplicates, exactly the collected nodes whose parent is `p`. |
| Embedder.InsertByOrd | src/embedder.rs:181 | Inserting into a list sorted by `ord` gives a sorted permutation of the list plus the new id. |
| Embedder.SortByOrd | src/embedder.rs:181 | `sort_by_key` on `ord`: the result is a permutation of the input, sorted by `ord`. |
| Embedder.SortedUnique | src/embedder.rs:181 | Two lists with the same elements, both sorted by `ord` and one strictly, are equal. So the sort's result does not depend on stability or on the map's order. |
| Embedder.KidsByOrd | src/embedder.rs:181 | The children of a parent, in declaration order, have strictly increasing `ord`. |
| Embedder.SortedGroupIsKids | src/embedder.rs:170-181 | The filtered, sorted group is exactly the children of `p` in declaration order, or the root alone when `p` is none. |
| Embedder.LayerGroup | src/embedder.rs:170-180 | Once one node with parent `p` lies on the layer, all of them do, and they are `p`'s children. For `p` = none, the layer is 0 and holds only the root. |
| Embedder.OnlyOnce | src/embedder.rs:197-199 | A list without duplicates that holds only the root has length 1, which is the second debug assertion. |
| Embedder.FirstCursor | src/embedder.rs:183-203 | The cursor starts at the parent's centre minus half its children's width, or at 0 for the root. In the root case the layer is 0 and holds one node, as both debug assertions demand. The missing-parent panic is never reached. |
| Embedder.ParentBlock | src/embedder.rs:184-188 | The subtraction `x_center - x_extent_of_children / 2` does not underflow, and it equals the left edge of the children's block. |
| Embedder.ChildrenInOrder | src/embedder.rs:170-203 | Gives the children of `p` in declaration order, together with the left edge of their block. |
| Embedder.PlaceSideBySide | src/embedder.rs:204-209 | The cursor loop gives the `j`-th node of the row the start plus the widths of the nodes before it, plus half its own width. It changes only `x_center`, and only on the row's nodes. |
| Embedder.PlaceNext | src/embedder.rs:205-207 | One loop step extends the placed prefix of the row by one node. |
| Embedder.RowAtCentres | src/embedder.rs:204-209 | Packing the children of `p` from their block's left edge gives each child its layout centre. |
| Embedder.CentersOfKids | src/embedder.rs:204-209 | The row's centres are the block start plus the children's footprints before each child, plus half its own footprint. |
| Embedder.RowWidthOfKids | src/embedder.rs:207 | The cursor's advance over the first `j` children equals the sum of their footprints. |
| Embedder.PlaceRow | src/embedder.rs:204-209 | Placing a parent's children sets exactly their centres, to the layout's values, and nothing else. |
| Embedder.PlacedRow | src/embedder.rs:204-209 | Centring the row means exactly the nodes whose parent is `p` get their centres. |
| Embedder.CenterChildren | src/embedder.rs:170-210 | One parent's turn sets the centre of each of its children to the layout's value, whatever that child's centre was before, and leaves every other record unchanged. So repeating a parent, as happens once per child, writes the same centres again. |
| Embedder.CenteredForStep | src/embedder.rs:170-210 | After the parents handled so far, exactly their children on the layer are centred, and the next parent extends that set. |
| Embedder.CenteredForAll | src/embedder.rs:170-210 | When every node of the layer has its parent among the handled ones, the whole layer is centred. |
| Embedder.CenteredKept | src/embedder.rs:157-211 | Centring nodes of the layer keeps every other field, and every centre above the layer. |
| Embedder.CenteredNext | src/embedder.rs:213-215 | Centring a whole layer extends the centred levels by one. |
| Embedder.XCenterLayer | src/embedder.rs:157-211 | Sets the centre of every node on the layer to its layout value, and changes nothing else. |
| Embedder.ApplyXCenter | src/embedder.rs:156-216 | After rounds `0..=height`, every record is the node's expected record, centre included. |
| Embedder.LinkedAfterLevels | src/embedder.rs:73-78 | After passes 1 and 2, every field but the centre is final. |
| Embedder.TransferResult | src/embedder.rs:220-226 | The vector is as long as the map, holds exactly the map's records, and holds each key's record once, in the map's iteration order, which is left open. |
| Embedder.EmbeddingOfPlaced | src/embedder.rs:220-226 | Draining the finished map gives exactly the expected records, with distinct `ord`s. |
| Layout.CenterAlong | src/embedder.rs:183-208 | Every centre is at least half its node's footprint, so every reserved width starts at 0 or further right. |
| Layout.ChildCenter | src/embedder.rs:186-188 | Each child's centre is at least half the child's footprint. |
| Layout.KidCenter | src/embedder.rs:183-208 | Child `i`'s centre is the parent's centre, minus half the children's width, plus the footprints of the children before `i`, plus half its own footprint. |
| Layout.CenterStep | src/embedder.rs:183-208 | Going one level down a route gives the centre of child `i` relative to its parent's centre. |
| Layout.KidsFootprintStep | src/embedder.rs:100-103 | The sum over the first `i + 1` children is the sum over the first `i` plus child `i`'s footprint. |
| TreeLemmas.PostOrderIds | src/embedder.rs:131-133 | The post-order walk visits exactly the tree's nodes. |
| TreeLemmas.PostOrderDistinct | src/embedder.rs:131-133 | The post-order walk visits no node twice. |
| TreeLemmas.PreOrderIds | src/embedder.rs:146 | The pre-order walk visits exactly the tree's nodes. |
| TreeLemmas.KidBeforeParent | src/embedder.rs:104-108 | A child's post-order number is smaller than its parent's. |
| TreeLemmas.SiblingNumbers | src/embedder.rs:131-135 | Every node below an earlier sibling is numbered before every node below a later one. |
| TreeLemmas.NumberInjective | src/embedder.rs:131-135 | Distinct nodes get distinct post-order numbers. |
| TreeLemmas.RootFacts | src/embedder.rs:147-148 | Exactly the root has no parent, no ancestors and depth 0. |
| TreeLemmas.FirstAncestorIsParent | src/embedder.rs:148 | The first ancestor is the parent. |
| TreeLemmas.DepthBelowHeight | src/embedder.rs:213 | Every depth is below the tree's height, so the rounds `0..height + 1` reach every layer. |
| Properties.RecordWidths | src/embedder.rs:99-111 | `x_extent` is the label length + 1. `x_extent_children` is at least `x_extent` and at least `x_extent_of_children`, and equals one of them. A leaf has children's width 0 and reserves its own width. |
| Properties.ChildrenSum | src/embedder.rs:100-111 | A parent's `x_extent_of_children` is the sum of its children's `x_extent_children`. |
| Properties.ReservedPrefix | src/embedder.rs:100-103 | The running sum of the records' reserved widths equals the running sum of the children's footprints. |
| Properties.OrdsNumberNodes | src/embedder.rs:131-138 | The `ord`s number the nodes `0..n-1`, each number used once. |
| Properties.DistinctIdsCount | src/embedder.rs:131-138 | A node list without repeated ids has as many ids as nodes. |
| Properties.OrdsFollowPostOrder | src/embedder.rs:131-138 | Children are numbered before their parent, and an earlier sibling's whole subtree before a later sibling's. |
| Properties.LevelsCountAncestors | src/embedder.rs:144-152 | The level is the number of ancestors. Level 0 and a missing parent link both hold exactly for the root. |
| Properties.KidLinks | src/embedder.rs:147-151 | A child is one level below its parent and links to the parent's `ord`. |
| Properties.RootCentre | src/embedder.rs:195-206 | The root's reserved width starts at 0 and the root is centred in it: `x_center = x_extent_children / 2`. |
| Properties.LeftEdgesNotNegative | src/embedder.rs:183-208 | No node's reserved width starts left of 0. |
| Properties.SiblingPacking | src/embedder.rs:183-208 | The cursor start does not underflow. The first child's left edge is the parent's centre minus half the children's width. Each next child's left edge is the previous one's plus the previous child's reserved width. |
| Properties.KidEdge | src/embedder.rs:183-208 | Child `i` spans from the block start plus the widths before it, to the block start plus the widths up to and including it. |
| Properties.ChildrenInsideParent | src/embedder.rs:183-208 | The children's block lies within the parent's reserved width. |
| Properties.BlockEdges | src/embedder.rs:183-208 | The block starts at the first child's left edge and ends at the last child's right edge, which is `x_extent_of_children` further right. |
| Properties.InsideSpan | src/embedder.rs:186-188 | A block of `x_extent_of_children` starting half its width left of the centre fits inside the span of `x_extent_children` around the same centre. |
| Properties.CenterInsideParent | src/embedder.rs:183-208 | Every child's centre lies within its parent's reserved width: at most `x_extent_children / 2` from the parent's centre, on either side. |
| Properties.CentreInSpan | src/embedder.rs:186-188 | A nonempty span inside the children's block is centred inside the parent's `x_extent_children` span. |
| Properties.SiblingsDisjoint | src/embedder.rs:204-208 | For any two siblings `i < j`, child `i`'s reserved width ends at or before the left edge of child `j`'s, so sibling footprints never overlap. |
| Properties.PrefixGrows | src/embedder.rs:207 | The cursor never moves left: the sum of the children's widths over a longer prefix is no smaller. |
| EmbedExamples.EmbedEmptyTree | tests/embedder_tests.rs:13-20 | A tree without a root embeds to no records. |
| EmbedExamples.SingleNodeRecord | tests/embedder_tests.rs:22-38 | The single node "0" has level 0, centre 1, width 2, reserved width 2, no parent and `ord` 0. |
| EmbedExamples.EmbedSingleNode | tests/embedder_tests.rs:22-38 | The single-node tree embeds to exactly that one record. |
| EmbedExamples.FiveRecords | tests/embedder_tests.rs:41-106 | For the five-node shape with any distinct ids, the (centre, reserved width) pairs are: "0" (3, 6), "1" (2, 4), "2" (5, 2), "3" (1, 2), "4" (3, 2). The levels, links and `ord`s are given too. |
| EmbedExamples.FiveNodeRecords | tests/embedder_tests.rs:41-106 | The tree built in label order has those records, by id. |
| EmbedExamples.MovedNodeRecords | tests/embedder_tests.rs:108-179 | The tree reached by moving nodes has the same records, by label: id 4, labelled "3", gets centre 1. |
| EmbedExamples.EmbedFiveNodes | tests/embedder_tests.rs:61-105 | Embedding the five-node tree, whatever its ids, yields five records: exactly those above, in some order. |
| EmbedExamples.FiveShapedRecords | tests/embedder_tests.rs:66-105 | The records of any tree of that shape whose labels are one byte long. |

## Left out

- The other files of the crate are not part of this model: the SVG drawer, the layouter, the error type and the examples. They hold I/O and floating-point drawing code, not the embedder.
- The `Visualize` trait becomes two node fields: the label as bytes and the emphasis flag. A label's length is its byte length, as `String::len` is in Rust.
- The tree library is replaced by a value datatype with a distinct-ids invariant. Its traversals, `ancestor_ids`, `parent` and `height` are given their own definitions in `Trees`.
- Edits such as `move_node` are not modelled. The embedder sees only the final structure, which is why the moved-nodes test gives the same records as the other five-node test.
- Nodes that the tree library holds but that cannot be reached from the root, such as children orphaned by removing their parent, are not modelled. The embedder walks the tree from its root and never sees them, and the model's tree holds only reachable nodes.
- Integers are unbounded. A `usize` overflow in the width sums, on trees wider than the address space, is not modelled.
- The `O(n)` claim in the documentation is not modelled. The per-layer scans are in fact quadratic within a layer.
- The hash map's iteration order is modelled as an arbitrary choice. The order of the nodes collected per layer and the order of the result vector are left open, so the result is stated as a set of records keyed by node, with distinct `ord`s.
- Embedder.TransferResult: the result order is not stated. The code drains a `HashMap`, whose iteration order is unspecified, so no post-order or other stable order is promised.
- The tests look records up by position in the result. Since that order is unspecified, the examples compare records by node and label instead.
- Calls to `tree.get(..).unwrap()` and the `items.get(..).unwrap()` lookups cannot fail, because every id comes from the tree itself. The model indexes the map directly and proves each key present.
