/**
 The node aggregator: collects the leaf items under a scene node and reduces
 their flags into the per-node display record the selector renders. A folder
 is visible when SOME item under it is visible, but locked (and stream- or
 recording-visible) only when EVERY item under it is.
 */
module NodeAggregator {
  import opened Common
  import opened SceneNodes

  /** The four item flags a node summarises. */
  datatype Flag = Visible | Locked | StreamVisible | RecordingVisible

  /** The flag `f` of an item node; a folder carries no flags of its own. */
  function Has(n: Node, f: Flag): bool {
    match n
    case FolderNode(_, _, _) => false
    case ItemNode(_, _, item) =>
      match f
      case Visible => item.visible
      case Locked => item.locked
      case StreamVisible => item.streamVisible
      case RecordingVisible => item.recordingVisible
  }

  /** `items.some(i => i[f])`. */
  function SomeHas(items: seq<Node>, f: Flag): (b: bool)
    ensures b <==> exists k :: 0 <= k < |items| && Has(items[k], f)
  {
    if |items| == 0 then false
    else Has(items[0], f) || SomeHas(items[1..], f)
  }

  /** `items.every(i => i[f])`; true of the empty sequence. */
  function EveryHas(items: seq<Node>, f: Flag): (b: bool)
    ensures b <==> forall k :: 0 <= k < |items| ==> Has(items[k], f)
  {
    if |items| == 0 then true
    else Has(items[0], f) && EveryHas(items[1..], f)
  }

  /** The leaf items under the node `id`, in depth-first store order: the
      node itself when it is an item, otherwise the concatenation of the
      items under each of its children. `None` stands for the exception
      raised when no node carries `id`. */
  function ItemsForNode(nodes: seq<Node>, id: Id, ghost rank: map<Id, nat>): (r: Option<seq<Node>>)
    requires Ranked(nodes, rank)
    ensures r.None? <==> forall n | n in nodes :: n.id != id
    ensures r.Some? ==> forall k :: 0 <= k < |r.value| ==> r.value[k].ItemNode? && r.value[k] in nodes
    ensures r.Some? && FindNode(nodes, id).value.ItemNode? ==> r.value == [FindNode(nodes, id).value]
    decreases if id in rank then rank[id] else 0, 1, 0
  {
    match FindNode(nodes, id)
    case None => None
    case Some(node) =>
      if node.ItemNode? then Some([node])
      else Some(ItemsOfChildren(nodes, ChildrenOf(nodes, id), rank, id))
  }

  /** The `forEach` loop over a folder's children, concatenating the items
      under each child in turn. */
  function ItemsOfChildren(nodes: seq<Node>, children: seq<Node>, ghost rank: map<Id, nat>, ghost parent: Id): (r: seq<Node>)
    requires Ranked(nodes, rank) && parent in rank
    requires forall c | c in children :: c in nodes && c.parentId == Some(parent)
    ensures forall k :: 0 <= k < |r| ==> r[k].ItemNode? && r[k] in nodes
    decreases rank[parent], 0, |children|
  {
    if |children| == 0 then []
    else
      assert children[0] in children;
      ItemsForNode(nodes, children[0].id, rank).value
      + ItemsOfChildren(nodes, children[1..], rank, parent)
  }

  /** The items under each child, one block per child. */
  function ChildBlocks(nodes: seq<Node>, children: seq<Node>, ghost rank: map<Id, nat>, ghost parent: Id)
    : (r: seq<seq<Node>>)
    requires Ranked(nodes, rank) && parent in rank
    requires forall c | c in children :: c in nodes && c.parentId == Some(parent)
    ensures |r| == |children|
  {
    seq(|children|, k requires 0 <= k < |children| =>
      assert children[k] in children; ItemsForNode(nodes, children[k].id, rank).value)
  }

  /** The loop over the children appends the children's blocks in order. */
  lemma {:induction false} ItemsOfChildrenFlatten(nodes: seq<Node>, children: seq<Node>, rank: map<Id, nat>, parent: Id)
    requires Ranked(nodes, rank) && parent in rank
    requires forall c | c in children :: c in nodes && c.parentId == Some(parent)
    ensures ItemsOfChildren(nodes, children, rank, parent) == Flatten(ChildBlocks(nodes, children, rank, parent))
    decreases |children|
  {
    if |children| > 0 {
      var blocks := ChildBlocks(nodes, children, rank, parent);
      assert forall c | c in children[1..] :: c in children;
      ItemsOfChildrenFlatten(nodes, children[1..], rank, parent);
      assert blocks[1..] == ChildBlocks(nodes, children[1..], rank, parent);
    }
  }

  /** The items of a folder hold the items of each child as one contiguous
      block, and the blocks follow the store order of the children: the
      block of child `i` ends before the block of a later child `j` starts. */
  lemma FolderItemsInChildOrder(nodes: seq<Node>, rank: map<Id, nat>, folder: Node, i: nat, j: nat)
    returns (oi: nat, oj: nat)
    requires Ranked(nodes, rank)
    requires folder in nodes && folder.FolderNode? && FindNode(nodes, folder.id) == Some(folder)
    requires i < j < |ChildrenOf(nodes, folder.id)|
    ensures var items := ItemsForNode(nodes, folder.id, rank).value;
            var children := ChildrenOf(nodes, folder.id);
            var li := ItemsForNode(nodes, children[i].id, rank).value;
            var lj := ItemsForNode(nodes, children[j].id, rank).value;
            && oi + |li| <= oj
            && BlockAt(items, li, oi) && BlockAt(items, lj, oj)
  {
    var children := ChildrenOf(nodes, folder.id);
    var blocks := ChildBlocks(nodes, children, rank, folder.id);
    assert ItemsForNode(nodes, folder.id, rank).value == ItemsOfChildren(nodes, children, rank, folder.id);
    ItemsOfChildrenFlatten(nodes, children, rank, folder.id);
    assert blocks[i] == ItemsForNode(nodes, children[i].id, rank).value;
    assert blocks[j] == ItemsForNode(nodes, children[j].id, rank).value;
    oi, oj := FlattenBlocksInOrder(blocks, i, j);
  }

  /** An item is in the concatenation iff it is under one of the children. */
  lemma {:induction false} ItemsOfChildrenMembership(nodes: seq<Node>, children: seq<Node>, rank: map<Id, nat>, parent: Id, x: Node)
    requires Ranked(nodes, rank) && parent in rank
    requires forall c | c in children :: c in nodes && c.parentId == Some(parent)
    ensures x in ItemsOfChildren(nodes, children, rank, parent)
        <==> exists c | c in children :: x in ItemsForNode(nodes, c.id, rank).value
  {
    if |children| > 0 {
      assert children[0] in children;
      ItemsOfChildrenMembership(nodes, children[1..], rank, parent, x);
      assert forall c | c in children[1..] :: c in children;
      assert forall c | c in children :: c == children[0] || c in children[1..];
    }
  }

  /** The items collected under `id` are exactly the items of the store
      that lie under `id` (the node itself included). */
  lemma {:induction false} ItemsForNodeExact(nodes: seq<Node>, rank: map<Id, nat>, n: Node, x: Node)
    requires WellFormed(nodes, rank)
    requires n in nodes
    ensures x in ItemsForNode(nodes, n.id, rank).value
        <==> x in nodes && x.ItemNode? && Under(nodes, x, n.id, rank)
    decreases rank[n.id]
  {
    var found := FindNode(nodes, n.id).value;
    assert found == n by {
      var k :| 0 <= k < |nodes| && nodes[k] == found;
      var j :| 0 <= j < |nodes| && nodes[j] == n;
    }
    if n.FolderNode? {
      var children := ChildrenOf(nodes, n.id);
      ItemsOfChildrenMembership(nodes, children, rank, n.id, x);
      forall c | c in children
        ensures x in ItemsForNode(nodes, c.id, rank).value
            <==> x in nodes && x.ItemNode? && Under(nodes, x, c.id, rank)
      {
        ItemsForNodeExact(nodes, rank, c, x);
      }
    }
  }

  /** `canShowActions`: a node offers actions when its item list is not
      empty; like `getItemsForNode` it fails for an id no node carries. */
  function CanShowActions(nodes: seq<Node>, id: Id, ghost rank: map<Id, nat>): (r: Option<bool>)
    requires Ranked(nodes, rank)
    ensures r.None? <==> forall n | n in nodes :: n.id != id
    ensures r.Some? ==> (r.value <==> ItemsForNode(nodes, id, rank).value != [])
  {
    match ItemsForNode(nodes, id, rank)
    case None => None
    case Some(items) => Some(|items| > 0)
  }

  /** A node of a well-formed store offers actions exactly when some item
      of the store lies under it. */
  lemma CanShowActionsExact(nodes: seq<Node>, rank: map<Id, nat>, n: Node)
    requires WellFormed(nodes, rank)
    requires n in nodes
    ensures n.id in rank
    ensures CanShowActions(nodes, n.id, rank) == Some(true)
        <==> exists x | x in nodes && x.ItemNode? :: Under(nodes, x, n.id, rank)
  {
    var items := ItemsForNode(nodes, n.id, rank).value;
    ItemsUnderExact(nodes, rank, n, items);
    if |items| > 0 {
      assert items[0] in items;
    }
  }

  /** The folder icon of `determineIcon`: open when the folder id is in the
      expanded list, closed otherwise. The icon of a leaf comes from display
      catalogs outside this model, so it is kept symbolic. */
  datatype Icon = FolderOpen | FolderClosed | SourceIcon(sourceId: string)

  function DetermineIcon(isLeaf: bool, key: string, expanded: seq<Id>): (r: Icon)
    ensures !isLeaf ==> (r == FolderOpen <==> key in expanded) && !r.SourceIcon?
    ensures isLeaf ==> r == SourceIcon(key)
  {
    if !isLeaf then (if key in expanded then FolderOpen else FolderClosed)
    else SourceIcon(key)
  }

  /** The node title: a folder's own name, or the name of an item's source
      (kept symbolic: source names live outside this model). */
  datatype Title = FolderName(name: string) | SourceName(sourceId: string)

  /** The per-node display record (`ISourceMetadata`). */
  datatype NodeView = NodeView(
    id: Id,
    title: Title,
    icon: Icon,
    isVisible: bool,
    isLocked: bool,
    isRecordingVisible: bool,
    isStreamVisible: bool,
    parentId: Option<Id>,
    isFolder: bool)

  /** The display record of one node of the store. */
  function ViewOf(nodes: seq<Node>, node: Node, expanded: seq<Id>, ghost rank: map<Id, nat>): (v: NodeView)
    requires Ranked(nodes, rank)
    requires node in nodes
    ensures v.id == node.id && v.parentId == node.parentId
    ensures v.isFolder <==> !node.ItemNode?
    ensures var items := ItemsForNode(nodes, node.id, rank).value;
            && (v.isVisible <==> exists k :: 0 <= k < |items| && Has(items[k], Visible))
            && (v.isLocked <==> forall k :: 0 <= k < |items| ==> Has(items[k], Locked))
            && (v.isRecordingVisible <==> forall k :: 0 <= k < |items| ==> Has(items[k], RecordingVisible))
            && (v.isStreamVisible <==> forall k :: 0 <= k < |items| ==> Has(items[k], StreamVisible))
    ensures v.isFolder ==> (v.icon == FolderOpen <==> node.id in expanded)
  {
    var items := ItemsForNode(nodes, node.id, rank).value;
    var isFolder := !node.ItemNode?;
    NodeView(
      node.id,
      if isFolder then FolderName(node.name) else SourceName(node.item.sourceId),
      DetermineIcon(!isFolder, if isFolder then node.id else node.item.sourceId, expanded),
      SomeHas(items, Visible),
      EveryHas(items, Locked),
      EveryHas(items, RecordingVisible),
      EveryHas(items, StreamVisible),
      node.parentId,
      isFolder)
  }

  /** The `nodeData` getter: one display record per node, in store order. */
  function NodeData(nodes: seq<Node>, expanded: seq<Id>, ghost rank: map<Id, nat>): (r: seq<NodeView>)
    requires Ranked(nodes, rank)
    ensures |r| == |nodes|
    ensures forall k :: 0 <= k < |nodes| ==> r[k].id == nodes[k].id && r[k].parentId == nodes[k].parentId
    ensures forall k :: 0 <= k < |nodes| ==> (r[k].isFolder <==> nodes[k].FolderNode?)
    ensures forall k :: 0 <= k < |nodes| ==> r[k] == ViewOf(nodes, nodes[k], expanded, rank)
  {
    seq(|nodes|, k requires 0 <= k < |nodes| => ViewOf(nodes, nodes[k], expanded, rank))
  }

  /** The folder rules of the aggregator stated over the tree itself: a node
      is visible iff some item under it is visible, and locked (stream- or
      recording-visible) iff every item under it is. */
  lemma AggregatedFlags(nodes: seq<Node>, expanded: seq<Id>, rank: map<Id, nat>, node: Node)
    requires WellFormed(nodes, rank)
    requires node in nodes
    ensures var v := ViewOf(nodes, node, expanded, rank);
            && (v.isVisible <==> exists x | x in nodes && x.ItemNode? && Under(nodes, x, node.id, rank) :: Has(x, Visible))
            && (v.isLocked <==> forall x | x in nodes && x.ItemNode? && Under(nodes, x, node.id, rank) :: Has(x, Locked))
            && (v.isStreamVisible <==> forall x | x in nodes && x.ItemNode? && Under(nodes, x, node.id, rank) :: Has(x, StreamVisible))
            && (v.isRecordingVisible <==> forall x | x in nodes && x.ItemNode? && Under(nodes, x, node.id, rank) :: Has(x, RecordingVisible))
  {
    var items := ItemsForNode(nodes, node.id, rank).value;
    ItemsUnderExact(nodes, rank, node, items);
    SomeHasExact(nodes, rank, node.id, items, Visible);
    EveryHasExact(nodes, rank, node.id, items, Locked);
    EveryHasExact(nodes, rank, node.id, items, StreamVisible);
    EveryHasExact(nodes, rank, node.id, items, RecordingVisible);
  }

  /** The items `ItemsForNode` lists are exactly the items under the node. */
  lemma ItemsUnderExact(nodes: seq<Node>, rank: map<Id, nat>, node: Node, items: seq<Node>)
    requires WellFormed(nodes, rank)
    requires node in nodes && items == ItemsForNode(nodes, node.id, rank).value
    ensures node.id in rank
    ensures forall x :: x in items <==> x in nodes && x.ItemNode? && Under(nodes, x, node.id, rank)
  {
    forall x
      ensures x in items <==> x in nodes && x.ItemNode? && Under(nodes, x, node.id, rank)
    {
      ItemsForNodeExact(nodes, rank, node, x);
    }
  }

  /** `SomeHas` over the exact items under `id`, stated over the tree. */
  lemma SomeHasExact(nodes: seq<Node>, rank: map<Id, nat>, id: Id, items: seq<Node>, f: Flag)
    requires Ranked(nodes, rank) && id in rank
    requires forall x :: x in items <==> x in nodes && x.ItemNode? && Under(nodes, x, id, rank)
    ensures SomeHas(items, f) <==> exists x | x in nodes && x.ItemNode? && Under(nodes, x, id, rank) :: Has(x, f)
  {
    if SomeHas(items, f) {
      var k :| 0 <= k < |items| && Has(items[k], f);
      assert items[k] in items;
    }
  }

  /** `EveryHas` over the exact items under `id`, stated over the tree. */
  lemma EveryHasExact(nodes: seq<Node>, rank: map<Id, nat>, id: Id, items: seq<Node>, f: Flag)
    requires Ranked(nodes, rank) && id in rank
    requires forall x :: x in items <==> x in nodes && x.ItemNode? && Under(nodes, x, id, rank)
    ensures EveryHas(items, f) <==> forall x | x in nodes && x.ItemNode? && Under(nodes, x, id, rank) :: Has(x, f)
  {
    if !EveryHas(items, f) {
      var k :| 0 <= k < |items| && !Has(items[k], f);
      assert items[k] in items;
    }
  }

  /** A folder with no item under it shows as hidden, yet locked and
      visible on both stream and recording (vacuous truth of `every`). */
  lemma EmptyFolderView(nodes: seq<Node>, expanded: seq<Id>, rank: map<Id, nat>, folder: Node)
    requires WellFormed(nodes, rank)
    requires folder in nodes && folder.FolderNode?
    requires forall x | x in nodes && x.ItemNode? :: !Under(nodes, x, folder.id, rank)
    ensures var v := ViewOf(nodes, folder, expanded, rank);
            !v.isVisible && v.isLocked && v.isStreamVisible && v.isRecordingVisible && v.isFolder
  {
    AggregatedFlags(nodes, expanded, rank, folder);
  }

  /** One step of the `forEach` loop. */
  lemma ItemsOfChildrenUnfold(nodes: seq<Node>, children: seq<Node>, rank: map<Id, nat>, parent: Id)
    requires Ranked(nodes, rank) && parent in rank
    requires forall c | c in children :: c in nodes && c.parentId == Some(parent)
    requires |children| > 0
    ensures forall c | c in children[1..] :: c in nodes && c.parentId == Some(parent)
    ensures ItemsOfChildren(nodes, children, rank, parent)
         == ItemsForNode(nodes, children[0].id, rank).value + ItemsOfChildren(nodes, children[1..], rank, parent)
  {
    assert forall c | c in children[1..] :: c in children;
  }

  /** Children that are all items (each the node its id finds) contribute
      themselves, in order. */
  lemma {:induction false} ItemChildren(nodes: seq<Node>, children: seq<Node>, rank: map<Id, nat>, parent: Id)
    requires Ranked(nodes, rank) && parent in rank
    requires forall c | c in children :: c in nodes && c.parentId == Some(parent)
    requires forall c | c in children :: c.ItemNode? && FindNode(nodes, c.id) == Some(c)
    ensures ItemsOfChildren(nodes, children, rank, parent) == children
    decreases |children|
  {
    if |children| > 0 {
      assert children[0] in children;
      ItemsOfChildrenUnfold(nodes, children, rank, parent);
      ItemChildren(nodes, children[1..], rank, parent);
      assert [children[0]] + children[1..] == children;
    }
  }

  // ---------------------------------------------------------------------
  // A worked store: a folder with two items, next to a top-level item
  // ---------------------------------------------------------------------

  /** The store of a folder `a` holding items `x` and `y`, next to a
      top-level item `z`. */
  function Store(a: Id, x: Id, y: Id, z: Id, ix: ItemState, iy: ItemState, iz: ItemState): seq<Node> {
    [FolderNode(a, None, "Folder"), ItemNode(x, Some(a), ix), ItemNode(y, Some(a), iy), ItemNode(z, None, iz)]
  }

  /** The four ids of the worked store are pairwise different. */
  predicate Distinct(a: Id, x: Id, y: Id, z: Id) {
    a != x && a != y && a != z && x != y && x != z && y != z
  }

  /** The folder ranks above its items. */
  lemma StoreRanked(a: Id, x: Id, y: Id, z: Id, ix: ItemState, iy: ItemState, iz: ItemState)
    requires Distinct(a, x, y, z)
    ensures Ranked(Store(a, x, y, z, ix, iy, iz), map[a := 1, x := 0, y := 0, z := 0])
  {
  }

  /** Each of the folder and its two items is found at its own position. */
  lemma StoreFind(a: Id, x: Id, y: Id, z: Id, ix: ItemState, iy: ItemState, iz: ItemState)
    requires Distinct(a, x, y, z)
    ensures var nodes := Store(a, x, y, z, ix, iy, iz);
            && FindNode(nodes, a) == Some(nodes[0])
            && FindNode(nodes, x) == Some(nodes[1])
            && FindNode(nodes, y) == Some(nodes[2])
  {
    var nodes := Store(a, x, y, z, ix, iy, iz);
    assert nodes[1..] == [nodes[1], nodes[2], nodes[3]];
    assert nodes[1..][1..] == [nodes[2], nodes[3]];
  }

  /** The folder's children are its two items, in store order. */
  lemma StoreChildren(a: Id, x: Id, y: Id, z: Id, ix: ItemState, iy: ItemState, iz: ItemState)
    requires Distinct(a, x, y, z)
    ensures var nodes := Store(a, x, y, z, ix, iy, iz);
            ChildrenOf(nodes, a) == [nodes[1], nodes[2]]
  {
    var nodes := Store(a, x, y, z, ix, iy, iz);
    var p := HasParent(a);
    var n1, n2, n3 := nodes[1], nodes[2], nodes[3];
    assert nodes[1..] == [n1, n2, n3];
    assert [n1, n2, n3][1..] == [n2, n3];
    assert [n2, n3][1..] == [n3];
    assert [n3][1..] == [];
    assert Filter([n3], p) == [];
    assert Filter([n2, n3], p) == [n2];
    assert Filter([n1, n2, n3], p) == [n1, n2];
  }

  /** The two items are in the store and name the folder as parent. */
  lemma StoreKidsInStore(a: Id, x: Id, y: Id, z: Id, ix: ItemState, iy: ItemState, iz: ItemState)
    ensures var nodes := Store(a, x, y, z, ix, iy, iz);
            forall c | c in [nodes[1], nodes[2]] :: c in nodes && c.parentId == Some(a)
  {
    var nodes := Store(a, x, y, z, ix, iy, iz);
    forall c | c in [nodes[1], nodes[2]] ensures c in nodes && c.parentId == Some(a) {
      assert c == nodes[1] || c == nodes[2];
    }
  }

  /** Each of the two items is an item that its id finds. */
  lemma StoreKidsFound(a: Id, x: Id, y: Id, z: Id, ix: ItemState, iy: ItemState, iz: ItemState)
    requires Distinct(a, x, y, z)
    ensures var nodes := Store(a, x, y, z, ix, iy, iz);
            forall c | c in [nodes[1], nodes[2]] :: c.ItemNode? && FindNode(nodes, c.id) == Some(c)
  {
    var nodes := Store(a, x, y, z, ix, iy, iz);
    StoreFind(a, x, y, z, ix, iy, iz);
    var n1, n2 := nodes[1], nodes[2];
    assert n1.ItemNode? && FindNode(nodes, n1.id) == Some(n1);
    assert n2.ItemNode? && FindNode(nodes, n2.id) == Some(n2);
    forall c | c in [n1, n2] ensures c.ItemNode? && FindNode(nodes, c.id) == Some(c) {
      assert c == n1 || c == n2;
    }
  }

  /** In that store the items under `a` are `[x, y]`, in store order, and
      nothing else: `z` and the folder itself are left out. */
  lemma StoreItems(a: Id, x: Id, y: Id, z: Id, ix: ItemState, iy: ItemState, iz: ItemState)
    requires Distinct(a, x, y, z)
    ensures var nodes := Store(a, x, y, z, ix, iy, iz);
            var rank := map[a := 1, x := 0, y := 0, z := 0];
            && Ranked(nodes, rank)
            && ItemsForNode(nodes, a, rank) == Some([nodes[1], nodes[2]])
  {
    var nodes := Store(a, x, y, z, ix, iy, iz);
    var rank := map[a := 1, x := 0, y := 0, z := 0];
    StoreRanked(a, x, y, z, ix, iy, iz);
    StoreFind(a, x, y, z, ix, iy, iz);
    StoreChildren(a, x, y, z, ix, iy, iz);
    StoreKidsInStore(a, x, y, z, ix, iy, iz);
    StoreKidsFound(a, x, y, z, ix, iy, iz);
    ItemChildren(nodes, [nodes[1], nodes[2]], rank, a);
  }
}
