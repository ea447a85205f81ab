/**
 The tree builder (`getTreeData`): turns the flat list of display records
 into the nested tree the tree widget renders. The top level holds the
 records whose parent id is falsy; a folder's children are the records whose
 parent id is that folder's id, in input order. Folders are never leaves,
 even when empty, so that they stay drop targets.
 */
module TreeBuilder {
  import opened Common
  import opened SceneNodes
  import opened NodeAggregator

  /** One node of the rendered tree (the widget's `DataNode`); the title
      markup is represented by the display record it is drawn from. */
  datatype TreeNode = TreeNode(
    key: Id,
    view: NodeView,
    switcherIcon: Icon,
    isLeaf: bool,
    children: Option<seq<TreeNode>>)

  // The tree is built from the display records rather than from the store
  // (line 94 filters `nodeData`), so the store's acyclicity (`Ranked`), its
  // parent filter (`HasParent`) and its children (`ChildrenOf`) are mirrored
  // here over records: `RankedViews`, `ParentIs` and `ChildViews`.

  /** Acyclicity of the parent pointers of the display records. */
  ghost predicate RankedViews(views: seq<NodeView>, rank: map<Id, nat>) {
    forall v | v in views ::
      && v.id in rank
      && (v.parentId.Some? && v.parentId.value in rank ==> rank[v.id] < rank[v.parentId.value])
  }

  /** The filter predicate `n => n.parentId === id`. */
  function ParentIs(id: Id): NodeView -> bool {
    (v: NodeView) => v.parentId == Some(id)
  }

  /** The filter predicate `n => !n.parentId`. */
  predicate IsRootView(v: NodeView) {
    IsRoot(v.parentId)
  }

  /** `nodeData.filter(n => n.parentId === id)`. */
  function ChildViews(views: seq<NodeView>, id: Id): (r: seq<NodeView>)
    ensures forall v :: v in r <==> v in views && v.parentId == Some(id)
  {
    Filter(views, ParentIs(id))
  }

  /** `nodeData.filter(n => !n.parentId)`. */
  function RootViews(views: seq<NodeView>): (r: seq<NodeView>)
    ensures forall v :: v in r <==> v in views && IsRoot(v.parentId)
  {
    Filter(views, IsRootView)
  }

  /** The shape `getTreeData` gives every node of the tree, at every depth:
      the node is drawn from a record of the input, keyed by its id; it is a
      leaf exactly when the record is not a folder; and a folder's children
      are drawn, in input order, from exactly the records naming it as
      parent, each again of this shape. */
  ghost predicate WellBuilt(views: seq<NodeView>, t: TreeNode, rank: map<Id, nat>)
    requires RankedViews(views, rank)
    decreases if t.view.id in rank then rank[t.view.id] else 0
  {
    && t.view in views
    && t.key == t.view.id && t.switcherIcon == t.view.icon
    && (t.isLeaf <==> !t.view.isFolder)
    && (t.isLeaf <==> t.children.None?)
    && (t.children.Some? ==>
          var kids := ChildViews(views, t.key);
          && |t.children.value| == |kids|
          && forall i :: 0 <= i < |kids| ==>
               t.children.value[i].view == kids[i] && WellBuilt(views, t.children.value[i], rank))
  }

  /** The tree node drawn for one record; a folder gets its children built
      recursively, an item gets none. */
  function BuildNode(views: seq<NodeView>, v: NodeView, ghost rank: map<Id, nat>): (t: TreeNode)
    requires RankedViews(views, rank)
    requires v in views
    ensures t.view == v && WellBuilt(views, t, rank)
    decreases rank[v.id]
  {
    var children: Option<seq<TreeNode>> :=
      if v.isFolder then
        var kids := ChildViews(views, v.id);
        Some(seq(|kids|, i requires 0 <= i < |kids| => BuildNode(views, kids[i], rank)))
      else None;
    TreeNode(v.id, v, v.icon, children.None?, children)
  }

  /** `getTreeData`: the tree nodes of the top-level records, in input order. */
  function GetTreeData(views: seq<NodeView>, ghost rank: map<Id, nat>): (r: seq<TreeNode>)
    requires RankedViews(views, rank)
    ensures var roots := RootViews(views);
            && |r| == |roots|
            && forall i :: 0 <= i < |roots| ==> r[i].view == roots[i] && WellBuilt(views, r[i], rank)
  {
    var roots := RootViews(views);
    seq(|roots|, i requires 0 <= i < |roots| => BuildNode(views, roots[i], rank))
  }

  /** The shape fixes the tree: a tree node of that shape drawn from a
      record is the node `BuildNode` draws for it. */
  lemma {:induction false} WellBuiltIsBuilt(views: seq<NodeView>, rank: map<Id, nat>, t: TreeNode)
    requires RankedViews(views, rank)
    requires WellBuilt(views, t, rank)
    ensures t == BuildNode(views, t.view, rank)
    decreases rank[t.view.id]
  {
    var b := BuildNode(views, t.view, rank);
    if t.children.Some? {
      var kids := ChildViews(views, t.key);
      forall i | 0 <= i < |kids| ensures t.children.value[i] == b.children.value[i] {
        WellBuiltIsBuilt(views, rank, t.children.value[i]);
      }
      assert t.children.value == b.children.value;
    }
  }

  /** The top level holds exactly the records with a falsy parent id. */
  lemma TopLevelExactlyRoots(views: seq<NodeView>, rank: map<Id, nat>)
    requires RankedViews(views, rank)
    ensures forall t | t in GetTreeData(views, rank) :: t.view in views && IsRoot(t.view.parentId)
    ensures forall v | v in views && IsRoot(v.parentId) ::
              exists t | t in GetTreeData(views, rank) :: t.view == v
  {
    var r := GetTreeData(views, rank);
    var roots := RootViews(views);
    forall t | t in r ensures t.view in views && IsRoot(t.view.parentId) {
      var i :| 0 <= i < |r| && r[i] == t;
      assert t.view == roots[i] && roots[i] in roots;
    }
    forall v | v in views && IsRoot(v.parentId) ensures exists t | t in r :: t.view == v {
      var i :| 0 <= i < |roots| && roots[i] == v;
      assert r[i] in r && r[i].view == v;
    }
  }

  /** Top-level order follows input order: the tree nodes at positions
      k1 < k2 are drawn from the root records at a < b. */
  lemma TopLevelOrder(views: seq<NodeView>, rank: map<Id, nat>, a: nat, b: nat)
    returns (k1: nat, k2: nat)
    requires RankedViews(views, rank)
    requires a < b < |views|
    requires IsRoot(views[a].parentId) && IsRoot(views[b].parentId)
    ensures k1 < k2 < |GetTreeData(views, rank)|
    ensures GetTreeData(views, rank)[k1].view == views[a]
    ensures GetTreeData(views, rank)[k2].view == views[b]
  {
    k1, k2 := FilterKeepsOrder(views, IsRootView, a, b);
  }

  /** A folder's children are exactly the records naming it as parent; an
      item has none. */
  lemma ChildrenExactly(views: seq<NodeView>, rank: map<Id, nat>, v: NodeView)
    requires RankedViews(views, rank)
    requires v in views
    ensures var t := BuildNode(views, v, rank);
            && (v.isFolder <==> t.children.Some?)
            && (t.children.Some? ==>
                  && (forall c | c in t.children.value :: c.view in views && c.view.parentId == Some(v.id))
                  && (forall w | w in views && w.parentId == Some(v.id) ::
                        exists c | c in t.children.value :: c.view == w))
  {
    var t := BuildNode(views, v, rank);
    if t.children.Some? {
      var ch := t.children.value;
      var kids := ChildViews(views, v.id);
      forall c | c in ch ensures c.view in views && c.view.parentId == Some(v.id) {
        var i :| 0 <= i < |ch| && ch[i] == c;
        assert c.view == kids[i] && kids[i] in kids;
      }
      forall w | w in views && w.parentId == Some(v.id) ensures exists c | c in ch :: c.view == w {
        assert w in kids;
        var i :| 0 <= i < |kids| && kids[i] == w;
        assert ch[i] in ch && ch[i].view == w;
      }
    }
  }

  /** Siblings keep their input order under their folder: the children at
      positions k1 < k2 are drawn from the records at a < b. */
  lemma ChildrenOrder(views: seq<NodeView>, rank: map<Id, nat>, v: NodeView, a: nat, b: nat)
    returns (k1: nat, k2: nat)
    requires RankedViews(views, rank)
    requires v in views && v.isFolder
    requires a < b < |views|
    requires views[a].parentId == Some(v.id) && views[b].parentId == Some(v.id)
    ensures BuildNode(views, v, rank).children.Some?
    ensures k1 < k2 < |BuildNode(views, v, rank).children.value|
    ensures BuildNode(views, v, rank).children.value[k1].view == views[a]
    ensures BuildNode(views, v, rank).children.value[k2].view == views[b]
  {
    k1, k2 := FilterKeepsOrder(views, ParentIs(v.id), a, b);
  }

  /** A folder without children is still not a leaf. */
  lemma EmptyFolderIsNotLeaf(views: seq<NodeView>, rank: map<Id, nat>, v: NodeView)
    requires RankedViews(views, rank)
    requires v in views && v.isFolder
    requires forall w | w in views :: w.parentId != Some(v.id)
    ensures var t := BuildNode(views, v, rank);
            !t.isLeaf && t.children == Some([])
  {
    var t := BuildNode(views, v, rank);
    var kids := ChildViews(views, v.id);
    FilterNone(views, ParentIs(v.id));
  }

  /** The records of an acyclic store inherit its rank, so the tree of any
      acyclic store can be built; its top level is keyed by exactly the
      store's nodes with a falsy parent. */
  lemma NodeDataRanked(nodes: seq<Node>, expanded: seq<Id>, rank: map<Id, nat>)
    requires Ranked(nodes, rank)
    ensures RankedViews(NodeData(nodes, expanded, rank), rank)
    ensures var tree := GetTreeData(NodeData(nodes, expanded, rank), rank);
            && (forall t | t in tree :: exists n | n in nodes :: t.key == n.id && IsRoot(n.parentId))
            && (forall n | n in nodes && IsRoot(n.parentId) :: exists t | t in tree :: t.key == n.id)
  {
    var views := NodeData(nodes, expanded, rank);
    StoreRecordsRanked(nodes, expanded, rank);
    var tree := GetTreeData(views, rank);
    TopLevelExactlyRoots(views, rank);
    forall t | t in tree ensures exists n | n in nodes :: t.key == n.id && IsRoot(n.parentId) {
      var k :| 0 <= k < |views| && views[k] == t.view;
      assert nodes[k] in nodes;
      assert WellBuilt(views, t, rank);
    }
    forall n | n in nodes && IsRoot(n.parentId) ensures exists t | t in tree :: t.key == n.id {
      var k :| 0 <= k < |nodes| && nodes[k] == n;
      assert views[k] in views;
      var t :| t in tree && t.view == views[k];
      assert WellBuilt(views, t, rank);
    }
  }

  /** The rank of the store carries over to its records. */
  lemma StoreRecordsRanked(nodes: seq<Node>, expanded: seq<Id>, rank: map<Id, nat>)
    requires Ranked(nodes, rank)
    ensures RankedViews(NodeData(nodes, expanded, rank), rank)
  {
    var views := NodeData(nodes, expanded, rank);
    forall v | v in views
      ensures v.id in rank
      ensures v.parentId.Some? && v.parentId.value in rank ==> rank[v.id] < rank[v.parentId.value]
    {
      var k :| 0 <= k < |views| && views[k] == v;
      assert nodes[k] in nodes;
    }
  }
}
