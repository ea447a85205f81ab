/**
 The flat node store of a scene, as the source selector reads it: a
 sequence of scene nodes, each either a leaf item (backed by a source, with
 its display flags) or a folder, and each pointing to its parent folder by
 id. The tree is never stored; it is recovered from the parent pointers.
 */
module SceneNodes {
  import opened Common

  type Id = string

  /** The per-item flags the selector reads and toggles. */
  datatype ItemState = ItemState(
    sourceId: string,
    visible: bool,
    locked: bool,
    streamVisible: bool,
    recordingVisible: bool)

  /** A scene node; `parentId` is `None` for a node at the top of the scene. */
  datatype Node =
    | ItemNode(id: Id, parentId: Option<Id>, item: ItemState)
    | FolderNode(id: Id, parentId: Option<Id>, name: string)

  /** JavaScript falsiness of an optional id: `undefined` and `""` both
      count as "no parent". */
  predicate IsRoot(parentId: Option<Id>) {
    parentId.None? || parentId.value == ""
  }

  /** `nodes.find(n => n.id === id)`: the FIRST node carrying `id`. */
  function FindNode(nodes: seq<Node>, id: Id): (r: Option<Node>)
    ensures r.None? <==> forall n | n in nodes :: n.id != id
    ensures r.Some? ==> r.value in nodes && r.value.id == id
  {
    if |nodes| == 0 then None
    else if nodes[0].id == id then Some(nodes[0])
    else FindNode(nodes[1..], id)
  }

  /** The node found is the first one carrying the id: it sits at index `k`
      and no earlier node carries the id. */
  lemma {:induction false} FindNodeFirst(nodes: seq<Node>, id: Id) returns (k: nat)
    requires FindNode(nodes, id).Some?
    ensures k < |nodes| && nodes[k] == FindNode(nodes, id).value
    ensures forall j :: 0 <= j < k ==> nodes[j].id != id
  {
    if nodes[0].id == id {
      k := 0;
    } else {
      var k' := FindNodeFirst(nodes[1..], id);
      k := k' + 1;
    }
  }

  /** The filter predicate `n => n.parentId === id`. */
  function HasParent(id: Id): Node -> bool {
    (n: Node) => n.parentId == Some(id)
  }

  /** `nodes.filter(n => n.parentId === id)`: the direct children of `id`
      in store order. */
  function ChildrenOf(nodes: seq<Node>, id: Id): (r: seq<Node>)
    ensures forall n :: n in r <==> n in nodes && n.parentId == Some(id)
  {
    Filter(nodes, HasParent(id))
  }

  /** The ids of the nodes, in store order. */
  function Ids(nodes: seq<Node>): (r: seq<Id>)
    ensures |r| == |nodes|
    ensures forall k :: 0 <= k < |nodes| ==> r[k] == nodes[k].id
  {
    seq(|nodes|, k requires 0 <= k < |nodes| => nodes[k].id)
  }

  /** Acyclicity of the parent pointers, witnessed by a rank that strictly
      drops from every parent to each of its children. Every recursion down
      the tree decreases this rank. */
  ghost predicate Ranked(nodes: seq<Node>, rank: map<Id, nat>) {
    forall n | n in nodes ::
      && n.id in rank
      && (n.parentId.Some? && n.parentId.value in rank ==> rank[n.id] < rank[n.parentId.value])
  }

  /** No two nodes share an id. */
  ghost predicate UniqueIds(nodes: seq<Node>) {
    forall i, j | 0 <= i < |nodes| && 0 <= j < |nodes| && i != j :: nodes[i].id != nodes[j].id
  }

  /** Some folder of the store carries `id`. */
  ghost predicate IsFolderId(nodes: seq<Node>, id: Id) {
    exists p | p in nodes :: p.id == id && p.FolderNode?
  }

  /** Every parent pointer that is not falsy names a folder of the store. */
  ghost predicate ParentsAreFolders(nodes: seq<Node>) {
    forall n | n in nodes && !IsRoot(n.parentId) :: IsFolderId(nodes, n.parentId.value)
  }

  /** Node ids are generated and never empty, so no node can be named by a
      falsy parent pointer. */
  ghost predicate NonEmptyIds(nodes: seq<Node>) {
    forall n | n in nodes :: n.id != ""
  }

  /** The store invariants of the scene: unique, non-empty ids, parents are
      folders, and no node is its own ancestor. */
  ghost predicate WellFormed(nodes: seq<Node>, rank: map<Id, nat>) {
    Ranked(nodes, rank) && UniqueIds(nodes) && NonEmptyIds(nodes) && ParentsAreFolders(nodes)
  }

  /** `x` is the node `id` itself or lies somewhere beneath it, following
      parent pointers downward from `id`. */
  ghost predicate Under(nodes: seq<Node>, x: Node, id: Id, rank: map<Id, nat>)
    requires Ranked(nodes, rank)
    requires id in rank
    decreases rank[id]
  {
    || x.id == id
    || exists c | c in nodes && c.parentId == Some(id) :: Under(nodes, x, c.id, rank)
  }

  /** A folder created at the top of the scene carries the empty parent id;
      such a store, with an item inside the folder, is well formed. */
  lemma BlankParentStore(item: ItemState)
    ensures var nodes := [FolderNode("f", Some(""), "Folder"), ItemNode("x", Some("f"), item)];
            WellFormed(nodes, map["f" := 1, "x" := 0]) && IsRoot(nodes[0].parentId)
  {
    var nodes := [FolderNode("f", Some(""), "Folder"), ItemNode("x", Some("f"), item)];
    assert IsFolderId(nodes, "f") by { assert nodes[0] in nodes; }
  }
}
