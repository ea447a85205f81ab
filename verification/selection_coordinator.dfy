/**
 The selection coordinator: click selection (`makeActive`), folder
 expand/collapse (`toggleFolder`) and the auto-expansion of the selected
 node's ancestors when the selection changes from elsewhere
 (`expandSelectedFolders`). A one-shot guard flag, raised by every click
 handled here, makes the next auto-expansion do nothing but lower the flag.
 */
module SelectionCoordinator {
  import opened Common
  import opened SceneNodes

  /** The selector's own state: the ids of the expanded folders and the
      one-shot guard `callCameFromInsideTheHouse`. */
  datatype SelectorState = SelectorState(expandedFoldersIds: seq<Id>, callCameFromInside: bool)

  /** A click on a tree node, with the modifier keys held. */
  datatype Click = Click(key: Id, ctrlKey: bool, shiftKey: bool)

  /** The outcome of a click: the new selector state and the ids handed to
      the selection service. */
  datatype Clicked = Clicked(state: SelectorState, ids: seq<Id>)

  /** The anchor of a range selection: the last selected id. */
  function Anchor(selected: seq<Id>): Id
    requires |selected| > 0
  {
    selected[|selected| - 1]
  }

  /** A shift-click is modelled only when both the anchor and the clicked id
      occur in the flat order (otherwise the source slices with index -1). */
  predicate ShiftRangeDefined(selected: seq<Id>, order: seq<Id>, key: Id) {
    |selected| > 0 && Anchor(selected) in order && key in order
  }

  /** The first positions of the anchor and the clicked id, in order. */
  function RangeLo(order: seq<Id>, anchor: Id, key: Id): int {
    var i1, i2 := IndexOf(order, anchor), IndexOf(order, key);
    if i1 <= i2 then i1 else i2
  }

  function RangeHi(order: seq<Id>, anchor: Id, key: Id): int {
    var i1, i2 := IndexOf(order, anchor), IndexOf(order, key);
    if i1 <= i2 then i2 else i1
  }

  /** The inclusive slice of `order` between the first positions of `anchor`
      and `key`, whichever comes first. */
  function RangeBetween(order: seq<Id>, anchor: Id, key: Id): (r: seq<Id>)
    requires anchor in order && key in order
    ensures 0 <= RangeLo(order, anchor, key) <= RangeHi(order, anchor, key) < |order|
    ensures |r| == RangeHi(order, anchor, key) - RangeLo(order, anchor, key) + 1
    ensures forall k :: 0 <= k < |r| ==> r[k] == order[RangeLo(order, anchor, key) + k]
  {
    var idx1 := IndexOf(order, anchor);
    var idx2 := IndexOf(order, key);
    var swapIdx := idx1 > idx2;
    order[(if swapIdx then idx2 else idx1)..(if swapIdx then idx1 + 1 else idx2 + 1)]
  }

  /** `makeActive`: a plain click selects the clicked node alone; ctrl
      (checked first) appends it to the current selection without removing
      duplicates; shift selects the inclusive range from the anchor, taken
      from the ids of `nodeData`, that is the store order of the nodes
      (which can differ from the order the tree draws them in). Every click
      raises the guard flag. */
  function MakeActive(state: SelectorState, selected: seq<Id>, nodes: seq<Node>, click: Click): (r: Clicked)
    requires !click.ctrlKey && click.shiftKey ==> ShiftRangeDefined(selected, Ids(nodes), click.key)
    ensures r.state.callCameFromInside
    ensures r.state.expandedFoldersIds == state.expandedFoldersIds
    ensures !click.ctrlKey && !click.shiftKey ==> r.ids == [click.key]
    ensures click.ctrlKey ==> r.ids == selected + [click.key]
    ensures !click.ctrlKey && click.shiftKey ==>
              && click.key in r.ids && Anchor(selected) in r.ids
              && r.ids == RangeBetween(Ids(nodes), Anchor(selected), click.key)
              && forall x | x in r.ids :: exists n | n in nodes :: n.id == x
  {
    var order := Ids(nodes);
    var ids :=
      if click.ctrlKey then selected + [click.key]
      else if click.shiftKey then RangeBetween(order, Anchor(selected), click.key)
      else [click.key];
    assert !click.ctrlKey && click.shiftKey ==> click.key in ids && Anchor(selected) in ids by {
      if !click.ctrlKey && click.shiftKey {
        RangeEndpoints(order, Anchor(selected), click.key);
      }
    }
    assert !click.ctrlKey && click.shiftKey ==> forall x | x in ids :: exists n | n in nodes :: n.id == x by {
      if !click.ctrlKey && click.shiftKey {
        forall x | x in ids ensures exists n | n in nodes :: n.id == x {
          var k :| 0 <= k < |order| && order[k] == x;
          assert nodes[k] in nodes;
        }
      }
    }
    Clicked(SelectorState(state.expandedFoldersIds, true), ids)
  }

  /** Both the anchor and the clicked id are in the range, at its two ends. */
  lemma RangeEndpoints(order: seq<Id>, anchor: Id, key: Id)
    requires anchor in order && key in order
    ensures var r := RangeBetween(order, anchor, key);
            && anchor in r && key in r
            && ((r[0] == anchor && r[|r| - 1] == key) || (r[0] == key && r[|r| - 1] == anchor))
  {
    var r := RangeBetween(order, anchor, key);
    var lo, hi := RangeLo(order, anchor, key), RangeHi(order, anchor, key);
    assert r[0] == order[lo] && r[hi - lo] == order[hi];
  }

  /** A range selection does not depend on which end is the anchor. */
  lemma RangeSymmetric(order: seq<Id>, a: Id, b: Id)
    requires a in order && b in order
    ensures RangeBetween(order, a, b) == RangeBetween(order, b, a)
  {
  }

  /** An id is in the range iff it sits in `order` between the two ends. */
  lemma RangeMembership(order: seq<Id>, anchor: Id, key: Id, x: Id)
    requires anchor in order && key in order
    ensures x in RangeBetween(order, anchor, key)
        <==> exists k :: RangeLo(order, anchor, key) <= k <= RangeHi(order, anchor, key) && order[k] == x
  {
    SliceMembership(order, RangeLo(order, anchor, key), RangeHi(order, anchor, key),
                    RangeBetween(order, anchor, key), x);
  }

  /** Membership in a contiguous slice `r` of `order` from `lo` to `hi`. */
  lemma SliceMembership(order: seq<Id>, lo: int, hi: int, r: seq<Id>, x: Id)
    requires 0 <= lo <= hi < |order| && |r| == hi - lo + 1
    requires forall k :: 0 <= k < |r| ==> r[k] == order[lo + k]
    ensures x in r <==> exists k :: lo <= k <= hi && order[k] == x
  {
    if x in r {
      var k :| 0 <= k < |r| && r[k] == x;
      assert order[lo + k] == x;
    }
    if exists k :: lo <= k <= hi && order[k] == x {
      var k :| lo <= k <= hi && order[k] == x;
      assert r[k - lo] == x;
    }
  }

  /** With `X` selected in a store holding `A, X, Y, Z` in that order, a
      shift-click on `Z` selects `[X, Y, Z]`. */
  lemma ShiftScenario(state: SelectorState, item: ItemState)
    ensures var nodes := [ItemNode("A", None, item), ItemNode("X", None, item),
                          ItemNode("Y", None, item), ItemNode("Z", None, item)];
            && Ids(nodes) == ["A", "X", "Y", "Z"]
            && MakeActive(state, ["X"], nodes, Click("Z", false, true)).ids == ["X", "Y", "Z"]
  {
    var nodes := [ItemNode("A", None, item), ItemNode("X", None, item),
                  ItemNode("Y", None, item), ItemNode("Z", None, item)];
    var order: seq<Id> := ["A", "X", "Y", "Z"];
    assert Ids(nodes) == order;
    assert order[0] != "X" && order[1] == "X";
    assert IndexOf(order, "X") == 1;
    assert order[0] != "Z" && order[1] != "Z" && order[2] != "Z" && order[3] == "Z";
    assert IndexOf(order, "Z") == 3;
    assert RangeBetween(order, "X", "Z") == order[1..4] == ["X", "Y", "Z"];
  }

  /** `toggleFolder`: an expanded id loses its FIRST occurrence, any other id
      is appended. */
  function ToggleFolder(expanded: seq<Id>, nodeId: Id): (r: seq<Id>)
    ensures nodeId in expanded ==>
              var i := IndexOf(expanded, nodeId);
              r == expanded[..i] + expanded[i + 1..] && nodeId !in expanded[..i]
    ensures nodeId !in expanded ==> r == expanded + [nodeId]
    ensures forall x | x != nodeId :: x in r <==> x in expanded
  {
    if nodeId in expanded then RemoveAt(expanded, IndexOf(expanded, nodeId))
    else expanded + [nodeId]
  }

  /** A toggle removes exactly one occurrence of an expanded id or adds one
      occurrence of any other; so the id stays expanded after a toggle iff it
      was not expanded or was expanded more than once. */
  lemma ToggleFolderCounts(expanded: seq<Id>, nodeId: Id)
    ensures multiset(ToggleFolder(expanded, nodeId))
         == if nodeId in expanded then multiset(expanded) - multiset{nodeId}
            else multiset(expanded) + multiset{nodeId}
    ensures nodeId in ToggleFolder(expanded, nodeId)
        <==> nodeId !in expanded || multiset(expanded)[nodeId] >= 2
  {
    var r := ToggleFolder(expanded, nodeId);
    if nodeId in expanded {
      var i := IndexOf(expanded, nodeId);
      assert multiset(r) == multiset(expanded) - multiset{nodeId};
      assert nodeId in r <==> multiset(r)[nodeId] > 0;
    } else {
      assert multiset(r) == multiset(expanded) + multiset{nodeId};
    }
  }

  /** No id occurs twice. */
  ghost predicate NoDuplicates(s: seq<Id>) {
    forall i, j | 0 <= i < j < |s| :: s[i] != s[j]
  }

  /** In a duplicate-free list an element occurs exactly once. */
  lemma NoDuplicatesCountOne(s: seq<Id>, x: Id)
    requires NoDuplicates(s) && x in s
    ensures multiset(s)[x] == 1
  {
    var i := IndexOf(s, x);
    assert s == s[..i] + [x] + s[i + 1..];
    assert x !in s[i + 1..] by {
      forall j | i + 1 <= j < |s| ensures s[j] != x {
        assert s[i] != s[j];
      }
    }
    assert multiset(s) == multiset(s[..i]) + multiset{x} + multiset(s[i + 1..]);
  }

  /** Removing one element keeps a list duplicate-free. */
  lemma RemoveAtKeepsNoDuplicates(s: seq<Id>, i: nat)
    requires NoDuplicates(s) && i < |s|
    ensures NoDuplicates(s[..i] + s[i + 1..])
  {
    var r := s[..i] + s[i + 1..];
    forall a, b | 0 <= a < b < |r| ensures r[a] != r[b] {
      var a' := if a < i then a else a + 1;
      var b' := if b < i then b else b + 1;
      assert r[a] == s[a'] && r[b] == s[b'];
    }
  }

  /** Appending an absent element keeps a list duplicate-free. */
  lemma AppendKeepsNoDuplicates(s: seq<Id>, x: Id)
    requires NoDuplicates(s) && x !in s
    ensures NoDuplicates(s + [x])
  {
    var r := s + [x];
    forall a, b | 0 <= a < b < |r| ensures r[a] != r[b] {
      if b == |s| {
        assert r[a] == s[a];
      }
    }
  }

  /** A toggle keeps a list duplicate-free. */
  lemma ToggleKeepsNoDuplicates(expanded: seq<Id>, nodeId: Id)
    requires NoDuplicates(expanded)
    ensures NoDuplicates(ToggleFolder(expanded, nodeId))
  {
    if nodeId in expanded {
      RemoveAtKeepsNoDuplicates(expanded, IndexOf(expanded, nodeId));
    } else {
      AppendKeepsNoDuplicates(expanded, nodeId);
    }
  }

  /** In a duplicate-free list, a toggle flips membership of the id, keeps
      the list duplicate-free, and a second toggle restores membership. */
  lemma ToggleFlipsMembership(expanded: seq<Id>, nodeId: Id)
    requires NoDuplicates(expanded)
    ensures nodeId in ToggleFolder(expanded, nodeId) <==> nodeId !in expanded
    ensures NoDuplicates(ToggleFolder(expanded, nodeId))
    ensures nodeId in ToggleFolder(ToggleFolder(expanded, nodeId), nodeId) <==> nodeId in expanded
  {
    var once := ToggleFolder(expanded, nodeId);
    ToggleFolderCounts(expanded, nodeId);
    ToggleFolderCounts(once, nodeId);
    if nodeId in expanded {
      NoDuplicatesCountOne(expanded, nodeId);
    }
    ToggleKeepsNoDuplicates(expanded, nodeId);
    if nodeId in once {
      NoDuplicatesCountOne(once, nodeId);
    }
  }

  /** Toggling an id that is not expanded, then toggling it again, gives
      back exactly the original list. */
  lemma ToggleAbsentTwiceRestores(expanded: seq<Id>, nodeId: Id)
    requires nodeId !in expanded
    ensures ToggleFolder(ToggleFolder(expanded, nodeId), nodeId) == expanded
  {
    var once := expanded + [nodeId];
    assert IndexOf(once, nodeId) == |expanded| by {
      assert once[|expanded|] == nodeId;
      assert once[..|expanded|] == expanded;
    }
    assert once[..|expanded|] == expanded;
  }

  /** The outcome of an auto-expansion: the new state and the node to
      scroll into view, if any. */
  datatype Expansion = Expansion(state: SelectorState, scrollTo: Option<Id>)

  /** `expandSelectedFolders`, run when the last selected id changes. When
      the guard is raised it is only lowered. Otherwise, when the last
      selected node exists and at most one id is selected, every id of its
      path except its own (its ancestors) is appended to the expanded list
      and the node is scrolled into view. `path` is the node's path as the
      scene reports it, root first and the node last. */
  function ExpandSelectedFolders(state: SelectorState, nodes: seq<Node>, lastSelectedId: Id,
                                 selectedIds: seq<Id>, path: seq<Id>): (r: Expansion)
    ensures state.callCameFromInside ==>
              r == Expansion(SelectorState(state.expandedFoldersIds, false), None)
    ensures !state.callCameFromInside
            && (FindNode(nodes, lastSelectedId).None? || |selectedIds| > 1) ==>
              r == Expansion(state, None)
    ensures !state.callCameFromInside
            && FindNode(nodes, lastSelectedId).Some? && |selectedIds| <= 1 ==>
              && r.state.expandedFoldersIds == state.expandedFoldersIds + DropLast(path)
              && r.scrollTo == Some(lastSelectedId)
    ensures !r.state.callCameFromInside
    ensures forall x | x in state.expandedFoldersIds :: x in r.state.expandedFoldersIds
    ensures forall x | x in r.state.expandedFoldersIds ::
              x in state.expandedFoldersIds || (x in path && r.scrollTo.Some?)
  {
    if state.callCameFromInside then
      Expansion(SelectorState(state.expandedFoldersIds, false), None)
    else if FindNode(nodes, lastSelectedId).None? || |selectedIds| > 1 then
      Expansion(state, None)
    else
      var added := DropLast(path);
      assert forall x | x in added :: x in path by {
        if |path| > 0 {
          assert added + [path[|path| - 1]] == path;
        }
      }
      Expansion(SelectorState(state.expandedFoldersIds + added, state.callCameFromInside), Some(lastSelectedId))
  }

  /** `path` lists the ids from a root down to node `x`: it starts at a node
      with a falsy parent, and each id is the parent of the next. */
  ghost predicate IsPathOf(nodes: seq<Node>, path: seq<Id>, x: Node) {
    && |path| > 0
    && path[|path| - 1] == x.id
    && (exists r | r in nodes :: r.id == path[0] && IsRoot(r.parentId))
    && forall k | 0 <= k < |path| - 1 ::
         exists c | c in nodes :: c.id == path[k + 1] && c.parentId == Some(path[k])
  }

  /** Every id on the path of `x` is a folder above `x` (or `x` itself). */
  lemma {:induction false} PathIdsAreAbove(nodes: seq<Node>, rank: map<Id, nat>, path: seq<Id>, x: Node, k: nat)
    requires Ranked(nodes, rank) && NonEmptyIds(nodes) && ParentsAreFolders(nodes)
    requires x in nodes
    requires IsPathOf(nodes, path, x)
    requires k < |path|
    ensures path[k] in rank
    ensures Under(nodes, x, path[k], rank)
    ensures k < |path| - 1 ==> IsFolderId(nodes, path[k])
    decreases |path| - k
  {
    if k == |path| - 1 {
      UnderSelf(nodes, rank, x);
    } else {
      PathIdsAreAbove(nodes, rank, path, x, k + 1);
      PathLinkAbove(nodes, rank, path, x, k);
    }
  }

  /** What lies under the id at `k + 1` of a path lies under the id at
      `k`, a ranked folder. */
  lemma PathLinkAbove(nodes: seq<Node>, rank: map<Id, nat>, path: seq<Id>, x: Node, k: nat)
    requires Ranked(nodes, rank) && NonEmptyIds(nodes) && ParentsAreFolders(nodes)
    requires IsPathOf(nodes, path, x)
    requires k < |path| - 1
    requires path[k + 1] in rank && Under(nodes, x, path[k + 1], rank)
    ensures path[k] in rank && Under(nodes, x, path[k], rank) && IsFolderId(nodes, path[k])
  {
    var c := PathStep(nodes, path, x, k);
    var p := PathIdIsNode(nodes, path, x, k);
    ParentIsRankedFolder(nodes, rank, c);
    UnderParent(nodes, rank, x, c);
  }

  /** The link of a path from position `k` to `k + 1`: the node at `k + 1`,
      whose parent is the id at `k`. */
  lemma PathStep(nodes: seq<Node>, path: seq<Id>, x: Node, k: nat) returns (c: Node)
    requires IsPathOf(nodes, path, x)
    requires k < |path| - 1
    ensures c in nodes && c.id == path[k + 1] && c.parentId == Some(path[k])
  {
    assert path[k] in path;
    c :| c in nodes && c.id == path[k + 1] && c.parentId == Some(path[k]);
  }

  /** Every id of a path names a node of the store: the first a root, the
      others the child end of a link. */
  lemma PathIdIsNode(nodes: seq<Node>, path: seq<Id>, x: Node, k: nat) returns (n: Node)
    requires IsPathOf(nodes, path, x)
    requires k < |path|
    ensures n in nodes && n.id == path[k]
  {
    if k == 0 {
      n :| n in nodes && n.id == path[0] && IsRoot(n.parentId);
    } else {
      n := PathStep(nodes, path, x, k - 1);
    }
  }

  /** In a well-formed store the parent of a node is a ranked folder. */
  lemma ParentIsRankedFolder(nodes: seq<Node>, rank: map<Id, nat>, c: Node)
    requires Ranked(nodes, rank) && ParentsAreFolders(nodes)
    requires c in nodes && !IsRoot(c.parentId)
    ensures c.parentId.value in rank && IsFolderId(nodes, c.parentId.value)
  {
    var p :| p in nodes && p.id == c.parentId.value && p.FolderNode?;
  }

  /** Every node lies under itself. */
  lemma UnderSelf(nodes: seq<Node>, rank: map<Id, nat>, x: Node)
    requires Ranked(nodes, rank) && x in nodes
    ensures x.id in rank && Under(nodes, x, x.id, rank)
  {
  }

  /** What lies under a node lies under its parent. */
  lemma UnderParent(nodes: seq<Node>, rank: map<Id, nat>, x: Node, c: Node)
    requires Ranked(nodes, rank)
    requires c in nodes && c.parentId.Some? && c.parentId.value in rank
    requires c.id in rank && Under(nodes, x, c.id, rank)
    ensures Under(nodes, x, c.parentId.value, rank)
  {
  }

  /** Every id of the path but the last names a folder above `x`. */
  lemma AncestorsOnPath(nodes: seq<Node>, rank: map<Id, nat>, path: seq<Id>, x: Node)
    requires WellFormed(nodes, rank)
    requires x in nodes
    requires IsPathOf(nodes, path, x)
    ensures forall k | 0 <= k < |path| - 1 :: path[k] in rank && Under(nodes, x, path[k], rank)
    ensures forall k | 0 <= k < |path| - 1 :: IsFolderId(nodes, path[k])
  {
    forall k | 0 <= k < |path| - 1
      ensures path[k] in rank && Under(nodes, x, path[k], rank)
      ensures IsFolderId(nodes, path[k])
    {
      PathIdsAreAbove(nodes, rank, path, x, k);
    }
  }

  /** An unsuppressed auto-expansion of an existing node appends exactly
      the ids of its path but the last. */
  lemma ExpansionAppendsPath(state: SelectorState, nodes: seq<Node>, x: Node,
                             selectedIds: seq<Id>, path: seq<Id>)
    requires x in nodes && |path| > 0
    requires !state.callCameFromInside && |selectedIds| <= 1
    ensures var r := ExpandSelectedFolders(state, nodes, x.id, selectedIds, path);
            && r.scrollTo == Some(x.id)
            && r.state.expandedFoldersIds == state.expandedFoldersIds + path[..|path| - 1]
  {
    assert FindNode(nodes, x.id).Some?;
    assert DropLast(path) == path[..|path| - 1];
  }

  /** An unsuppressed auto-expansion adds only folders lying above the
      selected node, and all of them. */
  lemma ExpansionAddsAncestors(state: SelectorState, nodes: seq<Node>, rank: map<Id, nat>,
                               x: Node, selectedIds: seq<Id>, path: seq<Id>)
    requires WellFormed(nodes, rank)
    requires x in nodes
    requires IsPathOf(nodes, path, x)
    requires !state.callCameFromInside && |selectedIds| <= 1
    ensures var r := ExpandSelectedFolders(state, nodes, x.id, selectedIds, path);
            && r.scrollTo == Some(x.id)
            && (forall k | 0 <= k < |path| - 1 :: path[k] in r.state.expandedFoldersIds)
            && (forall a | IsFolderId(nodes, a) && a != x.id && a in rank && Under(nodes, x, a, rank) ::
                  a in r.state.expandedFoldersIds)
            && forall a | a in r.state.expandedFoldersIds && a !in state.expandedFoldersIds ::
                 && a in rank && Under(nodes, x, a, rank)
                 && IsFolderId(nodes, a)
  {
    var r := ExpandSelectedFolders(state, nodes, x.id, selectedIds, path);
    ExpansionAppendsPath(state, nodes, x, selectedIds, path);
    AncestorsOnPath(nodes, rank, path, x);
    var old_ := state.expandedFoldersIds;
    var added := path[..|path| - 1];
    forall k | 0 <= k < |path| - 1 ensures path[k] in r.state.expandedFoldersIds {
      AppendedAt(old_, added, k);
    }
    forall a | a in r.state.expandedFoldersIds && a !in old_
      ensures a in rank && Under(nodes, x, a, rank) && IsFolderId(nodes, a)
    {
      var k := AppendedFrom(old_, added, a);
      assert path[k] == a;
    }
    forall a | IsFolderId(nodes, a) && a != x.id && a in rank && Under(nodes, x, a, rank)
      ensures a in r.state.expandedFoldersIds
    {
      var f :| f in nodes && f.id == a && f.FolderNode?;
      var j := AncestorOnPath(nodes, rank, path, x, a);
      AppendedAt(old_, added, j);
      assert added[j] == a;
    }
  }

  /** Every id the node lies under sits on its path: the path from a root
      is the only chain of parent links leading down to the node. */
  lemma {:induction false} AncestorOnPath(nodes: seq<Node>, rank: map<Id, nat>, path: seq<Id>, x: Node, a: Id)
    returns (j: nat)
    requires WellFormed(nodes, rank)
    requires x in nodes
    requires IsPathOf(nodes, path, x)
    requires a != "" && a in rank && Under(nodes, x, a, rank)
    ensures j < |path| && path[j] == a
    decreases rank[a]
  {
    if x.id == a {
      j := |path| - 1;
    } else {
      var c :| c in nodes && c.parentId == Some(a) && Under(nodes, x, c.id, rank);
      var j' := AncestorOnPath(nodes, rank, path, x, c.id);
      NotPathHead(nodes, rank, path, x, c);
      var c' := PathStep(nodes, path, x, j' - 1);
      SameIdSameNode(nodes, rank, c, c');
      j := j' - 1;
    }
  }

  /** A node with a parent is not the root the path starts at. */
  lemma NotPathHead(nodes: seq<Node>, rank: map<Id, nat>, path: seq<Id>, x: Node, c: Node)
    requires WellFormed(nodes, rank)
    requires IsPathOf(nodes, path, x)
    requires c in nodes && !IsRoot(c.parentId)
    ensures path[0] != c.id
  {
    var r :| r in nodes && r.id == path[0] && IsRoot(r.parentId);
    var i :| 0 <= i < |nodes| && nodes[i] == r;
    var m :| 0 <= m < |nodes| && nodes[m] == c;
    assert i != m;
  }

  /** In a store with unique ids a node is determined by its id. */
  lemma SameIdSameNode(nodes: seq<Node>, rank: map<Id, nat>, a: Node, b: Node)
    requires WellFormed(nodes, rank)
    requires a in nodes && b in nodes && a.id == b.id
    ensures a == b
  {
    var i :| 0 <= i < |nodes| && nodes[i] == a;
    var m :| 0 <= m < |nodes| && nodes[m] == b;
  }

  /** An appended element is in the result. */
  lemma AppendedAt(s: seq<Id>, added: seq<Id>, k: int)
    requires 0 <= k < |added|
    ensures added[k] in s + added
  {
    assert (s + added)[|s| + k] == added[k];
  }

  /** An element of `s + added` that is not in `s` is one of `added`;
      returns its position there. */
  lemma AppendedFrom(s: seq<Id>, added: seq<Id>, a: Id) returns (k: int)
    requires a in s + added && a !in s
    ensures 0 <= k < |added| && added[k] == a
  {
    var i :| 0 <= i < |s + added| && (s + added)[i] == a;
    k := i - |s|;
  }

  /** A click handled here raises the guard, so the auto-expansion its
      selection change triggers only lowers the guard again: nothing is
      expanded and nothing is scrolled. */
  lemma ClickSuppressesOneExpansion(state: SelectorState, selected: seq<Id>,
                                    click: Click, nodes: seq<Node>, lastSelectedId: Id,
                                    selectedIds: seq<Id>, path: seq<Id>)
    requires !click.ctrlKey && click.shiftKey ==> ShiftRangeDefined(selected, Ids(nodes), click.key)
    ensures var after := MakeActive(state, selected, nodes, click).state;
            var e := ExpandSelectedFolders(after, nodes, lastSelectedId, selectedIds, path);
            && e.state.expandedFoldersIds == state.expandedFoldersIds
            && !e.state.callCameFromInside
            && e.scrollTo.None?
  {
  }

  /** A shift-click slices the store order, not the drawn order: with a
      top-level folder `A`, a top-level item `Z` and an item `X` inside `A`,
      stored in that order, a shift-click from `A` to `X` also selects `Z`,
      which the tree draws after `X`. */
  lemma ShiftFollowsStoreOrder(state: SelectorState, item: ItemState)
    ensures var nodes := [FolderNode("A", None, "A"), ItemNode("Z", None, item), ItemNode("X", Some("A"), item)];
            && Ids(nodes) == ["A", "Z", "X"]
            && MakeActive(state, ["A"], nodes, Click("X", false, true)).ids == ["A", "Z", "X"]
  {
    var nodes := [FolderNode("A", None, "A"), ItemNode("Z", None, item), ItemNode("X", Some("A"), item)];
    var order: seq<Id> := ["A", "Z", "X"];
    assert Ids(nodes) == order;
    assert IndexOf(order, "A") == 0;
    assert order[0] != "X" && order[1] != "X" && order[2] == "X";
    assert IndexOf(order, "X") == 2;
    assert RangeBetween(order, "A", "X") == order[0..3] == order;
  }

  // ---------------------------------------------------------------------
  // The watcher on the last selected id
  // ---------------------------------------------------------------------

  /** The watcher `watchSelected`: auto-expansion runs only when the last
      selected id changes from `before` to `after`; otherwise nothing
      happens, and in particular a raised guard stays raised. */
  function OnLastSelectedChange(state: SelectorState, before: Id, after: Id, nodes: seq<Node>,
                                selectedIds: seq<Id>, path: seq<Id>): (r: Expansion)
    ensures before == after ==> r.state == state && r.scrollTo.None?
    ensures before != after ==> !r.state.callCameFromInside
    ensures before != after && state.callCameFromInside ==>
              r.state.expandedFoldersIds == state.expandedFoldersIds && r.scrollTo.None?
  {
    if before == after then Expansion(state, None)
    else ExpandSelectedFolders(state, nodes, after, selectedIds, path)
  }

  /** A click that leaves the last selected id where it was (a second plain
      click on the selected node) raises the guard, but the watcher does not
      fire, so the guard stays raised and swallows the next selection made
      elsewhere: selecting item `Y` inside folder `A` from outside the tree
      then neither expands `A` nor scrolls to `Y`, as it does without that
      click. */
  lemma RepeatClickSwallowsNextSelection(item: ItemState)
    ensures var nodes := [FolderNode("A", None, "A"), ItemNode("Y", Some("A"), item), ItemNode("X", None, item)];
            var s0 := SelectorState([], false);
            var c := MakeActive(s0, ["X"], nodes, Click("X", false, false));
            var w1 := OnLastSelectedChange(c.state, "X", Anchor(c.ids), nodes, c.ids, ["X"]);
            var w2 := OnLastSelectedChange(w1.state, "X", "Y", nodes, ["Y"], ["A", "Y"]);
            var direct := OnLastSelectedChange(s0, "X", "Y", nodes, ["Y"], ["A", "Y"]);
            && c.ids == ["X"]
            && w1.state.callCameFromInside
            && w2.scrollTo.None? && "A" !in w2.state.expandedFoldersIds
            && direct.scrollTo == Some("Y") && "A" in direct.state.expandedFoldersIds
  {
    var nodes := [FolderNode("A", None, "A"), ItemNode("Y", Some("A"), item), ItemNode("X", None, item)];
    assert nodes[1].id == "Y";
    assert DropLast(["A", "Y"]) == ["A"];
  }

  /** The click handler with the guard raised only when the click changes
      the last selected id, that is only when the watcher will fire and
      lower it. The selection chosen is that of `makeActive`. */
  function MakeActiveGuardOnChange(state: SelectorState, selected: seq<Id>, nodes: seq<Node>,
                                   click: Click, lastSelectedId: Id): (r: Clicked)
    requires !click.ctrlKey && click.shiftKey ==> ShiftRangeDefined(selected, Ids(nodes), click.key)
    ensures r.ids == MakeActive(state, selected, nodes, click).ids && |r.ids| > 0
    ensures r.state.expandedFoldersIds == state.expandedFoldersIds
    ensures r.state.callCameFromInside <==> Anchor(r.ids) != lastSelectedId
  {
    var c := MakeActive(state, selected, nodes, click);
    assert |c.ids| > 0 by {
      if !click.ctrlKey && click.shiftKey {
        assert click.key in c.ids;
      }
    }
    Clicked(SelectorState(state.expandedFoldersIds, Anchor(c.ids) != lastSelectedId), c.ids)
  }

  /** With the corrected handler every click's guard is consumed by the
      watcher call that click causes, and that call expands nothing: after
      any click the guard is lowered again, so the next selection made
      elsewhere is expanded and scrolled to. */
  lemma GuardOnChangeIsConsumed(state: SelectorState, selected: seq<Id>, nodes: seq<Node>,
                                click: Click, lastSelectedId: Id, path: seq<Id>)
    requires !click.ctrlKey && click.shiftKey ==> ShiftRangeDefined(selected, Ids(nodes), click.key)
    requires !state.callCameFromInside
    ensures var c := MakeActiveGuardOnChange(state, selected, nodes, click, lastSelectedId);
            var w := OnLastSelectedChange(c.state, lastSelectedId, Anchor(c.ids), nodes, c.ids, path);
            && !w.state.callCameFromInside
            && w.state.expandedFoldersIds == state.expandedFoldersIds
            && w.scrollTo.None?
  {
  }

  /** The corrected handler on the input of `RepeatClickSwallowsNextSelection`:
      the selection made elsewhere expands `A` and scrolls to `Y`. */
  lemma RepeatClickThenSelectionCorrected(item: ItemState)
    ensures var nodes := [FolderNode("A", None, "A"), ItemNode("Y", Some("A"), item), ItemNode("X", None, item)];
            var s0 := SelectorState([], false);
            var c := MakeActiveGuardOnChange(s0, ["X"], nodes, Click("X", false, false), "X");
            var w1 := OnLastSelectedChange(c.state, "X", Anchor(c.ids), nodes, c.ids, ["X"]);
            var w2 := OnLastSelectedChange(w1.state, "X", "Y", nodes, ["Y"], ["A", "Y"]);
            w2.scrollTo == Some("Y") && "A" in w2.state.expandedFoldersIds
  {
    var nodes := [FolderNode("A", None, "A"), ItemNode("Y", Some("A"), item), ItemNode("X", None, item)];
    assert nodes[1].id == "Y";
    assert DropLast(["A", "Y"]) == ["A"];
  }

  // ---------------------------------------------------------------------
  // Duplicate expansion entries
  // ---------------------------------------------------------------------

  /** As written, an auto-expansion appends ids already in the list, and a
      later toggle removes only the first copy: a folder expanded by the user
      and then re-expanded for a selection inside it stays expanded after the
      user's collapse click. */
  lemma DuplicateExpansionSurvivesCollapse()
    ensures var item := ItemState("src", true, false, true, true);
            var nodes := [FolderNode("A", None, "Folder"), ItemNode("X", Some("A"), item)];
            var e := ExpandSelectedFolders(SelectorState(["A"], false), nodes, "X", ["X"], ["A", "X"]);
            && e.state.expandedFoldersIds == ["A", "A"]
            && ToggleFolder(e.state.expandedFoldersIds, "A") == ["A"]
  {
    var item := ItemState("src", true, false, true, true);
    var nodes := [FolderNode("A", None, "Folder"), ItemNode("X", Some("A"), item)];
    assert nodes[1].id == "X";
    assert DropLast(["A", "X"]) == ["A"];
    var twice: seq<Id> := ["A", "A"];
    assert IndexOf(twice, "A") == 0;
    assert twice[..0] + twice[1..] == ["A"];
  }

  /** `s` followed by the ids of `add` not yet present, each once, in the
      order of `add`. */
  function AppendMissing(s: seq<Id>, add: seq<Id>): (r: seq<Id>)
    ensures |r| >= |s| && r[..|s|] == s
    ensures forall x :: x in r <==> x in s || x in add
    decreases |add|
  {
    if |add| == 0 then s
    else
      var s' := if add[0] in s then s else s + [add[0]];
      var r := AppendMissing(s', add[1..]);
      assert r[..|s|] == r[..|s'|][..|s|];
      assert forall x | x in add :: x == add[0] || x in add[1..];
      r
  }

  /** Appending only missing ids keeps a list duplicate-free. */
  lemma {:induction false} AppendMissingKeepsNoDuplicates(s: seq<Id>, add: seq<Id>)
    ensures NoDuplicates(s) ==> NoDuplicates(AppendMissing(s, add))
    decreases |add|
  {
    if |add| > 0 && NoDuplicates(s) {
      var s' := if add[0] in s then s else s + [add[0]];
      if add[0] !in s {
        AppendKeepsNoDuplicates(s, add[0]);
      }
      AppendMissingKeepsNoDuplicates(s', add[1..]);
    }
  }

  /** The auto-expansion with the evident intent of a set union: the path's
      folders are added only when not already expanded. */
  function ExpandSelectedFoldersUnique(state: SelectorState, nodes: seq<Node>, lastSelectedId: Id,
                                       selectedIds: seq<Id>, path: seq<Id>): (r: Expansion)
    ensures NoDuplicates(state.expandedFoldersIds) ==> NoDuplicates(r.state.expandedFoldersIds)
  {
    var e := ExpandSelectedFolders(state, nodes, lastSelectedId, selectedIds, path);
    if e.scrollTo.None? then e
    else
      AppendMissingKeepsNoDuplicates(state.expandedFoldersIds, DropLast(path));
      e.(state := e.state.(expandedFoldersIds := AppendMissing(state.expandedFoldersIds, DropLast(path))))
  }

  /** The corrected expansion differs from the code only in dropping the
      repeated ids: guard, scroll target and the set of expanded ids agree. */
  lemma UniqueExpansionAgrees(state: SelectorState, nodes: seq<Node>, lastSelectedId: Id,
                              selectedIds: seq<Id>, path: seq<Id>)
    ensures var e := ExpandSelectedFolders(state, nodes, lastSelectedId, selectedIds, path);
            var u := ExpandSelectedFoldersUnique(state, nodes, lastSelectedId, selectedIds, path);
            && u.scrollTo == e.scrollTo
            && u.state.callCameFromInside == e.state.callCameFromInside
            && forall x :: x in u.state.expandedFoldersIds <==> x in e.state.expandedFoldersIds
  {
  }

  /** Under the corrected expansion a duplicate-free list stays so, so a
      collapse click on an expanded folder always collapses it, whatever
      auto-expansions came before. */
  lemma UniqueExpansionThenCollapse(state: SelectorState, nodes: seq<Node>, lastSelectedId: Id,
                                    selectedIds: seq<Id>, path: seq<Id>, folder: Id)
    requires NoDuplicates(state.expandedFoldersIds)
    ensures var u := ExpandSelectedFoldersUnique(state, nodes, lastSelectedId, selectedIds, path);
            && NoDuplicates(u.state.expandedFoldersIds)
            && (folder in u.state.expandedFoldersIds <==>
                  folder !in ToggleFolder(u.state.expandedFoldersIds, folder))
  {
    var u := ExpandSelectedFoldersUnique(state, nodes, lastSelectedId, selectedIds, path);
    ToggleFlipsMembership(u.state.expandedFoldersIds, folder);
  }
}
