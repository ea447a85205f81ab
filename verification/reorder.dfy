/**
 The reorder engine: reads a drop gesture of the tree widget into a
 placement (before, after or inside the target) and decides which node ids
 move. A tree position `pos` is the widget's dash-joined index path of the
 target (such as "0-2-1"); its last segment is the target's index among its
 siblings, against which the widget's `dropPosition` is compared.
 */
module Reorder {
  import opened Common
  import opened SceneNodes
  import opened NodeAggregator
  import opened TreeBuilder

  /** `EPlaceType`. */
  datatype Placement = Before | After | Inside

  /** The drop-event fields the selector reads. */
  datatype DropInfo = DropInfo(
    dropToGap: bool,
    nodeKey: Id,
    nodeIsLeaf: bool,
    nodePos: string,
    dropPosition: int,
    dragNodeKey: Id,
    dragNodesKeys: seq<Id>)

  // ---------------------------------------------------------------------
  // String splitting and JavaScript's Number() on a position segment
  // ---------------------------------------------------------------------

  /** `s.split(sep)` for a one-character separator: the parts between
      successive separators, always at least one. */
  function Split(s: string, sep: char): (r: seq<string>)
    ensures |r| >= 1
    decreases |s|
  {
    var i := IndexOf(s, sep);
    if i < 0 then [s] else [s[..i]] + Split(s[i + 1..], sep)
  }

  /** `parts.join(sep)`. */
  function Join(parts: seq<string>, sep: char): string
    requires |parts| >= 1
  {
    if |parts| == 1 then parts[0]
    else parts[0] + [sep] + Join(parts[1..], sep)
  }

  /** Joining a part in front of more parts puts a separator between. */
  lemma JoinCons(head: string, rest: seq<string>, sep: char)
    requires |rest| >= 1
    ensures Join([head] + rest, sep) == head + [sep] + Join(rest, sep)
  {
    assert ([head] + rest)[1..] == rest;
  }

  /** Splitting at the first separator. */
  lemma SplitCons(s: string, sep: char, i: int)
    requires i == IndexOf(s, sep) >= 0
    ensures Split(s, sep) == [s[..i]] + Split(s[i + 1..], sep)
  {
  }

  /** A string is what lies before, at and after any of its positions. */
  lemma Around(s: string, i: int)
    requires 0 <= i < |s|
    ensures s == s[..i] + [s[i]] + s[i + 1..]
  {
  }

  /** Joining the parts of a split gives back the string. */
  lemma {:induction false} JoinSplit(s: string, sep: char)
    ensures Join(Split(s, sep), sep) == s
    decreases |s|
  {
    if sep in s {
      var i := IndexOf(s, sep);
      var head, tail := s[..i], s[i + 1..];
      var rest := Split(tail, sep);
      SplitCons(s, sep, i);
      assert Split(s, sep) == [head] + rest;
      JoinCons(head, rest, sep);
      JoinSplit(tail, sep);
      Around(s, i);
    }
  }

  /** Splitting a join of separator-free parts gives back the parts. */
  lemma {:induction false} SplitJoin(parts: seq<string>, sep: char)
    requires |parts| >= 1
    requires forall k :: 0 <= k < |parts| ==> sep !in parts[k]
    ensures Split(Join(parts, sep), sep) == parts
  {
    if |parts| > 1 {
      var s := Join(parts, sep);
      var p0 := parts[0];
      assert s == p0 + [sep] + Join(parts[1..], sep);
      assert s[|p0|] == sep;
      assert s[..|p0|] == p0;
      assert IndexOf(s, sep) == |p0|;
      assert s[|p0| + 1..] == Join(parts[1..], sep);
      SplitJoin(parts[1..], sep);
    }
  }

  /** The last dash-separated segment of a tree position. */
  function LastSegment(pos: string): string {
    var parts := Split(pos, '-');
    parts[|parts| - 1]
  }

  /** The value of a decimal digit. */
  function DigitValue(c: char): nat
    requires '0' <= c <= '9'
  {
    (c as int) - ('0' as int)
  }

  predicate IsDigits(s: string) {
    forall k :: 0 <= k < |s| ==> '0' <= s[k] <= '9'
  }

  /** The value of a string of decimal digits, most significant first. */
  function DecimalValue(s: string): nat
    requires IsDigits(s)
  {
    if |s| == 0 then 0
    else DecimalValue(s[..|s| - 1]) * 10 + DigitValue(s[|s| - 1])
  }

  /** `Number(segment)` on what a position segment can hold: the empty
      string is 0, a run of decimal digits is its value, anything else is
      NaN (`None`). */
  function NumberOf(s: string): (r: Option<int>)
    ensures s == "" ==> r == Some(0)
    ensures r.Some? <==> IsDigits(s)
    ensures r.Some? ==> r.value >= 0
  {
    if IsDigits(s) then Some(DecimalValue(s)) else None
  }

  /** The decimal digit of a value below ten. */
  function Digit(d: nat): char
    requires d < 10
  {
    ('0' as int + d) as char
  }

  /** The decimal rendering of a natural number, as the widget writes an
      index into a position. */
  function NatToString(n: nat): (s: string)
    ensures |s| >= 1 && IsDigits(s)
  {
    if n < 10 then [Digit(n)] else NatToString(n / 10) + [Digit(n % 10)]
  }

  /** Reading back a rendered index gives the index. */
  lemma {:induction false} NumberOfNatToString(n: nat)
    ensures NumberOf(NatToString(n)) == Some(n)
  {
    var s := NatToString(n);
    assert DigitValue(Digit(n % 10)) == n % 10;
    if n < 10 {
      assert s[..0] == [];
      assert DecimalValue(s) == DecimalValue([]) * 10 + DigitValue(s[0]);
    } else {
      NumberOfNatToString(n / 10);
      assert s[..|s| - 1] == NatToString(n / 10);
      assert DecimalValue(s) == DecimalValue(NatToString(n / 10)) * 10 + DigitValue(Digit(n % 10));
    }
  }

  /** The decimal renderings of the indices of an index path. */
  function Rendered(path: seq<nat>): (parts: seq<string>)
    ensures |parts| == |path|
    ensures forall k :: 0 <= k < |path| ==> parts[k] == NatToString(path[k])
  {
    seq(|path|, k requires 0 <= k < |path| => NatToString(path[k]))
  }

  /** The position the widget gives a node at index path `path`: the
      indices rendered in decimal and joined with dashes. */
  function PosOf(path: seq<nat>): string
    requires |path| >= 1
  {
    Join(Rendered(path), '-')
  }

  // ---------------------------------------------------------------------
  // Placement and target selection
  // ---------------------------------------------------------------------

  /** `determinePlacement`: a drop onto (not beside) a non-leaf goes inside
      it; otherwise the drop goes after the target when the drop position
      exceeds the target's index, before it when not (including when the
      index does not parse: NaN compares false). */
  function DeterminePlacement(dropToGap: bool, isLeaf: bool, dropPosition: int, pos: string): (r: Placement)
    ensures !dropToGap && !isLeaf ==> r == Inside
    ensures dropToGap || isLeaf ==> r != Inside
    ensures dropToGap || isLeaf ==>
              (r == After <==> NumberOf(LastSegment(pos)).Some?
                               && dropPosition - NumberOf(LastSegment(pos)).value > 0)
  {
    if !dropToGap && !isLeaf then Inside
    else
      match NumberOf(LastSegment(pos))
      case None => Before
      case Some(index) => if dropPosition - index > 0 then After else Before
  }

  /** A run of digits holds no dash. */
  lemma DigitsHaveNoDash(s: string)
    requires IsDigits(s)
    ensures '-' !in s
  {
  }

  /** The last segment of a string is the last of its parts. */
  lemma LastOfSplit(s: string, parts: seq<string>)
    requires Split(s, '-') == parts
    ensures |parts| >= 1 && LastSegment(s) == parts[|parts| - 1]
  {
  }

  /** The last segment of dash-free parts joined with dashes is the last
      part. */
  lemma LastSegmentOfJoin(parts: seq<string>)
    requires |parts| >= 1
    requires forall k :: 0 <= k < |parts| ==> '-' !in parts[k]
    ensures LastSegment(Join(parts, '-')) == parts[|parts| - 1]
  {
    SplitJoin(parts, '-');
    LastOfSplit(Join(parts, '-'), parts);
  }

  /** No rendered index holds a dash. */
  lemma RenderedHasNoDash(path: seq<nat>)
    ensures forall k :: 0 <= k < |Rendered(path)| ==> '-' !in Rendered(path)[k]
  {
    var parts := Rendered(path);
    forall k | 0 <= k < |parts| ensures '-' !in parts[k] {
      DigitsHaveNoDash(parts[k]);
    }
  }

  /** The last segment of a position the widget built is the rendering of
      the node's own index. */
  lemma LastSegmentOfPos(path: seq<nat>)
    requires |path| >= 1
    ensures LastSegment(PosOf(path)) == NatToString(path[|path| - 1])
  {
    RenderedHasNoDash(path);
    LastSegmentOfJoin(Rendered(path));
  }

  /** Against a position the widget built, the placement beside a node is
      After exactly when the drop position exceeds the node's own index. */
  lemma PlacementAtIndexPath(dropToGap: bool, isLeaf: bool, dropPosition: int, path: seq<nat>)
    requires |path| >= 1
    requires dropToGap || isLeaf
    ensures DeterminePlacement(dropToGap, isLeaf, dropPosition, PosOf(path))
         == if dropPosition > path[|path| - 1] then After else Before
  {
    LastSegmentOfPos(path);
    NumberOfNatToString(path[|path| - 1]);
  }

  /** A drop onto a folder of the rendered tree, not into a gap, always
      goes inside the folder, whatever the drop position. */
  lemma DropOntoFolderGoesInside(views: seq<NodeView>, rank: map<Id, nat>, v: NodeView,
                                 dropPosition: int, pos: string)
    requires RankedViews(views, rank)
    requires v in views && v.isFolder
    ensures DeterminePlacement(false, BuildNode(views, v, rank).isLeaf, dropPosition, pos) == Inside
  {
  }

  /** The ids that move: the whole selection when the dragged node is part
      of a non-empty selection, otherwise the widget's dragged keys. */
  function TargetNodes(activeIds: seq<Id>, dragNodeKey: Id, dragNodesKeys: seq<Id>): (r: seq<Id>)
    ensures dragNodeKey in activeIds ==> r == activeIds
    ensures dragNodeKey !in activeIds ==> r == dragNodesKeys
  {
    if |activeIds| > 0 && dragNodeKey in activeIds then activeIds else dragNodesKeys
  }

  /** The reorder command `handleSort` submits. */
  datatype ReorderRequest = ReorderRequest(nodeIds: seq<Id>, destId: Id, placement: Placement)

  /** `handleSort`: the reorder request for a drop, or `None` when the moved
      nodes or the destination cannot be found. Resolving the moved ids into
      a scene selection happens outside this model; `selectionResolved`
      reports whether it succeeded. */
  function HandleSort(nodes: seq<Node>, activeIds: seq<Id>, info: DropInfo, selectionResolved: bool)
    : (r: Option<ReorderRequest>)
    ensures r.Some? <==> selectionResolved && exists n | n in nodes :: n.id == info.nodeKey
    ensures r.Some? ==>
              && r.value.destId == info.nodeKey
              && r.value.nodeIds == TargetNodes(activeIds, info.dragNodeKey, info.dragNodesKeys)
              && r.value.placement
                 == DeterminePlacement(info.dropToGap, info.nodeIsLeaf, info.dropPosition, info.nodePos)
  {
    var targetNodes := TargetNodes(activeIds, info.dragNodeKey, info.dragNodesKeys);
    var destNode := FindNode(nodes, info.nodeKey);
    var placement := DeterminePlacement(info.dropToGap, info.nodeIsLeaf, info.dropPosition, info.nodePos);
    if !selectionResolved || destNode.None? then None
    else Some(ReorderRequest(targetNodes, destNode.value.id, placement))
  }

  /** Dragging a node that is not selected onto a folder (not into a gap)
      moves only what the widget drags, into that folder. */
  lemma DragUnselectedOntoFolder(nodes: seq<Node>, activeIds: seq<Id>, info: DropInfo)
    requires info.dragNodeKey !in activeIds
    requires !info.dropToGap && !info.nodeIsLeaf
    requires exists n | n in nodes :: n.id == info.nodeKey
    ensures HandleSort(nodes, activeIds, info, true)
         == Some(ReorderRequest(info.dragNodesKeys, info.nodeKey, Inside))
  {
  }

  /** Dragging one node of the selection moves the whole selection. */
  lemma DragSelectedMovesSelection(nodes: seq<Node>, activeIds: seq<Id>, info: DropInfo)
    requires info.dragNodeKey in activeIds
    requires exists n | n in nodes :: n.id == info.nodeKey
    ensures HandleSort(nodes, activeIds, info, true).Some?
    ensures HandleSort(nodes, activeIds, info, true).value.nodeIds == activeIds
  {
  }
}
