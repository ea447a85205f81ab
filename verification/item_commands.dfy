/**
 The flag-setting requests the selector submits for the items under a node
 (hide/show, lock/unlock, stream and recording visibility), their effect on
 the items, and the two toggles that choose them. The toggles read the
 node's current aggregated flag and request its opposite for every item
 under the node.
 */
module ItemCommands {
  import opened SceneNodes
  import opened NodeAggregator

  /** A request to set one flag on every item of a selection. `HideItems`
      carries the hidden flag, as `HideItemsCommand` does. */
  datatype Command =
    | HideItems(hidden: bool)
    | SetLocked(locked: bool)
    | SetStreamVisible(streamVisible: bool)
    | SetRecordingVisible(recordingVisible: bool)

  /** The flag a command writes, and the value it writes there. */
  function Target(c: Command): (Flag, bool) {
    match c
    case HideItems(h) => (Visible, !h)
    case SetLocked(b) => (Locked, b)
    case SetStreamVisible(b) => (StreamVisible, b)
    case SetRecordingVisible(b) => (RecordingVisible, b)
  }

  /** The effect of a command on one node: an item gets the flag written,
      a folder is left alone. */
  function ApplyToNode(n: Node, c: Command): (r: Node)
    ensures r.id == n.id && r.parentId == n.parentId && r.ItemNode? == n.ItemNode?
    ensures n.FolderNode? ==> r == n
    ensures n.ItemNode? ==> r.item.sourceId == n.item.sourceId
    ensures n.ItemNode? ==> Has(r, Target(c).0) == Target(c).1
    ensures forall f | f != Target(c).0 :: Has(r, f) == Has(n, f)
  {
    match n
    case FolderNode(_, _, _) => n
    case ItemNode(id, parentId, item) =>
      var item' :=
        match c
        case HideItems(h) => item.(visible := !h)
        case SetLocked(b) => item.(locked := b)
        case SetStreamVisible(b) => item.(streamVisible := b)
        case SetRecordingVisible(b) => item.(recordingVisible := b);
      ItemNode(id, parentId, item')
  }

  /** The effect of a command on every item of a selection. */
  function ApplyToItems(items: seq<Node>, c: Command): (r: seq<Node>)
    ensures |r| == |items|
    ensures forall k :: 0 <= k < |items| ==> r[k] == ApplyToNode(items[k], c)
  {
    seq(|items|, k requires 0 <= k < |items| => ApplyToNode(items[k], c))
  }

  /** The effect of a batch of commands, applied in order. */
  function ApplyAll(items: seq<Node>, cs: seq<Command>): (r: seq<Node>)
    ensures |r| == |items|
    ensures forall k :: 0 <= k < |items| ==> r[k].ItemNode? == items[k].ItemNode?
    decreases |cs|
  {
    if |cs| == 0 then items else ApplyAll(ApplyToItems(items, cs[0]), cs[1..])
  }

  /** `toggleVisibility`: `visible := !selection.isVisible()`, then hide the
      items iff `!visible`, i.e. hide exactly when the node shows visible. */
  function ToggleVisibility(isVisible: bool): (c: Command)
    ensures c.HideItems? && Target(c) == (Visible, !isVisible)
  {
    var visible := !isVisible;
    HideItems(!visible)
  }

  /** `toggleLock`: request the opposite of the node's current lock. */
  function ToggleLock(isLocked: bool): (c: Command)
    ensures c.SetLocked? && Target(c) == (Locked, !isLocked)
  {
    var locked := !isLocked;
    SetLocked(locked)
  }

  /** Toggling visibility of a node with at least one item flips the
      aggregated visibility the node displays. */
  lemma ToggleVisibilityFlips(items: seq<Node>)
    requires |items| > 0
    requires forall k :: 0 <= k < |items| ==> items[k].ItemNode?
    ensures var after := ApplyToItems(items, ToggleVisibility(SomeHas(items, Visible)));
            SomeHas(after, Visible) == !SomeHas(items, Visible)
  {
    var after := ApplyToItems(items, ToggleVisibility(SomeHas(items, Visible)));
    assert Has(after[0], Visible) == !SomeHas(items, Visible);
  }

  /** Toggling the lock of a node with at least one item flips the
      aggregated lock the node displays. */
  lemma ToggleLockFlips(items: seq<Node>)
    requires |items| > 0
    requires forall k :: 0 <= k < |items| ==> items[k].ItemNode?
    ensures var after := ApplyToItems(items, ToggleLock(EveryHas(items, Locked)));
            EveryHas(after, Locked) == !EveryHas(items, Locked)
  {
    var after := ApplyToItems(items, ToggleLock(EveryHas(items, Locked)));
    assert Has(after[0], Locked) == !EveryHas(items, Locked);
  }

  /** A node with no items displays as locked, and toggling its lock
      changes nothing it displays. */
  lemma ToggleLockOfEmptyFolder()
    ensures ToggleLock(EveryHas([], Locked)) == SetLocked(false)
    ensures EveryHas(ApplyToItems([], SetLocked(false)), Locked)
  {
  }
}
