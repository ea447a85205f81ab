# SourceSelector core, modelled in Dafny

This project models the decision logic of `SourceSelectorModule`, the source
list of the editor. The list shows the scene's nodes (source items and the
folders that group them) as a tree. The module's logic covers six things:

- collecting the items under a node and summarising their flags per node
  (visible, locked, stream-visible, recording-visible);
- building the nested tree the tree widget draws from the flat node list;
- click selection (plain, ctrl and shift) and the expanded-folder list,
  together with the auto-expansion that reveals a selected node;
- reading a drag-and-drop gesture into a reorder request;
- the hide/show and lock toggles;
- selective recording: the per-node stream/recording cycle, its badge, and
  the global on/off switch.

The scene is a flat `seq<Node>`. Each node has an id and an optional parent
id, and is either an item carrying its flags or a folder. Recursion over
parent pointers terminates through a ghost `rank` map in which every child
ranks below its parent (`SceneNodes.Ranked`). A parent id is "falsy" when it
is absent or the empty string, as JavaScript's `!n.parentId` reads it; such a
node sits at the top of the scene, and the store invariants
(`SceneNodes.WellFormed`) ask every other parent id to name a folder and
every node id to be non-empty. Service calls such as
`HideItemsCommand`, `setSettings`, `setSelectiveRecording` and
`ReorderNodesCommand` become request values that the model returns. Their
effect on the items is stated separately (`ItemCommands.ApplyToNode`).

Modules, one per file, follow the structure of the component:

| file | module | contents |
|---|---|---|
| common.dfy | Common | `Option`, JavaScript `filter`/`indexOf`/`splice`, `Flatten` |
| scene_nodes.dfy | SceneNodes | nodes, `find`, children, the store invariants, `Under` |
| node_aggregator.dfy | NodeAggregator | `getItemsForNode`, `nodeData`, the folder icon |
| tree_builder.dfy | TreeBuilder | `getTreeData` |
| selection_coordinator.dfy | SelectionCoordinator | `makeActive`, `toggleFolder`, `expandSelectedFolders` |
| reorder.dfy | Reorder | `determinePlacement`, `handleSort` |
| item_commands.dfy | ItemCommands | flag requests, `toggleVisibility`, `toggleLock` |
| selective_recording.dfy | SelectiveRecording | `cycleSelectiveRecording`, `selectiveRecordingMetadata`, `toggleSelectiveRecording` |

Points of the code worth stating plainly:

- The selective-recording cycle runs both → stream only → recording only →
  both (lines 379-387). A node on neither channel goes to both.
- A ctrl-click appends the clicked id to the selection without removing
  duplicates (line 274).
- Auto-expansion concatenates the ancestors onto the expanded list
  (line 317). It is not a set union: ids already there are appended again
  (see Findings).

## Model

All source paths are relative to the repository root; every cited file is `app/components-react/editor/elements/SourceSelector.tsx`.

| member | source | states |
|---|---|---|
| SceneNodes.FindNode | app/components-react/editor/elements/SourceSelector.tsx:339 | `find` by id yields nothing exactly when no node carries the id, and otherwise a node of the store with that id |
| SceneNodes.FindNodeFirst | app/components-react/editor/elements/SourceSelector.tsx:339 | the node `find` returns sits at an index with no earlier node of the same id |
| SceneNodes.BlankParentStore | app/components-react/editor/elements/SourceSelector.tsx:94 | a top-level folder whose parent id is the empty string, with an item inside it, forms a well-formed store, and the empty parent counts as falsy |
| NodeAggregator.ItemsForNode | app/components-react/editor/elements/SourceSelector.tsx:338-351 | fails (the `getDefined` exception) exactly when no node has the id; every collected element is an item of the store; an item collects exactly itself |
| NodeAggregator.ItemsOfChildrenFlatten | app/components-react/editor/elements/SourceSelector.tsx:345-350 | the `forEach`/`concat` loop equals the concatenation of the children's item lists in child order |
| NodeAggregator.FolderItemsInChildOrder | app/components-react/editor/elements/SourceSelector.tsx:345-350 | for children i < j of a folder, child i's items appear as a contiguous block of the folder's list entirely before child j's block |
| NodeAggregator.ItemsOfChildrenMembership | app/components-react/editor/elements/SourceSelector.tsx:345-350 | an item is in the concatenation iff it is collected under one of the children |
| NodeAggregator.CanShowActions | app/components-react/editor/elements/SourceSelector.tsx:299-301 | fails exactly when no node carries the id (the `getItemsForNode` exception); otherwise actions are offered iff the node's item list is not empty |
| NodeAggregator.CanShowActionsExact | app/components-react/editor/elements/SourceSelector.tsx:299-301 | in a well-formed store a node offers actions iff some item of the store lies under it |
| NodeAggregator.ItemsForNodeExact | app/components-react/editor/elements/SourceSelector.tsx:338-351 | in a well-formed store, x is collected under a node iff x is an item of the store lying under that node (both directions) |
| NodeAggregator.ItemChildren | app/components-react/editor/elements/SourceSelector.tsx:341-348 | children that are all items contribute exactly themselves, in store order |
| NodeAggregator.StoreItems | app/components-react/editor/elements/SourceSelector.tsx:338-351 | in a store with folder a holding items x, y next to a top-level item z, the items under a are exactly [x, y] |
| NodeAggregator.DetermineIcon | app/components-react/editor/elements/SourceSelector.tsx:133-138 | a folder's icon is the open folder iff its id is in the expanded list; a leaf gets its source's icon |
| NodeAggregator.ViewOf | app/components-react/editor/elements/SourceSelector.tsx:97-117 | the record copies id and parent; it is a folder iff the node is not an item; visible iff some collected item is visible; locked, stream- and recording-visible iff every collected item is |
| NodeAggregator.NodeData | app/components-react/editor/elements/SourceSelector.tsx:97-118 | one record per node, in store order, with id, parent and folder-ness of that node |
| NodeAggregator.AggregatedFlags | app/components-react/editor/elements/SourceSelector.tsx:99-103 | a node shows visible iff some item of the store under it is visible, and locked (stream-, recording-visible) iff every item under it is |
| NodeAggregator.EmptyFolderView | app/components-react/editor/elements/SourceSelector.tsx:99-105 | a folder with no item under it shows hidden but locked, stream-visible and recording-visible |
| TreeBuilder.BuildNode | app/components-react/editor/elements/SourceSelector.tsx:62-90 | the tree node drawn for a record has the `WellBuilt` shape at every depth: keyed by the record's id with its icon, a leaf iff the record is not a folder iff it has no children list, and a folder's children drawn one by one, in input order, from exactly the records naming it as parent |
| TreeBuilder.GetTreeData | app/components-react/editor/elements/SourceSelector.tsx:59-95 | one top-level tree node per record with a falsy parent, in record order, each of the `WellBuilt` shape at every depth |
| TreeBuilder.WellBuiltIsBuilt | app/components-react/editor/elements/SourceSelector.tsx:62-90 | the `WellBuilt` shape determines the tree: any tree node of that shape is the one `BuildNode` draws for its record |
| TreeBuilder.NodeDataRanked | app/components-react/editor/elements/SourceSelector.tsx:94-98 | the tree of any acyclic store can be built, and its top level is keyed by exactly the ids of the store's nodes with a falsy parent |
| TreeBuilder.TopLevelExactlyRoots | app/components-react/editor/elements/SourceSelector.tsx:94 | every top-level tree node shows a record with a falsy parent, and every such record is shown at the top level |
| TreeBuilder.TopLevelOrder | app/components-react/editor/elements/SourceSelector.tsx:94 | two top-level records keep their relative input order in the tree |
| TreeBuilder.ChildrenExactly | app/components-react/editor/elements/SourceSelector.tsx:66-68 | a folder's tree children show exactly the records whose parent is the folder; an item has no children list |
| TreeBuilder.ChildrenOrder | app/components-react/editor/elements/SourceSelector.tsx:67 | two children of a folder keep their relative input order under it |
| TreeBuilder.EmptyFolderIsNotLeaf | app/components-react/editor/elements/SourceSelector.tsx:65-86 | a folder without children still gets an (empty) children list and is not a leaf |
| SelectionCoordinator.MakeActive | app/components-react/editor/elements/SourceSelector.tsx:264-288 | every click raises the guard and leaves the expanded list; plain click selects [clicked]; ctrl (checked first) gives previous ids then the clicked id; shift gives the inclusive slice of the store order (the ids of `nodeData`) between anchor and clicked id, which contains both and only ids of store nodes |
| SelectionCoordinator.RangeEndpoints | app/components-react/editor/elements/SourceSelector.tsx:277-284 | the shift range holds the anchor and the clicked id, one at each end |
| SelectionCoordinator.RangeSymmetric | app/components-react/editor/elements/SourceSelector.tsx:277-284 | the shift range is the same whichever end is the anchor |
| SelectionCoordinator.RangeMembership | app/components-react/editor/elements/SourceSelector.tsx:277-284 | an id is in the shift range iff it occurs in the flat order between the two ends' positions |
| SelectionCoordinator.ShiftScenario | app/components-react/editor/elements/SourceSelector.tsx:275-284 | with X selected in a store holding A, X, Y, Z in that order, shift-clicking Z selects [X, Y, Z] |
| SelectionCoordinator.ShiftFollowsStoreOrder | app/components-react/editor/elements/SourceSelector.tsx:277-283 | the range follows the store order, not the drawn order: with folder A, top-level item Z and item X inside A stored in that order, a shift-click from A to X selects [A, Z, X], though Z is drawn after X |
| SelectionCoordinator.ToggleFolder | app/components-react/editor/elements/SourceSelector.tsx:290-297 | an expanded id loses its first occurrence and everything else keeps its order; an absent id is appended; membership of every other id is unchanged |
| SelectionCoordinator.ToggleFolderCounts | app/components-react/editor/elements/SourceSelector.tsx:290-297 | a toggle removes exactly one copy of an expanded id or adds exactly one copy of an absent id |
| SelectionCoordinator.ToggleKeepsNoDuplicates | app/components-react/editor/elements/SourceSelector.tsx:290-297 | a toggle keeps a duplicate-free list duplicate-free |
| SelectionCoordinator.ToggleFlipsMembership | app/components-react/editor/elements/SourceSelector.tsx:290-297 | on a duplicate-free list a toggle flips the id's membership, and toggling twice restores it |
| SelectionCoordinator.ToggleAbsentTwiceRestores | app/components-react/editor/elements/SourceSelector.tsx:290-297 | expanding a collapsed folder and collapsing it again gives back the very same list |
| SelectionCoordinator.ExpandSelectedFolders | app/components-react/editor/elements/SourceSelector.tsx:309-321 | a raised guard is only lowered; a missing node or several selected ids change nothing; otherwise the path without its last id is appended and the node is scrolled to; nothing expanded is lost |
| SelectionCoordinator.PathIdsAreAbove | app/components-react/editor/elements/SourceSelector.tsx:317 | every id of a node's path names the node itself or a folder above it |
| SelectionCoordinator.AncestorsOnPath | app/components-react/editor/elements/SourceSelector.tsx:317 | every id of the path but the last is a folder the node lies under |
| SelectionCoordinator.ExpansionAppendsPath | app/components-react/editor/elements/SourceSelector.tsx:314-320 | an unguarded expansion for an existing node appends exactly the path minus its last id and scrolls to the node |
| SelectionCoordinator.AncestorOnPath | app/components-react/editor/elements/SourceSelector.tsx:317 | every id the node lies under is on its path from a root, in a well-formed store |
| SelectionCoordinator.ExpansionAddsAncestors | app/components-react/editor/elements/SourceSelector.tsx:314-318 | after an unguarded expansion every folder the node lies under (other than the node itself) is expanded, and every newly expanded id is a folder above the node |
| SelectionCoordinator.OnLastSelectedChange | app/components-react/editor/elements/SourceSelector.tsx:307 | the watcher runs auto-expansion only when the last selected id changes; otherwise the state, a raised guard included, is left as it was |
| SelectionCoordinator.RepeatClickSwallowsNextSelection | app/components-react/editor/elements/SourceSelector.tsx:268-270 | a second plain click on the selected item X leaves the guard raised, and the next selection of item Y inside folder A made elsewhere then neither expands A nor scrolls to Y, while without that click it does both |
| SelectionCoordinator.MakeActiveGuardOnChange | app/components-react/editor/elements/SourceSelector.tsx:264-288 | the corrected click handler selects what `makeActive` selects and raises the guard iff the click changes the last selected id |
| SelectionCoordinator.GuardOnChangeIsConsumed | app/components-react/editor/elements/SourceSelector.tsx:307-313 | with the corrected handler, the watcher call a click causes lowers the guard, expands nothing and scrolls nowhere, for every click |
| SelectionCoordinator.RepeatClickThenSelectionCorrected | app/components-react/editor/elements/SourceSelector.tsx:307-320 | with the corrected handler, the selection of Y made after the repeated click expands A and scrolls to Y |
| SelectionCoordinator.ClickSuppressesOneExpansion | app/components-react/editor/elements/SourceSelector.tsx:307-313 | the expansion triggered by a click's own selection change expands nothing, scrolls nowhere and lowers the guard |
| SelectionCoordinator.DuplicateExpansionSurvivesCollapse | app/components-react/editor/elements/SourceSelector.tsx:316-318 | with A expanded and item X inside A selected from elsewhere, the list becomes [A, A], and a collapse click on A leaves [A] |
| SelectionCoordinator.AppendMissing | app/components-react/editor/elements/SourceSelector.tsx:317 | appending only missing ids keeps the old list as a prefix and yields the union of both lists' members |
| SelectionCoordinator.AppendMissingKeepsNoDuplicates | app/components-react/editor/elements/SourceSelector.tsx:317 | appending only missing ids keeps a duplicate-free list duplicate-free |
| SelectionCoordinator.ExpandSelectedFoldersUnique | app/components-react/editor/elements/SourceSelector.tsx:309-321 | the corrected expansion keeps a duplicate-free expanded list duplicate-free |
| SelectionCoordinator.UniqueExpansionAgrees | app/components-react/editor/elements/SourceSelector.tsx:309-321 | the corrected expansion has the same guard, scroll target and expanded-id set as the code's |
| SelectionCoordinator.UniqueExpansionThenCollapse | app/components-react/editor/elements/SourceSelector.tsx:290-297 | after a corrected expansion, a toggle on any folder flips whether it is expanded |
| Reorder.JoinSplit | app/components-react/editor/elements/SourceSelector.tsx:240 | joining the parts of `split` with the separator gives back the string |
| Reorder.SplitJoin | app/components-react/editor/elements/SourceSelector.tsx:240 | splitting a join of separator-free parts gives back the parts |
| Reorder.NumberOf | app/components-react/editor/elements/SourceSelector.tsx:241 | `Number` of the last segment: the empty string is 0, a digit run is a non-negative number, anything else is NaN |
| Reorder.NumberOfNatToString | app/components-react/editor/elements/SourceSelector.tsx:241 | reading back a rendered index gives the index |
| Reorder.LastSegmentOfPos | app/components-react/editor/elements/SourceSelector.tsx:240-241 | the last dash segment of a position built from an index path is the rendering of the node's own index |
| Reorder.DeterminePlacement | app/components-react/editor/elements/SourceSelector.tsx:238-244 | a drop onto a non-leaf, not into a gap, goes inside; otherwise it goes after iff the segment parses and the drop position exceeds it, else before |
| Reorder.PlacementAtIndexPath | app/components-react/editor/elements/SourceSelector.tsx:238-244 | for a widget-built position beside a node, placement is after iff the drop position exceeds the node's index |
| Reorder.DropOntoFolderGoesInside | app/components-react/editor/elements/SourceSelector.tsx:239 | a drop onto a folder of the built tree, not into a gap, goes inside whatever the drop position |
| Reorder.TargetNodes | app/components-react/editor/elements/SourceSelector.tsx:247-250 | dragging a selected node moves the selection; dragging an unselected one moves the widget's dragged keys |
| Reorder.HandleSort | app/components-react/editor/elements/SourceSelector.tsx:246-262 | a request is made iff the moved nodes resolve and a node has the destination key; it targets that node with the chosen nodes and placement |
| Reorder.DragUnselectedOntoFolder | app/components-react/editor/elements/SourceSelector.tsx:246-262 | dragging an unselected node onto a folder moves just the dragged keys, inside that folder |
| Reorder.DragSelectedMovesSelection | app/components-react/editor/elements/SourceSelector.tsx:246-262 | dragging a selected node moves the whole selection |
| ItemCommands.ApplyToNode | app/components-react/editor/elements/SourceSelector.tsx:334 | a request writes its one flag on an item and leaves its other flags, its source, its id and its parent as they were; a folder is returned unchanged |
| ItemCommands.ApplyToItems | app/components-react/editor/elements/SourceSelector.tsx:334 | a request is applied to every item of a selection, position by position |
| ItemCommands.ToggleVisibility | app/components-react/editor/elements/SourceSelector.tsx:331-335 | the request hides the items exactly when the node currently shows visible |
| ItemCommands.ToggleLock | app/components-react/editor/elements/SourceSelector.tsx:390-394 | the request sets the lock to the opposite of the node's current lock |
| ItemCommands.ToggleVisibilityFlips | app/components-react/editor/elements/SourceSelector.tsx:331-335 | for a node with items, toggling visibility flips the visibility the node shows |
| ItemCommands.ToggleLockFlips | app/components-react/editor/elements/SourceSelector.tsx:390-394 | for a node with items, toggling the lock flips the lock the node shows |
| ItemCommands.ToggleLockOfEmptyFolder | app/components-react/editor/elements/SourceSelector.tsx:390-394 | a node with no items shows locked, asks to unlock, and still shows locked afterwards |
| SelectiveRecording.CycleCommands | app/components-react/editor/elements/SourceSelector.tsx:376-388 | nothing is requested for a locked node |
| SelectiveRecording.Cycle | app/components-react/editor/elements/SourceSelector.tsx:376-388 | a locked node keeps its pair; otherwise both → stream only → recording only → both, and neither → both |
| SelectiveRecording.CycleFollowsModes | app/components-react/editor/elements/SourceSelector.tsx:376-388 | an unlocked click moves the badge's mode to the next mode of the cycle |
| SelectiveRecording.CycleThrice | app/components-react/editor/elements/SourceSelector.tsx:376-388 | three clicks return every pair on at least one channel to itself |
| SelectiveRecording.CycleOnItems | app/components-react/editor/elements/SourceSelector.tsx:376-388 | the requests, applied to every item under a node with items, move the pair the node shows exactly as the cycle says |
| SelectiveRecording.SelectiveRecordingMetadata | app/components-react/editor/elements/SourceSelector.tsx:552-559 | the badge is the smart-record icon iff on both channels, broadcast iff on stream only, studio iff not on stream |
| SelectiveRecording.MetadataShowsMode | app/components-react/editor/elements/SourceSelector.tsx:552-559 | the badge (icon and tooltip) is the badge of the mode the pair is in |
| SelectiveRecording.ClassifyChannelsOf | app/components-react/editor/elements/SourceSelector.tsx:552-559 | each mode's pair is classified back as that mode |
| SelectiveRecording.ToggleSelectiveRecording | app/components-react/editor/elements/SourceSelector.tsx:365-374 | nothing is requested iff the replay buffer runs or the output is not idle; otherwise the opposite of the current flag is requested |
| SelectiveRecording.ToggleSelectiveRecordingTwice | app/components-react/editor/elements/SourceSelector.tsx:365-374 | toggling the global switch twice restores it, frozen or not |

## Left out

- React rendering is not modelled, because it is presentation: the
  `SourceSelector`, `StudioControls` and `ItemsTree` components, the JSX of
  `TreeNode`, and `SourceSelectorElement`. The model keeps a tree node's
  structure (key, leaf flag, icon, children) and the record it shows.
- `nodeRefs` and `scrollIntoView` are DOM effects. Auto-expansion instead
  returns the id to scroll to.
- The icon of a leaf item (lines 140-156) depends on source and widget
  display catalogs outside this component. It is kept symbolic as
  `SourceIcon(sourceId)`.
- `getNameForNode` reads source names from the sources service. Titles are
  kept symbolic (`SourceName(sourceId)`, `FolderName(name)`).
- Service-backed actions other than the modelled requests are not modelled:
  `addSource`, `addFolder`, `showContextMenu`, `removeItems`,
  `sourceProperties` and `canShowProperties`.
- Scene queries are taken as inputs, because their code is not part of this
  model:
  - `getPath()` is an input that `IsPathOf` constrains: the ids from a
    top-level node down to the node, each the parent of the next;
  - `scene.getSelection(ids)` succeeding is the `selectionResolved` input of
    `HandleSort`;
  - `selectedIds` is passed to `ExpandSelectedFolders` as given;
  - the selection service is taken to make the last id of a selection the
    last selected id, the value the watcher at line 307 observes.
- The async execution of `handleSort` and the `injectWatch` wiring are not
  modelled. The watcher is the explicit call `OnLastSelectedChange`, which
  runs `ExpandSelectedFolders` after a change of the last selected id.
- MakeActive: a shift-click is modelled only when both the anchor and the
  clicked id occur in the flat order. That order is `nodeData.map(i => i.id)`,
  the store order of the nodes (`Ids(nodes)`), not the drawn order. When one
  of them is missing, `findIndex` returns -1 and `slice` produces incidental
  results.
- DeterminePlacement: `Number()` is modelled for what a tree position
  segment holds (the empty string, a run of decimal digits, or anything
  else as NaN). Whitespace, signs, exponents and hex forms are not.
- SelectionCoordinator.ToggleFlipsMembership: requires an expanded list
  without duplicates. With a repeated id a toggle removes only one copy, so
  membership does not flip (see Findings).
- SelectiveRecording.SelectiveRecordingMetadata: the tooltips are the
  untranslated keys passed to `$t(...)` at lines 554-558. Translation is a
  lookup in catalogs outside this component.
- Selection flags: `isVisible()`, `isLocked()`, `isStreamVisible()` and
  `isRecordingVisible()` on a selection are taken to be the node's
  aggregated flags. The pair `Cycle` starts from is such a pair.

## Findings

| source | as written | input that shows it | evidently intended | confidence | as-written member | corrected member |
|---|---|---|---|---|---|---|
| app/components-react/editor/elements/SourceSelector.tsx:316-318 | auto-expansion concatenates the selected node's ancestors onto the expanded list, and `toggleFolder` (lines 290-297) removes only the first copy of an id | folder A expanded by the user, then item X inside A selected from outside the tree: the list becomes [A, A], and one collapse click on A leaves [A], so A stays expanded | adding ancestors as a set union, so that one collapse click always collapses | not executed | SelectionCoordinator.DuplicateExpansionSurvivesCollapse | SelectionCoordinator.UniqueExpansionThenCollapse |
| app/components-react/editor/elements/SourceSelector.tsx:268-270 | every click raises the guard, but the watcher at line 307 fires, and so lowers the guard, only when the last selected id changes | item X selected, then clicked again: the last selected id stays X and the guard stays raised; item Y inside collapsed folder A is then selected from outside the tree, and A is neither expanded nor scrolled to | raise the guard only for a click that changes the last selected id, so that each guard suppresses only the expansion its own click causes | not executed; the watcher is taken to fire only on a change of the watched value | SelectionCoordinator.RepeatClickSwallowsNextSelection | SelectionCoordinator.GuardOnChangeIsConsumed |
