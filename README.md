# SlicePanel: duplicate map and selection walks

This project models the parts of IntelliJ's `SlicePanel` that carry logic,
and proves properties about them. `SlicePanel` is the panel that shows a
dataflow slice as a tree of usages. The rest of the class is Swing layout
and IDE wiring.

- **`DuplicateMap`** (module `DuplicateMaps`) is the table that maps a slice
  usage to the tree nodes showing it. It compares and hashes keys by
  `getUsageInfo()`, not by identity. It is stamped with a PSI modification
  count. Each `put` compares the count it reads with the stamp and rebuilds
  the table when they differ. The class `DuplicateMap` has the table
  (`map<Info, V>`) and the stamp as fields. `Put` and the inherited `Get` are
  its methods. The functions `Rebuilt`, `AfterPut`, `PutReturn` and
  `AfterPuts` state the same behaviour on values. The lemmas about those
  functions cover a series of puts.
- **Selection walks** (module `SliceSelection`) cover
  `getSelectedUsageInfos`, `getNavigatables`, `calcData`, the body of the
  preview push in `treeSelectionChanged`, and the Enter-key handler. The
  methods keep the source's loops. Each is proved equal to a pure
  specification function built on the generic in-order filter `FilterMap`
  (module `Sequences`). Lemmas state what that filter and the Enter effects
  amount to. The panel's tree is set to single selection (line 177), so in the
  running panel a selection holds at most one path; the order and bound
  properties are stated for any number of paths and so cover more than the
  panel produces.
- `Options` holds the `Option` type, which stands for Java's `null`.

Inputs the code reads from its environment are parameters:

- the PSI modification count that `put` reads;
- the tree's selection paths, as `Option<seq<PathEnd>>` (None is `null`);
- whether the panel is disposed and whether a preview panel exists;
- the key code of the pressed key.
- the data key `calcData` is asked for (the navigatable array or any other key).

The IDE actions (`navigate`, `highlightInEditor`) are returned as a list of
`Effect` values, in the order they would be performed.

**Rebuild, as written.** On a stamp change, `put` creates a new empty map
(line 85). It walks that new map's entries (lines 86-92), so the walk sees
no entries. It then clears the table and copies the empty map into it
(lines 93-94). A stamp change therefore discards every earlier entry, and the
table then holds only the new key. The model does exactly this. Keeping the
valid entries and rehashing them, as the comment at line 66 suggests, is not
what the code does.

In `Put` the walk is therefore reduced to the empty map it produces; the
model does not describe what such a walk would do on a non-empty map, where
keys whose hash and equality had changed could land in other slots.

Some functions have no row of their own because they are the per-step
specifications behind the method contracts: `Rebuilt`, `AfterPut` and
`PutReturn` behind `Put` (lines 84-97); `NavigatableOf` behind
`GetNavigatables` (lines 266-275); `UsageInfoOf` behind
`GetSelectedUsageInfos` (lines 237-243); `Unwrapped` and `EffectsOf` behind
`KeyPressed` (lines 202-210).

## Model

| member | source | states |
|---|---|---|
| `DuplicateMaps.DuplicateMap.constructor` | source/com/intellij/slicer/SlicePanel.java:68-79 | a new map is empty and its stamp is -1 |
| `DuplicateMaps.DuplicateMap.Put` | source/com/intellij/slicer/SlicePanel.java:81-98 | the stamp afterwards is the count read. If the count differed from the old stamp, the table is exactly the one new pair and null is returned. If it was equal, the key's slot is replaced, every other slot is unchanged, and the previous value (or null) is returned. The slot is the key's usage info |
| `DuplicateMaps.DuplicateMap.Get` | source/com/intellij/slicer/SlicePanel.java:67-78 | the inherited get returns the value in the key's usage-info slot, or null. It neither reads nor changes the stamp |
| `DuplicateMaps.EqualUsageInfoSharesSlot` | source/com/intellij/slicer/SlicePanel.java:70-77 | two keys with equal usage info share one slot. A second put under the same count returns the first value, adds no key, and leaves the second value in the slot |
| `DuplicateMaps.FirstPutStartsEmpty` | source/com/intellij/slicer/SlicePanel.java:68-97 | on a fresh map (stamp -1), the first put with any count other than -1 leaves exactly the one new entry, stamped with that count |
| `DuplicateMaps.AfterPutsAppend` | source/com/intellij/slicer/SlicePanel.java:82-98 | a series of puts split in two has the same effect as the two halves in turn |
| `DuplicateMaps.StampIsLastCount` | source/com/intellij/slicer/SlicePanel.java:83-95 | after any non-empty series of puts, the stamp is the count the last put read |
| `DuplicateMaps.SteadyStampIsPlainMap` | source/com/intellij/slicer/SlicePanel.java:84-97 | while every count equals the stamp, a series of puts is a series of plain map updates and keeps the stamp |
| `DuplicateMaps.OnlyLatestEpochSurvives` | source/com/intellij/slicer/SlicePanel.java:84-97 | after the last stamp change, the table holds exactly what the puts since that change assigned, starting from empty. No earlier entry survives |
| `DuplicateMaps.AssignKeys` | source/com/intellij/slicer/SlicePanel.java:97 | plain updates give the old keys plus the usage info of every put |
| `DuplicateMaps.AssignUntouched` | source/com/intellij/slicer/SlicePanel.java:97 | a slot that no update writes keeps its old value, or stays absent |
| `DuplicateMaps.AssignLastWins` | source/com/intellij/slicer/SlicePanel.java:97 | a slot holds the value of the last update made under its usage info |
| `Sequences.FilterMap` | source/com/intellij/slicer/SlicePanel.java:236-245 | an in-order walk that adds at most one item per path never yields more items than paths |
| `Sequences.FilterMapAppend` | source/com/intellij/slicer/SlicePanel.java:236-245 | the walk over a concatenation is the concatenation of the walks, so the walk keeps selection order |
| `Sequences.FilterMapOrder` | source/com/intellij/slicer/SlicePanel.java:264-276 | the k-th item comes from the k-th qualifying path. The source positions strictly increase, and every qualifying path contributes |
| `Sequences.FilterMapEmpty` | source/com/intellij/slicer/SlicePanel.java:246 | the walk yields nothing exactly when no path qualifies |
| `Sequences.FilterMapMember` | source/com/intellij/slicer/SlicePanel.java:236-245 | an item is in the result exactly when some path yields it |
| `SliceSelection.GetSelectedUsageInfos` | source/com/intellij/slicer/SlicePanel.java:232-248 | returns null when nothing is selected, or when no selected path ends in a tree node whose user object is a slice node. Otherwise it returns a non-empty list of those nodes' usage infos, one per qualifying path, in selection order |
| `SliceSelection.GetNavigatables` | source/com/intellij/slicer/SlicePanel.java:259-278 | never null: empty without a selection. Otherwise, in selection order, each path gives the node's user object if that is navigatable, else the node if it is navigatable, else nothing. So there are at most as many items as paths |
| `SliceSelection.UserObjectPreferred` | source/com/intellij/slicer/SlicePanel.java:269-270 | a selected tree node whose user object is navigatable puts that user object among the navigatables |
| `SliceSelection.CalcData` | source/com/intellij/slicer/SlicePanel.java:250-257 | asked for any key other than the navigatable array, nothing is published. Asked for the navigatable array, it is published exactly when the selection has navigatables, and it holds them all |
| `SliceSelection.PreviewUpdate` | source/com/intellij/slicer/SlicePanel.java:223-227 | infos reach the preview exactly when the panel is not disposed, a preview panel exists, and the selection has usage infos. They are those infos |
| `SliceSelection.KeyPressed` | source/com/intellij/slicer/SlicePanel.java:197-214 | a key other than Enter does nothing and is not consumed. On Enter with no navigatables, nothing happens and the event is not consumed. Otherwise every navigatable is handled in order and the event is consumed |
| `SliceSelection.EffectsOfNavigate` | source/com/intellij/slicer/SlicePanel.java:202-210 | one navigatable is unwrapped first. It is navigated only if it can navigate to source, and highlighted only if it is also a usage |
| `SliceSelection.EnterNavigations` | source/com/intellij/slicer/SlicePanel.java:201-211 | the navigations on Enter are exactly the unwrapped navigatables that can navigate to source, in selection order |
| `SliceSelection.EnterHighlights` | source/com/intellij/slicer/SlicePanel.java:205-209 | the highlights on Enter are exactly the navigated navigatables that are usages, in selection order |
| `SliceSelection.EnterEffectsWellFormed` | source/com/intellij/slicer/SlicePanel.java:201-211 | no navigation targets a tree node that wraps a usage, since that node is replaced by its usage. Every navigation target can navigate to source. Every highlight directly follows the navigation to the same usage |

## Left out

- The PSI modification tracker is not modelled. The count `put` reads is a parameter.
- `UsageInfo.hashCode` and `equals` are not modelled. Key identity is the abstract usage info (type parameter `Info`), which is what the hashing strategy compares.
- `PsiElement.isValid` and the rebuild's entry walk (lines 86-92) are not modelled as steps. The walk runs over the map created at line 85, which is empty, so it never sees an entry and its validity guard (line 89) never runs.
- Which of two equal keys the table keeps as its stored key object is not modelled. The table is keyed by usage info, so only the value in the slot is observable.
- A `null` value stored by `put` is not distinguished from a missing slot. The model returns None only for a missing slot.
- Panel layout, splitter, toolbar, actions, tooltips, speed search, renderer and `dispose` are left out. They are Swing and IDE plumbing.
- The constructor's build, expand and select callback chain (lines 101-125) is left out. It is asynchronous callbacks into `SliceTreeBuilder`, and `SliceTreeBuilder` is not part of this model.
- The `invokeLater` deferral in `treeSelectionChanged` is left out. Only the body of the deferred runnable is modelled, as `PreviewUpdate`.
- The other operations inherited from `THashMap` (remove, clear, iteration) are left out. Like `Get`, they never look at the stamp.
- `navigate(false)` and `highlightInEditor()` are not modelled as actions. They are recorded as `Effect` values.
- A navigatable's `canNavigateToSource()` is not computed. It is a field of the model.
