# Equipment skeleton — a Dafny model

A Cocos Creator component set dresses a Spine skeleton with equipment. The
`EquipmentSkeleton` rig walks the skeleton's bones and creates a socket node
for every bone except the root. It records each bone's node in an
index-aligned table and binds an `EquipmentSlot` to every skeleton slot
whose bone received a socket. It keeps two tables: equipment types to slot
lists, and equipment sets to `EquipmentSetHelper`s. Each helper holds
slot → sprite pairs for one set. Wearing a set resets every slot and then
styles the set's slots: sprite, size and optional tint. Wear and take-off
requests are filtered by the rig's id. `DemoController` cycles through the
sets: it takes everything off, wears the next set and advances a modular
counter.

This project models that bookkeeping in Dafny and proves what it promises.

- **Engine values** (`engine.dfy`, module `Engine`). The engine objects the
  rig touches become plain records:
  - a bone is a tree `Bone(index, name, children)`;
  - a skeleton slot names its bone's index and its optional region
    attachment;
  - a scene node or socket is a small value;
  - sprite frames, sizes and colours are integer records.
- **Enumerations** (`enums.dfy`, module `Enums`). `EquipmentType` and
  `EquipmentSet` are each `None` or an ordinal.
- **Equipment slot** (`equipment_slot.dfy`, module `Slot`). `EquipmentSlot`
  is a class. Its node (components and transform), its `init` state, its
  `slotIndex` and its look (sprite frame, content size, colour) are fields
  that its methods update.
- **Sockets** (`sockets.dfy`, module `Sockets`). The socket walk is
  specified by pure functions:
  - the depth-first visit order with each bone's name list;
  - the sockets, the `_boneNodes` entries and the bone → node table the
    walk produces;
  - the skeleton slots that get a binding.

  Lemmas prove the following about them:
  - the walk visits every bone reachable from the root, with its
    root-to-bone name list, once per bone;
  - every non-root bone gets a socket, one per visit after the root, in
    walk order;
  - each path runs from the root down to its bone;
  - socket paths are unique when bone names are pairwise distinct and none
    contains '/' (a bone "a/b" under the root and a bone "b" under "a"
    would both get "root/a/b");
  - the root's entry is null.
- **Settings** (`settings.dfy`, module `Settings`):
  - `checkSettings` as a function on pair lists (`Reconcile`);
  - the size lookup (`SlotSize`);
  - `Restyle`: what a run of `setSlotStyle` calls leaves on one slot.
- **Rig** (`equipment_skeleton.dfy`, module `Rig`). The classes
  `EquipmentSkeleton` and `EquipmentSetHelper`. Their setters and methods
  are imperative Dafny, proved against the functions above:
  - each styling loop ensures that every slot's final look is `Restyle` of
    its starting look under the list of calls the loop makes;
  - the socket walk ensures that its output equals the walk functions.

  The recursive `cascadeSearch` closure pushes into local lists and writes
  `_boneNodes` entries. It becomes the method `Rig.CascadeSearch`. That
  method threads the socket list, the bone → node table and the
  `_boneNodes` entries (a sparse array, modelled as a map from bone index)
  as in/out values. `CreateSockets` then stores them into the fields. Nothing
  reads `_boneNodes` during the walk, so the effect is the same.
- **Demo** (`demo_controller.dfy`, module `Demo`). `DemoController` holds
  the look index. `_changeLook` takes everything off, wears the current
  key's set unless it is `None`, and advances the index modulo the number
  of keys. The index stays in range, and after one call per key it is back
  where it started.

How the model states the source's behaviour:
- Null dereferences the source would hit become preconditions. A slot must
  have been `init`ed before it is styled or reset (`ready`). Wearing a pair
  needs a sprite unless the slot size is used, and skeleton data if it is
  (`Wearable`). Debug styling needs skeleton data and a tint once there is a
  slot to style.
- The rig binds its equipment slots with `init(i)` as the source writes it,
  so the slot bound to skeleton slot 0 keeps `slotIndex` -1 and reports a
  zero size (see "## Findings"); the corrected `Init` is modelled beside it.
- The rig's ghost `Slots` and `Helpers` sets track every slot and helper it
  has referred to. `Valid()` states that they are initialised and belong to
  it.

## Model

| member | source | states |
|---|---|---|
| Slot.Acquire | assets/scripts/EquipmentSlot.ts:32-33 | afterwards the node has the component; an existing one is reused and the list is unchanged, a missing one is appended once; the count of every other component kind is unchanged |
| Slot.AcquireIsIdempotent | assets/scripts/EquipmentSlot.ts:32-33 | running `init`'s two look-ups again on a node that already went through them leaves its component list unchanged, so a repeated `init` adds no duplicates |
| Slot.EquipmentSlot.constructor | assets/scripts/EquipmentSlot.ts:20-25 | a new component has no UITransform or Sprite, `slotIndex` -1, the default transform and the default look |
| Slot.EquipmentSlot.Init | assets/scripts/EquipmentSlot.ts:31-36 | corrected `init`: both components are present afterwards, each added only if absent; the slot is ready; `slotIndex` is the argument whenever one is passed, 0 included, and is unchanged otherwise; the look is unchanged |
| Slot.EquipmentSlot.InitAsWritten | assets/scripts/EquipmentSlot.ts:31-36 | `init` as written: same as `Init`, except that `slotIndex` is stored only for a truthy argument, so `init()` and `init(0)` both leave it as it was |
| Slot.EquipmentSlot.SetStartState | assets/scripts/EquipmentSlot.ts:38-43 | content size, position, z rotation and x/y scale are set; the z scale, the components and the slot index are kept |
| Slot.EquipmentSlot.SetSlotStyle | assets/scripts/EquipmentSlot.ts:45-50 | frame and size are always set; the colour changes only when one is passed |
| Slot.EquipmentSlot.SetToDefault | assets/scripts/EquipmentSlot.ts:52-55 | no frame, colour white, content size unchanged |
| Settings.FirstIndex | assets/scripts/EquipmentSkeleton.ts:99 | the index of the first pair for the slot, or the list length when there is none; no earlier pair is for that slot |
| Settings.Reconcile | assets/scripts/EquipmentSkeleton.ts:92-110 | one pair per slot of the type, in slot order; a slot that had a pair keeps its first pair's sprite, `useTint` and `useSlotSize`; a new slot gets no sprite and both flags off; every pair is for a current slot, so pairs of dropped slots are gone |
| Settings.ReconcileIsIdempotent | assets/scripts/EquipmentSkeleton.ts:92-110 | `checkSettings` twice with the same slots gives what once gave |
| Settings.ReconcileKeepsAligned | assets/scripts/EquipmentSkeleton.ts:92-110 | pairs that already follow their slots one for one, with no slot twice, come back unchanged |
| Settings.RestyleStep | assets/scripts/EquipmentSlot.ts:45-50 | one more `setSlotStyle` call changes a slot's look exactly when the call is made on that slot |
| Settings.RestyleUntouched | assets/scripts/EquipmentSkeleton.ts:116-125 | a slot none of the calls is made on keeps its look |
| Settings.RestyleLastWins | assets/scripts/EquipmentSkeleton.ts:116-125 | the last call on a slot decides its look: that call applied to what the earlier calls left |
| Settings.WornSlotLook | assets/scripts/EquipmentSkeleton.ts:113-125 | a slot reset and then styled by exactly one pair shows that pair's sprite and size, and the tint or else white |
| Sockets.VisitsShape | assets/scripts/EquipmentSkeleton.ts:305-324 | the walk from a bone visits each bone of its subtree once, starting with the bone itself named by the prefix plus its own name |
| Sockets.SocketsFollowWalk | assets/scripts/EquipmentSkeleton.ts:311-316 | the walk from the root yields exactly one socket per non-root bone, in depth-first order |
| Sockets.VisitPaths | assets/scripts/EquipmentSkeleton.ts:305-308 | every visit's name list is the copied prefix followed by the names on the path from the walked bone down to the visited one, so siblings never share a list |
| Sockets.VisitsCover | assets/scripts/EquipmentSkeleton.ts:305-324 | every bone reachable from the walked bone along a name list is visited, with the copied prefix followed by exactly that list |
| Sockets.WalkCovers | assets/scripts/EquipmentSkeleton.ts:305-327 | the converse of `VisitPaths` from the root: every bone reachable from the root is visited with its root-to-bone name list |
| Sockets.EveryBoneGetsSocket | assets/scripts/EquipmentSkeleton.ts:311-316 | every non-root bone reachable from the root gets a socket whose path is its root-to-bone names joined by '/' and whose node is its socket node |
| Sockets.PathEndsAtBone | assets/scripts/EquipmentSkeleton.ts:308 | a name path ends with the name of the bone it leads to |
| Sockets.SocketPathsFromRoot | assets/scripts/EquipmentSkeleton.ts:305-316 | each socket's path is its bone's root-to-bone name list joined by '/' |
| Sockets.JoinInjective | assets/scripts/EquipmentSkeleton.ts:316 | name lists without '/' join to the same path only if they are equal |
| Sockets.SocketPathsUnique | assets/scripts/EquipmentSkeleton.ts:316 | when bone names are distinct and contain no '/', all socket paths are distinct |
| Sockets.BoneNodesAfterWalk | assets/scripts/EquipmentSkeleton.ts:310-320 | after the walk the root's bone-node entry is null, every other walked bone's entry is its socket node, and there are no other entries |
| Sockets.SocketNodesKeys | assets/scripts/EquipmentSkeleton.ts:318 | the bone → node table holds exactly the non-root bones of the walk |
| Sockets.BoundSlots | assets/scripts/EquipmentSkeleton.ts:331-332 | the indices of the skeleton slots whose bone got a socket: all of them, each a valid index, in increasing order |
| Rig.SetSlotStartState | assets/scripts/EquipmentSkeleton.ts:430-441 | with an attachment, the slot takes its position, size, rotation and scale; without one, nothing changes |
| Rig.NewEquipmentSlot | assets/scripts/EquipmentSkeleton.ts:333-339 | a fresh ready slot placed as the attachment is authored, bound with `init(i)` as written: its index is i, except -1 for i = 0 |
| Rig.CreateSlots | assets/scripts/EquipmentSkeleton.ts:331-343 | one fresh, distinct equipment slot per bound skeleton slot, in skeleton slot order, each bound with `init(i)` as written (index -1 for skeleton slot 0) and placed as its attachment is authored |
| Rig.StartedDistinct | assets/scripts/EquipmentSkeleton.ts:331-341 | the slots created for increasing skeleton slot indices are pairwise distinct objects, -1 for slot 0 included |
| Rig.ZeroIndexSlotSize | assets/scripts/EquipmentSlot.ts:35 | on a skeleton whose slot 0 hangs on a non-root bone with a 64 x 64 attachment, the slot the rig itself binds through `skeletonData` reports a zero size, while the corrected `init` gives 64 x 64 |
| Rig.ZeroSlotIsBound | assets/scripts/EquipmentSkeleton.ts:305-332 | on that skeleton the walk gives the child bone a socket, so skeleton slot 0 is exactly the slot that gets bound |
| Rig.CascadeSearch | assets/scripts/EquipmentSkeleton.ts:305-325 | appends the sockets of the subtree's walk, adds its non-root bones to the bone → node table and writes its bone-node entries, all in walk order |
| Rig.EquipmentSkeleton.constructor | assets/scripts/EquipmentSkeleton.ts:148-227 | no skeleton data, no sockets, slots or bone nodes, empty tables, no type, set or worn set, no tint |
| Rig.EquipmentSkeleton.WearStyles | assets/scripts/EquipmentSkeleton.ts:116-125 | the `setSlotStyle` calls of `wearSet`: one per pair, in pair order, on the pair's slot, with the pair's sprite, the slot size or else the sprite size, and the tint only when `useTint` |
| Rig.EquipmentSkeleton.DebugStyles | assets/scripts/EquipmentSkeleton.ts:461-467 | the calls of `_styleDebugSlots`: one per equipment slot, in order, with the debug frame, the slot's size and the tint at alpha 120 |
| Rig.EquipmentSkeleton.GetSlotsByType | assets/scripts/EquipmentSkeleton.ts:473-479 | a definition with no contract of its own: the registered list of a type, or an empty list; its promises are proved where the table changes: `SetType` leaves the lookup unchanged for every type, `ClearSocketNodes` and `SetSkeletonData` empty the table |
| Rig.EquipmentSkeleton.GetSizeOfEquipmentSlot | assets/scripts/EquipmentSkeleton.ts:469-486 | a definition with no contract of its own, through `Settings.SlotSize`: the attachment size of the slot's skeleton slot, or zero; `CreateSocketNodes` and `SetSkeletonData` prove every bound slot's size, zero for skeleton slot 0 |
| Rig.EquipmentSkeleton.ClearSocketNodes | assets/scripts/EquipmentSkeleton.ts:404-418 | sockets, equipment slots, bone nodes and both tables emptied, selected type None, debug off |
| Rig.EquipmentSkeleton.SetSlotsToDefault | assets/scripts/EquipmentSkeleton.ts:420-428 | with a type, exactly the slots of that type are reset; without one, all equipment slots; every other slot keeps its look; the worn set becomes null |
| Rig.EquipmentSkeleton.StyleDebugSlots | assets/scripts/EquipmentSkeleton.ts:461-467 | every slot's look is its old look restyled by the debug calls in order; skeleton data and a tint are needed only when there is a slot |
| Rig.EquipmentSkeleton.StyleDebugSlot | assets/scripts/EquipmentSkeleton.ts:462-466 | one slot styled with the debug frame, its size and the tint at alpha 120 |
| Rig.EquipmentSkeleton.SetDebugEquipmentSlots | assets/scripts/EquipmentSkeleton.ts:378-384 | all equipment slots reset, restyled for debugging when switched on; the flag recorded; the worn set null; with no slots the flag can be switched on without skeleton data or tint |
| Rig.EquipmentSkeleton.SetToDefault | assets/scripts/EquipmentSkeleton.ts:275-278 | all equipment slots reset, no worn set, debug off |
| Rig.EquipmentSkeleton.ResetForWear | assets/scripts/EquipmentSkeleton.ts:113-115 | all equipment slots reset, debug off, and the worn set is the helper, even though the reset cleared it along the way |
| Rig.EquipmentSkeleton.SetType | assets/scripts/EquipmentSkeleton.ts:191-198 | an empty list is registered only for an absent type, never over an existing one; the type and its list are selected; `getSlotsByType` answers as before for every type, so the lazy registration cannot be seen through the lookup |
| Rig.EquipmentSkeleton.SetSlotsOfType | assets/scripts/EquipmentSkeleton.ts:213-220 | the list is stored for the selected type and selected; the set is deselected; all slots reset; debug off; no worn set |
| Rig.EquipmentSkeleton.SetSet | assets/scripts/EquipmentSkeleton.ts:239-248 | an existing helper is kept, a new set gets a fresh helper of type None; it is selected and its pairs are rebuilt |
| Rig.EquipmentSkeleton.CreateSocketNodes | assets/scripts/EquipmentSkeleton.ts:299-344 | clears first; the sockets are exactly those of the walk, the bone-node entries those of the walk; one fresh distinct slot per bound skeleton slot, in order, bound with `init(i)` as written; each reports its skeleton slot's attachment size, except a zero size for skeleton slot 0; both tables empty |
| Rig.EquipmentSkeleton.CreateSockets | assets/scripts/EquipmentSkeleton.ts:302-329 | the walk's sockets are put before the existing ones; the bone-node entries and the bone → node table are those of the walk |
| Rig.EquipmentSkeleton.BindSlots | assets/scripts/EquipmentSkeleton.ts:331-343 | the equipment slots are the fresh slots of the bound skeleton slots, in order, bound with `init(i)` as written, and are known to the rig |
| Rig.EquipmentSkeleton.SetSkeletonData | assets/scripts/EquipmentSkeleton.ts:138-146 | data present: sockets and bone-node entries regenerated from scratch, one fresh slot per bound skeleton slot with its state and reported size (zero for skeleton slot 0); no data: everything cleared; either way both tables are empty |
| Rig.EquipmentSkeleton.OnEquipmentWearSet | assets/scripts/EquipmentSkeleton.ts:495-502 | not addressed, or no helper for the set: nothing changes; otherwise the set is worn (all slots reset, then restyled by its pairs in order, debug off, worn set recorded) |
| Rig.EquipmentSkeleton.OnEquipmentTakeOff | assets/scripts/EquipmentSkeleton.ts:504-508 | not addressed: nothing changes; otherwise the slots of the type (all slots without one) are reset and the worn set becomes null |
| Rig.EquipmentSetHelper.constructor | assets/scripts/EquipmentSkeleton.ts:46-68 | a helper of the rig with type None and no pairs |
| Rig.EquipmentSetHelper.CheckSettings | assets/scripts/EquipmentSkeleton.ts:92-110 | the pairs become `Reconcile` of the old pairs and the current slots of the helper's type |
| Rig.EquipmentSetHelper.SetType | assets/scripts/EquipmentSkeleton.ts:62-65 | the type is recorded and the pairs are rebuilt for it |
| Rig.EquipmentSetHelper.WearSet | assets/scripts/EquipmentSkeleton.ts:112-126 | every equipment slot is reset, then each pair's slot is styled in pair order; debug off; the worn set is this helper |
| Rig.EquipmentSetHelper.StylePairs | assets/scripts/EquipmentSkeleton.ts:116-125 | every slot's look is its old look restyled by the pair calls in order |
| Rig.EquipmentSetHelper.StylePair | assets/scripts/EquipmentSkeleton.ts:117-124 | one pair's slot styled with the pair's sprite, the slot size or else the sprite size, and the tint only when `useTint` |
| Demo.Next | assets/DemoController.ts:30 | the next look index is always in range |
| Demo.NextWraps | assets/DemoController.ts:30 | from an index in range, a call adds one, and the last key wraps to the first |
| Demo.After | assets/DemoController.ts:30 | after any number of calls the index is in range |
| Demo.Climb | assets/DemoController.ts:30 | until the last key is passed, each call advances the index by one |
| Demo.FullCycle | assets/DemoController.ts:30 | after one call per key the index is back at its start |
| Demo.DemoController.constructor | assets/DemoController.ts:9-10 | the controller starts at key 0 |
| Demo.DemoController.ChangeLook | assets/DemoController.ts:21-31 | all slots are taken off with no type and no id; the current key's set is worn unless it is None, with the rig's own id, so the filter lets it through; the index advances modulo the number of keys |
| Demo.DemoController.ShowLook | assets/DemoController.ts:22-28 | the take-off of everything followed by the wear of the key's set, composed: reset then restyled, or only reset for None or a set without a helper |

## Left out

- Engine scene-graph work is left out: creating nodes, layers, `setParent`, `destroy` of socket targets and `addComponent`. Nodes and sockets are records, and the socket node of a bone is a value derived from its name list.
- `_updateSlotesTransform` and `updateAnimation` are left out: they are per-frame floating-point matrix copies plus a call into the animation runtime.
- `EquipmentSkeleton.start` is left out: it is an asynchronous editor asset query. `EquipmentSlot.start` calls `init()`, which is `Init(None)`.
- The `tint` setter (EquipmentSkeleton.ts:166-171) is left out. It is not among the modelled setters, and it only re-runs `wearSet` and `_styleDebugSlots`, which `WearSet` and `StyleDebugSlots` model.
- The `trySet` setter (lines 88-90) only calls `wearSet`, and the `clearSocketNodes` setter (lines 356-358) only calls `_clearSocketNodes`. Both are covered by those members.
- The `settings` setter (lines 263-266) replaces a helper from the inspector; it is not modelled.
- `onDestroy` only calls `_clearSocketNodes`; it is not modelled separately.
- Getters, decorators, `visible()` predicates and `EDITOR` guards are presentational and left out.
- `getSlotOfEquipment` (lines 469-471) is modelled only inside the size lookup, `SlotSize`; an index of -1 reads no slot and gives a zero size.
- `Object.keys(EquipmentSet)` is an abstract non-empty sequence of sets, because the enumeration file is not part of this model. The enumerations are `None` or an ordinal.
- The `schedule(..., 2)` timer is left out; `ChangeLook` is one tick.
- Aliasing is not modelled:
  - `_selectedSlots` and the type table's list are one array in the source (line 196); here they are sequence values.
  - An in-place edit of that array through the inspector is not modelled.
- Sizes, colours and transforms are integers. Colour cloning is a value copy, and `JSON.parse(JSON.stringify(...))` at line 306 is the value semantics of a sequence.
- Rig.EquipmentSetHelper.WearSet: it does not restate the rig's `Valid()` afterwards; its callers re-establish it, since styling changes only looks.

## Findings

| source | as written | input that shows it | evidently intended | confidence | as-written member | corrected member |
|---|---|---|---|---|---|---|
| assets/scripts/EquipmentSlot.ts:35 | `if (slotIndex)` is JavaScript truthiness, so `init(0)` does not store the index and the slot bound to skeleton slot 0 keeps `slotIndex` -1 | a skeleton whose slot 0 hangs on a non-root bone and shows a 64 x 64 attachment: the rig reports a zero size for its equipment slot, so `useSlotSize` pairs on it get a 0 x 0 sprite | store the index whenever one is passed, so that the size reported is 64 x 64 | not executed | Rig.ZeroIndexSlotSize | Slot.EquipmentSlot.Init |
