/** `EquipmentSkeleton`, the rig component, and `EquipmentSetHelper`, the
    data of one equipment set. The rig derives sockets and equipment slots
    from the skeleton's bones and slots, keeps the type -> slots and
    set -> helper tables, and wears or takes off sets on request. */
module Rig {
  import opened Engine
  import opened Enums
  import opened Slot
  import opened Sockets
  import opened Settings

  /** The `setSlotStyle` call `wearSet` makes for a pair, given the size the
      rig reports for the pair's slot and the rig's tint. */
  function PairStyle(p: Pair, slotSize: Size, tint: Option<Color>): Style
    requires p.useSlotSize || p.spriteFrame.Some?
  {
    Style(p.slot, p.spriteFrame,
          if p.useSlotSize then slotSize else Size(p.spriteFrame.value.width, p.spriteFrame.value.height),
          if p.useTint then tint else None)
  }

  /** The node of a freshly created slot once `init` and `_setSlotStartState`
      ran: both components, and the attachment's placement when there is one. */
  function StartNode(slot: SkeletonSlot): SlotNode {
    match slot.attachment
    case Some(a) => SlotNode([UITransform, Sprite], Vec3(a.x, a.y, 0), Vec3(0, 0, a.rotation), Vec3(a.scaleX, a.scaleY, 1))
    case None => SlotNode([UITransform, Sprite], Vec3(0, 0, 0), Vec3(0, 0, 0), Vec3(1, 1, 1))
  }

  /** The look of a freshly created slot: no frame, white, and the
      attachment's size when there is one. */
  function StartLook(slot: SkeletonSlot): SlotLook {
    match slot.attachment
    case Some(a) => SlotLook(None, Size(a.width, a.height), White)
    case None => SlotLook(None, Size(100, 100), White)
  }

  /** `_setSlotStartState`: place a new slot as the skeleton slot's
      attachment is authored; a slot without an attachment is left as it is. */
  method SetSlotStartState(eqSlot: EquipmentSlot, slot: SkeletonSlot)
    requires eqSlot.ready
    modifies eqSlot
    ensures eqSlot.ready && eqSlot.slotIndex == old(eqSlot.slotIndex)
    ensures slot.attachment.None? ==> eqSlot.node == old(eqSlot.node) && eqSlot.look == old(eqSlot.look)
    ensures slot.attachment.Some? ==>
              var a := slot.attachment.value;
              && eqSlot.node == SlotNode(old(eqSlot.node.components), Vec3(a.x, a.y, 0), Vec3(0, 0, a.rotation),
                                         Vec3(a.scaleX, a.scaleY, old(eqSlot.node.scale.z)))
              && eqSlot.look == old(eqSlot.look).(contentSize := Size(a.width, a.height))
  {
    if slot.attachment.Some? {
      var a := slot.attachment.value;
      eqSlot.SetStartState(Vec3(a.x, a.y, 0), Size(a.width, a.height), a.rotation, Vec2(a.scaleX, a.scaleY));
    }
  }

  /** The `slotIndex` that `init(i)` leaves on a new equipment slot: `i`,
      except that `if (slotIndex)` does not store 0, so the -1 stays. */
  function BoundIndex(i: nat): int {
    if i == 0 then -1 else i
  }

  /** The attachment size of a skeleton slot, or a zero size without one. */
  function AttachmentSize(slot: SkeletonSlot): Size {
    match slot.attachment
    case Some(a) => Size(a.width, a.height)
    case None => ZeroSize
  }

  /** One step of the slot loop of `createSocketNodes`: a new node with a
      new equipment slot, bound with `init(index)` as written and placed as
      its attachment is authored. */
  method NewEquipmentSlot(index: nat, slot: SkeletonSlot) returns (eqSlot: EquipmentSlot)
    ensures fresh(eqSlot) && eqSlot.ready && eqSlot.slotIndex == BoundIndex(index)
    ensures eqSlot.node == StartNode(slot) && eqSlot.look == StartLook(slot)
  {
    eqSlot := new EquipmentSlot();
    eqSlot.InitAsWritten(Some(index));
    SetSlotStartState(eqSlot, slot);
  }

  /** `eqSlot` is ready and was created for skeleton slot `index`. */
  ghost predicate Started(eqSlot: EquipmentSlot, index: nat, slot: SkeletonSlot)
    reads eqSlot
  {
    eqSlot.ready && eqSlot.slotIndex == BoundIndex(index) && eqSlot.node == StartNode(slot) && eqSlot.look == StartLook(slot)
  }

  /** The slot loop of `createSocketNodes`: for each skeleton slot in
      order whose bone got a socket, a new equipment slot for that index. */
  method CreateSlots(slots: seq<SkeletonSlot>, socketBones: set<nat>) returns (created: seq<EquipmentSlot>)
    ensures var bound := BoundSlots(slots, socketBones);
            && |created| == |bound|
            && forall k :: 0 <= k < |bound| ==> fresh(created[k]) && Started(created[k], bound[k], slots[bound[k]])
    ensures forall j, k :: 0 <= j < k < |created| ==> created[j] != created[k]
  {
    created := [];
    ghost var bound: seq<nat> := [];
    var i := 0;
    while i < |slots|
      invariant 0 <= i <= |slots|
      invariant bound == BoundSlots(slots[..i], socketBones)
      invariant |created| == |bound|
      invariant forall k :: 0 <= k < |bound| ==> bound[k] < i
      invariant forall k :: 0 <= k < |created| ==> fresh(created[k])
      invariant forall k :: 0 <= k < |bound| ==> Started(created[k], bound[k], slots[bound[k]])
    {
      assert slots[..i + 1][..i] == slots[..i];
      if slots[i].bone in socketBones {
        var eqSlot := NewEquipmentSlot(i, slots[i]);
        created := created + [eqSlot];
        bound := bound + [i];
      }
      i := i + 1;
    }
    assert slots[..i] == slots;
    StartedDistinct(created, bound, slots);
  }

  /** Slots created for increasing skeleton slot indices are distinct
      objects, since their `slotIndex` values differ (-1 included). */
  lemma StartedDistinct(created: seq<EquipmentSlot>, bound: seq<nat>, slots: seq<SkeletonSlot>)
    requires |created| == |bound|
    requires forall k, l :: 0 <= k < l < |bound| ==> bound[k] < bound[l]
    requires forall k :: 0 <= k < |bound| ==> bound[k] < |slots| && Started(created[k], bound[k], slots[bound[k]])
    ensures forall j, k :: 0 <= j < k < |created| ==> created[j] != created[k]
  {
    forall j, k | 0 <= j < k < |created|
      ensures created[j] != created[k]
    {
      assert created[j].slotIndex == BoundIndex(bound[j]) < BoundIndex(bound[k]) == created[k].slotIndex;
    }
  }

  lemma AppendAssoc<T>(a: seq<T>, b: seq<T>, c: seq<T>)
    ensures a + b + c == a + (b + c)
  {
  }

  /** A root with one child bone "body", and skeleton slot 0 on that bone
      showing a 64 x 64 attachment. */
  function ZeroSlotSkeleton(): Skeleton {
    Skeleton(Bone(0, "root", [Bone(1, "body", [])]),
             [SkeletonSlot("body", 1, Some(Attachment(0, 0, 64, 64, 0, 1, 1)))])
  }

  /** The walk of that skeleton gives "body" a socket, so skeleton slot 0
      is the one slot that gets an equipment slot. */
  lemma ZeroSlotIsBound()
    ensures var sk := ZeroSlotSkeleton();
            BoundSlots(sk.slots, SocketNodesOf(map[], Walk(sk.root), sk.root).Keys) == [0]
  {
    var sk := ZeroSlotSkeleton();
    var root := sk.root;
    var body := root.children[0];
    var vs := [Visit(root, ["root"]), Visit(body, ["root", "body"])];
    assert Walk(root) == vs by {
      assert ChildVisits(body, 0, ["root", "body"]) == [];
      assert ["root"] + ["body"] == ["root", "body"];
      assert Visits(body, ["root"]) == [Visit(body, ["root", "body"])];
      assert ChildVisits(root, 1, ["root"]) == [];
      assert ChildVisits(root, 0, ["root"]) == Visits(body, ["root"]);
      assert [] + ["root"] == ["root"];
    }
    assert SocketNodesOf(map[], vs, root).Keys == {1} by {
      assert vs[1..] == [vs[1]] && vs[1..][1..] == [];
      assert body != root;
      assert SocketNodesOf(map[], vs, root) == SocketNodesOf(map[], vs[1..], root);
      assert SocketNodesOf(map[], vs[1..], root) == SocketNodesOf(map[1 := SocketNode(vs[1])], [], root);
    }
    assert BoundSlots(sk.slots, {1}) == [0] by {
      assert sk.slots[..0] == [];
    }
  }

  /** On that skeleton the rig binds one equipment slot; since `init(0)` as
      written keeps its index at -1, the rig reports a zero size for it.
      With the index stored, the size is the attachment's. */
  method ZeroIndexSlotSize() returns (asWritten: Size, corrected: Size)
    ensures asWritten == ZeroSize && corrected == Size(64, 64)
  {
    var skeleton := ZeroSlotSkeleton();
    var rig := new EquipmentSkeleton("rig");
    rig.SetSkeletonData(Some(skeleton));
    ZeroSlotIsBound();
    asWritten := rig.GetSizeOfEquipmentSlot(rig.equipmentSlots[0]);
    var fixed := new EquipmentSlot();
    fixed.Init(Some(0));
    corrected := SlotSize(skeleton, fixed.slotIndex);
  }

  /** `cascadeSearch(bone, nameArray)`: copies the name list (or starts an
      empty one), appends the bone's name, creates the bone's socket unless
      it is the root, records the bone's node, then walks the children in
      order. The sockets list and the bone -> node table are the closure's
      captured locals and `entries` stands for the rig's `_boneNodes`; all
      three are passed in and returned. */
  method CascadeSearch(root: Bone, bone: Bone, nameArray: Option<seq<string>>, sockets: seq<Socket>,
                       nodes: map<nat, SceneNode>, entries: map<nat, Option<SceneNode>>)
    returns (sockets': seq<Socket>, nodes': map<nat, SceneNode>, entries': map<nat, Option<SceneNode>>)
    ensures var vs := Visits(bone, if nameArray.Some? then nameArray.value else []);
            && sockets' == sockets + SocketsOf(vs, root)
            && nodes' == SocketNodesOf(nodes, vs, root)
            && entries' == BoneNodeEntries(entries, vs, root)
    decreases bone
  {
    var name := if nameArray.Some? then nameArray.value else [];
    ghost var prefix := name;
    name := name + [bone.name];
    var node: Option<SceneNode> := None;
    sockets', nodes' := sockets, nodes;
    if bone != root {
      var created := SceneNode("Socket_" + Join(name, '_'), bone.index);
      node := Some(created);
      sockets' := sockets' + [Socket(Join(name, '/'), created)];
      nodes' := nodes'[bone.index := created];
    }
    entries' := entries[bone.index := node];

    ghost var done := [Visit(bone, name)];
    assert SocketsOf(done, root) == (if bone != root then [SocketFor(Visit(bone, name))] else []);
    var i := 0;
    while i < |bone.children|
      invariant 0 <= i <= |bone.children|
      invariant done + ChildVisits(bone, i, name) == Visits(bone, prefix)
      invariant sockets' == sockets + SocketsOf(done, root)
      invariant nodes' == SocketNodesOf(nodes, done, root)
      invariant entries' == BoneNodeEntries(entries, done, root)
    {
      var child := bone.children[i];
      ghost var childVisits := Visits(child, name);
      SocketsOfAppend(done, childVisits, root);
      SocketNodesAppend(nodes, done, childVisits, root);
      BoneNodeEntriesAppend(entries, done, childVisits, root);
      AppendAssoc(sockets, SocketsOf(done, root), SocketsOf(childVisits, root));
      sockets', nodes', entries' := CascadeSearch(root, child, Some(name), sockets', nodes', entries');
      ghost var rest := ChildVisits(bone, i + 1, name);
      assert ChildVisits(bone, i, name) == childVisits + rest;
      AppendAssoc(done, childVisits, rest);
      done := done + childVisits;
      i := i + 1;
    }
    assert done == Visits(bone, prefix);
  }

  class EquipmentSkeleton {
    var skeleton: Option<Skeleton>
    var id: string
    var tint: Option<Color>
    var sockets: seq<Socket>
    var equipmentSlots: seq<EquipmentSlot>
    var boneNodes: map<nat, Option<SceneNode>>
    var slotsOfType: map<EquipmentType, seq<EquipmentSlot>>
    var selectedType: EquipmentType
    var selectedSlots: seq<EquipmentSlot>
    var sets: map<EquipmentSet, EquipmentSetHelper>
    var selectedSet: EquipmentSet
    var setSettings: EquipmentSetHelper?
    var wearedSet: EquipmentSetHelper?
    var debugSpriteFrame: Option<SpriteFrame>
    var debugEquipmentSlots: bool

    /** Every equipment slot the rig has referred to, and every set helper it created. */
    ghost var Slots: set<EquipmentSlot>
    ghost var Helpers: set<EquipmentSetHelper>

    /** The slots the rig styles are all initialised and known, and the
        helpers of its sets belong to it and only name known slots. */
    ghost predicate Valid()
      reads this`Slots, this`Helpers, this`equipmentSlots, this`slotsOfType, this`sets, Slots`ready, Helpers`settings
    {
      && (forall s :: s in Slots ==> s.ready)
      && (forall s :: s in equipmentSlots ==> s in Slots)
      && (forall t :: t in slotsOfType ==> forall s :: s in slotsOfType[t] ==> s in Slots)
      && (forall k :: k in sets ==> sets[k] in Helpers)
      && (forall h :: h in Helpers ==> h.rig == this && forall p :: p in h.settings ==> p.slot in Slots)
    }

    /** A rig component with no skeleton data, no sockets, empty tables and no tint. */
    constructor (id: string)
      ensures Valid() && Slots == {} && Helpers == {}
      ensures skeleton == None && this.id == id && tint == None
      ensures sockets == [] && equipmentSlots == [] && boneNodes == map[]
      ensures slotsOfType == map[] && selectedType == TypeNone && selectedSlots == []
      ensures sets == map[] && selectedSet == SetNone && setSettings == null && wearedSet == null
      ensures debugSpriteFrame == None && !debugEquipmentSlots
    {
      skeleton := None;
      this.id := id;
      tint := None;
      sockets := [];
      equipmentSlots := [];
      boneNodes := map[];
      slotsOfType := map[];
      selectedType := TypeNone;
      selectedSlots := [];
      sets := map[];
      selectedSet := SetNone;
      setSettings := null;
      wearedSet := null;
      debugSpriteFrame := None;
      debugEquipmentSlots := false;
      Slots := {};
      Helpers := {};
    }

    /** `getSlotsByType`: the registered slot list of a type, or an empty
        list for a type that was never registered. */
    function GetSlotsByType(t: EquipmentType): seq<EquipmentSlot>
      reads this`slotsOfType
    {
      if t in slotsOfType then slotsOfType[t] else []
    }

    /** The slots `setSlotsToDefault(type?)` resets: those of the type when
        one is given, otherwise all equipment slots. */
    function Targets(t: Option<EquipmentType>): seq<EquipmentSlot>
      reads this`slotsOfType, this`equipmentSlots
    {
      if t.Some? then GetSlotsByType(t.value) else equipmentSlots
    }

    /** `getSizeOfEquipmentSlot`: the size of the active attachment of the
        skeleton slot the equipment slot stands for, or a zero size when that
        slot does not exist or shows no attachment. */
    function GetSizeOfEquipmentSlot(eqSlot: EquipmentSlot): Size
      requires skeleton.Some?
      reads this`skeleton, eqSlot`slotIndex
    {
      SlotSize(skeleton.value, eqSlot.slotIndex)
    }

    /** `wearSet` can style every pair without dereferencing null: a sprite
        is needed unless the slot's size is used, and the skeleton if it is. */
    predicate Wearable(pairs: seq<Pair>)
      reads this`skeleton
    {
      forall p :: p in pairs ==> (p.useSlotSize ==> skeleton.Some?) && (!p.useSlotSize ==> p.spriteFrame.Some?)
    }

    /** The size `wearSet` asks the rig for, for one pair. */
    function PairSize(p: Pair): Size
      requires p.useSlotSize ==> skeleton.Some?
      reads this`skeleton, p.slot`slotIndex
    {
      if p.useSlotSize then GetSizeOfEquipmentSlot(p.slot) else ZeroSize
    }

    /** The `setSlotStyle` calls `wearSet` makes, one per pair, in pair order. */
    function WearStyles(pairs: seq<Pair>): (r: seq<Style>)
      requires Wearable(pairs)
      reads this`skeleton, this`tint, PairSlots(pairs)`slotIndex
      ensures |r| == |pairs|
      ensures forall k :: 0 <= k < |pairs| ==> pairs[k] in pairs && r[k] == PairStyle(pairs[k], PairSize(pairs[k]), tint)
      decreases |pairs|
    {
      if pairs == [] then []
      else
        var n := |pairs| - 1;
        assert pairs[n] in pairs;
        WearStyles(pairs[..n]) + [PairStyle(pairs[n], PairSize(pairs[n]), tint)]
    }

    /** The `setSlotStyle` calls `_styleDebugSlots` makes on `slots`: the
        debug frame, the slot's size and the tint at alpha 120, in order. */
    function DebugStyles(slots: seq<EquipmentSlot>): (r: seq<Style>)
      requires slots != [] ==> skeleton.Some? && tint.Some?
      reads this`skeleton, this`tint, this`debugSpriteFrame, slots`slotIndex
      ensures |r| == |slots|
      ensures forall k :: 0 <= k < |slots| ==>
                r[k] == Style(slots[k], debugSpriteFrame, GetSizeOfEquipmentSlot(slots[k]), Some(tint.value.(a := 120)))
      decreases |slots|
    {
      if slots == [] then []
      else
        var n := |slots| - 1;
        DebugStyles(slots[..n]) + [Style(slots[n], debugSpriteFrame, GetSizeOfEquipmentSlot(slots[n]), Some(tint.value.(a := 120)))]
    }

    /** The identity filter of the wear and take-off commands: no id, an
        empty id, or this rig's own id. */
    predicate Addressed(target: Option<string>)
      reads this`id
    {
      target.None? || target.value == "" || target.value == id
    }

    /** `_clearSocketNodes`: empties sockets, equipment slots, bone nodes and
        both tables, resets the selected type and the debug flag. The
        selected slots and set, the set being edited and the worn set stay. */
    method ClearSocketNodes()
      requires Valid()
      modifies this`sockets, this`equipmentSlots, this`boneNodes, this`selectedType, this`slotsOfType, this`sets,
               this`debugEquipmentSlots
      ensures Valid()
      ensures sockets == [] && equipmentSlots == [] && boneNodes == map[]
      ensures selectedType == TypeNone && slotsOfType == map[] && sets == map[] && !debugEquipmentSlots
    {
      sockets := [];
      equipmentSlots := [];
      boneNodes := map[];
      selectedType := TypeNone;
      slotsOfType := map[];
      sets := map[];
      debugEquipmentSlots := false;
    }

    /** `setSlotsToDefault(type?)`: resets the slots of the type (all
        equipment slots when no type is given) and forgets the worn set. */
    method SetSlotsToDefault(t: Option<EquipmentType>)
      requires Valid()
      modifies this`wearedSet, Targets(t)`look
      ensures Valid()
      ensures wearedSet == null
      ensures forall s {:trigger s.look} :: s in Slots ==> s.look == if s in Targets(t) then old(s.look).Reset() else old(s.look)
    {
      var slotNodes := Targets(t);
      var i := 0;
      while i < |slotNodes|
        invariant 0 <= i <= |slotNodes|
        invariant forall s {:trigger s.look} :: s in Slots ==> s.look == if s in slotNodes[..i] then old(s.look).Reset() else old(s.look)
      {
        assert slotNodes[i] in Slots;
        slotNodes[i].SetToDefault();
        assert slotNodes[..i + 1] == slotNodes[..i] + [slotNodes[i]];
        i := i + 1;
      }
      assert slotNodes[..i] == slotNodes;
      wearedSet := null;
    }

    /** `_styleDebugSlots`: styles every equipment slot with the debug frame,
        its own size and the tint at alpha 120. */
    method StyleDebugSlots()
      requires forall s :: s in equipmentSlots ==> s.ready
      requires equipmentSlots != [] ==> skeleton.Some? && tint.Some?
      modifies equipmentSlots`look
      ensures forall s {:trigger s.look} :: s in Slots ==> s.look == Restyle(old(s.look), s, old(DebugStyles(equipmentSlots)))
    {
      ghost var styles := DebugStyles(equipmentSlots);
      ghost var slots := Slots;
      var eqSlots := equipmentSlots;
      var i := 0;
      while i < |eqSlots|
        invariant 0 <= i <= |eqSlots|
        invariant forall s {:trigger s.look} :: s in slots ==> s.look == Restyle(old(s.look), s, styles[..i])
      {
        assert styles[i] == Style(eqSlots[i], debugSpriteFrame, GetSizeOfEquipmentSlot(eqSlots[i]), Some(tint.value.(a := 120)));
        label Before:
        StyleDebugSlot(eqSlots[i], styles[i]);
        forall s | s in slots
          ensures s.look == Restyle(old(s.look), s, styles[..i + 1])
        {
          RestyleStep(old(s.look), s, styles, i);
          assert old@Before(s.look) == Restyle(old(s.look), s, styles[..i]);
        }
        i := i + 1;
      }
      assert styles[..i] == styles;
    }

    /** The body of that loop for one slot: the debug frame, the slot's own
        size and the tint at alpha 120. */
    method StyleDebugSlot(eqSlot: EquipmentSlot, ghost style: Style)
      requires eqSlot.ready && skeleton.Some? && tint.Some?
      requires style == Style(eqSlot, debugSpriteFrame, GetSizeOfEquipmentSlot(eqSlot), Some(tint.value.(a := 120)))
      modifies eqSlot`look
      ensures eqSlot.look == old(eqSlot.look).Styled(style.spriteFrame, style.size, style.tint)
    {
      var debugTint := tint.value.(a := 120);
      var size := GetSizeOfEquipmentSlot(eqSlot);
      eqSlot.SetSlotStyle(debugSpriteFrame, size, Some(debugTint));
    }

    /** The `debugEquipmentSlots` setter: resets all slots, styles them for
        debugging when switched on, and records the flag. */
    method SetDebugEquipmentSlots(value: bool)
      requires Valid()
      requires value && equipmentSlots != [] ==> skeleton.Some? && tint.Some?
      modifies this`wearedSet, this`debugEquipmentSlots, equipmentSlots`look
      ensures Valid()
      ensures debugEquipmentSlots == value && wearedSet == null
      ensures !value ==> forall s {:trigger s.look} :: s in Slots ==> s.look == if s in equipmentSlots then old(s.look).Reset() else old(s.look)
      ensures value ==> forall s {:trigger s.look} :: s in Slots ==>
                s.look == Restyle(if s in equipmentSlots then old(s.look).Reset() else old(s.look), s, old(DebugStyles(equipmentSlots)))
    {
      SetSlotsToDefault(None);
      if value {
        forall k | 0 <= k < |equipmentSlots|
          ensures GetSizeOfEquipmentSlot(equipmentSlots[k]) == old(GetSizeOfEquipmentSlot(equipmentSlots[k]))
        {
        }
        assert DebugStyles(equipmentSlots) == old(DebugStyles(equipmentSlots));
        StyleDebugSlots();
      }
      debugEquipmentSlots := value;
    }

    /** The `setToDefault` setter: `setSlotsToDefault()`, then the debug
        flag switched off (which resets every slot once more). */
    method SetToDefault()
      requires Valid()
      modifies this`wearedSet, this`debugEquipmentSlots, equipmentSlots`look
      ensures Valid()
      ensures wearedSet == null && !debugEquipmentSlots
      ensures forall s {:trigger s.look} :: s in Slots ==> s.look == if s in equipmentSlots then old(s.look).Reset() else old(s.look)
    {
      SetSlotsToDefault(None);
      SetDebugEquipmentSlots(false);
    }

    /** The first three steps of `wearSet`: the two steps of the
        `setToDefault` setter, then `helper` recorded as the worn set. */
    method ResetForWear(helper: EquipmentSetHelper)
      requires Valid()
      modifies this`wearedSet, this`debugEquipmentSlots, equipmentSlots`look
      ensures Valid()
      ensures wearedSet == helper && !debugEquipmentSlots
      ensures forall s {:trigger s.look} :: s in Slots ==> s.look == if s in equipmentSlots then old(s.look).Reset() else old(s.look)
    {
      SetToDefault();
      wearedSet := helper;
    }

    /** The `type` setter: registers an empty slot list for a type seen for
        the first time (an existing list is never replaced) and selects it. */
    method SetType(value: EquipmentType)
      requires Valid()
      modifies this`slotsOfType, this`selectedSlots, this`selectedType
      ensures Valid()
      ensures slotsOfType == if value in old(slotsOfType) then old(slotsOfType) else old(slotsOfType)[value := []]
      ensures selectedType == value && selectedSlots == slotsOfType[value]
      ensures forall t :: GetSlotsByType(t) == old(GetSlotsByType(t))
    {
      if value !in slotsOfType {
        slotsOfType := slotsOfType[value := []];
      }
      selectedSlots := slotsOfType[value];
      selectedType := value;
    }

    /** The `slotsOfType` setter: stores the list for the selected type,
        deselects the set, resets all slots and switches debugging off. */
    method SetSlotsOfType(value: seq<EquipmentSlot>)
      requires Valid()
      requires forall s :: s in value ==> s.ready
      modifies this`slotsOfType, this`selectedSlots, this`selectedSet, this`wearedSet, this`debugEquipmentSlots,
               this`Slots, equipmentSlots`look
      ensures Valid()
      ensures slotsOfType == old(slotsOfType)[selectedType := value] && selectedSlots == value
      ensures selectedSet == SetNone && wearedSet == null && !debugEquipmentSlots
      ensures Slots == old(Slots) + (set s | s in value)
      ensures forall s {:trigger s.look} :: s in Slots ==> s.look == if s in equipmentSlots then old(s.look).Reset() else old(s.look)
    {
      slotsOfType := slotsOfType[selectedType := value];
      selectedSlots := value;
      Slots := Slots + (set s | s in value);
      selectedSet := SetNone;
      SetSlotsToDefault(None);
      SetDebugEquipmentSlots(false);
    }

    /** The `set` setter: creates a helper for a set seen for the first time
        (an existing helper is kept), selects it and rebuilds its pairs. */
    method SetSet(value: EquipmentSet)
      requires Valid()
      modifies this`sets, this`Helpers, this`setSettings, this`selectedSet,
               (if value in sets then {sets[value]} else {})`settings
      ensures Valid()
      ensures value in sets && setSettings == sets[value] && selectedSet == value
      ensures value in old(sets) ==> sets == old(sets) && Helpers == old(Helpers)
      ensures value in old(sets) ==>
                setSettings.settings == Reconcile(old(sets[value].settings), GetSlotsByType(setSettings.equipmentType))
      ensures value !in old(sets) ==>
                && fresh(setSettings) && sets == old(sets)[value := setSettings]
                && Helpers == old(Helpers) + {setSettings}
                && setSettings.equipmentType == TypeNone
                && setSettings.settings == Reconcile([], GetSlotsByType(TypeNone))
    {
      if value !in sets {
        var helper := new EquipmentSetHelper(this);
        sets := sets[value := helper];
        Helpers := Helpers + {helper};
      }
      var helper := sets[value];
      setSettings := helper;
      selectedSet := value;
      helper.CheckSettings();
    }

    /** The `createSocketNodes` setter: clears, walks the bones from the root
        creating one socket per non-root bone and filling the bone-node
        entries, puts the new sockets before the existing ones, then binds
        the skeleton slots. */
    method CreateSocketNodes()
      requires Valid() && skeleton.Some?
      modifies this`sockets, this`equipmentSlots, this`boneNodes, this`selectedType, this`slotsOfType, this`sets,
               this`debugEquipmentSlots, this`Slots
      ensures Valid()
      ensures var root := skeleton.value.root;
              var vs := Walk(root);
              && sockets == SocketsOf(vs, root)
              && boneNodes == BoneNodeEntries(map[], vs, root)
              && var bound := BoundSlots(skeleton.value.slots, SocketNodesOf(map[], vs, root).Keys);
                 && |equipmentSlots| == |bound|
                 && forall k :: 0 <= k < |bound| ==>
                      fresh(equipmentSlots[k]) && Started(equipmentSlots[k], bound[k], skeleton.value.slots[bound[k]])
      ensures var bound := BoundSlots(skeleton.value.slots, SocketNodesOf(map[], Walk(skeleton.value.root), skeleton.value.root).Keys);
              forall k :: 0 <= k < |bound| ==>
                GetSizeOfEquipmentSlot(equipmentSlots[k])
                  == if bound[k] == 0 then ZeroSize else AttachmentSize(skeleton.value.slots[bound[k]])
      ensures forall j, k :: 0 <= j < k < |equipmentSlots| ==> equipmentSlots[j] != equipmentSlots[k]
      ensures selectedType == TypeNone && slotsOfType == map[] && sets == map[] && !debugEquipmentSlots
      ensures Slots == old(Slots) + (set s | s in equipmentSlots)
    {
      ClearSocketNodes();
      var boneNodesMap := CreateSockets();
      BindSlots(boneNodesMap);
    }

    /** The first half of `createSocketNodes`: the walk from the root, which
        fills the bone-node entries, then the new sockets put before the
        existing ones. Returns the walk's bone -> socket node table. */
    method CreateSockets() returns (boneNodesMap: map<nat, SceneNode>)
      requires skeleton.Some?
      modifies this`sockets, this`boneNodes
      ensures var root := skeleton.value.root;
              && sockets == SocketsOf(Walk(root), root) + old(sockets)
              && boneNodes == BoneNodeEntries(old(boneNodes), Walk(root), root)
              && boneNodesMap == SocketNodesOf(map[], Walk(root), root)
    {
      var root := skeleton.value.root;
      var created, entries;
      created, boneNodesMap, entries := CascadeSearch(root, root, None, [], map[], boneNodes);
      assert Visits(root, []) == Walk(root);
      boneNodes := entries;
      sockets := created + sockets;
    }

    /** The second half of `createSocketNodes`: for each skeleton slot in
        order whose bone got a socket, a new equipment slot initialised with
        the slot's index and placed as its attachment is authored. */
    method BindSlots(boneNodesMap: map<nat, SceneNode>)
      requires Valid() && skeleton.Some? && equipmentSlots == []
      modifies this`equipmentSlots, this`Slots
      ensures Valid()
      ensures var bound := BoundSlots(skeleton.value.slots, boneNodesMap.Keys);
              && |equipmentSlots| == |bound|
              && forall k :: 0 <= k < |bound| ==>
                   fresh(equipmentSlots[k]) && Started(equipmentSlots[k], bound[k], skeleton.value.slots[bound[k]])
      ensures forall j, k :: 0 <= j < k < |equipmentSlots| ==> equipmentSlots[j] != equipmentSlots[k]
      ensures Slots == old(Slots) + (set s | s in equipmentSlots)
    {
      var created := CreateSlots(skeleton.value.slots, boneNodesMap.Keys);
      equipmentSlots := created;
      Slots := Slots + (set s | s in created);
    }

    /** The `skeletonData` setter: new data regenerates sockets and slots
        (which clears first); no data clears. Either way both tables end empty. */
    method SetSkeletonData(value: Option<Skeleton>)
      requires Valid()
      modifies this`skeleton, this`sockets, this`equipmentSlots, this`boneNodes, this`selectedType, this`slotsOfType,
               this`sets, this`debugEquipmentSlots, this`Slots
      ensures Valid()
      ensures skeleton == value
      ensures slotsOfType == map[] && sets == map[] && selectedType == TypeNone && !debugEquipmentSlots
      ensures value.None? ==> sockets == [] && equipmentSlots == [] && boneNodes == map[]
      ensures value.Some? ==>
                var root := value.value.root;
                var bound := BoundSlots(value.value.slots, SocketNodesOf(map[], Walk(root), root).Keys);
                && sockets == SocketsOf(Walk(root), root)
                && boneNodes == BoneNodeEntries(map[], Walk(root), root)
                && |equipmentSlots| == |bound|
                && (forall k :: 0 <= k < |bound| ==>
                      fresh(equipmentSlots[k]) && Started(equipmentSlots[k], bound[k], value.value.slots[bound[k]]))
                && (forall k :: 0 <= k < |bound| ==>
                      GetSizeOfEquipmentSlot(equipmentSlots[k])
                        == if bound[k] == 0 then ZeroSize else AttachmentSize(value.value.slots[bound[k]]))
    {
      skeleton := value;
      if value.Some? {
        CreateSocketNodes();
      } else {
        ClearSocketNodes();
      }
    }

    /** `onEquipmentWearSet(set, id)`: when addressed and the set has a
        helper, wears it; otherwise changes nothing. */
    method OnEquipmentWearSet(equipmentSet: EquipmentSet, target: Option<string>)
      requires Valid()
      requires Addressed(target) && equipmentSet in sets ==> Wearable(sets[equipmentSet].settings)
      modifies this`wearedSet, this`debugEquipmentSlots, equipmentSlots`look,
               (if equipmentSet in sets then PairSlots(sets[equipmentSet].settings) else [])`look
      ensures Valid()
      ensures !(Addressed(target) && equipmentSet in sets) ==>
                && wearedSet == old(wearedSet) && debugEquipmentSlots == old(debugEquipmentSlots)
                && forall s {:trigger s.look} :: s in Slots ==> s.look == old(s.look)
      ensures Addressed(target) && equipmentSet in sets ==>
                && wearedSet == sets[equipmentSet] && !debugEquipmentSlots
                && forall s {:trigger s.look} :: s in Slots ==>
                     s.look == Restyle(if s in equipmentSlots then old(s.look).Reset() else old(s.look),
                                       s, old(WearStyles(sets[equipmentSet].settings)))
    {
      if Addressed(target) {
        if equipmentSet in sets {
          var helper := sets[equipmentSet];
          helper.WearSet();
        }
      }
    }

    /** `onEquipmentTakeOff(type?, id?)`: when addressed, resets the slots of
        the type (all slots when no type is given) and forgets the worn set;
        otherwise changes nothing. */
    method OnEquipmentTakeOff(t: Option<EquipmentType>, target: Option<string>)
      requires Valid()
      modifies this`wearedSet, Targets(t)`look
      ensures Valid()
      ensures !Addressed(target) ==> wearedSet == old(wearedSet) && forall s {:trigger s.look} :: s in Slots ==> s.look == old(s.look)
      ensures Addressed(target) ==>
                && wearedSet == null
                && forall s {:trigger s.look} :: s in Slots ==> s.look == if s in Targets(t) then old(s.look).Reset() else old(s.look)
    {
      if Addressed(target) {
        SetSlotsToDefault(t);
      }
    }
  }

  class EquipmentSetHelper {
    const rig: EquipmentSkeleton
    var equipmentType: EquipmentType
    var settings: seq<Pair>

    /** A helper of `rig` with no type and no pairs. */
    constructor (rig: EquipmentSkeleton)
      ensures this.rig == rig && equipmentType == TypeNone && settings == []
    {
      this.rig := rig;
      equipmentType := TypeNone;
      settings := [];
    }

    /** `checkSettings`: rebuilds the pairs from the current slots of the
        helper's type, one pair per slot, keeping the sprite and flags of
        slots that already had a pair. */
    method CheckSettings()
      requires rig.Valid() && this in rig.Helpers
      modifies this`settings
      ensures rig.Valid()
      ensures settings == Reconcile(old(settings), rig.GetSlotsByType(equipmentType))
    {
      var newSettings: seq<Pair> := [];
      var slotsByType := rig.GetSlotsByType(equipmentType);
      var i := 0;
      while i < |slotsByType|
        invariant 0 <= i <= |slotsByType|
        invariant newSettings == Reconcile(settings, slotsByType[..i])
      {
        var slot := slotsByType[i];
        var pair := Pair(slot, None, false, false);
        var found := FirstIndex(settings, slot);
        if found < |settings| {
          var oldPair := settings[found];
          pair := pair.(spriteFrame := oldPair.spriteFrame, useTint := oldPair.useTint, useSlotSize := oldPair.useSlotSize);
        }
        assert Reconcile(settings, slotsByType[..i + 1]) == Reconcile(settings, slotsByType[..i]) + [Carried(settings, slot)];
        newSettings := newSettings + [pair];
        i := i + 1;
      }
      assert slotsByType[..i] == slotsByType;
      settings := newSettings;
    }

    /** The helper's `type` setter: records the type and rebuilds the pairs. */
    method SetType(value: EquipmentType)
      requires rig.Valid() && this in rig.Helpers
      modifies this`equipmentType, this`settings
      ensures rig.Valid()
      ensures equipmentType == value
      ensures settings == Reconcile(old(settings), rig.GetSlotsByType(value))
    {
      equipmentType := value;
      CheckSettings();
    }

    /** `wearSet`: resets every equipment slot, switches debugging off, marks
        this set as worn, then styles each pair's slot in pair order: the
        pair's sprite, the slot's size or else the sprite's own size, and the
        rig's tint only when the pair asks for it. */
    method WearSet()
      requires rig.Valid() && this in rig.Helpers && rig.Wearable(settings)
      modifies rig`wearedSet, rig`debugEquipmentSlots, rig.equipmentSlots`look,
               PairSlots(settings)`look
      ensures rig.wearedSet == this && !rig.debugEquipmentSlots
      ensures forall s {:trigger s.look} :: s in rig.Slots ==>
                s.look == Restyle(if s in rig.equipmentSlots then old(s.look).Reset() else old(s.look),
                                  s, old(rig.WearStyles(settings)))
    {
      rig.ResetForWear(this);
      label Reset:
      forall k | 0 <= k < |settings|
        ensures rig.PairSize(settings[k]) == old(rig.PairSize(settings[k]))
      {
        assert settings[k] in settings;
      }
      assert rig.WearStyles(settings) == old(rig.WearStyles(settings));
      StylePairs();
      forall s | s in rig.Slots
        ensures s.look == Restyle(if s in rig.equipmentSlots then old(s.look).Reset() else old(s.look), s, old(rig.WearStyles(settings)))
      {
        assert old@Reset(s.look) == if s in rig.equipmentSlots then old(s.look).Reset() else old(s.look);
      }
    }

    /** The loop of `wearSet`: one `setSlotStyle` call per pair, in pair
        order, on the pair's slot. */
    method StylePairs()
      requires (forall p :: p in settings ==> p.slot.ready) && rig.Wearable(settings)
      modifies PairSlots(settings)`look
      ensures forall s {:trigger s.look} :: s in rig.Slots ==> s.look == Restyle(old(s.look), s, old(rig.WearStyles(settings)))
    {
      ghost var styles := rig.WearStyles(settings);
      var i := 0;
      while i < |settings|
        invariant 0 <= i <= |settings|
        invariant forall s {:trigger s.look} :: s in rig.Slots ==> s.look == Restyle(old(s.look), s, styles[..i])
      {
        assert settings[i] in settings;
        assert styles[i] == PairStyle(settings[i], rig.PairSize(settings[i]), rig.tint);
        label Before:
        StylePair(settings[i], styles[i]);
        forall s | s in rig.Slots
          ensures s.look == Restyle(old(s.look), s, styles[..i + 1])
        {
          RestyleStep(old(s.look), s, styles, i);
          assert old@Before(s.look) == Restyle(old(s.look), s, styles[..i]);
        }
        i := i + 1;
      }
      assert styles[..i] == styles;
    }

    /** The body of that loop for one pair: the pair's sprite, the slot's size
        when `useSlotSize` is set and else the sprite's own size, and the
        rig's tint only when `useTint` is set. */
    method StylePair(pair: Pair, ghost style: Style)
      requires pair.slot.ready && rig.Wearable([pair])
      requires style == PairStyle(pair, rig.PairSize(pair), rig.tint)
      modifies pair.slot`look
      ensures pair.slot.look == old(pair.slot.look).Styled(style.spriteFrame, style.size, style.tint)
    {
      var size: Size;
      if pair.useSlotSize {
        size := rig.GetSizeOfEquipmentSlot(pair.slot);
      } else {
        size := Size(pair.spriteFrame.value.width, pair.spriteFrame.value.height);
      }
      pair.slot.SetSlotStyle(pair.spriteFrame, size, if pair.useTint then rig.tint else None);
    }
  }
}
