/** `EquipmentSlot`: the component that shows one piece of equipment. It sits
    on a node of its own, looks up (or adds) a UITransform and a Sprite on that
    node, remembers which skeleton slot it stands for, and is styled, reset and
    placed by the rig. */
module Slot {
  import opened Engine

  /** What styling changes: the Sprite's frame, the UITransform's content
      size and the Sprite's colour. */
  datatype SlotLook = SlotLook(spriteFrame: Option<SpriteFrame>, contentSize: Size, color: Color) {

    /** The look after `setSlotStyle(frame, size, tint)`. */
    function Styled(frame: Option<SpriteFrame>, size: Size, tint: Option<Color>): SlotLook {
      SlotLook(frame, size, if tint.Some? then tint.value else color)
    }

    /** The look after `setToDefault()`. */
    function Reset(): SlotLook {
      SlotLook(None, contentSize, White)
    }
  }

  /** The slot's own node: the components on it and its transform. */
  datatype SlotNode = SlotNode(components: seq<ComponentKind>, position: Vec3, rotation: Vec3, scale: Vec3)

  /** `node.getComponent(kind) || node.addComponent(kind)`: the node's
      components once one of `kind` is sure to be there. */
  function Acquire(components: seq<ComponentKind>, kind: ComponentKind): (r: seq<ComponentKind>)
    ensures kind in r
    ensures |components| <= |r| <= |components| + 1 && r[..|components|] == components
    ensures multiset(r)[kind] == if kind in components then multiset(components)[kind] else 1
    ensures forall other :: other != kind ==> multiset(r)[other] == multiset(components)[other]
  {
    if kind in components then components else components + [kind]
  }

  /** Acquiring a component that is already on the node adds nothing, so
      looking up both components again (a repeated `init`) leaves the node as
      it was. */
  lemma AcquireIsIdempotent(components: seq<ComponentKind>)
    ensures var once := Acquire(Acquire(components, UITransform), Sprite);
            Acquire(Acquire(once, UITransform), Sprite) == once
  {
    var once := Acquire(Acquire(components, UITransform), Sprite);
    assert UITransform in once && Sprite in once;
  }

  class EquipmentSlot {
    /** The node the component sits on. */
    var node: SlotNode
    /** `init` has looked up the UITransform and the Sprite (`_ui` and
        `_sprite` are set); every other method dereferences them. */
    var ready: bool
    /** The index of the skeleton slot this equipment slot stands for. */
    var slotIndex: int
    /** The Sprite's frame and colour and the UITransform's content size. */
    var look: SlotLook

    /** The component added to a freshly created node: no UITransform or
        Sprite yet, `slotIndex` -1, the engine's default transform, and the
        defaults of the components `init` will add. */
    constructor ()
      ensures node == SlotNode([], Vec3(0, 0, 0), Vec3(0, 0, 0), Vec3(1, 1, 1))
      ensures !ready && slotIndex == -1
      ensures look == SlotLook(None, Size(100, 100), White)
    {
      node := SlotNode([], Vec3(0, 0, 0), Vec3(0, 0, 0), Vec3(1, 1, 1));
      ready := false;
      slotIndex := -1;
      look := SlotLook(None, Size(100, 100), White);
    }

    /** `init(slotIndex?)` with the index stored whenever one is passed. */
    method Init(index: Option<int>)
      modifies this
      ensures node == old(node).(components := Acquire(Acquire(old(node.components), UITransform), Sprite))
      ensures ready
      ensures slotIndex == if index.Some? then index.value else old(slotIndex)
      ensures look == old(look)
    {
      var components := Acquire(node.components, UITransform);
      components := Acquire(components, Sprite);
      node := node.(components := components);
      ready := true;
      if index.Some? {
        slotIndex := index.value;
      }
    }

    /** `init(slotIndex?)` as written: `if (slotIndex)` is JavaScript
        truthiness, so an index of 0 is treated like a missing one. */
    method InitAsWritten(index: Option<int>)
      modifies this
      ensures node == old(node).(components := Acquire(Acquire(old(node.components), UITransform), Sprite))
      ensures ready
      ensures slotIndex == if index.Some? && index.value != 0 then index.value else old(slotIndex)
      ensures look == old(look)
    {
      var components := Acquire(node.components, UITransform);
      components := Acquire(components, Sprite);
      node := node.(components := components);
      ready := true;
      if index.Some? && index.value != 0 {
        slotIndex := index.value;
      }
    }

    /** `setStartState`: content size, position, rotation about z and the
        x/y scale; the node's z scale is kept. */
    method SetStartState(position: Vec3, size: Size, rotation: int, scale: Vec2)
      requires ready
      modifies this
      ensures look == old(look).(contentSize := size)
      ensures node == SlotNode(old(node.components), position, Vec3(0, 0, rotation), Vec3(scale.x, scale.y, old(node.scale.z)))
      ensures slotIndex == old(slotIndex) && ready
    {
      look := look.(contentSize := size);
      node := SlotNode(node.components, position, Vec3(0, 0, rotation), Vec3(scale.x, scale.y, node.scale.z));
    }

    /** `setSlotStyle(frame, size, color?)`: frame and size are always set,
        the colour only when one is passed. */
    method SetSlotStyle(frame: Option<SpriteFrame>, size: Size, tint: Option<Color>)
      requires ready
      modifies this`look
      ensures look == old(look).Styled(frame, size, tint)
    {
      look := SlotLook(frame, size, if tint.Some? then tint.value else look.color);
    }

    /** `setToDefault()`: no frame, opaque white, size kept. */
    method SetToDefault()
      requires ready
      modifies this`look
      ensures look == old(look).Reset()
    {
      look := SlotLook(None, look.contentSize, White);
    }
  }
}
