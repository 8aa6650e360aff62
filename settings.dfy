/** The data of an equipment set (`EquipmentSetHelper`) stated as values: its
    slot -> sprite pairs, how `checkSettings` rebuilds them from the current
    slots of the set's type, the size the rig reports for a slot, and what a
    run of `setSlotStyle` calls leaves on one slot. */
module Settings {
  import opened Engine
  import opened Slot

  /** `EquipmentNodeSpritePair`: a slot, the sprite to put on it, whether to
      use the rig's tint and whether to stretch the sprite to the slot's size. */
  datatype Pair = Pair(slot: EquipmentSlot, spriteFrame: Option<SpriteFrame>, useTint: bool, useSlotSize: bool)

  /** The slots the pairs are for, in pair order. */
  function PairSlots(pairs: seq<Pair>): (r: seq<EquipmentSlot>)
    ensures |r| == |pairs| && forall k :: 0 <= k < |pairs| ==> r[k] == pairs[k].slot
  {
    seq(|pairs|, k requires 0 <= k < |pairs| => pairs[k].slot)
  }

  /** `pairs.find(pair => pair.slot === slot)`, as an index: the first pair
      for `slot`, or `|pairs|` when there is none. */
  function FirstIndex(pairs: seq<Pair>, slot: EquipmentSlot): (r: nat)
    ensures r <= |pairs|
    ensures r < |pairs| ==> pairs[r].slot == slot
    ensures forall j :: 0 <= j < r ==> pairs[j].slot != slot
  {
    if pairs == [] then 0
    else if pairs[0].slot == slot then 0
    else 1 + FirstIndex(pairs[1..], slot)
  }

  /** The pair `checkSettings` builds for `slot`. */
  function Carried(previous: seq<Pair>, slot: EquipmentSlot): Pair {
    var i := FirstIndex(previous, slot);
    if i < |previous| then Pair(slot, previous[i].spriteFrame, previous[i].useTint, previous[i].useSlotSize)
    else Pair(slot, None, false, false)
  }

  /** `checkSettings`: one pair per slot of the set's type, in that order; a
      slot that already had a pair keeps the sprite and flags of its first
      pair, a new slot gets no sprite and both flags off, and pairs of slots
      no longer of the type are dropped. */
  function Reconcile(previous: seq<Pair>, slots: seq<EquipmentSlot>): (r: seq<Pair>)
    ensures PairSlots(r) == slots
    ensures forall k :: 0 <= k < |slots| && FirstIndex(previous, slots[k]) < |previous| ==>
              var p := previous[FirstIndex(previous, slots[k])];
              r[k].spriteFrame == p.spriteFrame && r[k].useTint == p.useTint && r[k].useSlotSize == p.useSlotSize
    ensures forall k :: 0 <= k < |slots| && (forall j :: 0 <= j < |previous| ==> previous[j].slot != slots[k]) ==>
              r[k].spriteFrame == None && !r[k].useTint && !r[k].useSlotSize
    ensures forall p :: p in r ==> p.slot in slots
  {
    var r := seq(|slots|, k requires 0 <= k < |slots| => Carried(previous, slots[k]));
    assert PairSlots(r) == slots;
    r
  }

  /** Rebuilding twice gives what rebuilding once gave: a second
      `checkSettings` with the same slots changes nothing. */
  lemma ReconcileIsIdempotent(previous: seq<Pair>, slots: seq<EquipmentSlot>)
    ensures Reconcile(Reconcile(previous, slots), slots) == Reconcile(previous, slots)
  {
    var once := Reconcile(previous, slots);
    var twice := Reconcile(once, slots);
    forall k | 0 <= k < |slots|
      ensures twice[k] == once[k]
    {
      var i := FirstIndex(once, slots[k]);
      assert PairSlots(once)[k] == slots[k];
      assert i <= k;
      assert once[i].slot == slots[k];
      assert once[i] == Carried(previous, slots[i]);
      assert PairSlots(once)[i] == slots[i];
    }
  }

  /** Pairs that already follow the slot list one for one (no slot twice)
      come back unchanged. */
  lemma ReconcileKeepsAligned(previous: seq<Pair>)
    requires forall i, j :: 0 <= i < j < |previous| ==> previous[i].slot != previous[j].slot
    ensures Reconcile(previous, PairSlots(previous)) == previous
  {
    var slots := PairSlots(previous);
    var r := Reconcile(previous, slots);
    forall k | 0 <= k < |slots|
      ensures r[k] == previous[k]
    {
      var i := FirstIndex(previous, slots[k]);
      assert previous[k].slot == slots[k];
      assert i == k;
      assert PairSlots(r)[k] == slots[k];
    }
  }

  /** `getSizeOfEquipmentSlot` on a slot index: the width x height of that
      skeleton slot's active attachment, or a zero size when there is no
      such skeleton slot (an index of -1 included) or it shows no attachment. */
  function SlotSize(skeleton: Skeleton, index: int): Size
  {
    if 0 <= index < |skeleton.slots| then
      match skeleton.slots[index].attachment
      case Some(attach) => Size(attach.width, attach.height)
      case None => ZeroSize
    else ZeroSize
  }

  // ---------------------------------------------------------------------------
  // Styling a slot.

  /** One `setSlotStyle(spriteFrame, size, tint)` call and the slot it is made on. */
  datatype Style = Style(slot: EquipmentSlot, spriteFrame: Option<SpriteFrame>, size: Size, tint: Option<Color>)

  /** The look of `slot` after the calls of `styles`, made in order, when it
      started as `look`: only the calls made on `slot` itself count. */
  function Restyle(look: SlotLook, slot: EquipmentSlot, styles: seq<Style>): SlotLook
    decreases |styles|
  {
    if styles == [] then look
    else
      var last := styles[|styles| - 1];
      var before := Restyle(look, slot, styles[..|styles| - 1]);
      if last.slot == slot then before.Styled(last.spriteFrame, last.size, last.tint) else before
  }

  /** One more call changes the slot's look only when it is made on that slot. */
  lemma RestyleStep(look: SlotLook, slot: EquipmentSlot, styles: seq<Style>, i: nat)
    requires i < |styles|
    ensures Restyle(look, slot, styles[..i + 1])
         == if styles[i].slot == slot then Restyle(look, slot, styles[..i]).Styled(styles[i].spriteFrame, styles[i].size, styles[i].tint)
            else Restyle(look, slot, styles[..i])
  {
    assert styles[..i + 1][..i] == styles[..i];
  }

  /** A slot no call is made on keeps its look. */
  lemma {:induction false} RestyleUntouched(look: SlotLook, slot: EquipmentSlot, styles: seq<Style>)
    requires forall k :: 0 <= k < |styles| ==> styles[k].slot != slot
    ensures Restyle(look, slot, styles) == look
    decreases |styles|
  {
    if styles != [] {
      RestyleUntouched(look, slot, styles[..|styles| - 1]);
    }
  }

  /** The last call made on a slot decides its frame and size: the look is
      that call applied to the look the earlier calls left. */
  lemma {:induction false} RestyleLastWins(look: SlotLook, slot: EquipmentSlot, styles: seq<Style>, k: nat)
    requires k < |styles| && styles[k].slot == slot
    requires forall j :: k < j < |styles| ==> styles[j].slot != slot
    ensures Restyle(look, slot, styles)
         == Restyle(look, slot, styles[..k]).Styled(styles[k].spriteFrame, styles[k].size, styles[k].tint)
    decreases |styles|
  {
    var n := |styles| - 1;
    if k < n {
      assert styles[..n][..k] == styles[..k];
      RestyleLastWins(look, slot, styles[..n], k);
    } else {
      assert styles[..n] == styles[..k];
    }
  }

  /** A slot that was reset and then styled by exactly one call shows that
      call's frame and size, and its tint or else opaque white. */
  lemma WornSlotLook(look: SlotLook, slot: EquipmentSlot, styles: seq<Style>, k: nat)
    requires k < |styles| && styles[k].slot == slot
    requires forall j :: 0 <= j < |styles| && j != k ==> styles[j].slot != slot
    ensures Restyle(look.Reset(), slot, styles)
         == SlotLook(styles[k].spriteFrame, styles[k].size,
                     if styles[k].tint.Some? then styles[k].tint.value else White)
  {
    RestyleLastWins(look.Reset(), slot, styles, k);
    RestyleUntouched(look.Reset(), slot, styles[..k]);
  }
}
