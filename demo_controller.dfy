/** `DemoController`: every tick it takes everything off its rig and wears
    the next set of the `EquipmentSet` enumeration, cycling through its keys. */
module Demo {
  import opened Engine
  import opened Enums
  import opened Slot
  import opened Settings
  import opened Rig

  /** The look index after one `_changeLook` on `count` keys. */
  function Next(i: nat, count: nat): (r: nat)
    requires count > 0
    ensures r < count
  {
    (i + 1) % count
  }

  /** One call moves an index in range one key on, and from the last key
      back to the first. */
  lemma NextWraps(i: nat, count: nat)
    requires i < count
    ensures Next(i, count) == if i + 1 == count then 0 else i + 1
  {
    if i + 1 == count {
      assert (i + 1) % count == count % count == 0;
    }
  }

  /** The look index after `m` calls of `_changeLook`, starting in range. */
  function After(i: nat, count: nat, m: nat): (r: nat)
    requires i < count
    ensures r < count
    decreases m
  {
    if m == 0 then i else Next(After(i, count, m - 1), count)
  }

  /** Until the last key is passed, each call adds one to the index. */
  lemma {:induction false} Climb(i: nat, count: nat, m: nat)
    requires i + m < count
    ensures After(i, count, m) == i + m
    decreases m
  {
    if m > 0 {
      Climb(i, count, m - 1);
      NextWraps(i + m - 1, count);
    }
  }

  /** `a + b` calls are `a` calls followed by `b` calls. */
  lemma {:induction false} AfterSplit(i: nat, count: nat, a: nat, b: nat)
    requires i < count
    ensures After(i, count, a + b) == After(After(i, count, a), count, b)
    decreases b
  {
    if b > 0 {
      AfterSplit(i, count, a, b - 1);
      assert a + b - 1 == a + (b - 1);
    }
  }

  /** After one call per key the index is back where it started. */
  lemma FullCycle(i: nat, count: nat)
    requires i < count
    ensures After(i, count, count) == i
  {
    Climb(i, count, count - i - 1);
    NextWraps(count - 1, count);
    assert After(i, count, count - i) == 0;
    Climb(0, count, i);
    AfterSplit(i, count, count - i, i);
  }

  class DemoController {
    /** The rig component on the same node. */
    const rig: EquipmentSkeleton
    /** `Object.keys(EquipmentSet)`, as the sets they name. */
    const keys: seq<EquipmentSet>
    /** `_lookIndex` */
    var lookIndex: nat

    /** The index always names a key. */
    predicate Valid()
      reads this`lookIndex
    {
      lookIndex < |keys|
    }

    /** A controller that starts at the first key. */
    constructor (rig: EquipmentSkeleton, keys: seq<EquipmentSet>)
      requires |keys| > 0
      ensures Valid()
      ensures this.rig == rig && this.keys == keys && lookIndex == 0
    {
      this.rig := rig;
      this.keys := keys;
      lookIndex := 0;
    }

    /** `_changeLook`: changes the rig's look to the current key and moves
        to the next key. */
    method ChangeLook()
      requires Valid() && rig.Valid()
      requires keys[lookIndex] != SetNone && keys[lookIndex] in rig.sets ==>
                 rig.Wearable(rig.sets[keys[lookIndex]].settings)
      modifies this`lookIndex, rig`wearedSet, rig`debugEquipmentSlots, rig.equipmentSlots`look,
               (if keys[lookIndex] in rig.sets then PairSlots(rig.sets[keys[lookIndex]].settings) else [])`look
      ensures Valid() && rig.Valid()
      ensures lookIndex == Next(old(lookIndex), |keys|)
      ensures var key := keys[old(lookIndex)];
              !(key != SetNone && key in rig.sets) ==>
                && rig.wearedSet == null && rig.debugEquipmentSlots == old(rig.debugEquipmentSlots)
                && forall s {:trigger s.look} :: s in rig.Slots ==>
                     s.look == if s in rig.equipmentSlots then old(s.look).Reset() else old(s.look)
      ensures var key := keys[old(lookIndex)];
              key != SetNone && key in rig.sets ==>
                && rig.wearedSet == rig.sets[key] && !rig.debugEquipmentSlots
                && forall s {:trigger s.look} :: s in rig.Slots ==>
                     s.look == Restyle(if s in rig.equipmentSlots then old(s.look).Reset() else old(s.look),
                                       s, old(rig.WearStyles(rig.sets[key].settings)))
    {
      ShowLook(keys[lookIndex]);
      lookIndex := Next(lookIndex, |keys|);
    }

    /** The rig's part of `_changeLook`: everything is taken off (no type,
        no id), then the set of `equipmentSet` is worn unless it is `None`,
        addressed to the rig's own id so that its identity filter lets the
        command through. */
    method ShowLook(equipmentSet: EquipmentSet)
      requires rig.Valid()
      requires equipmentSet != SetNone && equipmentSet in rig.sets ==> rig.Wearable(rig.sets[equipmentSet].settings)
      modifies rig`wearedSet, rig`debugEquipmentSlots, rig.equipmentSlots`look,
               (if equipmentSet in rig.sets then PairSlots(rig.sets[equipmentSet].settings) else [])`look
      ensures rig.Valid()
      ensures !(equipmentSet != SetNone && equipmentSet in rig.sets) ==>
                && rig.wearedSet == null && rig.debugEquipmentSlots == old(rig.debugEquipmentSlots)
                && forall s {:trigger s.look} :: s in rig.Slots ==>
                     s.look == if s in rig.equipmentSlots then old(s.look).Reset() else old(s.look)
      ensures equipmentSet != SetNone && equipmentSet in rig.sets ==>
                && rig.wearedSet == rig.sets[equipmentSet] && !rig.debugEquipmentSlots
                && forall s {:trigger s.look} :: s in rig.Slots ==>
                     s.look == Restyle(if s in rig.equipmentSlots then old(s.look).Reset() else old(s.look),
                                       s, old(rig.WearStyles(rig.sets[equipmentSet].settings)))
    {
      rig.OnEquipmentTakeOff(None, None);
      if equipmentSet != SetNone {
        if equipmentSet in rig.sets {
          ghost var settings := rig.sets[equipmentSet].settings;
          forall k | 0 <= k < |settings|
            ensures rig.PairSize(settings[k]) == old(rig.PairSize(settings[k]))
          {
            assert settings[k] in settings;
          }
          assert rig.WearStyles(settings) == old(rig.WearStyles(settings));
        }
        label TakenOff:
        rig.OnEquipmentWearSet(equipmentSet, Some(rig.id));
        forall s | s in rig.Slots
          ensures old@TakenOff(if s in rig.equipmentSlots then s.look.Reset() else s.look)
               == if s in rig.equipmentSlots then old(s.look).Reset() else old(s.look)
        {
        }
      }
    }
  }
}
