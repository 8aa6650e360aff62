/** The two designer enumerations. Their members are not part of this model;
    each is an abstract finite family of values that contains `None`. */
module Enums {

  /** `EquipmentType`: a body region or item kind used to group slots. */
  datatype EquipmentType = TypeNone | TypeOf(ordinal: nat)

  /** `EquipmentSet`: the name of a reusable outfit. */
  datatype EquipmentSet = SetNone | Outfit(ordinal: nat)
}
