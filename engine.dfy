/** Values the equipment layer receives from the host engine and from the
    spine runtime. They are plain records: the engine's behaviour behind them
    (rendering, scene graph, animation) is not part of this model. Numbers
    that are floating point in the engine are integers here. */
module Engine {

  datatype Option<+T> = None | Some(value: T)

  /** A content size (width x height). */
  datatype Size = Size(width: int, height: int)

  /** `Size.ZERO` */
  const ZeroSize := Size(0, 0)

  datatype Vec2 = Vec2(x: int, y: int)

  datatype Vec3 = Vec3(x: int, y: int, z: int)

  /** RGBA colour with channels 0..255. */
  datatype Color = Color(r: int, g: int, b: int, a: int)

  /** `Color.WHITE` */
  const White := Color(255, 255, 255, 255)

  /** An image resource: an opaque identity and its native size. */
  datatype SpriteFrame = SpriteFrame(id: nat, width: int, height: int)

  /** A spine region attachment: the authored placement of a slot's image. */
  datatype Attachment = Attachment(x: int, y: int, width: int, height: int,
                                   rotation: int, scaleX: int, scaleY: int)

  /** A bone of the skeleton tree. `index` is the bone's position in the
      skeleton's flat bone list (what `bones.indexOf(bone)` yields). */
  datatype Bone = Bone(index: nat, name: string, children: seq<Bone>)

  /** A skeleton slot: the bone it hangs on (by index) and its active attachment. */
  datatype SkeletonSlot = SkeletonSlot(name: string, bone: nat, attachment: Option<Attachment>)

  /** The runtime skeleton built from the rig's skeleton data. */
  datatype Skeleton = Skeleton(root: Bone, slots: seq<SkeletonSlot>)

  /** A scene node created by the equipment layer; its identity is the
      bone it was created for. */
  datatype SceneNode = SceneNode(name: string, bone: nat)

  /** `sp.SpineSocket(path, target)` */
  datatype Socket = Socket(path: string, target: SceneNode)

  /** The kinds of engine component an equipment slot looks up on its node. */
  datatype ComponentKind = UITransform | Sprite
}
