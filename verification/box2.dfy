/**
 The Box2 value type of the Nu engine: an axis-aligned 2D box stored in the
 size-preserving form [position, size] rather than [min, max]. Nothing forces
 the size to be non-negative; only `Enclose` normalises orientation.
 */
module Nu {
  import opened Numerics

  /** A box as its two public fields. The datatype constructor
      `Box2(position, size)` is the vector constructor: it copies both
      vectors unchanged. */
  datatype Box2 = Box2(position: Vec2, size: Vec2)

  /** What `Equals(object)` may be handed: null, a boxed Box2, or any other object. */
  datatype Object = Null | BoxedBox2(value: Box2) | OtherObject

  /** The four-scalar constructor: the same box as building both vectors first. */
  function FromScalars(positionX: real, positionY: real, sizeX: real, sizeY: real): Box2 {
    var position := Vec2(positionX, positionY);
    var size := Vec2(sizeX, sizeY);
    Box2(position, size)
  }

  /** `default(Box2)`: every field zero-initialised. */
  const Zero: Box2 := Box2(Origin, Origin)

  /** The box at the origin with size 1 by 1. */
  const Unit: Box2 := Box2(Vec2(0.0, 0.0), Vec2(1.0, 1.0))

  /** The bounding box of two points: its position is the component-wise
      minimum and its size runs from there to the component-wise maximum. */
  function Enclose(point: Vec2, point2: Vec2): (b: Box2)
    ensures b.size.x >= 0.0 && b.size.y >= 0.0
    ensures b.position.x <= point.x && b.position.x <= point2.x
    ensures b.position.y <= point.y && b.position.y <= point2.y
    ensures b.position.x == point.x || b.position.x == point2.x
    ensures b.position.y == point.y || b.position.y == point2.y
    ensures point.x <= Add(b.position, b.size).x && point2.x <= Add(b.position, b.size).x
    ensures point.y <= Add(b.position, b.size).y && point2.y <= Add(b.position, b.size).y
    ensures Add(b.position, b.size).x == point.x || Add(b.position, b.size).x == point2.x
    ensures Add(b.position, b.size).y == point.y || Add(b.position, b.size).y == point2.y
  {
    var position := Vec2(Min(point.x, point2.x), Min(point.y, point2.y));
    var position2 := Vec2(Max(point.x, point2.x), Max(point.y, point2.y));
    Box2(position, Sub(position2, position))
  }

  /** `Equals(Box2)`: both fields compared with Vector2.Equals. */
  function Equals(box: Box2, other: Box2): (r: bool)
    ensures r <==> box == other
  {
    VecEquals(box.position, other.position) && VecEquals(box.size, other.size)
  }

  /** `operator ==`, defined through `Equals`. */
  function OpEquals(left: Box2, right: Box2): bool {
    Equals(left, right)
  }

  /** `operator !=`, the negation of `==`. */
  function OpNotEquals(left: Box2, right: Box2): bool {
    !OpEquals(left, right)
  }

  /** `Equals(object)`: true only for a boxed Box2 that is `Equals` to this one. */
  function EqualsObject(box: Box2, obj: Object): (r: bool)
    ensures r ==> obj.BoxedBox2?
  {
    match obj
    case BoxedBox2(other) => Equals(box, other)
    case _ => false
  }

  /** The multiplier of the hash combination. */
  const HashMultiplier: bv32 := 397

  /** One step of the hash: the running hash times 397, xor the next field's
      hash, in unchecked 32-bit int arithmetic (whose bits are those of bv32). */
  function HashCombine(hashCode: bv32, fieldHash: bv32): bv32 {
    (hashCode * HashMultiplier) ^ fieldHash
  }

  /** `GetHashCode`, given Vector2's own hash function `vectorHash`. */
  function GetHashCode(box: Box2, vectorHash: Vec2 -> bv32): bv32 {
    var hashCode := vectorHash(box.position);
    HashCombine(hashCode, vectorHash(box.size))
  }
}
