/**
 Properties of Box2: what `Enclose` computes, how the constructors and the two
 constants relate to it, and the equality/hash contract.
 */
module Box2Laws {
  import opened Numerics
  import opened Nu

  /* ---------- Reading a box as a region ---------- */

  /** The least corner of the region a box covers, whatever the signs of its size. */
  function MinCorner(b: Box2): Vec2 {
    Vec2(Min(b.position.x, b.position.x + b.size.x), Min(b.position.y, b.position.y + b.size.y))
  }

  /** The greatest corner of the region a box covers. */
  function MaxCorner(b: Box2): Vec2 {
    Vec2(Max(b.position.x, b.position.x + b.size.x), Max(b.position.y, b.position.y + b.size.y))
  }

  /** The point `p` lies in the closed region of `b` on both axes. */
  ghost predicate Covers(b: Box2, p: Vec2) {
    && MinCorner(b).x <= p.x <= MaxCorner(b).x
    && MinCorner(b).y <= p.y <= MaxCorner(b).y
  }

  /** Every point of `inner`'s region lies in `outer`'s region. */
  ghost predicate Within(inner: Box2, outer: Box2) {
    Covers(outer, MinCorner(inner)) && Covers(outer, MaxCorner(inner))
  }

  /** The absolute value of a coordinate. */
  function Abs(a: real): real {
    if a < 0.0 then -a else a
  }

  /* ---------- Enclose ---------- */

  /** The order of the two points does not matter. */
  lemma EncloseSymmetric(p: Vec2, q: Vec2)
    ensures Enclose(p, q) == Enclose(q, p)
  {
  }

  /** Enclosing a point with itself gives an empty box at that point. */
  lemma EnclosePoint(p: Vec2)
    ensures Enclose(p, p) == Box2(p, Origin)
  {
  }

  /** Both points lie in the enclosing box, whose corners are exactly the
      component-wise minimum and maximum of the points. */
  lemma EncloseCovers(p: Vec2, q: Vec2)
    ensures Covers(Enclose(p, q), p) && Covers(Enclose(p, q), q)
    ensures MinCorner(Enclose(p, q)) == Enclose(p, q).position
    ensures MaxCorner(Enclose(p, q)) == Add(Enclose(p, q).position, Enclose(p, q).size)
  {
  }

  /** The enclosing box is the smallest one: any box, of either orientation,
      that covers both points covers the whole of `Enclose(p, q)`. */
  lemma EncloseMinimal(p: Vec2, q: Vec2, b: Box2)
    requires Covers(b, p) && Covers(b, q)
    ensures Within(Enclose(p, q), b)
  {
  }

  /** Conversely, `Enclose(p, q)` is the only non-negative box that covers both
      points and lies within every box that does. */
  lemma EncloseUnique(p: Vec2, q: Vec2, b: Box2)
    requires b.size.x >= 0.0 && b.size.y >= 0.0
    requires Covers(b, p) && Covers(b, q)
    requires forall c :: Covers(c, p) && Covers(c, q) ==> Within(b, c)
    ensures b == Enclose(p, q)
  {
    EncloseCovers(p, q);
    assert Within(b, Enclose(p, q));
  }

  /** Enclosing the two ends of a box's diagonal gives back that box exactly
      when its size is non-negative; otherwise it gives the same region with
      the size made positive. */
  lemma EncloseDiagonal(b: Box2)
    ensures Enclose(b.position, Add(b.position, b.size)) == b
        <==> b.size.x >= 0.0 && b.size.y >= 0.0
    ensures MinCorner(Enclose(b.position, Add(b.position, b.size))) == MinCorner(b)
    ensures MaxCorner(Enclose(b.position, Add(b.position, b.size))) == MaxCorner(b)
    ensures Enclose(b.position, Add(b.position, b.size)).size == Vec2(Abs(b.size.x), Abs(b.size.y))
  {
  }

  /** The worked example: the points (2, 5) and (-1, 3). */
  lemma EncloseExample()
    ensures Enclose(Vec2(2.0, 5.0), Vec2(-1.0, 3.0)) == Box2(Vec2(-1.0, 3.0), Vec2(3.0, 2.0))
  {
  }

  /* ---------- Constructors and constants ---------- */

  /** The scalar constructor agrees with the vector constructor under `==`,
      and neither normalises: a negative size is kept, so the box is not the
      one `Enclose` would build from its diagonal. */
  lemma ConstructorsAgree(positionX: real, positionY: real, sizeX: real, sizeY: real)
    ensures OpEquals(FromScalars(positionX, positionY, sizeX, sizeY),
                     Box2(Vec2(positionX, positionY), Vec2(sizeX, sizeY)))
    ensures FromScalars(positionX, positionY, sizeX, sizeY).position == Vec2(positionX, positionY)
    ensures FromScalars(positionX, positionY, sizeX, sizeY).size == Vec2(sizeX, sizeY)
    ensures sizeX < 0.0 || sizeY < 0.0 ==>
      var b := FromScalars(positionX, positionY, sizeX, sizeY);
      b != Enclose(b.position, Add(b.position, b.size))
  {
    EncloseDiagonal(FromScalars(positionX, positionY, sizeX, sizeY));
  }

  /** `Zero` is the all-zero box: the empty box at the origin. */
  lemma ZeroIsEmptyAtOrigin()
    ensures Zero == FromScalars(0.0, 0.0, 0.0, 0.0) == Enclose(Origin, Origin)
  {
  }

  /** `Unit` is the box enclosing the origin and (1, 1), and it is not `Zero`. */
  lemma UnitIsUnitSquare()
    ensures Unit == FromScalars(0.0, 0.0, 1.0, 1.0) == Enclose(Origin, Vec2(1.0, 1.0))
    ensures OpNotEquals(Zero, Unit)
  {
    assert Min(0.0, 1.0) == 0.0 && Max(0.0, 1.0) == 1.0;
  }

  /* ---------- Equality ---------- */

  /** `Equals` compares field by field; `==` is `Equals`, `!=` is its negation,
      and `Equals(object)` is `Equals` on a boxed Box2 and false otherwise. */
  lemma EqualityContract(a: Box2, b: Box2)
    ensures Equals(a, b) <==> a.position == b.position && a.size == b.size
    ensures OpEquals(a, b) <==> Equals(a, b)
    ensures OpNotEquals(a, b) <==> !Equals(a, b)
    ensures EqualsObject(a, BoxedBox2(b)) <==> Equals(a, b)
    ensures !EqualsObject(a, Null) && !EqualsObject(a, OtherObject)
  {
  }

  ghost predicate Reflexive(relation: (Box2, Box2) -> bool) {
    forall a :: relation(a, a)
  }

  ghost predicate Symmetric(relation: (Box2, Box2) -> bool) {
    forall a, b :: relation(a, b) <==> relation(b, a)
  }

  ghost predicate Transitive(relation: (Box2, Box2) -> bool) {
    forall a, b, c :: relation(a, b) && relation(b, c) ==> relation(a, c)
  }

  /** Exact field-wise equality is an equivalence relation, and so is `==`. */
  lemma EqualsIsEquivalence()
    ensures Reflexive(Equals) && Symmetric(Equals) && Transitive(Equals)
    ensures Reflexive(OpEquals) && Symmetric(OpEquals) && Transitive(OpEquals)
  {
  }

  /* ---------- Hashing ---------- */

  /** Equal boxes have equal hash codes, whatever hash Vector2 uses. */
  lemma HashRespectsEquality(a: Box2, b: Box2, vectorHash: Vec2 -> bv32)
    requires OpEquals(a, b)
    ensures GetHashCode(a, vectorHash) == GetHashCode(b, vectorHash)
  {
  }

  /** Between boxes whose positions hash alike, the hash codes agree exactly
      when the sizes hash alike: the size's hash is not lost. */
  lemma HashSeparatesSizes(a: Box2, b: Box2, vectorHash: Vec2 -> bv32)
    requires vectorHash(a.position) == vectorHash(b.position)
    ensures GetHashCode(a, vectorHash) == GetHashCode(b, vectorHash)
        <==> vectorHash(a.size) == vectorHash(b.size)
  {
  }

  /** The multiplication wraps around in 32 bits, as unchecked C# `int` does:
      a position hash of 2^24 times 397 keeps only its low 32 bits. */
  lemma HashWrapsAround(a: Box2, vectorHash: Vec2 -> bv32)
    requires vectorHash(a.position) == 0x0100_0000 && vectorHash(a.size) == 0
    ensures GetHashCode(a, vectorHash) == 0x8D00_0000
  {
  }

  /** The combination is not symmetric in the two fields, unlike a plain xor:
      a box whose position hashes to 1 and size to 0 differs from the swap. */
  lemma HashIsOrderSensitive(a: Box2, vectorHash: Vec2 -> bv32)
    requires vectorHash(a.position) == 1 && vectorHash(a.size) == 0
    ensures GetHashCode(a, vectorHash) != GetHashCode(Box2(a.size, a.position), vectorHash)
  {
  }
}
