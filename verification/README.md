# Box2 — a Dafny model of Nu's axis-aligned 2D box

`Nu.Box2` is a value type for an axis-aligned rectangle. It is stored in the
size-preserving form `[Position, Size]` rather than `[min, max]`, so a size may
be negative and the position need not be the least corner. This project models
the type and proves its contracts:

- the two constructors, neither of which validates or normalises;
- the `Zero` and `Unit` constants;
- the `Enclose` factory, which is the only operation that normalises orientation;
- field-wise equality with `==`, `!=` and both `Equals` overloads;
- the multiply-by-397-and-xor hash.

Files:

- `numerics.dfy` (module `Numerics`): the parts of `System.Numerics.Vector2` and
  `System.Math` that the type uses. These are `Vec2`, `Math.Min`/`Math.Max` on
  scalars, vector subtraction and `Vector2.Equals`.
- `box2.dfy` (module `Nu`): the `Box2` datatype and its operations. The datatype
  constructor `Box2(position, size)` is the vector constructor.
- `box2_laws.dfy` (module `Box2Laws`): lemmas about `Enclose`, the constructors
  and constants, equality and hashing. `MinCorner`, `MaxCorner`, `Covers` and
  `Within` read a box of either orientation as a closed region, so that the
  lemmas can say what "encloses" means.

Idealisations:

- Single-precision floats are mathematical reals.
- `Vector2.GetHashCode` is a foreign call. It is a parameter `vectorHash: Vec2 -> bv32`
  of `GetHashCode`, and every hash lemma holds for any such function.
- The C# `int` hash is modelled as its 32 bits (`bv32`). Unchecked `int`
  multiplication and `^` produce exactly the bits of `bv32` `*` and `^`.

## Model

| member | source | states |
|---|---|---|
| Nu.Enclose | Nu/Nu.Math/Box2.cs:66-75 | both size components are non-negative; the position is at most each point and equals one of them on each axis; the far corner `Position + Size` is at least each point and equals one of them on each axis |
| Nu.Equals | Nu/Nu.Math/Box2.cs:104-109 | `Equals(Box2)` holds exactly when the two boxes are the same value, with no tolerance |
| Box2Laws.EncloseSymmetric | Nu/Nu.Math/Box2.cs:68-73 | swapping the two points gives the same box |
| Box2Laws.EnclosePoint | Nu/Nu.Math/Box2.cs:66-75 | enclosing a point with itself gives position that point and size (0, 0) |
| Box2Laws.EncloseCovers | Nu/Nu.Math/Box2.cs:68-74 | both points lie in the box; its least corner is its position and its greatest corner is `Position + Size` |
| Box2Laws.EncloseMinimal | Nu/Nu.Math/Box2.cs:63-75 | every box of either orientation that covers both points contains the whole enclosing box |
| Box2Laws.EncloseUnique | Nu/Nu.Math/Box2.cs:63-75 | a non-negative box that covers both points and lies within every box covering them is `Enclose` of the points |
| Box2Laws.EncloseDiagonal | Nu/Nu.Math/Box2.cs:66-75 | enclosing the two ends of a box's diagonal gives that box back if and only if its size is non-negative; in every case it gives the same region, with each size component replaced by its absolute value |
| Box2Laws.EncloseExample | Nu/Nu.Math/Box2.cs:66-75 | enclosing (2, 5) and (-1, 3) gives position (-1, 3) and size (3, 2) |
| Box2Laws.ConstructorsAgree | Nu/Nu.Math/Box2.cs:38-51 | the four-scalar constructor is `==` to the vector constructor and keeps every input unchanged; a negative size survives, so the box differs from what `Enclose` builds from its diagonal |
| Box2Laws.ZeroIsEmptyAtOrigin | Nu/Nu.Math/Box2.cs:53-56 | `Zero`, the default value, has position (0, 0) and size (0, 0), and is `Enclose` of the origin with itself |
| Box2Laws.UnitIsUnitSquare | Nu/Nu.Math/Box2.cs:58-61 | `Unit` has position (0, 0) and size (1, 1), is `Enclose` of the origin and (1, 1), and is `!=` to `Zero` |
| Box2Laws.EqualityContract | Nu/Nu.Math/Box2.cs:82-109 | `Equals` holds exactly when both positions and both sizes are equal; `==` is `Equals` and `!=` its negation; `Equals(object)` is `Equals` on a boxed Box2 and false for null or any other object |
| Box2Laws.EqualsIsEquivalence | Nu/Nu.Math/Box2.cs:82-109 | `Equals` and `==` are reflexive, symmetric and transitive |
| Box2Laws.HashRespectsEquality | Nu/Nu.Math/Box2.cs:104-117 | boxes that are `==` have equal hash codes, whatever the vector hash |
| Box2Laws.HashSeparatesSizes | Nu/Nu.Math/Box2.cs:112-117 | for boxes whose positions hash alike, the hash codes agree if and only if the sizes hash alike, so the hash depends on the size's hash and on nothing else of the size |
| Box2Laws.HashWrapsAround | Nu/Nu.Math/Box2.cs:114-116 | the multiplication by 397 keeps only the low 32 bits: a position hash of 0x0100_0000 with a size hash of 0 gives 0x8D00_0000 |
| Box2Laws.HashIsOrderSensitive | Nu/Nu.Math/Box2.cs:112-117 | a position hash of 1 and a size hash of 0 give a different hash code from the box with the two fields swapped, which a plain xor would not distinguish |

## Left out

- IEEE-754 behaviour of floats is not modelled. This covers NaN, infinities, signed zero, the rounding of `max - min`, and `Vector2.Equals` on NaN. Over reals, `Position + Size` equals the maximum corner exactly; in single precision it may not.
- The internals of `Vector2.GetHashCode` are not modelled. It is a foreign library call, so it is a function parameter.
- It is not proved that a box's hash code determines its position's hash when the size hashes are equal. This rests on multiplication by the odd constant 397 being one-to-one on 32 bits. That is true, but the SMT solver does not complete the bit-level reasoning about multiplication. `HashSeparatesSizes` covers the xor half.
- `ToString` (Nu/Nu.Math/Box2.cs:120-123) is not modelled. It is culture-dependent debug formatting and has no parser.
- The runtime type test of `Equals(object)` (Nu/Nu.Math/Box2.cs:98-101) is modelled only by the three cases of `Nu.Object`: null, a boxed Box2, and any other object.
- `[StructLayout(LayoutKind.Sequential)]` (Nu/Nu.Math/Box2.cs:22) is not modelled. It is a memory-layout and interop concern.
- Reading the hash's 32 bits as a signed C# `int` is not modelled. Equality of hash codes is the same either way.
