/** The raylib value types the effect is built from: a 2D vector of floats
    and an RGBA colour of bytes, with the two vector helpers of raymath that
    the update step uses. */
module RaylibTypes {

  /** One 8-bit colour channel. */
  type Byte = b: int | 0 <= b < 256

  /** RGBA colour; `a == 0` is a fully transparent pixel. */
  datatype Color = Color(r: Byte, g: Byte, b: Byte, a: Byte)

  /** raylib's `Vector2`; its `float` components are modelled as reals. */
  datatype Vector2 = Vector2(x: real, y: real)

  const ZERO: Vector2 := Vector2(0.0, 0.0)

  /** raymath's `Vector2Subtract(v1, v2)`. */
  function Subtract(v1: Vector2, v2: Vector2): (d: Vector2)
    ensures Vector2(v2.x + d.x, v2.y + d.y) == v1
  {
    Vector2(v1.x - v2.x, v1.y - v2.y)
  }

  /** raymath's `Vector2LengthSqr(v)`: the squared Euclidean length. */
  function LengthSqr(v: Vector2): real
  {
    v.x * v.x + v.y * v.y
  }

  /** A point is at squared distance zero from itself. */
  lemma DistanceToSelf(v: Vector2)
    ensures LengthSqr(Subtract(v, v)) == 0.0
  {
    assert Subtract(v, v) == ZERO;
  }
}
