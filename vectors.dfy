/** Two-component vectors of the sprite's world (sf::Vector2f), with floats modelled as reals. */
module Vectors {

  datatype Vec2 = Vec2(x: real, y: real)

  /** Component-wise sum, as `operator+=` on sf::Vector2f. */
  function Add(a: Vec2, b: Vec2): Vec2
  {
    Vec2(a.x + b.x, a.y + b.y)
  }

  /** Component-wise difference. */
  function Sub(a: Vec2, b: Vec2): Vec2
  {
    Vec2(a.x - b.x, a.y - b.y)
  }

  /** Division of both components by a scalar, as `operator/` on sf::Vector2f. */
  function Div(v: Vec2, d: real): Vec2
    requires d != 0.0
  {
    Vec2(v.x / d, v.y / d)
  }

  /** Multiplication of both components by a scalar, as `operator*` on sf::Vector2f. */
  function Mul(v: Vec2, k: real): Vec2
  {
    Vec2(v.x * k, v.y * k)
  }
}
