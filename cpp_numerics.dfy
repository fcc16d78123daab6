/** The two C++ integer conversions the animation step relies on. */
module CppNumerics {

  /** `static_cast<int>` of a floating value: truncation toward zero. */
  function Trunc(r: real): (i: int)
    ensures 0.0 <= r ==> i as real <= r < i as real + 1.0
    ensures r < 0.0 ==> i as real - 1.0 < r <= i as real
  {
    if r >= 0.0 then r.Floor else -((-r).Floor)
  }

  /**
   * The C++ expression `a % 4`: unlike Dafny's `%`, the remainder takes the
   * sign of `a`, so it is negative for negative `a`.
   */
  function Rem4(a: int): (r: int)
    ensures (a - r) % 4 == 0
    ensures 0 <= a ==> 0 <= r < 4
    ensures a < 0 ==> -4 < r <= 0
  {
    if a >= 0 then a % 4 else -((-a) % 4)
  }
}
