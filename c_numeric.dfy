/** The C arithmetic the renderer relies on, on unbounded reals and integers:
    the `(int32_t)` cast of a float (truncation toward zero), the `NINT`
    rounding macro (round half away from zero) and `fabsf`.
    The 32-bit range of the casts is not modelled. */
module CNumeric {

  /** `fabsf`. */
  function Abs(x: real): (r: real)
    ensures r >= 0.0
    ensures r == x || r == -x
  {
    if x < 0.0 then -x else x
  }

  /** The `(int32_t)` cast of a floating-point value: truncation toward zero. */
  function Trunc(x: real): (n: int)
    ensures 0.0 <= x ==> 0 <= n && n as real <= x < n as real + 1.0
    ensures x < 0.0 ==> n <= 0 && n as real - 1.0 < x <= n as real
  {
    if x >= 0.0 then x.Floor else -((-x).Floor)
  }

  /** `NINT(a)`: `(int32_t) (a - 0.5)` for negative `a`, `(int32_t) (a + 0.5)`
      otherwise, i.e. the nearest integer with halves rounded away from zero. */
  function Nint(x: real): (n: int)
    ensures x - 0.5 <= n as real <= x + 0.5
    ensures 0.0 <= x ==> x - 0.5 < n as real
    ensures x < 0.0 ==> n as real < x + 0.5
  {
    if x < 0.0 then Trunc(x - 0.5) else Trunc(x + 0.5)
  }

  /** Rounding preserves order, so a rounded offset never passes a rounded extent. */
  lemma NintMonotone(a: real, b: real)
    requires a <= b
    ensures Nint(a) <= Nint(b)
  {
  }

  /** A whole number rounds to itself. */
  lemma NintOfWhole(k: int)
    ensures Nint(k as real) == k
  {
  }
}
