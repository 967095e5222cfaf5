/** Kotlin's fixed-width integers and its truncating division, written out over
    Dafny's unbounded `int`. Only the operations the timer code uses are here. */
module KotlinInts {

  const INT_MIN: int := -0x8000_0000
  const INT_MAX: int := 0x7fff_ffff
  const LONG_MIN: int := -0x8000_0000_0000_0000
  const LONG_MAX: int := 0x7fff_ffff_ffff_ffff

  /** The values of a Kotlin `Int`. */
  predicate IsInt(x: int) { INT_MIN <= x <= INT_MAX }

  /** The values of a Kotlin `Long`. */
  predicate IsLong(x: int) { LONG_MIN <= x <= LONG_MAX }

  /** The `Int` that an `Int` operation with mathematical result `x` produces (two's complement). */
  function WrapInt(x: int): (r: int)
    ensures IsInt(r)
    ensures (x - r) % 0x1_0000_0000 == 0
    ensures IsInt(x) ==> r == x
  {
    (x - INT_MIN) % 0x1_0000_0000 + INT_MIN
  }

  /** The `Long` that a `Long` operation with mathematical result `x` produces (two's complement). */
  function WrapLong(x: int): (r: int)
    ensures IsLong(r)
    ensures (x - r) % 0x1_0000_0000_0000_0000 == 0
    ensures IsLong(x) ==> r == x
  {
    (x - LONG_MIN) % 0x1_0000_0000_0000_0000 + LONG_MIN
  }

  /** Kotlin `a / b` for a positive divisor: the quotient rounded toward zero. */
  function Quot(a: int, b: int): (q: int)
    requires b > 0
    ensures a >= 0 ==> q * b <= a < q * b + b
    ensures a < 0 ==> q * b - b < a <= q * b
    ensures q * b + Rem(a, b) == a
  {
    if a >= 0 then a / b else -((-a) / b)
  }

  /** Kotlin `a % b` for a positive divisor: the remainder takes the sign of `a`. */
  function Rem(a: int, b: int): (r: int)
    requires b > 0
    ensures -b < r < b
    ensures a >= 0 ==> r == a % b
    ensures a < 0 ==> r <= 0
  {
    if a >= 0 then a % b else -((-a) % b)
  }

  /** Kotlin's `maxOf(a, b)`. */
  function MaxOf(a: int, b: int): (m: int)
    ensures m >= a && m >= b
    ensures m == a || m == b
  {
    if a >= b then a else b
  }
}
