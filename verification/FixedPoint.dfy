/** 17.14 fixed-point numbers: an int scaled by 2^14.  Values are unbounded here; where they fit in an int
    is stated by the modules that use them. */
module FixedPoint {
  import opened CDivision

  const F := 0x4000

  function FromInt(n: int): int { n * F }

  /** Rounds toward zero. */
  function ToIntFloored(x: int): int { TruncDiv(x, F) }

  function ToIntCeiled(x: int): int {
    if TruncRem(x, F) == 0 then TruncDiv(x, F) else TruncDiv(x, F) + 1
  }

  function ToIntNearest(x: int): int {
    if x >= 0 then TruncDiv(x + F / 2, F) else TruncDiv(x - F / 2, F)
  }

  function Add(x: int, y: int): int { x + y }

  function AddWithInt(x: int, n: int): int { x + n * F }

  function Multiply(x: int, y: int): int { TruncDiv(x * y, F) }

  function MultiplyWithInt(x: int, n: int): int { x * n }

  function Divide(x: int, y: int): int
    requires y != 0
  {
    TruncDiv(x * F, y)
  }

  function DivideByInt(x: int, n: int): int
    requires n != 0
  {
    TruncDiv(x, n)
  }

  /** N is the least integer at or above X. */
  ghost predicate IsCeiling(x: int, n: int) {
    F * (n - 1) < x <= F * n
  }

  /** Rounding up is a ceiling exactly for numbers that are not negative, or whole. */
  lemma CeiledExact(x: int)
    ensures IsCeiling(x, ToIntCeiled(x)) <==> x >= 0 || x % F == 0
  {
  }

  /** Rounding to nearest is off by at most a half, for every number. */
  lemma NearestClose(x: int)
    ensures -F <= 2 * (F * ToIntNearest(x) - x) <= F
  {
  }

  lemma FlooredTowardZero(x: int)
    ensures x >= 0 ==> F * ToIntFloored(x) <= x < F * (ToIntFloored(x) + 1)
    ensures x <= 0 ==> F * (ToIntFloored(x) - 1) < x <= F * ToIntFloored(x)
  {
  }
}
