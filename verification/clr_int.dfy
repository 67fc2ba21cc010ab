/** Integer semantics of the .NET runtime that differ from Dafny's mathematical
    integers: division that truncates toward zero and fixed-width wrap-around. */
module ClrInt {

  const Int32Modulus: int := 0x1_0000_0000
  const MinInt32: int := -0x8000_0000
  const MaxInt32: int := 0x7FFF_FFFF
  const MaxUInt16: int := 0xFFFF

  function Abs(x: int): nat {
    if x < 0 then -x else x
  }

  /** C#'s `a / b`: the quotient rounded toward zero. */
  function Quot(a: int, b: int): (q: int)
    requires b != 0
    ensures a >= 0 && b > 0 ==> q == a / b
    ensures a < 0 && b > 0 ==> q == -((-a) / b)
  {
    var m := Abs(a) / Abs(b);
    if (a < 0) == (b < 0) then m else -m
  }

  /** C#'s `a % b`: the remainder takes the sign of the dividend. */
  function Rem(a: int, b: int): (r: int)
    requires b != 0
    ensures a >= 0 && b > 0 ==> r == a % b
    ensures a < 0 && b > 0 ==> r == -((-a) % b)
  {
    a - b * Quot(a, b)
  }

  /** The value an unchecked cast to a 32-bit signed integer keeps. */
  function ToInt32(x: int): (r: int)
    ensures MinInt32 <= r <= MaxInt32
    ensures (r - x) % Int32Modulus == 0
    ensures MinInt32 <= x <= MaxInt32 ==> r == x
  {
    (x - MinInt32) % Int32Modulus + MinInt32
  }

  /** The value an unchecked cast to a 16-bit unsigned integer keeps. */
  function ToUInt16(x: int): (r: int)
    ensures 0 <= r <= MaxUInt16
    ensures (r - x) % (MaxUInt16 + 1) == 0
    ensures 0 <= x <= MaxUInt16 ==> r == x
  {
    x % (MaxUInt16 + 1)
  }
}
