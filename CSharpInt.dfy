/** The arithmetic of C#'s 32-bit `int` as the recogniser uses it: unchecked
    operations wrap around modulo 2^32, and `/` and `%` truncate toward zero
    (Dafny's own `/` and `%` are Euclidean). */
module CSharpInt {

  const Modulus: int := 0x1_0000_0000
  const MinValue: int := -0x8000_0000
  const MaxValue: int := 0x7FFF_FFFF

  /** True when x fits in a C# `int`. */
  predicate IsInt32(x: int) {
    MinValue <= x <= MaxValue
  }

  function Abs(x: int): nat {
    if x < 0 then -x else x
  }

  /** The value an unchecked C# `int` operation yields when the exact result is x. */
  function Wrap(x: int): (r: int)
    ensures IsInt32(r)
    ensures (x - r) % Modulus == 0
    ensures IsInt32(x) ==> r == x
  {
    var k := (x - MinValue) / Modulus;
    assert x - ((x - MinValue) % Modulus + MinValue) == k * Modulus;
    (x - MinValue) % Modulus + MinValue
  }

  /** C#'s `a / b`: the exact quotient rounded toward zero. */
  function Quot(a: int, b: int): int
    requires b != 0
  {
    var m := Abs(a) / Abs(b);
    if (a < 0) == (b < 0) then m else -m
  }

  /** C#'s `a % b`, defined by the language as `a - (a / b) * b`. */
  function Rem(a: int, b: int): (r: int)
    requires b != 0
  {
    a - Quot(a, b) * b
  }
}
