/**
 * Java's 32-bit signed `int` and the wrap-around arithmetic of its `+` and `*`
 * (two's complement: every result is reduced modulo 2^32 into the range
 * -2^31 .. 2^31 - 1).
 */
module JavaInt {

  /** 2^32, the modulus of `int` arithmetic. */
  const Modulus: int := 0x1_0000_0000
  /** Integer.MIN_VALUE and Integer.MAX_VALUE. */
  const MinValue: int := -0x8000_0000
  const MaxValue: int := 0x7fff_ffff

  newtype int32 = x: int | -0x8000_0000 <= x < 0x8000_0000

  /** The `int` that a mathematical integer wraps to. */
  function Wrap(x: int): (r: int32)
    ensures (r as int - x) % Modulus == 0
    ensures MinValue <= x <= MaxValue ==> r as int == x
  {
    var k := x + 0x8000_0000;
    (k % Modulus - 0x8000_0000) as int32
  }

  /** Two integers wrap to the same `int` exactly when they are congruent modulo 2^32. */
  lemma WrapEqualIff(x: int, y: int)
    ensures Wrap(x) == Wrap(y) <==> (x - y) % Modulus == 0
  {
  }

  /** Java's `a + b` on two `int`s. */
  function Add(a: int32, b: int32): (r: int32)
    ensures (r as int - (a as int + b as int)) % Modulus == 0
    ensures MinValue <= a as int + b as int <= MaxValue ==> r as int == a as int + b as int
  {
    Wrap(a as int + b as int)
  }

  /** Java's `a * b` on two `int`s. */
  function Mul(a: int32, b: int32): (r: int32)
    ensures (r as int - a as int * b as int) % Modulus == 0
    ensures MinValue <= a as int * b as int <= MaxValue ==> r as int == a as int * b as int
  {
    Wrap(a as int * b as int)
  }

  /** Adding a fixed `int` is a bijection on `int`: different addends give different sums. */
  lemma AddInjective(h: int32, p: int32, q: int32)
    ensures Add(h, p) == Add(h, q) <==> p == q
  {
  }
}
