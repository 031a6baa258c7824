/**
 Signed 32-bit integers with two's-complement wrap-around, the arithmetic the
 driver uses for session ids (`aeron_add_wrap_i32` / `aeron_sub_wrap_i32`,
 which add or subtract as unsigned 32-bit values and reinterpret the result
 as signed).
 */
module Int32 {

  const MIN: int := -0x8000_0000
  const MAX: int := 0x7FFF_FFFF
  const MODULUS: int := 0x1_0000_0000

  type I32 = x: int | -0x8000_0000 <= x <= 0x7FFF_FFFF

  predicate InRange(x: int) {
    MIN <= x <= MAX
  }

  /** Reduces an unbounded integer to the signed 32-bit value with the same bit pattern. */
  function Wrap(x: int): (r: I32)
    ensures (r - x) % MODULUS == 0
    ensures InRange(x) ==> r == x
  {
    var m := (x - MIN) % MODULUS;
    assert x - MIN == MODULUS * ((x - MIN) / MODULUS) + m;
    m + MIN
  }

  /** Two in-range values that agree modulo 2^32 are the same value. */
  lemma CongruentInRange(y: int, z: int)
    requires InRange(y) && InRange(z)
    requires (y - z) % MODULUS == 0
    ensures y == z
  {
    var q := (y - z) / MODULUS;
    assert y - z == MODULUS * q;
  }

  /** Wrap picks the one in-range value congruent to its argument. */
  lemma WrapUnique(x: int, y: int)
    requires InRange(y)
    requires (y - x) % MODULUS == 0
    ensures Wrap(x) == y
  {
    var w := Wrap(x);
    var a := (w - x) / MODULUS;
    var b := (y - x) / MODULUS;
    assert w - x == MODULUS * a;
    assert y - x == MODULUS * b;
    assert w - y == MODULUS * (a - b);
    assert (w - y) % MODULUS == 0;
    CongruentInRange(w, y);
  }

  function AddWrap(a: I32, b: I32): (r: I32)
    ensures (r - (a + b)) % MODULUS == 0
    ensures InRange(a + b) ==> r == a + b
  {
    Wrap(a + b)
  }

  function SubWrap(a: I32, b: I32): (r: I32)
    ensures (r - (a - b)) % MODULUS == 0
    ensures InRange(a - b) ==> r == a - b
  {
    Wrap(a - b)
  }

  /** Wrapping subtraction undoes wrapping addition: the offset of `base + k` from `base` is `k`. */
  lemma SubWrapOfAddWrap(base: I32, k: I32)
    ensures SubWrap(AddWrap(base, k), base) == k
  {
    var s := AddWrap(base, k);
    var a := (s - (base + k)) / MODULUS;
    assert s - (base + k) == MODULUS * a;
    var d := SubWrap(s, base);
    var b := (d - (s - base)) / MODULUS;
    assert d - (s - base) == MODULUS * b;
    assert d - k == MODULUS * (a + b);
    assert (d - k) % MODULUS == 0;
    CongruentInRange(d, k);
  }

  /** Adding one never returns the same value, even across the wrap from MAX to MIN. */
  lemma AddOneMoves(a: I32)
    ensures AddWrap(a, 1) != a
    ensures a < MAX ==> AddWrap(a, 1) == a + 1
    ensures a == MAX ==> AddWrap(a, 1) == MIN
  {
    if a == MAX {
      WrapUnique(a + 1, MIN);
    }
  }
}
