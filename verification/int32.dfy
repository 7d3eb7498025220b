/** Java's 32-bit `int`: the range of a key and the wrap-around of `+`. */
module Int32 {

  const MIN: int := -0x8000_0000
  const MAX: int := 0x7fff_ffff
  const MODULUS: int := 0x1_0000_0000

  type i32 = x: int | -0x8000_0000 <= x <= 0x7fff_ffff

  /** The value Java's `int` arithmetic produces for the mathematical result `x`. */
  function Wrap(x: int): i32
  {
    (x - MIN) % MODULUS + MIN
  }

  /** The wrapped value differs from `x` by a multiple of 2^32 and is `x`
      itself when `x` is already in range. */
  lemma WrapMeaning(x: int)
    ensures (x - Wrap(x)) % MODULUS == 0
    ensures MIN <= x <= MAX ==> Wrap(x) == x
  {
    var q := (x - MIN) / MODULUS;
    assert (x - MIN) % MODULUS == (x - MIN) - q * MODULUS;
    assert x - Wrap(x) == q * MODULUS;
    ShiftMod(0, q);
  }

  /** Two integers that agree modulo 2^32 wrap to the same `int`. */
  lemma WrapCongruent(x: int, y: int)
    requires (x - y) % MODULUS == 0
    ensures Wrap(x) == Wrap(y)
  {
    var d := (x - y) / MODULUS;
    assert x - MIN == (y - MIN) + d * MODULUS;
    ShiftMod(y - MIN, d);
  }

  lemma ShiftMod(a: int, d: int)
    ensures (a + d * MODULUS) % MODULUS == a % MODULUS
  {
    var q := a / MODULUS;
    var m := a % MODULUS;
    assert a + d * MODULUS == (q + d) * MODULUS + m;
    assert 0 <= m < MODULUS;
  }

  /** Adding in Java `int` twice is the same as wrapping the exact sum once. */
  lemma WrapSum3(a: int, b: int, c: int)
    ensures Wrap(Wrap(Wrap(a) + Wrap(b)) + c) == Wrap(a + b + c)
  {
    var s := Wrap(a) + Wrap(b);
    WrapMeaning(a);
    WrapMeaning(b);
    WrapMeaning(s);
    assert ((Wrap(s) + c) - (a + b + c)) % MODULUS == 0 by {
      assert (Wrap(s) + c) - (a + b + c) == (Wrap(s) - s) + (Wrap(a) - a) + (Wrap(b) - b);
      ModNeg(s - Wrap(s));
      ModNeg(a - Wrap(a));
      ModNeg(b - Wrap(b));
      ModSum3(Wrap(s) - s, Wrap(a) - a, Wrap(b) - b);
    }
    WrapCongruent(Wrap(s) + c, a + b + c);
  }

  lemma ModNeg(x: int)
    requires x % MODULUS == 0
    ensures (-x) % MODULUS == 0
  {
    var q := x / MODULUS;
    assert -x == (-q) * MODULUS;
    ShiftMod(0, -q);
  }

  lemma ModSum3(x: int, y: int, z: int)
    requires x % MODULUS == 0 && y % MODULUS == 0 && z % MODULUS == 0
    ensures (x + y + z) % MODULUS == 0
  {
    var qx, qy, qz := x / MODULUS, y / MODULUS, z / MODULUS;
    assert x + y + z == (qx + qy + qz) * MODULUS;
    ShiftMod(0, qx + qy + qz);
  }
}
