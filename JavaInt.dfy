/** Java's 32-bit `int` and its wrap-around arithmetic. */
module JavaInt {

  const Modulus: int := 0x1_0000_0000

  /** The values of a Java `int`. */
  newtype int32 = x: int | -0x8000_0000 <= x < 0x8000_0000

  /** The `int` that a Java `int` operation yields for the exact mathematical result `x`:
      the unique value in range that agrees with `x` modulo 2^32. */
  function Wrap(x: int): (r: int32)
    ensures (r as int - x) % Modulus == 0
    ensures -0x8000_0000 <= x < 0x8000_0000 ==> r as int == x
  {
    var m := x % Modulus;
    assert x == (x / Modulus) * Modulus + m;
    if m < 0x8000_0000 then m as int32 else (m - Modulus) as int32
  }

  /** Multiplying two congruent values by the same factor keeps them congruent. */
  lemma CongruentTimes(a: int, b: int, l: int)
    requires (a - b) % Modulus == 0
    ensures (a * l - b * l) % Modulus == 0
  {
    var k := (a - b) / Modulus;
    assert a - b == k * Modulus;
    assert a * l - b * l == (k * l) * Modulus;
  }

  /** Congruence modulo 2^32 is transitive. */
  lemma CongruentTrans(x: int, y: int, z: int)
    requires (x - y) % Modulus == 0 && (y - z) % Modulus == 0
    ensures (x - z) % Modulus == 0
  {
    var j, k := (x - y) / Modulus, (y - z) / Modulus;
    assert x - y == j * Modulus && y - z == k * Modulus;
    assert x - z == (j + k) * Modulus;
  }

  /** An `int` value congruent modulo 2^32 to another value in `int` range is that value. */
  lemma CongruentInRange(x: int, y: int)
    requires -0x8000_0000 <= x < 0x8000_0000
    requires (x - y) % Modulus == 0
    ensures -0x8000_0000 <= y < 0x8000_0000 ==> x == y
  {
    var k := (x - y) / Modulus;
    assert x - y == k * Modulus;
  }
}
