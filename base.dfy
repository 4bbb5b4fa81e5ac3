/** Values shared by every part of the model: optional values (Java's
    nullable references), Java's signed byte, and the integer operators of
    Java that differ from Dafny's. */
module Base {

  /** A nullable Java reference: `None` stands for `null`. */
  datatype Option<T> = None | Some(value: T)

  /** A Java `byte`: a signed 8-bit value. */
  newtype int8 = x: int | -0x80 <= x < 0x80

  /** Java's `b & 0xFF`: the unsigned value of a byte. */
  function Unsigned(b: int8): (r: int)
    ensures 0 <= r < 0x100
    ensures r % 0x100 == (b as int) % 0x100
    ensures b >= 0 ==> r == b as int
  {
    if b < 0 then b as int + 0x100 else b as int
  }

  function Min(a: int, b: int): int { if a <= b then a else b }

  function Max(a: int, b: int): int { if a >= b then a else b }

  function Abs(a: int): nat { if a < 0 then -a else a }

  /** Java's integer `/`, which truncates toward zero (Dafny's `/` is
      Euclidean and differs for negative operands). */
  function JavaDiv(a: int, b: int): (q: int)
    requires b != 0
    ensures a >= 0 && b > 0 ==> q == a / b
    ensures a < 0 && b > 0 ==> q == -((-a) / b)
  {
    var m := Abs(a) / Abs(b);
    if (a >= 0) == (b > 0) then m else -m
  }

  const Int32Min: int := -0x8000_0000
  const Int32Max: int := 0x7FFF_FFFF

  predicate IsInt32(x: int) { Int32Min <= x <= Int32Max }

  /** Java's narrowing `(int)` cast of a `long`: keeps the low 32 bits. */
  function ToInt32(x: int): (r: int)
    ensures IsInt32(r)
    ensures IsInt32(x) ==> r == x
    ensures (r - x) % 0x1_0000_0000 == 0
  {
    (x - Int32Min) % 0x1_0000_0000 + Int32Min
  }

  lemma MulMonotone(a: int, b: int, m: int)
    requires a <= b && m >= 0
    ensures a * m <= b * m
  {
  }

  lemma MulStrict(a: int, b: int, m: int)
    requires a < b && m >= 1
    ensures a * m < b * m
  {
  }

  /** Euclidean quotient and remainder are unique. */
  lemma DivUnique(x: int, m: int, q: int, rem: int)
    requires m >= 1 && x == q * m + rem && 0 <= rem < m
    ensures x / m == q && x % m == rem
  {
    var q0, r0 := x / m, x % m;
    assert (q - q0) * m == r0 - rem;
    if q - q0 >= 1 {
      MulMonotone(1, q - q0, m);
    } else if q - q0 <= -1 {
      MulMonotone(q - q0, -1, m);
    }
  }

  lemma MulDivMod(j: int, m: int)
    requires m >= 1
    ensures (j * m) % m == 0 && (j * m) / m == j
  {
    DivUnique(j * m, m, j, 0);
  }
}
