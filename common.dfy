/** Machine-level types, kernel error numbers and power-of-two arithmetic shared by all modules. */
module Common {

  /** A byte of memory. */
  type Byte = x: int | 0 <= x < 0x100

  /** A 32-bit unsigned machine word; float samples are handled as their bit patterns in this type. */
  type Word = x: int | 0 <= x < 0x1_0000_0000

  /** A C `short`. */
  type Int16 = x: int | -0x8000 <= x < 0x8000

  // Error numbers of the Darwin kernel (sys/errno.h).
  const ENOENT: int := 2
  const ENXIO: int := 6
  const ENOMEM: int := 12
  const EACCES: int := 13
  const EEXIST: int := 17
  const EINVAL: int := 22
  const ENOTTY: int := 25
  const EPIPE: int := 32
  const EWOULDBLOCK: int := 35
  const ENOTSUP: int := 45
  const EDEVERR: int := 83

  datatype Option<T> = None | Some(value: T)

  /** The outcome of an operation that fails with an error number. */
  datatype Result<T> = Ok(value: T) | Err(code: int)

  /** A flags word such as `int flags` of `open(2)` or a driver state word, handled bitwise. */
  type Flags = bv32

  // File flags of sys/fcntl.h.
  const FREAD: Flags := 0x1
  const FWRITE: Flags := 0x2
  const FNONBLOCK: Flags := 0x4

  function Min(a: int, b: int): int { if a < b then a else b }
  function Max(a: int, b: int): int { if a > b then a else b }

  /** C's `/` on `int`: the quotient is truncated toward zero. */
  function CDiv(a: int, b: int): (q: int)
    requires b > 0
    ensures a >= 0 ==> q == a / b
    ensures a < 0 ==> q == -((-a) / b)
  {
    if a >= 0 then a / b else -((-a) / b)
  }

  /** C's `/` on `int` for a divisor of either sign. */
  function CQuot(a: int, b: int): (q: int)
    requires b != 0
    ensures b > 0 ==> q == CDiv(a, b)
  {
    var m := (if a < 0 then -a else a) / (if b < 0 then -b else b);
    if (a < 0) != (b < 0) then -m else m
  }

  function Pow2(n: nat): (r: nat)
    ensures r >= 1
  {
    if n == 0 then 1 else 2 * Pow2(n - 1)
  }

  lemma {:induction false} Pow2Add(a: nat, b: nat)
    ensures Pow2(a + b) == Pow2(a) * Pow2(b)
  {
    if a > 0 {
      Pow2Add(a - 1, b);
      assert Pow2(a + b) == 2 * Pow2(a - 1 + b);
    }
  }

  /** The powers of two the bit layouts use. */
  lemma Pow2Table()
    ensures Pow2(7) == 0x80 && Pow2(8) == 0x100 && Pow2(9) == 0x200 && Pow2(15) == 0x8000
    ensures Pow2(16) == 0x1_0000 && Pow2(17) == 0x2_0000 && Pow2(23) == 0x80_0000
  {
    assert Pow2(1) == 2;
    assert Pow2(2) == 4;
    assert Pow2(3) == 8;
    assert Pow2(4) == 16;
    assert Pow2(5) == 32;
    assert Pow2(6) == 64;
    assert Pow2(7) == 128;
    assert Pow2(8) == 256;
    assert Pow2(9) == 512;
    assert Pow2(10) == 1024;
    assert Pow2(11) == 2048;
    assert Pow2(12) == 4096;
    assert Pow2(13) == 8192;
    assert Pow2(14) == 16384;
    assert Pow2(15) == 32768;
    assert Pow2(16) == 65536;
    assert Pow2(17) == 131072;
    assert Pow2(18) == 262144;
    assert Pow2(19) == 524288;
    assert Pow2(20) == 1048576;
    assert Pow2(21) == 2097152;
    assert Pow2(22) == 4194304;
    assert Pow2(23) == 8388608;
  }

  lemma {:induction false} Pow2Monotone(a: nat, b: nat)
    requires a <= b
    ensures Pow2(a) <= Pow2(b)
  {
    if a < b {
      Pow2Monotone(a, b - 1);
    }
  }

  /** `x >> n` on an unsigned value. */
  function Shr(x: nat, n: nat): (r: nat)
    ensures r <= x
  {
    if n == 0 then x else Shr(x / 2, n - 1)
  }

  lemma {:induction false} ShrIsDiv(x: nat, n: nat)
    ensures Shr(x, n) == x / Pow2(n)
  {
    if n > 0 {
      ShrIsDiv(x / 2, n - 1);
      DivDiv(x, 2, Pow2(n - 1));
    }
  }

  /** Dividing twice is dividing by the product: a right shift by m and then by n is a shift by m + n. */
  lemma DivDiv(x: nat, a: nat, b: nat)
    requires a > 0 && b > 0
    ensures x / a / b == x / (a * b)
  {
    var q, r := x / a, x % a;
    var q2, r2 := q / b, q % b;
    assert x == a * q + r;
    assert q == b * q2 + r2;
    MulDistributes(a, b * q2, r2);
    MulAssoc(a, b, q2);
    assert x == (a * b) * q2 + (a * r2 + r);
    MulMonotone(a, r2, b - 1);
    MulDistributes(a, b, -1);
    DivUnique(x, a * b, q2, a * r2 + r);
  }

  lemma MulDistributes(a: int, b: int, c: int)
    ensures a * (b + c) == a * b + a * c
  {
  }

  lemma DivUnique(x: int, d: int, q: int, r: int)
    requires d > 0 && x == d * q + r && 0 <= r < d
    ensures x / d == q && x % d == r
  {
    var q0, r0 := x / d, x % d;
    assert x == d * q0 + r0;
    assert d * q - d * q0 == r0 - r;
    if q > q0 {
      assert d * (q - q0) == d * q - d * q0;
      MulAtLeast(d, q - q0);
    } else if q < q0 {
      assert d * (q0 - q) == d * q0 - d * q;
      MulAtLeast(d, q0 - q);
    }
  }

  lemma MulAtLeast(d: int, n: int)
    requires d > 0 && n >= 1
    ensures d * n >= d
  {
    assert d * n == d + d * (n - 1);
  }

  lemma MulAssoc(a: int, b: int, c: int)
    ensures (a * b) * c == a * (b * c)
  {
  }

  lemma MulMonotone(a: nat, b: nat, c: nat)
    ensures b <= c ==> a * b <= a * c
  {
  }

  lemma DivBelow(y: nat, p: nat, c: nat)
    requires p > 0 && y < c * p
    ensures y / p < c
  {
    assert y == p * (y / p) + y % p;
    MulMonotone(p, c, y / p);
  }

  lemma MulDivCancel(x: nat, d: nat)
    requires d > 0
    ensures (x * d) / d == x
  {
    DivUnique(x * d, d, x, 0);
  }
}
