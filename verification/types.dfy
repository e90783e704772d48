/** Go's fixed-width integers and the failure wrappers used by the rest of the model. */
module Types {

  const TWO_63: int := 0x8000_0000_0000_0000
  const TWO_64: int := 0x1_0000_0000_0000_0000

  /** Go's uint64, int64 (also Go's int on a 64-bit platform) and byte. */
  type uint64 = x: int | 0 <= x < TWO_64
  type int64 = x: int | -TWO_63 <= x < TWO_63
  type byte = x: int | 0 <= x < 256

  datatype Option<+T> = None | Some(value: T)

  /** Unsigned 64-bit wrap-around: the result of a Go uint64 operation whose exact value is x. */
  function WrapU64(x: int): (r: uint64)
    ensures (r - x) % TWO_64 == 0
    ensures 0 <= x < TWO_64 ==> r == x
  {
    x % TWO_64
  }

  /** Signed (two's complement) 64-bit wrap-around: the result of a Go int64 operation whose exact value is x. */
  function WrapI64(x: int): (r: int64)
    ensures (r - x) % TWO_64 == 0
    ensures -TWO_63 <= x < TWO_63 ==> r == x
  {
    var m := x % TWO_64;
    if m >= TWO_63 then m - TWO_64 else m
  }

  /** Go's conversion uint64(i) of an int64: the same bits read as unsigned. */
  function ToUint64(i: int64): (r: uint64)
    ensures i >= 0 ==> r == i
    ensures i < 0 ==> r == i + TWO_64
  {
    WrapU64(i)
  }

  /** Go's conversion int64(u) (or int(u)) of a uint64: the same bits read as signed. */
  function ToInt64(u: uint64): (r: int64)
    ensures u < TWO_63 ==> r == u
    ensures u >= TWO_63 ==> r == u - TWO_64
  {
    WrapI64(u)
  }

  /** Go's integer quotient: truncated toward zero (Dafny's `/` is Euclidean). */
  function Quo(a: int, b: int): (q: int)
    requires b != 0
    ensures a >= 0 && b > 0 ==> q == a / b
    ensures a < 0 && b > 0 ==> q == -((-a) / b)
    ensures a >= 0 && b < 0 ==> q == -(a / -b)
    ensures a < 0 && b < 0 ==> q == (-a) / (-b)
  {
    var q := Abs(a) / Abs(b);
    if (a < 0) != (b < 0) then -q else q
  }

  /** Go's remainder: the sign of the dividend, a == Quo(a, b) * b + Rem(a, b). */
  function Rem(a: int, b: int): (r: int)
    requires b != 0
    ensures a == Quo(a, b) * b + r
    ensures -Abs(b) < r < Abs(b)
    ensures a >= 0 ==> r >= 0
    ensures a < 0 ==> r <= 0
  {
    RemBounds(a, b);
    a - Quo(a, b) * b
  }

  /** Go's remainder a - Quo(a, b) * b is smaller than |b| and carries the dividend's sign. */
  lemma RemBounds(a: int, b: int)
    requires b != 0
    ensures -Abs(b) < a - Quo(a, b) * b < Abs(b)
    ensures a >= 0 ==> a - Quo(a, b) * b >= 0
    ensures a < 0 ==> a - Quo(a, b) * b <= 0
  {
    var m := Abs(b);
    var q := Abs(a) / m;
    assert Abs(a) == q * m + Abs(a) % m;
    if a >= 0 && b > 0 {
      assert a - q * b == Abs(a) % m;
    } else if a >= 0 {
      assert a - (-q) * b == Abs(a) % m;
    } else if b > 0 {
      assert a - (-q) * b == -(Abs(a) % m);
    } else {
      assert a - q * b == -(Abs(a) % m);
    }
  }

  function Abs(x: int): (r: int)
    ensures r >= 0 && (r == x || r == -x)
  {
    if x < 0 then -x else x
  }

  /** Go's int64 quotient, including the one overflowing case MinInt64 / -1 == MinInt64. */
  function Quo64(a: int64, b: int64): (q: int64)
    requires b != 0
    ensures a >= 0 && b > 0 ==> q == a / b
    ensures !(a == -TWO_63 && b == -1) ==> q == Quo(a, b)
    ensures a == -TWO_63 && b == -1 ==> q == -TWO_63
  {
    QuoFits(a, b);
    WrapI64(Quo(a, b))
  }

  /** Every int64 quotient is an int64, except MinInt64 / -1 = 2^63. */
  lemma QuoFits(a: int64, b: int64)
    requires b != 0
    ensures !(a == -TWO_63 && b == -1) ==> -TWO_63 <= Quo(a, b) < TWO_63
    ensures a == -TWO_63 && b == -1 ==> Quo(a, b) == TWO_63
  {
    DivBounded(Abs(a), Abs(b));
    if Abs(b) == 1 {
      DivModUnique(Abs(a), 1, Abs(a), 0);
    } else {
      DivHalf(Abs(a), Abs(b));
    }
  }

  lemma DivHalf(a: nat, b: nat)
    requires b >= 2
    ensures 2 * (a / b) <= a
  {
    var q := a / b;
    assert a == q * b + a % b;
    MulMonoLeft(2, b, q);
  }

  lemma DivBounded(a: nat, b: int)
    requires b > 0
    ensures 0 <= a / b <= a
  {
    var q, r := a / b, a % b;
    assert a == q * b + r && 0 <= r;
    assert q * (b - 1) >= 0 by { MulNonNegative(q, b - 1); }
  }

  lemma MulNonNegative(x: int, y: int)
    requires x >= 0 && y >= 0
    ensures x * y >= 0
  {
  }

  /** Wrapping uint64 subtraction and addition. */
  function SubU64(a: uint64, b: uint64): (r: uint64)
    ensures a >= b ==> r == a - b
    ensures a < b ==> r == TWO_64 - (b - a)
  {
    WrapU64(a - b)
  }

  function AddU64(a: uint64, b: uint64): (r: uint64)
    ensures a + b < TWO_64 ==> r == a + b
    ensures a + b >= TWO_64 ==> r == a + b - TWO_64
  {
    WrapU64(a + b)
  }

  /** Wrapping is insensitive to earlier wrapping of a summand. */
  lemma WrapI64Add(x: int, y: int)
    ensures WrapI64(WrapI64(x) + y) == WrapI64(x + y)
  {
    var k := (WrapI64(x) - x) / TWO_64;
    assert WrapI64(x) == x + k * TWO_64;
    assert (WrapI64(x) + y) % TWO_64 == (x + y + k * TWO_64) % TWO_64 == (x + y) % TWO_64;
  }

  lemma WrapU64Add(x: int, y: int)
    ensures WrapU64(WrapU64(x) + y) == WrapU64(x + y)
  {
    var k := (WrapU64(x) - x) / TWO_64;
    assert WrapU64(x) == x + k * TWO_64;
    assert (x + y + k * TWO_64) % TWO_64 == (x + y) % TWO_64;
  }

  lemma MulMonoLeft(a: int, b: int, c: int)
    requires a <= b && c >= 0
    ensures a * c <= b * c
  {
    MulNonNegative(b - a, c);
    assert (b - a) * c == b * c - a * c;
  }

  /** Euclidean division is determined by the quotient-remainder equation. */
  lemma DivModUnique(x: int, d: int, q: int, r: int)
    requires d > 0 && x == q * d + r && 0 <= r < d
    ensures x / d == q && x % d == r
  {
    var q0, r0 := x / d, x % d;
    assert (q0 - q) * d == r - r0;
    if q0 > q {
      MulMonoLeft(1, q0 - q, d);
      assert false;
    }
    if q0 < q {
      MulMonoLeft(1, q - q0, d);
      assert false;
    }
  }

  lemma ModPeriod(k: int, p: int)
    requires p > 0
    ensures (k + p) % p == k % p
  {
    var q, r := k / p, k % p;
    assert k == q * p + r;
    assert (q + 1) * p == q * p + p;
    DivModUnique(k + p, p, q + 1, r);
  }
}
