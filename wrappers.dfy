/** Small helpers shared by the exercise models: an optional value, Java's
    32-bit `int` range and Java's remainder operator. */
module Wrappers {

  /** A value that may be absent (Java's `null`, or "not found"). */
  datatype Option<+T> = None | Some(value: T)

  const INT_MIN: int := -0x8000_0000
  const INT_MAX: int := 0x7FFF_FFFF

  /** The values of Java's primitive `int`. */
  newtype int32 = x: int | -0x8000_0000 <= x < 0x8000_0000

  /** Java's `int` arithmetic: the mathematical result wrapped into 32
      bits, two's complement. */
  function Wrap32(x: int): (r: int32)
    ensures INT_MIN <= x <= INT_MAX ==> r as int == x
  {
    (((x + 0x8000_0000) % 0x1_0000_0000) - 0x8000_0000) as int32
  }

  /** Java's `a % b`: the remainder of the division truncated toward zero, so
      its sign is that of `a` (Dafny's own `%` is Euclidean). */
  function JavaRem(a: int, b: int): (r: int)
    requires b != 0
    ensures a >= 0 ==> 0 <= r < if b > 0 then b else -b
    ensures a < 0 ==> (if b > 0 then -b else b) < r <= 0
    ensures 0 <= a && 0 < b ==> r == a % b
  {
    var m := if b > 0 then b else -b;
    if a >= 0 then a % m else -((-a) % m)
  }

  /** Wrapping changes a value by a multiple of 2^32 only. */
  lemma Wrap32Congruent(x: int)
    ensures (Wrap32(x) as int - x) % 0x1_0000_0000 == 0
  {
    var y := x + 0x8000_0000;
    assert y == (y / 0x1_0000_0000) * 0x1_0000_0000 + y % 0x1_0000_0000;
    ModUnique(Wrap32(x) as int - x, 0x1_0000_0000, -(y / 0x1_0000_0000), 0);
  }

  /** Euclidean division is unique: a remainder in [0, m) is the remainder. */
  lemma ModUnique(a: int, m: int, d: int, r: int)
    requires m > 0 && 0 <= r < m && a == d * m + r
    ensures a % m == r
  {
    var k := d - a / m;
    assert k * m == a % m - r by {
      assert a == (a / m) * m + a % m;
    }
    MulAtLeast(k, m);
    MulAtLeast(-k, m);
  }

  lemma {:induction false} MulAtLeast(k: int, m: int)
    requires m > 0
    ensures k >= 1 ==> k * m >= m
    decreases if k < 0 then 0 else k
  {
    if k > 1 {
      MulAtLeast(k - 1, m);
      assert k * m == (k - 1) * m + m;
    }
  }

  /** Reducing the left summand first does not change the remainder. */
  lemma ModAddLeft(a: nat, b: nat, m: nat)
    requires m > 0
    ensures (a % m + b) % m == (a + b) % m
  {
    var b1, b2 := (a % m + b) / m, (a % m + b) % m;
    assert a % m + b == b1 * m + b2;
    assert a == (a / m) * m + a % m;
    assert a + b == (a / m + b1) * m + b2;
    ModUnique(a + b, m, a / m + b1, b2);
  }

  /** A summand common to both sides of a multiset equation cancels. */
  lemma MultisetCancel<T>(a: multiset<T>, b: multiset<T>, c: multiset<T>)
    requires a + c == b + c
    ensures a == b
  {
    forall x
      ensures a[x] == b[x]
    {
      assert (a + c)[x] == (b + c)[x];
    }
  }
}
