/** C# fixed-width integers (`uint`, `ulong`) with their unchecked
    arithmetic written out, and the bitwise AND used to mask sizes. */
module FixedWidth {

  const TWO_32: int := 0x1_0000_0000
  const TWO_64: int := 0x1_0000_0000_0000_0000

  /** C# `uint` */
  type u32 = x: int | 0 <= x < 0x1_0000_0000
  /** C# `ulong` */
  type u64 = x: int | 0 <= x < 0x1_0000_0000_0000_0000

  /** Unchecked `ulong` subtraction: wraps around modulo 2^64. */
  function Sub64(a: u64, b: u64): (r: u64)
    ensures b <= a ==> r == a - b
    ensures a < b ==> r == a - b + TWO_64
  {
    (a - b) % TWO_64
  }

  /** Unchecked `uint` subtraction: wraps around modulo 2^32. */
  function Sub32(a: u32, b: u32): (r: u32)
    ensures b <= a ==> r == a - b
    ensures a < b ==> r == a - b + TWO_32
  {
    (a - b) % TWO_32
  }

  /** The C# cast `(uint)x` of a `ulong`: keeps the low 32 bits. */
  function ToU32(x: u64): (r: u32)
    ensures x < TWO_32 ==> r == x
  {
    x % TWO_32
  }

  function Pow2(k: nat): (r: nat)
    ensures r >= 1
  {
    if k == 0 then 1 else 2 * Pow2(k - 1)
  }

  lemma Pow2At30()
    ensures Pow2(30) == 0x4000_0000
  {
    assert Pow2(10) == 0x400;
    assert Pow2(20) == 0x10_0000;
  }

  /** The C# operator `&` on non-negative integers, bit by bit from the
      lowest: a bit is set in the result when it is set in both operands. */
  function BitwiseAnd(a: nat, b: nat): (r: nat)
    ensures r <= a && r <= b
    decreases a
  {
    if a == 0 || b == 0 then 0
    else 2 * BitwiseAnd(a / 2, b / 2) + (if a % 2 == 1 && b % 2 == 1 then 1 else 0)
  }

  /** Masking with `2^k - 1` keeps the low `k` bits, that is, the
      remainder modulo `2^k`. */
  lemma {:induction false} AndLowMask(a: nat, k: nat)
    ensures BitwiseAnd(a, Pow2(k) - 1) == a % Pow2(k)
  {
    if k == 0 {
      assert Pow2(k) == 1;
    } else if a == 0 {
      assert BitwiseAnd(a, Pow2(k) - 1) == 0;
    } else {
      var p := Pow2(k - 1);
      var mask := Pow2(k) - 1;
      assert mask / 2 == p - 1 && mask % 2 == 1;
      AndLowMask(a / 2, k - 1);
      ModTwice(a, p);
    }
  }

  /** The bits of `a` below `2 * p`: its lowest bit, then the bits of
      `a / 2` below `p`. */
  lemma ModTwice(a: nat, p: int)
    requires p > 0
    ensures a % (2 * p) == 2 * ((a / 2) % p) + a % 2
  {
    var low := (a / 2) % p;
    var high := (a / 2) / p;
    assert a / 2 == high * p + low;
    assert a == 2 * (a / 2) + a % 2;
    assert high * (2 * p) == 2 * (high * p);
    ModUnique(a, 2 * p, high, 2 * low + a % 2);
  }

  /** Division with remainder is unique. */
  lemma ModUnique(a: int, m: int, q: int, r: int)
    requires 0 < m && 0 <= r < m && a == q * m + r
    ensures a % m == r
  {
    var d := q - a / m;
    assert a == (a / m) * m + a % m;
    assert d * m == a % m - r;
    if d >= 1 {
      MulAtLeast(d, m);
    } else if d <= -1 {
      MulAtLeast(-d, m);
    }
  }

  lemma MulAtLeast(d: int, m: int)
    requires d >= 1 && m > 0
    ensures d * m >= m
  {
    assert d * m == (d - 1) * m + m;
  }
}
