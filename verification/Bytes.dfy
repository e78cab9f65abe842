/** Byte sequences, fixed-width big-endian integers and Go's wrapping 64-bit arithmetic. */
module Bytes {

  type byte = x: int | 0 <= x < 0x100
  type Bytes = seq<byte>

  const TWO_31: int := 0x8000_0000
  const TWO_32: int := 0x1_0000_0000
  const TWO_63: int := 0x8000_0000_0000_0000
  const TWO_64: int := 0x1_0000_0000_0000_0000

  type int32 = x: int | -0x8000_0000 <= x < 0x8000_0000
  type uint32 = x: int | 0 <= x < 0x1_0000_0000
  type int64 = x: int | -0x8000_0000_0000_0000 <= x < 0x8000_0000_0000_0000
  type uint64 = x: int | 0 <= x < 0x1_0000_0000_0000_0000

  datatype Option<+T> = None | Some(value: T)

  /** Two's complement: the conversions `int64(u)` and `uint64(i)`, and the wrap of any exact sum. */
  function ToInt64(u: uint64): (i: int64) {
    if u < TWO_63 then u else u - TWO_64
  }

  function ToUint64(i: int64): (u: uint64) {
    if i < 0 then i + TWO_64 else i
  }

  function ToInt32(u: uint32): int32 {
    if u < TWO_31 then u else u - TWO_32
  }

  /** `int32(x)`. */
  function WrapInt32(x: int): (r: int32) {
    ToInt32(x % TWO_32)
  }

  lemma WrapInt32Identity(x: int32)
    ensures WrapInt32(x) == x
  {
  }

  function WrapInt64(x: int): (i: int64) {
    ToInt64(x % TWO_64)
  }

  lemma WrapIdentity(i: int64)
    ensures WrapInt64(i) == i
    ensures ToInt64(ToUint64(i)) == i
  {
  }

  /** A wrapped difference added back with a wrapped sum restores the value, whatever overflowed. */
  lemma WrapDeltaRestores(base: int64, x: int64)
    ensures WrapInt64(base + WrapInt64(x - base)) == x
  {
    var d := WrapInt64(x - base);
    assert d == x - base || d == x - base + TWO_64 || d == x - base - TWO_64;
  }

  function Pow256(n: nat): (p: nat)
    ensures p >= 1
  {
    if n == 0 then 1 else 256 * Pow256(n - 1)
  }

  lemma Pow256Widths()
    ensures Pow256(2) == 0x1_0000 && Pow256(4) == TWO_32 && Pow256(8) == TWO_64
  {
    assert Pow256(1) == 256;
    assert Pow256(2) == 256 * Pow256(1);
    assert Pow256(3) == 256 * Pow256(2);
    assert Pow256(4) == 256 * Pow256(3);
    assert Pow256(5) == 256 * Pow256(4);
    assert Pow256(6) == 256 * Pow256(5);
    assert Pow256(7) == 256 * Pow256(6);
    assert Pow256(8) == 256 * Pow256(7);
  }

  /** The low `n` bytes of `v`, most significant first (binary.BigEndian.PutUint). */
  function Put(v: nat, n: nat): (r: Bytes)
    ensures |r| == n
  {
    if n == 0 then [] else Put(v / 256, n - 1) + [v % 256]
  }

  /** The value of a big-endian byte string (binary.BigEndian.Uint). */
  function Get(b: Bytes): (v: nat)
    ensures v < Pow256(|b|)
  {
    if |b| == 0 then 0 else Get(b[..|b| - 1]) * 256 + b[|b| - 1]
  }

  lemma {:induction false} GetPut(v: nat, n: nat)
    requires v < Pow256(n)
    ensures Get(Put(v, n)) == v
  {
    if n > 0 {
      GetPut(v / 256, n - 1);
      var p := Put(v, n);
      assert p[..n - 1] == Put(v / 256, n - 1);
    }
  }

  /** The most significant byte comes first. */
  lemma {:induction false} PutBytes(v: nat, n: nat, i: nat)
    requires i < n
    ensures Put(v, n)[i] == v / Pow256(n - 1 - i) % 256
  {
    if i < n - 1 {
      PutBytes(v / 256, n - 1, i);
      DivideTwice(v, 256, Pow256(n - 2 - i));
    }
  }

  lemma DivideTwice(v: nat, k: nat, p: nat)
    requires k >= 1 && p >= 1
    ensures v / k / p == v / (k * p)
  {
    var q, s := Quotient(v, k);
    var a, r := Quotient(q, p);
    Regroup(a, k, p, r, s);
    ProductGrows(r, p, k);
    QuotientIs(v, k * p, a, r * k + s);
  }

  lemma Regroup(a: nat, k: nat, p: nat, r: nat, s: nat)
    requires k >= 1 && p >= 1
    ensures (a * p + r) * k + s == a * (k * p) + (r * k + s) && k * p >= 1
  {
    assert (a * p) * k == a * (k * p);
  }

  lemma Quotient(a: nat, m: nat) returns (q: nat, r: nat)
    requires m > 0
    ensures q == a / m && r < m && a == q * m + r
  {
    q, r := a / m, a % m;
  }

  lemma QuotientIs(x: nat, m: nat, q: nat, r: nat)
    requires m > 0 && x == q * m + r && r < m
    ensures x / m == q
  {
    var d := x / m;
    assert x == d * m + x % m;
    if d < q {
      ProductGrows(d, q, m);
    } else if q < d {
      ProductGrows(q, d, m);
    }
  }

  lemma ProductGrows(a: nat, b: nat, m: nat)
    requires a < b
    ensures a * m + m <= b * m
  {
    var k := b - a - 1;
    assert b * m == (a + 1 + k) * m == a * m + m + k * m;
  }

  function GetU32(b: Bytes, at: nat): (v: uint32)
    requires at + 4 <= |b|
  {
    Pow256Widths();
    Get(b[at..at + 4])
  }

  function GetU64(b: Bytes, at: nat): (v: uint64)
    requires at + 8 <= |b|
  {
    Pow256Widths();
    Get(b[at..at + 8])
  }

  function GetI64(b: Bytes, at: nat): (v: int64)
    requires at + 8 <= |b|
  {
    ToInt64(GetU64(b, at))
  }

  function PutU32(v: uint32): (r: Bytes)
    ensures |r| == 4
  {
    Put(v, 4)
  }

  function PutI64(v: int64): (r: Bytes)
    ensures |r| == 8
  {
    Put(ToUint64(v), 8)
  }

  lemma GetPutU32(v: uint32)
    ensures Get(PutU32(v)) == v
  {
    Pow256Widths();
    GetPut(v, 4);
  }

  lemma GetPutI64(v: int64)
    ensures |PutI64(v)| == 8 && ToInt64(Get(PutI64(v))) == v
  {
    Pow256Widths();
    GetPut(ToUint64(v), 8);
    WrapIdentity(v);
  }
}
