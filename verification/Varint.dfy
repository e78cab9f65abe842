/**
 Base-128 varints and zigzag integers, as the batch codec writes and reads them
 (Protocol Buffers Encoding guide, "Base 128 Varints" and "Signed Integers").
 */
module Varint {
  import opened Bytes

  datatype DecodeError = TooShort | Truncated | Overflow | CrcMismatch | Panics

  /** A parsed value and the position after it, or the error that stopped the parse. */
  datatype Decoded<+T> = Ok(value: T, next: nat) | Fail(error: DecodeError) {
    predicate IsFailure() {
      Fail?
    }
    function PropagateFailure<U>(): Decoded<U>
      requires Fail?
    {
      Fail(error)
    }
    function Extract(): (T, nat)
      requires Ok?
    {
      (value, next)
    }
  }

  /** `chunk` occupies `data` from `pos` on. */
  predicate At(data: Bytes, pos: nat, chunk: Bytes): (b: bool)
    ensures b ==> pos + |chunk| <= |data|
  {
    pos + |chunk| <= |data| && data[pos..pos + |chunk|] == chunk
  }

  lemma AtSplit(data: Bytes, pos: nat, a: Bytes, b: Bytes)
    requires At(data, pos, a + b)
    ensures At(data, pos, a) && At(data, pos + |a|, b)
  {
    var w := data[pos..pos + |a + b|];
    assert data[pos..pos + |a|] == w[..|a|] == a;
    assert data[pos + |a|..pos + |a| + |b|] == w[|a|..] == b;
  }

  function Pow2(n: nat): (p: nat)
    ensures p >= 1
  {
    if n == 0 then 1 else 2 * Pow2(n - 1)
  }

  lemma Pow2Seven(n: nat)
    ensures Pow2(n + 7) == 128 * Pow2(n)
  {
    assert Pow2(n + 2) == 4 * Pow2(n);
    assert Pow2(n + 4) == 4 * Pow2(n + 2);
    assert Pow2(n + 6) == 4 * Pow2(n + 4);
  }

  lemma Pow2Doubles(n: nat)
    ensures Pow2(0) == 1 && Pow2(n + 1) == 2 * Pow2(n)
  {
  }

  lemma Pow2SixtyFour()
    ensures Pow2(63) == TWO_63 && Pow2(64) == TWO_64 && Pow2(70) == 64 * TWO_64
  {
    hide Pow2;
    Pow2Doubles(63);
    Pow2Seven(0); Pow2Seven(7); Pow2Seven(14); Pow2Seven(21); Pow2Seven(28);
    Pow2Seven(35); Pow2Seven(42); Pow2Seven(49); Pow2Seven(56); Pow2Seven(63);
  }

  lemma {:induction false} Pow2Monotone(m: nat, n: nat)
    requires m <= n
    ensures Pow2(m) <= Pow2(n)
  {
    if m < n {
      Pow2Monotone(m, n - 1);
    }
  }

  // --- Unsigned varints -------------------------------------------------------

  /** Least significant group first; every byte but the last has its top bit set. */
  function Uvarint(v: uint64): (r: Bytes)
    ensures |r| >= 1
  {
    if v < 0x80 then [v] else [v % 0x80 + 0x80] + Uvarint(v / 0x80)
  }

  /** A varint is as short as its value allows. */
  lemma {:induction false} UvarintLength(v: uint64, k: nat)
    requires k >= 1
    ensures |Uvarint(v)| <= k <==> v < Pow2(7 * k)
  {
    Pow2Seven(7 * (k - 1));
    assert 7 * k == 7 * (k - 1) + 7;
    if v >= 0x80 {
      if k == 1 {
        assert Pow2(7 * 0) == 1;
      } else {
        UvarintLength(v / 0x80, k - 1);
      }
    }
  }

  /** Seven bits a byte, the least significant ones first, and a top bit on every byte but the last. */
  lemma {:induction false} UvarintGroups(v: uint64, i: nat)
    requires i < |Uvarint(v)|
    ensures Uvarint(v)[i] == v / Pow2(7 * i) % 0x80 + if i == |Uvarint(v)| - 1 then 0 else 0x80
  {
    if i == 0 {
      assert Pow2(7 * 0) == 1;
    } else {
      UvarintGroups(v / 0x80, i - 1);
      Pow2Seven(7 * (i - 1));
      assert 7 * i == 7 * (i - 1) + 7;
      DivideTwice(v, 0x80, Pow2(7 * (i - 1)));
    }
  }

  lemma UvarintAtMostTen(v: uint64)
    ensures |Uvarint(v)| <= 10
  {
    Pow2SixtyFour();
    UvarintLength(v, 10);
  }

  method AppendUvarint(b: Bytes, v: uint64) returns (r: Bytes)
    ensures r == b + Uvarint(v)
  {
    r := b;
    var rest := v;
    while rest >= 0x80
      invariant r + Uvarint(rest) == b + Uvarint(v)
      decreases rest
    {
      assert Uvarint(rest) == [rest % 0x80 + 0x80] + Uvarint(rest / 0x80);
      r := r + [rest % 0x80 + 0x80];
      rest := rest / 0x80;
    }
    r := r + [rest];
  }

  /**
   One pass of the decoding loop and everything after it. The bitwise or of disjoint
   bits is a sum, and the shift drops what leaves the 64-bit word.
   */
  function ParseUvarintFrom(data: Bytes, pos: nat, acc: uint64, shift: nat): (r: Decoded<uint64>)
    ensures r.Ok? ==> pos < r.next <= |data|
    ensures r.Fail? ==> r.error != CrcMismatch && r.error != TooShort
    decreases |data| - pos
  {
    if pos >= |data| then Fail(Truncated)
    else
      var v: uint64 := (acc + (data[pos] % 0x80) * Pow2(shift)) % TWO_64;
      if data[pos] < 0x80 then Ok(v, pos + 1)
      else if shift + 7 >= 64 then Fail(Overflow)
      else ParseUvarintFrom(data, pos + 1, v, shift + 7)
  }

  function ParseUvarint(data: Bytes, pos: nat): (r: Decoded<uint64>)
    ensures r.Ok? ==> pos < r.next <= |data|
    ensures r.Fail? ==> r.error != CrcMismatch && r.error != TooShort
  {
    ParseUvarintFrom(data, pos, 0, 0)
  }

  method DecodeUvarint(data: Bytes, pos: nat) returns (r: Decoded<uint64>)
    ensures r == ParseUvarint(data, pos)
  {
    var v: uint64, shift, p := 0, 0, pos;
    while p < |data|
      invariant ParseUvarint(data, pos) == ParseUvarintFrom(data, p, v, shift)
      decreases |data| - p
    {
      var b := data[p];
      v := (v + (b % 0x80) * Pow2(shift)) % TWO_64;
      p := p + 1;
      if b < 0x80 {
        return Ok(v, p);
      }
      shift := shift + 7;
      if shift >= 64 {
        return Fail(Overflow);
      }
    }
    return Fail(Truncated);
  }

  /** A varint that does not end within ten bytes is refused, and so is one that the data cuts short. */
  lemma {:induction false} EndlessFrom(data: Bytes, pos: nat, acc: uint64, shift: nat, left: nat)
    requires forall i | pos <= i < |data| :: data[i] >= 0x80
    requires 1 <= left <= 10 && shift + 7 * left == 70
    ensures ParseUvarintFrom(data, pos, acc, shift) == Fail(if |data| - pos >= left then Overflow else Truncated)
    decreases left
  {
    if pos < |data| && left > 1 {
      EndlessFrom(data, pos + 1, (acc + (data[pos] % 0x80) * Pow2(shift)) % TWO_64, shift + 7, left - 1);
    }
  }

  lemma EndlessVarint(data: Bytes, pos: nat)
    requires forall i | pos <= i < |data| :: data[i] >= 0x80
    ensures ParseUvarint(data, pos) == Fail(if |data| - pos >= 10 then Overflow else Truncated)
  {
    EndlessFrom(data, pos, 0, 0, 10);
  }

  lemma SplitLowGroup(w: nat, p: nat)
    ensures w * p == (w % 0x80) * p + (w / 0x80) * (0x80 * p)
    ensures (w % 0x80) * p <= w * p
    ensures w >= 0x80 ==> w * p >= 0x80 * p
  {
    assert w == w % 0x80 + 0x80 * (w / 0x80);
    assert w * p == (w % 0x80) * p + (0x80 * (w / 0x80)) * p;
    assert (0x80 * (w / 0x80)) * p == (w / 0x80) * (0x80 * p);
  }

  /** A continued group leaves room for the next shift, so the decoder does not report overflow. */
  lemma ShiftStaysBelowWord(w: nat, shift: nat)
    requires w >= 0x80 && w * Pow2(shift) < TWO_64
    ensures shift + 7 < 64
  {
    SplitLowGroup(w, Pow2(shift));
    Pow2Seven(shift);
    Pow2SixtyFour();
    if shift + 7 >= 64 {
      Pow2Monotone(64, shift + 7);
    }
  }

  lemma UvarintHead(data: Bytes, pos: nat, w: uint64)
    requires At(data, pos, Uvarint(w))
    ensures data[pos] % 0x80 == w % 0x80 && (data[pos] < 0x80 <==> w < 0x80)
    ensures w >= 0x80 ==> At(data, pos + 1, Uvarint(w / 0x80))
  {
    var enc := Uvarint(w);
    assert data[pos] == data[pos..pos + |enc|][0] == enc[0];
    if w >= 0x80 {
      AtSplit(data, pos, [enc[0]], Uvarint(w / 0x80));
    }
  }

  lemma {:induction false} ParseFromRoundTrip(data: Bytes, pos: nat, w: uint64, acc: uint64, shift: nat)
    requires At(data, pos, Uvarint(w))
    requires acc + w * Pow2(shift) < TWO_64
    ensures ParseUvarintFrom(data, pos, acc, shift) == Ok(acc + w * Pow2(shift), pos + |Uvarint(w)|)
    decreases w
  {
    var p := Pow2(shift);
    UvarintHead(data, pos, w);
    SplitLowGroup(w, p);
    var next: uint64 := acc + (w % 0x80) * p;
    assert (acc + (data[pos] % 0x80) * p) % TWO_64 == next;
    if w >= 0x80 {
      ShiftStaysBelowWord(w, shift);
      Pow2Seven(shift);
      ParseFromRoundTrip(data, pos + 1, w / 0x80, next, shift + 7);
    }
  }

  /** Every 64-bit value is read back, with the position just after its bytes. */
  lemma UvarintRoundTrip(data: Bytes, pos: nat, v: uint64)
    requires At(data, pos, Uvarint(v))
    ensures ParseUvarint(data, pos) == Ok(v, pos + |Uvarint(v)|)
  {
    assert Pow2(0) == 1;
    ParseFromRoundTrip(data, pos, v, 0, 0);
  }

  // --- Zigzag ------------------------------------------------------------------

  /** `x ^ m` for a mask that is all zeros (0) or all ones (-1). */
  function XorMask(x: int64, m: int64): (r: int64)
    requires m == 0 || m == -1
  {
    if m == 0 then x else -1 - x
  }

  /** `uint64((n << 1) ^ (n >> 63))`: the shift left wraps, the shift right keeps the sign. */
  function Zigzag(n: int64): (u: uint64) {
    ToUint64(XorMask(WrapInt64(2 * n), if n < 0 then -1 else 0))
  }

  /** `int64((n >> 1) ^ -(n & 1))`. */
  function Unzigzag(n: uint64): (i: int64) {
    ToInt64(if n % 2 == 0 then n / 2 else TWO_64 - 1 - n / 2)
  }

  /** Zigzag interleaves the signs, and the two maps are inverse bijections on 64 bits. */
  lemma ZigzagBijection(n: int64, u: uint64)
    ensures Zigzag(n) == if n >= 0 then 2 * n else -2 * n - 1
    ensures Unzigzag(Zigzag(n)) == n
    ensures Zigzag(Unzigzag(u)) == u
  {
    ZigzagValue(n);
    ZigzagValue(Unzigzag(u));
  }

  lemma ZigzagValue(n: int64)
    ensures Zigzag(n) == if n >= 0 then 2 * n else -2 * n - 1
  {
    var d := WrapInt64(2 * n);
    assert d == 2 * n || d == 2 * n + TWO_64 || d == 2 * n - TWO_64;
  }

  function ZigzagVarint(n: int64): (r: Bytes)
    ensures |r| >= 1
  {
    Uvarint(Zigzag(n))
  }
}
