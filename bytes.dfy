// Fixed-width integers, byte sequences and the conversions the firmware and
// its scripts rely on (C casts, little-endian packing).

module Bytes {

  /** An unsigned 8-bit value (`uint8_t`, a Python `bytes` element). */
  type uint8 = x: int | 0 <= x < 0x100

  /** An unsigned 16-bit value (`uint16_t`). */
  type uint16 = x: int | 0 <= x < 0x1_0000

  datatype Option<T> = None | Some(value: T)

  /** `static_cast<uint8_t>(x)` in C: reduction modulo 2^8. */
  function ToUint8(x: int): (r: uint8)
    ensures (x - r) % 0x100 == 0
    ensures 0 <= x < 0x100 ==> r == x
  {
    x % 0x100
  }

  /** Reading a byte as `int8_t` (two's complement), as C's cast and Python's
      `int.from_bytes(..., signed=True)` do. */
  function AsInt8(b: uint8): (r: int)
    ensures -0x80 <= r < 0x80
    ensures (r - b) % 0x100 == 0
    ensures r < 0 <==> b >= 0x80
  {
    if b < 0x80 then b else b - 0x100
  }

  /** `static_cast<int8_t>(x)`: the signed reading of the low byte of `x`. */
  function ToInt8(x: int): (r: int)
    ensures -0x80 <= r < 0x80
    ensures (x - r) % 0x100 == 0
    ensures -0x80 <= x < 0x80 ==> r == x
  {
    AsInt8(ToUint8(x))
  }

  lemma Int8RoundTrip(v: int)
    requires -0x80 <= v < 0x80
    ensures AsInt8(ToUint8(v)) == v
  {
  }

  function Reverse<T>(s: seq<T>): (r: seq<T>)
    ensures |r| == |s|
    ensures forall i :: 0 <= i < |s| ==> r[i] == s[|s| - 1 - i]
  {
    if s == [] then [] else Reverse(s[1..]) + [s[0]]
  }

  /** Concatenation is associative. */
  lemma SeqAssoc<T>(a: seq<T>, b: seq<T>, c: seq<T>)
    ensures (a + b) + c == a + (b + c)
  {
  }

  lemma {:induction false} ReverseReverse<T>(s: seq<T>)
    ensures Reverse(Reverse(s)) == s
  {
    var r := Reverse(Reverse(s));
    assert |r| == |s|;
    forall i | 0 <= i < |s| ensures r[i] == s[i] {
      assert r[i] == Reverse(s)[|s| - 1 - i];
    }
  }

  function Pow256(n: nat): (p: nat)
    ensures p >= 1
  {
    if n == 0 then 1 else 0x100 * Pow256(n - 1)
  }

  /** The low `n` bytes of `x`, least significant first (two's complement for
      a negative `x`, since `%` here never yields a negative remainder). */
  function LittleEndian(x: int, n: nat): (r: seq<uint8>)
    ensures |r| == n
    decreases n
  {
    if n == 0 then [] else [x % 0x100] + LittleEndian(x / 0x100, n - 1)
  }

  /** The unsigned value of bytes stored least significant first
      (`int.from_bytes(b, 'little')`). */
  function FromLittleEndian(bs: seq<uint8>): (v: nat)
    ensures v < Pow256(|bs|)
  {
    if bs == [] then 0 else bs[0] + 0x100 * FromLittleEndian(bs[1..])
  }

  lemma DivModSplit(x: int, p: nat)
    requires p >= 1
    ensures x % (0x100 * p) == x % 0x100 + 0x100 * ((x / 0x100) % p)
  {
    var q := x / 0x100;
    var r := x % 0x100;
    var a := q / p;
    var b := q % p;
    assert x == 0x100 * q + r;
    assert q == p * a + b;
    assert x == (0x100 * p) * a + (0x100 * b + r);
    assert 0 <= 0x100 * b + r < 0x100 * p;
    ModOfSum(x, 0x100 * p, a, 0x100 * b + r);
  }

  lemma ModOfSum(x: int, m: int, a: int, c: int)
    requires m > 0 && 0 <= c < m && x == m * a + c
    ensures x % m == c
  {
    var a', c' := x / m, x % m;
    assert x == m * a' + c';
    assert m * (a - a') == c' - c;
    if a - a' > 0 {
      MulAtLeast(m, a - a');
    } else if a - a' < 0 {
      MulAtLeast(m, a' - a);
    }
  }

  lemma {:induction false} MulAtLeast(m: nat, d: nat)
    requires d >= 1
    ensures m * d >= m
    decreases d
  {
    if d > 1 {
      MulAtLeast(m, d - 1);
      assert m * d == m * (d - 1) + m;
    }
  }

  lemma {:induction false} LittleEndianRoundTrip(x: int, n: nat)
    ensures FromLittleEndian(LittleEndian(x, n)) == x % Pow256(n)
    decreases n
  {
    if n > 0 {
      var bs := LittleEndian(x, n);
      assert bs[1..] == LittleEndian(x / 0x100, n - 1);
      LittleEndianRoundTrip(x / 0x100, n - 1);
      DivModSplit(x, Pow256(n - 1));
    }
  }
}
