/**
 * Byte-level vocabulary of the time-latch protocol: bytes, the integer
 * widths the C++ structs use, little-endian splitting of multi-byte
 * fields, and the 7-bit masked byte-sum checksum shared by both frames.
 */
module Bytes {

  /** An unsigned 8-bit value (`uint8_t`, and `char` as stored on the wire). */
  type byte = b: int | 0 <= b < 0x100
  type uint16 = x: int | 0 <= x < 0x1_0000
  type uint32 = x: int | 0 <= x < 0x1_0000_0000

  /** `s` with the bytes starting at `at` replaced by `part`. */
  function Splice(s: seq<byte>, at: nat, part: seq<byte>): (r: seq<byte>)
    requires at + |part| <= |s|
    ensures |r| == |s|
    ensures r[at..at + |part|] == part
    ensures forall k :: 0 <= k < |s| && !(at <= k < at + |part|) ==> r[k] == s[k]
  {
    s[..at] + part + s[at + |part|..]
  }

  // ---------------------------------------------------------------------
  // Little-endian fields (the uint32_u / uint16_u unions on a
  // little-endian host: byte 0 is the least significant one)
  // ---------------------------------------------------------------------

  /** The four bytes `uint32_u(x).u8` holds, least significant first. */
  function Uint32Bytes(x: uint32): (b: seq<byte>)
    ensures |b| == 4
    ensures x == b[0] as int + 0x100 * b[1] as int + 0x1_0000 * b[2] as int + 0x100_0000 * b[3] as int
    ensures x % 0x100_0000 == b[0] as int + 0x100 * b[1] as int + 0x1_0000 * b[2] as int
  {
    var q1 := x / 0x100;
    var q2 := q1 / 0x100;
    var q3 := q2 / 0x100;
    assert q2 == x / 0x1_0000 && q3 == x / 0x100_0000;
    [x % 0x100, q1 % 0x100, q2 % 0x100, q3]
  }

  /** The two bytes `uint16_u(x).u8` holds, least significant first. */
  function Uint16Bytes(x: uint16): (b: seq<byte>)
    ensures |b| == 2
    ensures x == b[0] as int + 0x100 * b[1] as int
  {
    [x % 0x100, x / 0x100]
  }

  /** The value `uint16_u(lo, hi).u16` reads back from two stored bytes. */
  function Uint16Of(lo: byte, hi: byte): (x: uint16)
    ensures Uint16Bytes(x) == [lo, hi]
  {
    lo as int + 0x100 * hi as int
  }

  // ---------------------------------------------------------------------
  // Checksum
  // ---------------------------------------------------------------------

  /** Unbounded sum of the byte values of `s`. */
  function Sum(s: seq<byte>): nat
  {
    if s == [] then 0 else Sum(s[..|s| - 1]) + s[|s| - 1]
  }

  /** The protocol checksum of `s`: its byte sum modulo 128. */
  function MaskedSum(s: seq<byte>): byte
  {
    Sum(s) % 128
  }

  /** `a += b` on a `uint8_t`: the sum wraps at 256. */
  function AddByte(a: byte, b: byte): byte
  {
    (a + b) % 0x100
  }

  /** Bitwise AND of two naturals, taken from the least significant bit up. */
  function BitAnd(a: nat, b: nat): nat
  {
    if a == 0 || b == 0 then 0
    else 2 * BitAnd(a / 2, b / 2) + (if a % 2 == 1 && b % 2 == 1 then 1 else 0)
  }

  /** `a & 0x7F` on a `uint8_t`. */
  function Mask7F(a: byte): (r: byte)
    ensures r == a % 128
  {
    MaskIsMod128(a);
    BitAnd(a, 0x7F)
  }

  /** What a `uint8_t` accumulator holds after adding up `s` from zero. */
  function WrapSum(s: seq<byte>): byte
  {
    if s == [] then 0 else AddByte(WrapSum(s[..|s| - 1]), s[|s| - 1])
  }

  /** Replacing one byte changes the sum by exactly the difference of the two bytes. */
  lemma {:induction false} SumUpdate(s: seq<byte>, i: nat, v: byte)
    requires i < |s|
    ensures Sum(s[i := v]) == Sum(s) - s[i] + v
  {
    var t := s[i := v];
    if i < |s| - 1 {
      assert t[..|t| - 1] == s[..|s| - 1][i := v];
      SumUpdate(s[..|s| - 1], i, v);
    } else {
      assert t[..|t| - 1] == s[..|s| - 1];
    }
  }

  /** The powers of two that fit in a byte. */
  function Pow2(k: nat): (p: nat)
    requires k < 8
    ensures p > 0
  {
    [1, 2, 4, 8, 16, 32, 64, 128][k]
  }

  /** A positive multiple of `d` is at least `d`. */
  lemma {:induction false} MulAtLeast(d: int, n: int)
    requires d > 0 && n >= 1
    ensures d * n >= d
  {
    if n > 1 {
      MulAtLeast(d, n - 1);
      assert d * n == d * (n - 1) + d;
    }
  }

  /** Quotient and remainder are unique. */
  lemma DivModUnique(a: int, d: int, t: int, s: int)
    requires d > 0 && 0 <= s < d && a == d * t + s
    ensures a % d == s
  {
    var t', s' := a / d, a % d;
    assert d * t' + s' == d * t + s;
    if t' < t {
      assert d * (t - t') == s' - s;
      MulAtLeast(d, t - t');
    } else if t' > t {
      assert d * (t' - t) == s - s';
      MulAtLeast(d, t' - t);
    }
  }

  /** Reducing modulo `2p` splits into the low bit and the rest reduced modulo `p`. */
  lemma ModHalves(a: nat, p: nat)
    requires p > 0
    ensures a % (2 * p) == 2 * ((a / 2) % p) + a % 2
  {
    var q, r := a / 2, a % 2;
    var t, u := q / p, q % p;
    assert a == 2 * p * t + (2 * u + r);
    DivModUnique(a, 2 * p, t, 2 * u + r);
  }

  /** AND with a mask of `k` low one-bits keeps the value modulo `2^k`. */
  lemma {:induction false} AndLowOnes(a: nat, k: nat)
    requires k < 8
    ensures BitAnd(a, Pow2(k) - 1) == a % Pow2(k)
  {
    if k > 0 {
      AndLowOnes(a / 2, k - 1);
      var p := Pow2(k - 1);
      assert Pow2(k) == 2 * p;
      assert (Pow2(k) - 1) / 2 == p - 1;
      ModHalves(a, p);
    }
  }

  /** Masking a byte with `0x7F` keeps its value modulo 128. */
  lemma MaskIsMod128(a: nat)
    ensures BitAnd(a, 0x7F) == a % 128
  {
    AndLowOnes(a, 7);
  }

  /** There is room to set bit `k` of `b` when it is clear, and to clear it when it is set. */
  lemma BitRoom(b: byte, k: nat)
    requires k < 8
    ensures b / Pow2(k) % 2 == 0 ==> b + Pow2(k) < 0x100
    ensures b / Pow2(k) % 2 == 1 ==> b - Pow2(k) >= 0
  {
    if k == 0 { assert Pow2(k) == 1; } else if k == 1 { assert Pow2(k) == 2; }
    else if k == 2 { assert Pow2(k) == 4; } else if k == 3 { assert Pow2(k) == 8; }
    else if k == 4 { assert Pow2(k) == 16; } else if k == 5 { assert Pow2(k) == 32; }
    else if k == 6 { assert Pow2(k) == 64; } else { assert Pow2(k) == 128; }
  }

  /** `b ^ (1 << k)`: bit `k` of `b` inverted, every other bit kept. */
  function FlipBit(b: byte, k: nat): (r: byte)
    requires k < 8
    ensures r == b + Pow2(k) || r == b - Pow2(k)
  {
    BitRoom(b, k);
    if b / Pow2(k) % 2 == 0 then b + Pow2(k) else b - Pow2(k)
  }

  /** The wrapping accumulator equals the unbounded sum modulo 256. */
  lemma {:induction false} WrapSumIsSumMod256(s: seq<byte>)
    ensures WrapSum(s) == Sum(s) % 256
  {
    if s != [] {
      var init := s[..|s| - 1];
      WrapSumIsSumMod256(init);
    }
  }

  /**
   * The checksum as the C++ code computes it, a `uint8_t` sum masked with
   * `& 0x7F`, equals the unbounded byte sum modulo 128.
   */
  lemma ChecksumEquivalence(s: seq<byte>)
    ensures Mask7F(WrapSum(s)) == MaskedSum(s)
    ensures Mask7F(WrapSum(s)) == Sum(s) % 128
  {
    WrapSumIsSumMod256(s);
    var x := Sum(s);
    var r := x % 256;
    assert x == 128 * (2 * (x / 256) + r / 128) + r % 128;
    DivModUnique(x, 128, 2 * (x / 256) + r / 128, r % 128);
  }

  /**
   * The checksum loop of `complete()` and `is_valid()`: adds the first `n`
   * bytes of `a` into a `uint8_t` and masks the total with `0x7F`.
   */
  method MaskedChecksum(a: array<byte>, n: nat) returns (c: byte)
    requires n <= a.Length
    ensures c == MaskedSum(a[..n])
    ensures c == Sum(a[..n]) % 128
  {
    var sum: byte := 0;
    var i := 0;
    while i < n
      invariant 0 <= i <= n
      invariant sum == WrapSum(a[..i])
    {
      assert a[..i + 1][..i] == a[..i];
      sum := AddByte(sum, a[i]);
      i := i + 1;
    }
    c := Mask7F(sum);
    ChecksumEquivalence(a[..n]);
  }
}
