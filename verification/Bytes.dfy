/** Bytes as integers below 256, their bitwise XOR, and big-endian fields. */
module Bytes {

  type byte = n: nat | n < 256
  type bytes = seq<byte>

  // ---- Bitwise XOR ---------------------------------------------------------------

  /** Bitwise XOR of two naturals. */
  function XorNat(a: nat, b: nat): nat
    decreases a + b
  {
    if a == 0 && b == 0 then 0
    else 2 * XorNat(a / 2, b / 2) + (if a % 2 != b % 2 then 1 else 0)
  }

  lemma {:induction false} XorNatBound(a: nat, b: nat, m: nat)
    requires a < m && b < m && PowerOfTwo(m)
    ensures XorNat(a, b) < m
    decreases m
  {
    if m > 1 { XorNatBound(a / 2, b / 2, m / 2); }
  }

  predicate PowerOfTwo(m: nat) {
    m == 1 || (m > 0 && m % 2 == 0 && PowerOfTwo(m / 2))
  }

  /** `a ^ b` on bytes. */
  function Xor8(a: byte, b: byte): byte {
    assert PowerOfTwo(256);
    XorNatBound(a, b, 256);
    XorNat(a, b)
  }

  lemma {:induction false} XorNatZero(a: nat)
    ensures XorNat(a, 0) == a && XorNat(0, a) == a && XorNat(a, a) == 0
  {
    if a > 0 { XorNatZero(a / 2); }
  }

  lemma XorNatStep(a: nat, b: nat)
    ensures XorNat(a, b) / 2 == XorNat(a / 2, b / 2)
    ensures XorNat(a, b) % 2 == 1 <==> a % 2 != b % 2
  {}

  lemma {:induction false} XorNatSwap(a: nat, b: nat, c: nat, d: nat)
    ensures XorNat(XorNat(a, b), XorNat(c, d)) == XorNat(XorNat(a, c), XorNat(b, d))
    decreases a + b + c + d
  {
    if a + b + c + d > 0 {
      XorNatStep(a, b);
      XorNatStep(c, d);
      XorNatStep(a, c);
      XorNatStep(b, d);
      XorNatStep(XorNat(a, b), XorNat(c, d));
      XorNatStep(XorNat(a, c), XorNat(b, d));
      XorNatSwap(a / 2, b / 2, c / 2, d / 2);
    }
  }

  lemma XorZero(a: byte)
    ensures Xor8(a, 0) == a && Xor8(0, a) == a && Xor8(a, a) == 0
  {
    XorNatZero(a);
  }

  lemma XorSwap(a: byte, b: byte, c: byte, d: byte)
    ensures Xor8(Xor8(a, b), Xor8(c, d)) == Xor8(Xor8(a, c), Xor8(b, d))
  {
    XorNatSwap(a, b, c, d);
  }

  /** XOR with the same byte twice changes nothing. */
  lemma XorCancels(a: byte, k: byte)
    ensures Xor8(Xor8(a, k), k) == a
  {
    XorZero(k);
    XorSwap(a, k, 0, k);
    XorZero(a);
  }

  // ---- Unsigned machine integers and their big-endian bytes ------------------------

  type u16 = n: nat | n < 0x1_0000
  type u32 = n: nat | n < 0x1_0000_0000

  /** The conversion to 8 bits. */
  function Low8(n: int): byte {
    if 0 <= n < 0x100 then n else n % 0x100
  }

  /** The conversion to 16 bits. */
  function Low16(n: int): u16 {
    if 0 <= n < 0x1_0000 then n else n % 0x1_0000
  }

  /** The value of two bytes, most significant first. */
  function U16(hi: byte, lo: byte): u16 {
    hi as nat * 256 + lo as nat
  }

  function U16Bytes(n: u16): (b: bytes)
    ensures |b| == 2
  {
    [n / 256, n % 256]
  }

  lemma U16RoundTrip(n: u16)
    ensures U16(U16Bytes(n)[0], U16Bytes(n)[1]) == n
  {}

  function U32Bytes(n: u32): (b: bytes)
    ensures |b| == 4
  {
    U16Bytes(n / 0x1_0000) + U16Bytes(n % 0x1_0000)
  }

  lemma HighParts(hi: u16, lo: u16, n: nat)
    requires n == hi * 0x1_0000 + lo
    ensures n / 0x100_0000 % 0x100 == hi / 256 && n / 0x1_0000 % 0x100 == hi % 256
  {
    assert hi == hi / 256 * 256 + hi % 256;
    assert n == hi / 256 * 0x100_0000 + (hi % 256 * 0x1_0000 + lo);
  }

  lemma LowParts(hi: u16, lo: u16, n: nat)
    requires n == hi * 0x1_0000 + lo
    ensures n / 0x100 % 0x100 == lo / 256 && n % 0x100 == lo % 256
  {
    var q, r := lo / 256, lo % 256;
    assert lo == q * 256 + r;
    assert n == (hi * 256 + q) * 256 + r;
    assert n / 0x100 == hi * 256 + q;
  }

  /** The four bytes by shifting and masking. */
  lemma U32BytesAt(n: u32)
    ensures U32Bytes(n) == [n / 0x100_0000 % 0x100, n / 0x1_0000 % 0x100, n / 0x100 % 0x100, n % 0x100]
  {
    var hi, lo := n / 0x1_0000, n % 0x1_0000;
    HighParts(hi, lo, n);
    LowParts(hi, lo, n);
    assert U32Bytes(n) == [hi / 256, hi % 256, lo / 256, lo % 256];
  }

  /** The value of four bytes, most significant first. */
  function U32(b: bytes): u32
    requires |b| == 4
  {
    U16(b[0], b[1]) * 0x1_0000 + U16(b[2], b[3])
  }

  lemma U32RoundTrip(n: u32)
    ensures U32(U32Bytes(n)) == n
  {
    var hi, lo := n / 0x1_0000, n % 0x1_0000;
    U16RoundTrip(hi);
    U16RoundTrip(lo);
    assert n == hi * 0x1_0000 + lo;
  }
}
