/** The ARIA key schedule, RFC 5794 section 2.2.  Main results: the byte-wise rotation
    routine is the rotation of the 128-bit string, and the round keys it produces are
    the ones of the standard, bit for bit. */
module KeySchedule {
  import opened Bytes
  import ByteMatrix
  import opened Network
  import Aria
  import AriaBlock

  // ---- Bits of bytes and blocks ----------------------------------------------------

  function Shift(a: nat, p: nat): nat {
    if p == 0 then a else Shift(a / 2, p - 1)
  }

  /** Bit `j` of a byte, counted from the most significant. */
  predicate Bit(b: byte, j: nat)
    requires j < 8
  {
    Shift(b, 7 - j) % 2 == 1
  }

  /** Bit `k` of a block, counted from the most significant bit of its first byte. */
  predicate BlockBit(x: Block, k: nat)
    requires k < 128
  {
    Bit(x[k / 8], k % 8)
  }

  lemma {:induction false} ShiftXor(a: nat, b: nat, p: nat)
    ensures Shift(XorNat(a, b), p) == XorNat(Shift(a, p), Shift(b, p))
  {
    if p > 0 {
      XorNatStep(a, b);
      ShiftXor(a / 2, b / 2, p - 1);
    }
  }

  lemma BitXor(a: byte, b: byte, j: nat)
    requires j < 8
    ensures Bit(Xor8(a, b), j) <==> (Bit(a, j) != Bit(b, j))
  {
    ShiftXor(a, b, 7 - j);
    XorNatStep(Shift(a, 7 - j), Shift(b, 7 - j));
  }

  // ---- Rotation --------------------------------------------------------------------

  /** `a << t`. */
  function Raise(a: nat, t: nat): nat {
    if t == 0 then a else 2 * Raise(a, t - 1)
  }

  /** The low `n` bits of `a`. */
  function Low(a: nat, n: nat): nat {
    if n == 0 then 0 else a % 2 + 2 * Low(a / 2, n - 1)
  }

  lemma {:induction false} ShiftAgain(a: nat, p: nat, q: nat)
    ensures Shift(Shift(a, p), q) == Shift(a, p + q)
  {
    if p > 0 { ShiftAgain(a / 2, p - 1, q); }
  }

  lemma {:induction false} LowFits(a: nat, n: nat)
    ensures Shift(Low(a, n), n) == 0
  {
    if n > 0 { LowFits(a / 2, n - 1); }
  }

  lemma LowHalf(a: nat, n: nat)
    requires n > 0
    ensures Low(a, n) / 2 == Low(a / 2, n - 1) && Low(a, n) % 2 == a % 2
  {
  }

  lemma ShiftHalf(a: nat, p: nat)
    ensures p > 0 ==> Shift(a, p) == Shift(a / 2, p - 1)
    ensures Shift(a, 0) == a
  {
  }

  lemma {:induction false} LowBit(a: nat, n: nat, p: nat)
    requires p < n
    ensures Shift(Low(a, n), p) % 2 == Shift(a, p) % 2
  {
    hide Low, Shift;
    LowHalf(a, n);
    ShiftHalf(a, p);
    ShiftHalf(Low(a, n), p);
    if p > 0 { LowBit(a / 2, n - 1, p - 1); }
  }

  lemma {:induction false} LowOfRaise(a: nat, t: nat, n: nat)
    ensures Low(Raise(a, t), t + n) == Raise(Low(a, n), t)
  {
    if t > 0 { LowOfRaise(a, t - 1, n); }
  }

  lemma SumHalf(low: nat, high: nat, t: nat)
    requires t > 0
    ensures (low + Raise(high, t)) / 2 == low / 2 + Raise(high, t - 1) && (low + Raise(high, t)) % 2 == low % 2
  {
  }

  lemma {:induction false} ShiftOfSum(low: nat, high: nat, t: nat, p: nat)
    requires Shift(low, t) == 0
    ensures Shift(low + Raise(high, t), t + p) == Shift(high, p)
  {
    ShiftHalf(low, t);
    if t > 0 {
      SumHalf(low, high, t);
      ShiftHalf(low + Raise(high, t), t + p);
      ShiftOfSum(low / 2, high, t - 1, p);
    }
  }

  /** The bits of `low + (high << t)`: those of `low` below position `t`, those of `high` above. */
  lemma {:induction false} BitOfSum(low: nat, high: nat, t: nat, p: nat)
    requires Shift(low, t) == 0
    ensures Shift(low + Raise(high, t), p) % 2 == if p < t then Shift(low, p) % 2 else Shift(high, p - t) % 2
    decreases p
  {
    hide Raise, Shift;
    ShiftHalf(low, t);
    ShiftHalf(low, p);
    ShiftHalf(low + Raise(high, t), p);
    if p >= t {
      ShiftOfSum(low, high, t, p - t);
    } else {
      SumHalf(low, high, t);
      if p > 0 { BitOfSum(low / 2, high, t - 1, p - 1); }
    }
  }

  function PowerOf2(n: nat): nat {
    if n == 0 then 1 else 2 * PowerOf2(n - 1)
  }

  lemma {:induction false} FitsBits(a: nat, n: nat)
    ensures Shift(a, n) == 0 <==> a < PowerOf2(n)
  {
    if n > 0 { FitsBits(a / 2, n - 1); }
  }

  lemma FitsByte(a: nat)
    ensures Shift(a, 8) == 0 <==> a < 256
  {
    FitsBits(a, 8);
  }

  /** `(current >> s) | (previous << (8 - s))` in eight bits; the two operands share no bit. */
  function ShiftIn(current: byte, previous: byte, s: nat): byte
    requires s < 8
  {
    ShiftInFits(current, previous, s);
    Shift(current, s) + Low(Raise(previous, 8 - s), 8)
  }

  lemma ShiftInFits(current: byte, previous: byte, s: nat)
    requires s < 8
    ensures Shift(Shift(current, s), 8 - s) == 0
    ensures Low(Raise(previous, 8 - s), 8) == Raise(Low(previous, s), 8 - s)
    ensures Shift(current, s) + Low(Raise(previous, 8 - s), 8) < 256
  {
    FitsByte(current);
    ShiftAgain(current, s, 8 - s);
    LowOfRaise(previous, 8 - s, s);
    LowFits(previous, s);
    ShiftOfSum(Shift(current, s), Low(previous, s), 8 - s, s);
    FitsByte(Shift(current, s) + Raise(Low(previous, s), 8 - s));
  }

  lemma ShiftInBit(current: byte, previous: byte, s: nat, j: nat)
    requires s < 8 && j < 8
    ensures Bit(ShiftIn(current, previous, s), j)
       <==> if s <= j then Bit(current, j - s) else Bit(previous, 8 + j - s)
  {
    ShiftInFits(current, previous, s);
    BitOfSum(Shift(current, s), Low(previous, s), 8 - s, 7 - j);
    ShiftAgain(current, s, 7 - j);
    if j < s { LowBit(previous, s, s - 1 - j); }
  }

  /** The position `b` bytes before `i`, going round. */
  function Back(i: ByteMatrix.Index, b: nat): ByteMatrix.Index
    requires b <= 16
  {
    if b <= i then i - b else i + 16 - b
  }

  /** Byte `i` of `x` XOR the block `z` rotated right by `n` bits. */
  function RotXorAt(n: nat, x: Block, z: Block, i: ByteMatrix.Index): byte
    requires n < 128
  {
    Xor8(ShiftIn(z[Back(i, n / 8)], z[Back(i, n / 8 + 1)], n % 8), x[i])
  }

  function RotXor(n: nat, x: Block, z: Block): Block
    requires n < 128
  {
    seq(16, i requires 0 <= i < 16 => RotXorAt(n, x, z, i))
  }

  lemma ByteAndBit(q: nat, r: nat, x: nat)
    requires x == 8 * q + r && r < 8
    ensures x / 8 == q && x % 8 == r
  {}

  lemma Wrapped(n: nat, k: nat)
    requires n < 128 && k < 128
    ensures (k + 128 - n) % 128 == if n <= k then k - n else k + 128 - n
  {}

  lemma SourceBit(n: nat, k: nat)
    requires n < 128 && k < 128
    ensures var from := (k + 128 - n) % 128;
            if n % 8 <= k % 8
            then from / 8 == Back(k / 8, n / 8) && from % 8 == k % 8 - n % 8
            else from / 8 == Back(k / 8, n / 8 + 1) && from % 8 == 8 + k % 8 - n % 8
  {
    Wrapped(n, k);
    var i, j, a, b := k / 8, k % 8, n / 8, n % 8;
    var from := if n <= k then k - n else k + 128 - n;
    if b <= j {
      ByteAndBit(Back(i, a), j - b, from);
    } else {
      ByteAndBit(Back(i, a + 1), 8 + j - b, from);
    }
  }

  /** The routine rotates the whole 128-bit string: bit `k` of the result comes from bit `k - n`. */
  lemma RotXorBit(n: nat, x: Block, z: Block, k: nat)
    requires n < 128 && k < 128
    ensures BlockBit(RotXor(n, x, z), k) <==> (BlockBit(x, k) != BlockBit(z, (k + 128 - n) % 128))
  {
    hide ShiftIn, Xor8, Bit;
    var i, j := k / 8, k % 8;
    var c, p := z[Back(i, n / 8)], z[Back(i, n / 8 + 1)];
    ShiftInBit(c, p, n % 8, j);
    BitXor(ShiftIn(c, p, n % 8), x[i], j);
    SourceBit(n, k);
  }

  /** The rotation routine, byte loop by byte loop. */
  method Rotnr(n: nat, xorVal: Block, z: Block) returns (o: Block)
    requires n < 128
    ensures o == RotXor(n, xorVal, z)
  {
    hide ShiftIn, Xor8;
    var bytes, bits := n / 8, n % 8;
    var t := new byte[16];
    for i := 0 to 16
      invariant forall m: ByteMatrix.Index | Back(m, bytes) < i :: t[m] == z[Back(m, bytes)]
    {
      t[(i + bytes) % 16] := z[i];
    }
    var r := new byte[16];
    for i := 0 to 16
      invariant forall m: ByteMatrix.Index :: t[m] == z[Back(m, bytes)]
      invariant forall j: ByteMatrix.Index | j < i :: r[j] == RotXorAt(n, xorVal, z, j)
    {
      r[i] := Xor8(ShiftIn(t[i], t[if i != 0 then i - 1 else 15], bits), xorVal[i]);
    }
    o := r[..];
  }

  // ---- The schedule ----------------------------------------------------------------

  const C1: Block := [
    0x51, 0x7c, 0xc1, 0xb7, 0x27, 0x22, 0x0a, 0x94, 0xfe, 0x13, 0xab, 0xe8, 0xfa, 0x9a, 0x6e, 0xe0]
  const C2: Block := [
    0x6d, 0xb1, 0x4a, 0xcc, 0x9e, 0x21, 0xc8, 0x20, 0xff, 0x28, 0xb1, 0xd5, 0xef, 0x5d, 0xe2, 0xb0]
  const C3: Block := [
    0xdb, 0x92, 0x37, 0x1d, 0x21, 0x26, 0xe9, 0x70, 0x03, 0x24, 0x97, 0x75, 0x04, 0xe8, 0xc9, 0x0e]

  const ZEROS: Block := seq(16, _ => 0)

  /** A user key of 128, 192 or 256 bits. */
  type UserKey = k: bytes | |k| == 16 || |k| == 24 || |k| == 32 witness seq(16, _ => 0)

  /** 12, 14 or 16 rounds. */
  function RoundCount(key: UserKey): nat {
    |key| / 4 + 8
  }

  /** Key constant CK(j + 1): C1, C2, C3, starting one place later for each longer key size. */
  function ConstantOf(key: UserKey, j: nat): Block {
    match (j + |key| / 8 - 2) % 3
    case 0 => C1 case 1 => C2 case _ => C3
  }

  /** The part of the key beyond the first 16 bytes, padded with zeros. */
  function Extra(key: UserKey): Block {
    key[16..] + seq(32 - |key|, _ => 0)
  }

  /** The four words W0..W3 of the initialisation, a three-round Feistel network. */
  function Word(key: UserKey, j: nat): Block
    decreases j
  {
    if j == 0 then key[..16]
    else if j == 1 then Xor(Aria.ARIA.Round(true, Word(key, 0), ConstantOf(key, 0)), Extra(key))
    else Xor(Aria.ARIA.Round(j % 2 == 1, Word(key, j - 1), ConstantOf(key, j - 1)), Word(key, j - 2))
  }

  /** Left rotation amount for the four round keys of group `q`: right by 19 and by 31, then left by 61, 31, 19. */
  function LeftAmount(q: nat): (a: nat)
    ensures 0 < a < 128
  {
    match q case 0 => 128 - 19 case 1 => 128 - 31 case 2 => 61 case 3 => 31 case _ => 19
  }

  function RoundKey(key: UserKey, i: nat): Block {
    RotXor(128 - LeftAmount(i / 4), Word(key, i % 4), Word(key, (i + 1) % 4))
  }

  function RoundKeys(key: UserKey): seq<Block> {
    seq(RoundCount(key) + 1, i requires 0 <= i => RoundKey(key, i))
  }

  /** How far beyond position `k` the second word's bit of round key `i` lies: a rotation right by 19 for the
      first four keys, right by 31 for the next four, then left by 61, by 31 and by 19. */
  lemma RotationAmount(i: nat)
    requires i <= 16
    ensures LeftAmount(i / 4) ==
      if i < 4 then 109 else if i < 8 then 97 else if i < 12 then 61 else if i < 16 then 31 else 19
  {}

  /** Every round key is, bit for bit, a word XOR the next word rotated by the amounts of the standard. */
  lemma RoundKeyBit(key: UserKey, i: nat, k: nat)
    requires k < 128 && i <= 16
    ensures var x, y := Word(key, i % 4), Word(key, (i + 1) % 4);
      && (i < 4 ==> (BlockBit(RoundKey(key, i), k) <==> BlockBit(x, k) != BlockBit(y, (k + 109) % 128)))
      && (4 <= i < 8 ==> (BlockBit(RoundKey(key, i), k) <==> BlockBit(x, k) != BlockBit(y, (k + 97) % 128)))
      && (8 <= i < 12 ==> (BlockBit(RoundKey(key, i), k) <==> BlockBit(x, k) != BlockBit(y, (k + 61) % 128)))
      && (12 <= i < 16 ==> (BlockBit(RoundKey(key, i), k) <==> BlockBit(x, k) != BlockBit(y, (k + 31) % 128)))
      && (i == 16 ==> (BlockBit(RoundKey(key, i), k) <==> BlockBit(x, k) != BlockBit(y, (k + 19) % 128)))
  {
    hide Word, BlockBit, RotXor, LeftAmount;
    RotationAmount(i);
    RotXorBit(128 - LeftAmount(i / 4), Word(key, i % 4), Word(key, (i + 1) % 4), k);
  }

  /** Four bytes as one number, most significant first. */
  function WordAt(x: Block, i: nat): nat
    requires i + 4 <= 16
  {
    ((x[i] as nat * 256 + x[i + 1] as nat) * 256 + x[i + 2] as nat) * 256 + x[i + 3] as nat
  }

  /** RFC 5794 section 2.2: the constants in 32-bit words. */
  lemma ConstantWords()
    ensures WordAt(C1, 0) == 0x517cc1b7 && WordAt(C1, 4) == 0x27220a94
    ensures WordAt(C1, 8) == 0xfe13abe8 && WordAt(C1, 12) == 0xfa9a6ee0
    ensures WordAt(C2, 0) == 0x6db14acc && WordAt(C2, 4) == 0x9e21c820
    ensures WordAt(C2, 8) == 0xff28b1d5 && WordAt(C2, 12) == 0xef5de2b0
    ensures WordAt(C3, 0) == 0xdb92371d && WordAt(C3, 4) == 0x2126e970
    ensures WordAt(C3, 8) == 0x03249775 && WordAt(C3, 12) == 0x04e8c90e
  {}

  /** The constants take turns, from a place that depends on the key size. */
  lemma ConstantOrder(key: UserKey)
    ensures |key| == 16 ==> ConstantOf(key, 0) == C1 && ConstantOf(key, 1) == C2 && ConstantOf(key, 2) == C3
    ensures |key| == 24 ==> ConstantOf(key, 0) == C2 && ConstantOf(key, 1) == C3 && ConstantOf(key, 2) == C1
    ensures |key| == 32 ==> ConstantOf(key, 0) == C3 && ConstantOf(key, 1) == C1 && ConstantOf(key, 2) == C2
    ensures RoundCount(key) == if |key| == 16 then 12 else if |key| == 24 then 14 else 16
  {
    hide C1, C2, C3;
  }

  /** The words of the three key sizes: the first 16 bytes, and three Feistel steps with the other bytes, padded
      with zeros, and with the constants in the order of the key size. */
  lemma Words(key: UserKey, c1: Block, c2: Block, c3: Block, right: Block)
    requires if |key| == 16 then (c1, c2, c3) == (C1, C2, C3)
             else if |key| == 24 then (c1, c2, c3) == (C2, C3, C1) else (c1, c2, c3) == (C3, C1, C2)
    requires right == if |key| == 16 then seq(16, _ => 0)
                      else if |key| == 24 then key[16..] + seq(8, _ => 0) else key[16..]
    ensures Word(key, 0) == key[..16]
    ensures Word(key, 1) == Xor(Aria.ARIA.Round(true, Word(key, 0), c1), right)
    ensures Word(key, 2) == Xor(Aria.ARIA.Round(false, Word(key, 1), c2), Word(key, 0))
    ensures Word(key, 3) == Xor(Aria.ARIA.Round(true, Word(key, 2), c3), Word(key, 1))
  {
    hide C1, C2, C3, Layers.Round, Xor, ConstantOf, Extra;
    Padded(key);
    ConstantOrder(key);
    NextWord(key, 1);
    NextWord(key, 2);
    NextWord(key, 3);
    FirstWord(key);
    hide Word;
  }

  lemma FirstWord(key: UserKey)
    ensures Word(key, 0) == key[..16]
  {}

  lemma Padded(key: UserKey)
    ensures Extra(key) == if |key| == 16 then seq(16, _ => 0)
      else if |key| == 24 then key[16..] + seq(8, _ => 0) else key[16..]
  {}

  lemma NextWord(key: UserKey, j: nat)
    requires 1 <= j
    ensures j == 1 ==> Word(key, 1) == Xor(Aria.ARIA.Round(true, Word(key, 0), ConstantOf(key, 0)), Extra(key))
    ensures j > 1 ==>
      Word(key, j) == Xor(Aria.ARIA.Round(j % 2 == 1, Word(key, j - 1), ConstantOf(key, j - 1)), Word(key, j - 2))
  {
    hide Layers.Round, Xor, ConstantOf;
  }

  /** The three-round Feistel network on arrays. */
  method Initialise(w0: array<byte>, kr: array<byte>, ck1: Block, ck2: Block, ck3: Block)
    returns (w1: array<byte>, w2: array<byte>, w3: array<byte>)
    requires w0.Length == kr.Length == 16 && w0 != kr
    modifies kr
    ensures w1.Length == w2.Length == w3.Length == 16
    ensures w1[..] == Xor(Aria.ARIA.Round(true, w0[..], ck1), old(kr[..]))
    ensures w2[..] == Xor(Aria.ARIA.Round(false, w1[..], ck2), w0[..])
    ensures w3[..] == Xor(Aria.ARIA.Round(true, w2[..], ck3), w1[..])
  {
    hide Layers.Round, Xor;
    w1, w2, w3 := new byte[16], new byte[16], new byte[16];
    AriaBlock.FO(w3, w0, ck1);
    AriaBlock.XorBlock(w1, w3, kr[..]);
    AriaBlock.FE(w3, w1, ck2);
    AriaBlock.XorBlock(w2, w3, w0[..]);
    AriaBlock.FO(kr, w2, ck3);
    AriaBlock.XorBlock(w3, kr, w1[..]);
  }

  /** The schedule as it runs; the 128-bit form is the default branch. */
  method SetEncryptKey(userKey: UserKey, bits: nat, rdKey: array<Block>) returns (rounds: nat)
    requires bits == 8 * |userKey| && rdKey.Length == 17
    modifies rdKey
    ensures rounds == RoundCount(userKey)
    ensures rdKey[..rounds + 1] == RoundKeys(userKey)
    ensures forall i | rounds < i < 17 :: rdKey[i] == old(rdKey[i])
  {
    hide C1, C2, C3, Layers.Round, Xor;
    var kr, w0 := new byte[16], new byte[16];
    forall i | 0 <= i < 16 { w0[i] := userKey[i]; }
    var ck1, ck2, ck3;
    if bits == 192 {
      rounds, ck1, ck2, ck3 := 14, C2, C3, C1;
      forall i | 0 <= i < 16 { kr[i] := if i < 8 then userKey[16 + i] else 0; }
    } else if bits == 256 {
      rounds, ck1, ck2, ck3 := 16, C3, C1, C2;
      forall i | 0 <= i < 16 { kr[i] := userKey[16 + i]; }
    } else {
      rounds, ck1, ck2, ck3 := 12, C1, C2, C3;
      forall i | 0 <= i < 16 { kr[i] := 0; }
    }
    assert w0[..] == Word(userKey, 0);
    assert kr[..] == Extra(userKey);
    var w1, w2, w3 := Initialise(w0, kr, ck1, ck2, ck3);
    FillRoundKeys(userKey, rounds, w0[..], w1[..], w2[..], w3[..], rdKey);
  }

  /** Four round keys with one rotation amount. */
  method FillGroup(rdKey: array<Block>, at: nat, n: nat, w0: Block, w1: Block, w2: Block, w3: Block)
    requires at + 4 <= rdKey.Length && n < 128
    modifies rdKey
    ensures rdKey[at] == RotXor(n, w0, w1) && rdKey[at + 1] == RotXor(n, w1, w2)
    ensures rdKey[at + 2] == RotXor(n, w2, w3) && rdKey[at + 3] == RotXor(n, w3, w0)
    ensures forall i | 0 <= i < at || at + 4 <= i < rdKey.Length :: rdKey[i] == old(rdKey[i])
  {
    hide RotXor;
    rdKey[at] := Rotnr(n, w0, w1);
    rdKey[at + 1] := Rotnr(n, w1, w2);
    rdKey[at + 2] := Rotnr(n, w2, w3);
    rdKey[at + 3] := Rotnr(n, w3, w0);
  }

  method FillRoundKeys(ghost key: UserKey, rounds: nat, w0: Block, w1: Block, w2: Block, w3: Block, rdKey: array<Block>)
    requires rounds == RoundCount(key) && rdKey.Length == 17
    requires w0 == Word(key, 0) && w1 == Word(key, 1) && w2 == Word(key, 2) && w3 == Word(key, 3)
    modifies rdKey
    ensures rdKey[..rounds + 1] == RoundKeys(key)
    ensures forall i | rounds < i < 17 :: rdKey[i] == old(rdKey[i])
  {
    hide RotXor, Word;
    FillGroup(rdKey, 0, 19, w0, w1, w2, w3);
    FillGroup(rdKey, 4, 31, w0, w1, w2, w3);
    FillGroup(rdKey, 8, 128 - 61, w0, w1, w2, w3);
    FillLastKeys(rdKey, rounds, w0, w1, w2, w3);
    forall i | 0 <= i <= rounds ensures rdKey[i] == RoundKey(key, i) {}
  }

  /** The keys from number 12 on, as many as the round count needs. */
  method FillLastKeys(rdKey: array<Block>, rounds: nat, w0: Block, w1: Block, w2: Block, w3: Block)
    requires rounds in {12, 14, 16} && rdKey.Length == 17
    modifies rdKey
    ensures rdKey[12] == RotXor(128 - 31, w0, w1)
    ensures rounds > 12 ==> rdKey[13] == RotXor(128 - 31, w1, w2) && rdKey[14] == RotXor(128 - 31, w2, w3)
    ensures rounds > 14 ==> rdKey[15] == RotXor(128 - 31, w3, w0) && rdKey[16] == RotXor(128 - 19, w0, w1)
    ensures forall i | 0 <= i < 12 || rounds < i < 17 :: rdKey[i] == old(rdKey[i])
  {
    hide RotXor;
    rdKey[12] := Rotnr(128 - 31, w0, w1);
    if rounds > 12 {
      rdKey[13] := Rotnr(128 - 31, w1, w2);
      rdKey[14] := Rotnr(128 - 31, w2, w3);
      if rounds > 14 {
        rdKey[15] := Rotnr(128 - 31, w3, w0);
        rdKey[16] := Rotnr(128 - 19, w0, w1);
      }
    }
  }
}
