/** The cipher object: key and IV set-up, and counter-mode encryption of part of a
    buffer in place. */
module AriaCipher {
  import opened Bytes
  import opened Network
  import Aria
  import AriaBlock
  import opened KeySchedule
  import opened Ctr

  /** ARIA under a user key, as a block function. */
  function BlockCipher(key: UserKey): Block -> Block {
    p => Aria.ARIA.Encrypt(RoundCount(key), RoundKeys(key), p)
  }

  lemma BlockCipherInjective(key: UserKey)
    ensures Injective(BlockCipher(key))
  {
    hide Layers.Encrypt;
    forall p: Block, q: Block | BlockCipher(key)(p) == BlockCipher(key)(q) ensures p == q {
      Aria.AriaIsPermutation(RoundCount(key), RoundKeys(key), p, q);
    }
  }

  /** ARIA in counter mode: what `encrypt` and `decrypt` both do to a buffer. */
  function AriaCtr(key: UserKey, iv: Block, data: bytes): (r: bytes)
    ensures |r| == |data|
  {
    Transform(BlockCipher(key), iv, data)
  }

  /** Byte `i` is XORed with byte `i mod 16` of the encrypted block whose number is the IV's plus `i / 16`,
      modulo 2^128. */
  lemma AriaCtrByte(key: UserKey, iv: Block, data: bytes, i: nat, counter: Block)
    requires i < |data| && i / 16 < Pow256(16)
    requires var v := Value(iv) + i / 16; Value(counter) == if v < Pow256(16) then v else v - Pow256(16)
    ensures AriaCtr(key, iv, data)[i] == Xor8(data[i], BlockCipher(key)(counter)[i % 16])
  {
    hide Pow256, BlockCipher;
    TransformByte(BlockCipher(key), iv, data, i, counter);
  }

  lemma AriaCtrTwice(key: UserKey, iv: Block, data: bytes)
    ensures AriaCtr(key, iv, AriaCtr(key, iv, data)) == data
  {
    TransformTwice(BlockCipher(key), iv, data);
  }

  /** The cipher as a function on buffers. */
  function CipherOf(key: UserKey, iv: Block): bytes -> bytes {
    d => AriaCtr(key, iv, d)
  }

  lemma CipherSelfInverse(key: UserKey, iv: Block)
    ensures forall d: bytes :: |CipherOf(key, iv)(d)| == |d| && CipherOf(key, iv)(CipherOf(key, iv)(d)) == d
  {
    hide AriaCtr;
    forall d: bytes ensures AriaCtr(key, iv, AriaCtr(key, iv, d)) == d {
      AriaCtrTwice(key, iv, d);
    }
  }

  /** Within one buffer no 16-byte keystream block is used twice. */
  lemma AriaKeystreamDistinct(key: UserKey, iv: Block, i: nat, j: nat)
    requires i < j < i + Pow256(16)
    ensures KeystreamBlock(BlockCipher(key), iv, i) != KeystreamBlock(BlockCipher(key), iv, j)
  {
    hide BlockCipher;
    BlockCipherInjective(key);
    KeystreamDistinct(BlockCipher(key), iv, i, j);
  }

  class AriaCipher {
    var key: bytes
    var iv: bytes
    const rdKey: array<Block>
    var rounds: nat
    var keyInitialized: bool

    ghost predicate Valid()
      reads this, rdKey
    {
      && rdKey.Length == 17
      && (iv == [] || |iv| == 16)
      && (keyInitialized ==>
            && (|key| == 16 || |key| == 24 || |key| == 32)
            && rounds == RoundCount(key)
            && rdKey[..rounds + 1] == RoundKeys(key))
    }

    /** Key and IV are both in place. */
    predicate Ready()
      reads this
    {
      keyInitialized && iv != []
    }

    constructor ()
      ensures Valid() && !keyInitialized && key == [] && iv == [] && fresh(rdKey)
    {
      key, iv, rounds, keyInitialized := [], [], 0, false;
      rdKey := new Block[17](_ => ZEROS);
    }

    /** Stores a key of 16, 24 or 32 bytes and expands it; any other size changes nothing. */
    method SetKey(newKey: bytes) returns (ok: bool)
      requires Valid()
      modifies this`key, this`rounds, this`keyInitialized, rdKey
      ensures Valid()
      ensures ok == (|newKey| == 16 || |newKey| == 24 || |newKey| == 32)
      ensures ok ==> key == newKey && keyInitialized
      ensures !ok ==> key == old(key) && keyInitialized == old(keyInitialized) && rounds == old(rounds)
                      && rdKey[..] == old(rdKey[..])
    {
      if |newKey| != 16 && |newKey| != 24 && |newKey| != 32 {
        return false;
      }
      key := newKey;
      forall i | 0 <= i < 17 { rdKey[i] := ZEROS; }
      rounds := SetEncryptKey(key, 8 * |key|, rdKey);
      keyInitialized := true;
      return true;
    }

    /** Stores an IV of exactly 16 bytes; any other size changes nothing. */
    method SetIv(newIv: bytes) returns (ok: bool)
      requires Valid()
      modifies this`iv
      ensures Valid()
      ensures ok == (|newIv| == 16)
      ensures iv == if ok then newIv else old(iv)
    {
      if |newIv| != 16 {
        return false;
      }
      iv := newIv;
      return true;
    }

    /** Transforms `size` bytes of `data` from `at` on, in place, if key and IV are set. */
    method Encrypt(data: array<byte>, at: nat, size: nat) returns (ok: bool)
      requires Valid() && at + size <= data.Length && data != rdKey as object
      modifies data
      ensures ok == Ready()
      ensures data[..] == if ok
        then old(data[..at]) + AriaCtr(key, iv, old(data[at..at + size])) + old(data[at + size..])
        else old(data[..])
    {
      if !keyInitialized || iv == [] {
        return false;
      }
      CtrTransform(data, at, size);
      return true;
    }

    method Decrypt(data: array<byte>, at: nat, size: nat) returns (ok: bool)
      requires Valid() && at + size <= data.Length && data != rdKey as object
      modifies data
      ensures ok == Ready()
      ensures data[..] == if ok
        then old(data[..at]) + AriaCtr(key, iv, old(data[at..at + size])) + old(data[at + size..])
        else old(data[..])
    {
      if !keyInitialized || iv == [] {
        return false;
      }
      CtrTransform(data, at, size);
      return true;
    }

    method ProcessBlock(input: array<byte>, output: array<byte>)
      requires Valid() && keyInitialized && input.Length == output.Length == 16
      modifies output
      ensures output[..] == BlockCipher(key)(old(input[..]))
    {
      hide Layers.Encrypt, RoundKeys;
      EncryptPrefix(Aria.ARIA, rounds, rdKey[..], input[..]);
      AriaBlock.EncryptBlock(input, output, rounds, rdKey);
    }

    method CtrTransform(data: array<byte>, at: nat, size: nat)
      requires Valid() && Ready() && at + size <= data.Length && data != rdKey as object
      modifies data
      ensures data[..] == old(data[..at]) + AriaCtr(key, iv, old(data[at..at + size])) + old(data[at + size..])
    {
      hide BlockCipher, RoundKeys, Xor8, KeyByte;
      var counter, keystream := new byte[16], new byte[16];
      forall i | 0 <= i < 16 { counter[i] := iv[i]; }
      assert counter[..] == iv;
      ghost var e := BlockCipher(key);
      ghost var was := data[..];
      var offset := 0;
      ghost var blocks := 0;
      while offset < size
        invariant offset == if 16 * blocks < size then 16 * blocks else size
        invariant counter[..] == CounterAt(iv, blocks)
        invariant forall k | 0 <= k < data.Length ::
          data[k] == if at <= k < at + offset then Xor8(was[k], KeyByte(e, iv, k - at)) else was[k]
      {
        ProcessBlock(counter, keystream);
        KeyBytesOfBlock(e, iv, blocks);
        IncrementCounter(counter);
        var blockLen := if size - offset < 16 then size - offset else 16;
        XorInto(data, at + offset, keystream, blockLen);
        offset, blocks := offset + blockLen, blocks + 1;
      }
    }
  }

  /** The inner loop: the first `count` keystream bytes XORed into the buffer from `at` on. */
  method XorInto(data: array<byte>, at: nat, keystream: array<byte>, count: nat)
    requires keystream.Length == 16 && count <= 16 && at + count <= data.Length && data != keystream
    modifies data
    ensures forall k | 0 <= k < data.Length ::
      data[k] == if at <= k < at + count then Xor8(old(data[k]), keystream[k - at]) else old(data[k])
  {
    hide Xor8;
    for i := 0 to count
      invariant forall k | 0 <= k < data.Length ::
        data[k] == if at <= k < at + i then Xor8(old(data[k]), keystream[k - at]) else old(data[k])
    {
      data[at + i] := Xor8(data[at + i], keystream[i]);
    }
  }
}
