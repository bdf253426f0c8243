/** Counter mode over any block function.  Main results: the byte-wise counter step is
    addition of one modulo 2^128, counter blocks never repeat within a period, and the
    transform is its own inverse. */
module Ctr {
  import opened Bytes
  import opened Network

  // ---- The counter as a number -------------------------------------------------------

  /** Value of a big-endian byte string. */
  function Value(s: bytes): nat {
    if s == [] then 0 else Value(s[..|s| - 1]) * 256 + s[|s| - 1]
  }

  function Pow256(n: nat): (p: nat)
    ensures p > 0
  {
    if n == 0 then 1 else 256 * Pow256(n - 1)
  }

  /** The counter after one step: trailing 0xFF bytes become zero and the byte before them grows by one. */
  function Increment(s: bytes): (r: bytes)
    ensures |r| == |s|
  {
    if s == [] then []
    else
      var k := |s| - 1;
      if s[k] < 255 then s[..k] + [s[k] + 1] else Increment(s[..k]) + [0]
  }

  lemma {:induction false} ValueBound(s: bytes)
    ensures Value(s) < Pow256(|s|)
  {
    if s != [] { ValueBound(s[..|s| - 1]); }
  }

  /** One step adds one, modulo 256 to the number of bytes. */
  lemma {:induction false} IncrementValue(s: bytes)
    ensures Value(Increment(s)) == if Value(s) + 1 == Pow256(|s|) then 0 else Value(s) + 1
  {
    if s != [] {
      var k := |s| - 1;
      ValueBound(s[..k]);
      if s[k] < 255 {
        assert (s[..k] + [s[k] + 1])[..k] == s[..k];
      } else {
        IncrementValue(s[..k]);
        assert (Increment(s[..k]) + [0])[..k] == Increment(s[..k]);
      }
    }
  }

  /** A big-endian string is determined by its length and value. */
  lemma {:induction false} ValueInjective(s: bytes, t: bytes)
    requires |s| == |t| && Value(s) == Value(t)
    ensures s == t
  {
    if s != [] {
      var k := |s| - 1;
      ValueInjective(s[..k], t[..k]);
      assert s == s[..k] + [s[k]] && t == t[..k] + [t[k]];
    }
  }

  function CounterAt(iv: Block, n: nat): Block {
    if n == 0 then iv else Increment(CounterAt(iv, n - 1))
  }

  /** Starting from the number `v`, the counter after `n` steps reads `v + n` modulo 2^128. */
  lemma {:induction false} CounterValue(iv: Block, n: nat)
    requires n < Pow256(16)
    ensures var v := Value(iv) + n;
            Value(CounterAt(iv, n)) == if v < Pow256(16) then v else v - Pow256(16)
  {
    hide Pow256;
    ValueBound(iv);
    if n > 0 {
      CounterValue(iv, n - 1);
      IncrementValue(CounterAt(iv, n - 1));
    }
  }

  lemma {:induction false} CounterAgain(iv: Block, i: nat, j: nat)
    ensures CounterAt(CounterAt(iv, i), j) == CounterAt(iv, i + j)
  {
    if j > 0 { CounterAgain(iv, i, j - 1); }
  }

  /** Counters of one period are pairwise distinct. */
  lemma CountersDistinct(iv: Block, i: nat, j: nat)
    requires i < j < i + Pow256(16)
    ensures CounterAt(iv, i) != CounterAt(iv, j)
  {
    hide Pow256, CounterAt, Value;
    CounterAgain(iv, i, j - i);
    CounterValue(CounterAt(iv, i), j - i);
    ValueBound(CounterAt(iv, i));
  }

  // ---- The transform -----------------------------------------------------------------

  function KeystreamBlock(e: Block -> Block, iv: Block, n: nat): Block {
    e(CounterAt(iv, n))
  }

  function KeyByte(e: Block -> Block, iv: Block, i: nat): byte {
    KeystreamBlock(e, iv, i / 16)[i % 16]
  }

  lemma KeyBytesOfBlock(e: Block -> Block, iv: Block, n: nat)
    ensures forall i | 16 * n <= i < 16 * n + 16 :: KeyByte(e, iv, i) == KeystreamBlock(e, iv, n)[i - 16 * n]
  {}

  /** The buffer with the keystream XORed into its bytes. */
  function Transform(e: Block -> Block, iv: Block, data: bytes): bytes {
    seq(|data|, i requires 0 <= i < |data| => Xor8(data[i], KeyByte(e, iv, i)))
  }

  /** Byte `i` uses byte `i mod 16` of the encrypted counter that reads `iv + i / 16` modulo 2^128. */
  lemma TransformByte(e: Block -> Block, iv: Block, data: bytes, i: nat, counter: Block)
    requires i < |data| && i / 16 < Pow256(16)
    requires var v := Value(iv) + i / 16; Value(counter) == if v < Pow256(16) then v else v - Pow256(16)
    ensures Transform(e, iv, data)[i] == Xor8(data[i], e(counter)[i % 16])
  {
    hide Pow256;
    CounterValue(iv, i / 16);
    ValueInjective(CounterAt(iv, i / 16), counter);
  }

  /** Applying the transform twice restores any buffer. */
  lemma TransformTwice(e: Block -> Block, iv: Block, data: bytes)
    ensures Transform(e, iv, Transform(e, iv, data)) == data
  {
    forall i | 0 <= i < |data| ensures Transform(e, iv, Transform(e, iv, data))[i] == data[i] {
      XorCancels(data[i], KeyByte(e, iv, i));
    }
  }

  ghost predicate Injective(e: Block -> Block) {
    forall p: Block, q: Block :: e(p) == e(q) ==> p == q
  }

  /** With an injective block function, no keystream block of a period repeats. */
  lemma KeystreamDistinct(e: Block -> Block, iv: Block, i: nat, j: nat)
    requires Injective(e) && i < j < i + Pow256(16)
    ensures KeystreamBlock(e, iv, i) != KeystreamBlock(e, iv, j)
  {
    hide Pow256;
    CountersDistinct(iv, i, j);
  }

  // ---- The counter step as it runs ------------------------------------------------------

  lemma {:induction false} IncrementCarry(s: bytes, i: nat)
    requires i < |s| && s[i] < 255 && forall k | i < k < |s| :: s[k] == 255
    ensures forall k | 0 <= k < |s| :: Increment(s)[k] == if k < i then s[k] else if k == i then s[i] + 1 else 0
  {
    if i < |s| - 1 { IncrementCarry(s[..|s| - 1], i); }
  }

  lemma {:induction false} IncrementWraps(s: bytes)
    requires forall k | 0 <= k < |s| :: s[k] == 255
    ensures forall k | 0 <= k < |s| :: Increment(s)[k] == 0
  {
    if s != [] { IncrementWraps(s[..|s| - 1]); }
  }

  method IncrementCounter(ctr: array<byte>)
    requires ctr.Length == 16
    modifies ctr
    ensures ctr[..] == Increment(old(ctr[..]))
  {
    ghost var was := ctr[..];
    var i := 15;
    while i >= 0
      invariant -1 <= i <= 15
      invariant forall k | 0 <= k <= i :: ctr[k] == was[k]
      invariant forall k | i < k < 16 :: ctr[k] == 0 && was[k] == 255
    {
      ctr[i] := if ctr[i] == 255 then 0 else ctr[i] + 1;
      if ctr[i] != 0 {
        IncrementCarry(was, i);
        return;
      }
      i := i - 1;
    }
    IncrementWraps(was);
    forall k | 0 <= k < 16 { ctr[k] := 0; }
  }
}
