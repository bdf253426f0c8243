/** The round structure of ARIA over arbitrary layers: a substitution layer for odd
    rounds, one for even rounds, and a diffusion layer.  Main result: when the two
    substitutions undo each other and the diffusion is a linear involution, the
    encryption routine run with the transformed keys is its own inverse. */
module Network {
  import Bytes

  type Block = b: Bytes.bytes | |b| == 16 witness seq(16, _ => 0)

  function Xor(x: Block, y: Block): Block {
    seq(16, i requires 0 <= i < 16 => Bytes.Xor8(x[i], y[i]))
  }

  datatype Layers = Layers(odd: Block -> Block, even: Block -> Block, diffuse: Block -> Block) {

    function Substitute(isOdd: bool, x: Block): Block {
      if isOdd then odd(x) else even(x)
    }

    ghost predicate Invertible() {
      && (forall isOdd, x :: Substitute(!isOdd, Substitute(isOdd, x)) == x)
      && (forall x: Block :: diffuse(diffuse(x)) == x)
      && (forall x: Block, y: Block :: diffuse(Xor(x, y)) == Xor(diffuse(x), diffuse(y)))
    }

    /** One full round: FO when `isOdd`, FE otherwise. */
    function Round(isOdd: bool, x: Block, k: Block): Block {
      diffuse(Substitute(isOdd, Xor(x, k)))
    }

    /** The state after `i` full rounds; rounds are counted from 1, so round `i` uses `keys[i - 1]`. */
    function Rounds(i: nat, keys: seq<Block>, p: Block): Block
      requires i <= |keys|
    {
      if i == 0 then p else Round(i % 2 == 1, Rounds(i - 1, keys, p), keys[i - 1])
    }

    /** Encryption: `n - 1` full rounds, then the even substitution between the last two keys. */
    function Encrypt(n: nat, keys: seq<Block>, p: Block): Block
      requires KeyList(n, keys)
    {
      Xor(even(Xor(Rounds(n - 1, keys, p), keys[n - 1])), keys[n])
    }

    /** The decryption keys: reversed, with the inner ones diffused. */
    function DecryptionKeys(n: nat, keys: seq<Block>): (dk: seq<Block>)
      requires KeyList(n, keys)
      ensures KeyList(n, dk)
    {
      seq(n + 1, i requires 0 <= i <= n => DecryptionKey(n, keys, i))
    }

    function DecryptionKey(n: nat, keys: seq<Block>, i: nat): Block
      requires i <= n < |keys|
    {
      if i == 0 || i == n then keys[n - i] else diffuse(keys[n - i])
    }
  }

  /** A key list for `n` rounds: `n` is even and at least 2, and there are `n + 1` keys. */
  predicate KeyList(n: nat, keys: seq<Block>) {
    2 <= n && n % 2 == 0 && n < |keys|
  }

  lemma XorTwice(x: Block, k: Block)
    ensures Xor(Xor(x, k), k) == x
  {
    forall i | 0 <= i < 16 ensures Xor(Xor(x, k), k)[i] == x[i] {
      Bytes.XorCancels(x[i], k[i]);
    }
  }

  /** What one inner decryption round does to a diffused state. */
  lemma RoundUndone(l: Layers, odd: bool, x: Block, k: Block, k': Block)
    requires l.Invertible()
    ensures l.Round(!odd, l.diffuse(Xor(l.Round(odd, x, k), k')), l.diffuse(k')) == l.diffuse(Xor(x, k))
  {
    hide Xor;
    XorTwice(l.diffuse(l.Round(odd, x, k)), l.diffuse(k'));
  }

  lemma FirstDecryptionRound(l: Layers, n: nat, keys: seq<Block>, p: Block)
    requires l.Invertible() && KeyList(n, keys)
    ensures l.Rounds(1, l.DecryptionKeys(n, keys), l.Encrypt(n, keys, p))
         == l.diffuse(Xor(l.Rounds(n - 1, keys, p), keys[n - 1]))
  {
    hide Xor;
    var dk, c := l.DecryptionKeys(n, keys), l.Encrypt(n, keys, p);
    var z := Xor(l.Rounds(n - 1, keys, p), keys[n - 1]);
    XorTwice(l.even(z), keys[n]);
    assert l.Substitute(!false, l.Substitute(false, z)) == z;
    assert l.Rounds(0, dk, c) == c;
  }

  lemma NextRound(l: Layers, i: nat, keys: seq<Block>, p: Block)
    requires 0 < i <= |keys|
    ensures l.Rounds(i, keys, p) == l.Round(i % 2 == 1, l.Rounds(i - 1, keys, p), keys[i - 1])
  {}

  /** The last two rounds of an encryption. */
  lemma LastRounds(l: Layers, n: nat, keys: seq<Block>, p: Block)
    requires KeyList(n, keys)
    ensures l.Encrypt(n, keys, p)
         == Xor(l.even(Xor(l.Round(true, l.Rounds(n - 2, keys, p), keys[n - 2]), keys[n - 1])), keys[n])
  {
    hide Xor, Layers.Round;
    NextRound(l, n - 1, keys, p);
  }

  lemma InnerKey(l: Layers, n: nat, keys: seq<Block>, i: nat)
    requires KeyList(n, keys) && 0 < i < n
    ensures l.DecryptionKeys(n, keys)[i] == l.diffuse(keys[n - i])
  {}

  /** After `i` decryption rounds the state is the diffused, keyed encryption state `n - i`. */
  lemma {:induction false} DecryptionState(l: Layers, n: nat, keys: seq<Block>, p: Block, i: nat)
    requires l.Invertible() && KeyList(n, keys) && 1 <= i < n
    ensures l.Rounds(i, l.DecryptionKeys(n, keys), l.Encrypt(n, keys, p))
         == l.diffuse(Xor(l.Rounds(n - i, keys, p), keys[n - i]))
  {
    hide Xor, Layers.Encrypt, Layers.Round, Layers.Rounds, Layers.Invertible, Layers.DecryptionKeys;
    if i == 1 {
      FirstDecryptionRound(l, n, keys, p);
    } else {
      DecryptionState(l, n, keys, p, i - 1);
      var j := n - i;
      NextRound(l, i, l.DecryptionKeys(n, keys), l.Encrypt(n, keys, p));
      NextRound(l, j + 1, keys, p);
      InnerKey(l, n, keys, i - 1);
      assert (j + 1) % 2 == 1 <==> i % 2 != 1;
      RoundUndone(l, (j + 1) % 2 == 1, l.Rounds(j, keys, p), keys[j], keys[j + 1]);
    }
  }

  /** The encryption routine run with the decryption keys is its inverse. */
  lemma EncryptUndone(l: Layers, n: nat, keys: seq<Block>, p: Block)
    requires l.Invertible() && KeyList(n, keys)
    ensures l.Encrypt(n, l.DecryptionKeys(n, keys), l.Encrypt(n, keys, p)) == p
  {
    hide Xor;
    var dk := l.DecryptionKeys(n, keys);
    var y := l.Rounds(1, keys, p);
    DecryptionState(l, n, keys, p, n - 1);
    XorTwice(l.diffuse(y), l.diffuse(keys[1]));
    var s := l.Substitute(true, Xor(p, keys[0]));
    assert y == l.diffuse(s) by { assert l.Rounds(0, keys, p) == p; }
    assert l.Substitute(!true, s) == Xor(p, keys[0]);
    XorTwice(p, keys[0]);
    assert dk[n - 1] == l.diffuse(keys[1]) && dk[n] == keys[0];
  }

  lemma DecryptionKeysTwice(l: Layers, n: nat, keys: seq<Block>)
    requires l.Invertible() && KeyList(n, keys)
    ensures l.DecryptionKeys(n, l.DecryptionKeys(n, keys)) == keys[..n + 1]
  {
    var dk := l.DecryptionKeys(n, keys);
    assert forall i | 0 < i < n :: l.DecryptionKeys(n, dk)[i] == l.diffuse(l.diffuse(keys[i]));
  }

  lemma {:induction false} RoundsPrefix(l: Layers, i: nat, n: nat, keys: seq<Block>, p: Block)
    requires i <= n <= |keys|
    ensures l.Rounds(i, keys[..n], p) == l.Rounds(i, keys, p)
  {
    if i > 0 { RoundsPrefix(l, i - 1, n, keys, p); }
  }

  /** Only the first `n + 1` keys matter. */
  lemma EncryptPrefix(l: Layers, n: nat, keys: seq<Block>, p: Block)
    requires KeyList(n, keys)
    ensures l.Encrypt(n, keys[..n + 1], p) == l.Encrypt(n, keys, p)
  {
    RoundsPrefix(l, n - 1, n + 1, keys, p);
  }

  /** Hence encryption is injective ... */
  lemma EncryptInjective(l: Layers, n: nat, keys: seq<Block>, p: Block, q: Block)
    requires l.Invertible() && KeyList(n, keys)
    requires l.Encrypt(n, keys, p) == l.Encrypt(n, keys, q)
    ensures p == q
  {
    EncryptUndone(l, n, keys, p);
    EncryptUndone(l, n, keys, q);
  }

  /** ... and onto: every block `c` is the encryption of its decryption. */
  lemma EncryptOnto(l: Layers, n: nat, keys: seq<Block>, c: Block)
    requires l.Invertible() && KeyList(n, keys)
    ensures l.Encrypt(n, keys, l.Encrypt(n, l.DecryptionKeys(n, keys), c)) == c
  {
    hide Xor;
    var dk := l.DecryptionKeys(n, keys);
    EncryptUndone(l, n, dk, c);
    DecryptionKeysTwice(l, n, keys);
    RoundsPrefix(l, n - 1, n + 1, keys, l.Encrypt(n, dk, c));
  }
}
