/** The ARIA block routines as they run: loops over 16-byte arrays, each shown to
    compute the corresponding layer. */
module AriaBlock {
  import opened Bytes
  import opened AriaTables
  import opened ByteMatrix
  import opened Network
  import opened Aria

  function Xor7(a: byte, b: byte, c: byte, d: byte, e: byte, f: byte, g: byte): byte {
    Xor8(Xor8(Xor8(Xor8(Xor8(Xor8(a, b), c), d), e), f), g)
  }

  lemma XorRowStep(x: Block, r: Row, k: nat)
    requires k < |r|
    ensures XorRow(x, r[..k + 1]) == Xor8(XorRow(x, r[..k]), x[r[k]])
    ensures k == 0 ==> XorRow(x, r[..k + 1]) == x[r[k]]
  {
    assert r[..k + 1][..k] == r[..k];
    XorZero(x[r[k]]);
  }

  lemma XorRowOfSeven(x: Block, r: Row)
    requires |r| == 7
    ensures XorRow(x, r) == Xor7(x[r[0]], x[r[1]], x[r[2]], x[r[3]], x[r[4]], x[r[5]], x[r[6]])
  {
    hide XorRow, Xor8;
    XorRowStep(x, r, 0); XorRowStep(x, r, 1); XorRowStep(x, r, 2); XorRowStep(x, r, 3);
    XorRowStep(x, r, 4); XorRowStep(x, r, 5); XorRowStep(x, r, 6);
    assert r[..7] == r;
  }

  method XorBlock(o: array<byte>, x: array<byte>, y: Block)
    requires o.Length == x.Length == 16
    modifies o
    ensures o[..] == Xor(old(x[..]), y)
  {
    for i := 0 to 16
      invariant forall j | 0 <= j < i :: o[j] == Xor8(old(x[j]), y[j])
      invariant forall j | i <= j < 16 :: o[j] == old(o[j]) && x[j] == old(x[j])
    {
      o[i] := Xor8(x[i], y[i]);
    }
  }

  /** SL1 takes the tables 1, 2, 3, 4 in turn. */
  lemma OddColumns(z: Block, j: Index)
    ensures BOXES.SubstituteAt(true, z, j) ==
      if j % 4 == 0 then Sb1(z[j]) else if j % 4 == 1 then Sb2(z[j]) else if j % 4 == 2 then Sb3(z[j]) else Sb4(z[j])
  {
    hide Sb1, Sb2, Sb3, Sb4;
  }

  /** SL2 takes the tables 3, 4, 1, 2 in turn. */
  lemma EvenColumns(z: Block, j: Index)
    ensures BOXES.SubstituteAt(false, z, j) ==
      if j % 4 == 0 then Sb3(z[j]) else if j % 4 == 1 then Sb4(z[j]) else if j % 4 == 2 then Sb1(z[j]) else Sb2(z[j])
  {
    hide Sb1, Sb2, Sb3, Sb4;
  }

  lemma OddFour(z: Block, i: nat)
    requires i % 4 == 0 && i <= 12
    ensures BOXES.SubstituteAt(true, z, i) == Sb1(z[i]) && BOXES.SubstituteAt(true, z, i + 1) == Sb2(z[i + 1])
    ensures BOXES.SubstituteAt(true, z, i + 2) == Sb3(z[i + 2]) && BOXES.SubstituteAt(true, z, i + 3) == Sb4(z[i + 3])
  {
    hide Sb1, Sb2, Sb3, Sb4, SBoxes.SubstituteAt;
    OddColumns(z, i);
    OddColumns(z, i + 1);
    OddColumns(z, i + 2);
    OddColumns(z, i + 3);
  }

  lemma EvenFour(z: Block, i: nat)
    requires i % 4 == 0 && i <= 12
    ensures BOXES.SubstituteAt(false, z, i) == Sb3(z[i]) && BOXES.SubstituteAt(false, z, i + 1) == Sb4(z[i + 1])
    ensures BOXES.SubstituteAt(false, z, i + 2) == Sb1(z[i + 2]) && BOXES.SubstituteAt(false, z, i + 3) == Sb2(z[i + 3])
  {
    hide Sb1, Sb2, Sb3, Sb4, SBoxes.SubstituteAt;
    EvenColumns(z, i);
    EvenColumns(z, i + 1);
    EvenColumns(z, i + 2);
    EvenColumns(z, i + 3);
  }

  method Sl1(o: array<byte>, x: array<byte>, rk: Block)
    requires o.Length == x.Length == 16
    modifies o
    ensures o[..] == BOXES.Substitute(true, Xor(old(x[..]), rk))
  {
    hide Sb1, Sb2, Sb3, Sb4, SBoxes.SubstituteAt, Xor8;
    ghost var z := Xor(x[..], rk);
    var i := 0;
    while i < 16
      invariant 0 <= i <= 16 && i % 4 == 0
      invariant forall j: Index | j < i :: o[j] == BOXES.SubstituteAt(true, z, j)
      invariant forall j | i <= j < 16 :: Xor8(x[j], rk[j]) == z[j]
    {
      OddFour(z, i);
      o[i] := Sb1(Xor8(x[i], rk[i]));
      o[i + 1] := Sb2(Xor8(x[i + 1], rk[i + 1]));
      o[i + 2] := Sb3(Xor8(x[i + 2], rk[i + 2]));
      o[i + 3] := Sb4(Xor8(x[i + 3], rk[i + 3]));
      i := i + 4;
    }
  }

  method Sl2(o: array<byte>, x: array<byte>, rk: Block)
    requires o.Length == x.Length == 16
    modifies o
    ensures o[..] == BOXES.Substitute(false, Xor(old(x[..]), rk))
  {
    hide Sb1, Sb2, Sb3, Sb4, SBoxes.SubstituteAt, Xor8;
    ghost var z := Xor(x[..], rk);
    var i := 0;
    while i < 16
      invariant 0 <= i <= 16 && i % 4 == 0
      invariant forall j: Index | j < i :: o[j] == BOXES.SubstituteAt(false, z, j)
      invariant forall j | i <= j < 16 :: Xor8(x[j], rk[j]) == z[j]
    {
      EvenFour(z, i);
      o[i] := Sb3(Xor8(x[i], rk[i]));
      o[i + 1] := Sb4(Xor8(x[i + 1], rk[i + 1]));
      o[i + 2] := Sb1(Xor8(x[i + 2], rk[i + 2]));
      o[i + 3] := Sb2(Xor8(x[i + 3], rk[i + 3]));
      i := i + 4;
    }
  }

  lemma RowFormulas(x: Block)
    ensures ApplyAt(MATRIX, x, 0) == Xor7(x[3], x[4], x[6], x[8], x[9], x[13], x[14])
    ensures ApplyAt(MATRIX, x, 1) == Xor7(x[2], x[5], x[7], x[8], x[9], x[12], x[15])
    ensures ApplyAt(MATRIX, x, 2) == Xor7(x[1], x[4], x[6], x[10], x[11], x[12], x[15])
    ensures ApplyAt(MATRIX, x, 3) == Xor7(x[0], x[5], x[7], x[10], x[11], x[13], x[14])
    ensures ApplyAt(MATRIX, x, 4) == Xor7(x[0], x[2], x[5], x[8], x[11], x[14], x[15])
    ensures ApplyAt(MATRIX, x, 5) == Xor7(x[1], x[3], x[4], x[9], x[10], x[14], x[15])
    ensures ApplyAt(MATRIX, x, 6) == Xor7(x[0], x[2], x[7], x[9], x[10], x[12], x[13])
    ensures ApplyAt(MATRIX, x, 7) == Xor7(x[1], x[3], x[6], x[8], x[11], x[12], x[13])
    ensures ApplyAt(MATRIX, x, 8) == Xor7(x[0], x[1], x[4], x[7], x[10], x[13], x[15])
    ensures ApplyAt(MATRIX, x, 9) == Xor7(x[0], x[1], x[5], x[6], x[11], x[12], x[14])
    ensures ApplyAt(MATRIX, x, 10) == Xor7(x[2], x[3], x[5], x[6], x[8], x[13], x[15])
    ensures ApplyAt(MATRIX, x, 11) == Xor7(x[2], x[3], x[4], x[7], x[9], x[12], x[14])
    ensures ApplyAt(MATRIX, x, 12) == Xor7(x[1], x[2], x[6], x[7], x[9], x[11], x[12])
    ensures ApplyAt(MATRIX, x, 13) == Xor7(x[0], x[3], x[6], x[7], x[8], x[10], x[13])
    ensures ApplyAt(MATRIX, x, 14) == Xor7(x[0], x[3], x[4], x[5], x[9], x[11], x[14])
    ensures ApplyAt(MATRIX, x, 15) == Xor7(x[1], x[2], x[4], x[5], x[8], x[10], x[15])
  {
    hide Xor8, Xor7, XorRow;
    XorRowOfSeven(x, [3, 4, 6, 8, 9, 13, 14]);
    XorRowOfSeven(x, [2, 5, 7, 8, 9, 12, 15]);
    XorRowOfSeven(x, [1, 4, 6, 10, 11, 12, 15]);
    XorRowOfSeven(x, [0, 5, 7, 10, 11, 13, 14]);
    XorRowOfSeven(x, [0, 2, 5, 8, 11, 14, 15]);
    XorRowOfSeven(x, [1, 3, 4, 9, 10, 14, 15]);
    XorRowOfSeven(x, [0, 2, 7, 9, 10, 12, 13]);
    XorRowOfSeven(x, [1, 3, 6, 8, 11, 12, 13]);
    XorRowOfSeven(x, [0, 1, 4, 7, 10, 13, 15]);
    XorRowOfSeven(x, [0, 1, 5, 6, 11, 12, 14]);
    XorRowOfSeven(x, [2, 3, 5, 6, 8, 13, 15]);
    XorRowOfSeven(x, [2, 3, 4, 7, 9, 12, 14]);
    XorRowOfSeven(x, [1, 2, 6, 7, 9, 11, 12]);
    XorRowOfSeven(x, [0, 3, 6, 7, 8, 10, 13]);
    XorRowOfSeven(x, [0, 3, 4, 5, 9, 11, 14]);
    XorRowOfSeven(x, [1, 2, 4, 5, 8, 10, 15]);
  }

  /** The sixteen XOR formulas, written into an array that is not the input. */
  method DiffA(y: array<byte>, x: array<byte>)
    requires x.Length == y.Length == 16 && x != y
    modifies y
    ensures y[..] == Apply(MATRIX, x[..])
  {
    hide Xor8, Xor7, ApplyAt;
    RowFormulas(x[..]);
    y[0] := Xor7(x[3], x[4], x[6], x[8], x[9], x[13], x[14]);
    y[1] := Xor7(x[2], x[5], x[7], x[8], x[9], x[12], x[15]);
    y[2] := Xor7(x[1], x[4], x[6], x[10], x[11], x[12], x[15]);
    y[3] := Xor7(x[0], x[5], x[7], x[10], x[11], x[13], x[14]);
    y[4] := Xor7(x[0], x[2], x[5], x[8], x[11], x[14], x[15]);
    y[5] := Xor7(x[1], x[3], x[4], x[9], x[10], x[14], x[15]);
    y[6] := Xor7(x[0], x[2], x[7], x[9], x[10], x[12], x[13]);
    y[7] := Xor7(x[1], x[3], x[6], x[8], x[11], x[12], x[13]);
    y[8] := Xor7(x[0], x[1], x[4], x[7], x[10], x[13], x[15]);
    y[9] := Xor7(x[0], x[1], x[5], x[6], x[11], x[12], x[14]);
    y[10] := Xor7(x[2], x[3], x[5], x[6], x[8], x[13], x[15]);
    y[11] := Xor7(x[2], x[3], x[4], x[7], x[9], x[12], x[14]);
    y[12] := Xor7(x[1], x[2], x[6], x[7], x[9], x[11], x[12]);
    y[13] := Xor7(x[0], x[3], x[6], x[7], x[8], x[10], x[13]);
    y[14] := Xor7(x[0], x[3], x[4], x[5], x[9], x[11], x[14]);
    y[15] := Xor7(x[1], x[2], x[4], x[5], x[8], x[10], x[15]);
  }

  method FO(o: array<byte>, d: array<byte>, rk: Block)
    requires o.Length == d.Length == 16
    modifies o
    ensures o[..] == ARIA.Round(true, old(d[..]), rk)
  {
    var t := new byte[16];
    Sl1(t, d, rk);
    DiffA(o, t);
  }

  method FE(o: array<byte>, d: array<byte>, rk: Block)
    requires o.Length == d.Length == 16
    modifies o
    ensures o[..] == ARIA.Round(false, old(d[..]), rk)
  {
    var t := new byte[16];
    Sl2(t, d, rk);
    DiffA(o, t);
  }

  lemma NoRounds(keys: seq<Block>, p: Block)
    ensures ARIA.Rounds(0, keys, p) == p
  {}

  /** RFC 5794 section 2.3: from the plain text on, rounds with SL1 and with SL2 take turns, each adding its key,
      substituting and diffusing; the last one has SL2 between two keys and no diffusion. */
  lemma EncryptionRounds(n: nat, keys: seq<Block>, p: Block, i: nat)
    requires KeyList(n, keys) && i % 2 == 0 && i + 2 <= n
    ensures ARIA.Rounds(0, keys, p) == p
    ensures var odd := Apply(MATRIX, BOXES.Substitute(true, Xor(ARIA.Rounds(i, keys, p), keys[i])));
      && ARIA.Rounds(i + 2, keys, p) == Apply(MATRIX, BOXES.Substitute(false, Xor(odd, keys[i + 1])))
      && (i + 2 == n ==>
            ARIA.Encrypt(n, keys, p) == Xor(BOXES.Substitute(false, Xor(odd, keys[n - 1])), keys[n]))
  {
    hide Layers.Rounds, Layers.Encrypt, SBoxes.Substitute, Apply, Xor;
    NoRounds(keys, p);
    NextRound(ARIA, i + 1, keys, p);
    NextRound(ARIA, i + 2, keys, p);
    LastRounds(ARIA, n, keys, p);
  }

  /** One block: pairs of full rounds, a last odd round, then SL2 between the last two keys. */
  method EncryptBlock(input: array<byte>, output: array<byte>, rounds: nat, keys: array<Block>)
    requires input.Length == output.Length == 16
    requires KeyList(rounds, keys[..])
    modifies output
    ensures output[..] == ARIA.Encrypt(rounds, keys[..], old(input[..]))
  {
    hide Layers.Round, Layers.Rounds, Layers.Encrypt, SBoxes.Substitute, Apply;
    ghost var ks, x := keys[..], input[..];
    NoRounds(ks, x);
    var p := new byte[16](i requires 0 <= i < 16 && input.Length == 16 reads input => input[i]);
    assert p[..] == input[..];
    var i := 0;
    while i + 2 < rounds
      invariant i % 2 == 0 && i + 2 <= rounds
      invariant p[..] == ARIA.Rounds(i, ks, x)
    {
      NextRound(ARIA, i + 1, ks, x);
      NextRound(ARIA, i + 2, ks, x);
      FO(p, p, keys[i]);
      FE(p, p, keys[i + 1]);
      i := i + 2;
    }
    LastRounds(ARIA, rounds, ks, x);
    FO(p, p, keys[rounds - 2]);
    Sl2(p, p, keys[rounds - 1]);
    XorBlock(output, p, keys[rounds]);
  }
}
