/** The ARIA layers of RFC 5794 section 2.4 and the block transformation built from
    them.  Main result: the encryption routine also decrypts. */
module Aria {
  import opened Bytes
  import opened AriaTables
  import opened ByteMatrix
  import opened Network

  // ---- Substitution layers -------------------------------------------------------

  datatype SBoxes = SBoxes(s1: byte -> byte, s2: byte -> byte, s3: byte -> byte, s4: byte -> byte) {

    /** The box that SL1 (when `odd`) or SL2 (otherwise) applies to byte `i`. */
    function Box(odd: bool, i: Index): byte -> byte {
      match i % 4
      case 0 => if odd then s1 else s3
      case 1 => if odd then s2 else s4
      case 2 => if odd then s3 else s1
      case _ => if odd then s4 else s2
    }

    function SubstituteAt(odd: bool, x: Block, i: Index): byte {
      Box(odd, i)(x[i])
    }

    /** SL1 (boxes 1, 2, 3, 4 in turn) when `odd`, SL2 (boxes 3, 4, 1, 2 in turn) otherwise. */
    function Substitute(odd: bool, x: Block): Block {
      seq(16, i requires 0 <= i < 16 => SubstituteAt(odd, x, i))
    }

    /** Boxes 1 and 3 undo each other, and so do boxes 2 and 4. */
    ghost predicate Paired() {
      && (forall x :: s3(s1(x)) == x && s1(s3(x)) == x)
      && (forall x :: s4(s2(x)) == x && s2(s4(x)) == x)
    }
  }

  /** SL1 and SL2 undo each other. */
  lemma SubstituteInverse(t: SBoxes, odd: bool, x: Block)
    requires t.Paired()
    ensures t.Substitute(!odd, t.Substitute(odd, x)) == x
  {
    forall i: Index ensures t.Substitute(!odd, t.Substitute(odd, x))[i] == x[i] {
      assert t.Box(!odd, i)(t.Box(odd, i)(x[i])) == x[i];
    }
  }

  const BOXES := SBoxes(x => Sb1(x), x => Sb2(x), x => Sb3(x), x => Sb4(x))

  lemma BoxesPaired()
    ensures BOXES.Paired()
  {
    hide Sb1, Sb2, Sb3, Sb4;
    forall x: byte
      ensures Sb3(Sb1(x)) == x && Sb1(Sb3(x)) == x && Sb4(Sb2(x)) == x && Sb2(Sb4(x)) == x
    {
      Sb3UndoesSb1(x); Sb1UndoesSb3(x); Sb4UndoesSb2(x); Sb2UndoesSb4(x);
    }
  }

  // ---- Diffusion layer -----------------------------------------------------------

  /** The rows of the diffusion matrix. */
  function RowOf(i: Index): Row {
    match i
    case 0 => [3, 4, 6, 8, 9, 13, 14]
    case 1 => [2, 5, 7, 8, 9, 12, 15]
    case 2 => [1, 4, 6, 10, 11, 12, 15]
    case 3 => [0, 5, 7, 10, 11, 13, 14]
    case 4 => [0, 2, 5, 8, 11, 14, 15]
    case 5 => [1, 3, 4, 9, 10, 14, 15]
    case 6 => [0, 2, 7, 9, 10, 12, 13]
    case 7 => [1, 3, 6, 8, 11, 12, 13]
    case 8 => [0, 1, 4, 7, 10, 13, 15]
    case 9 => [0, 1, 5, 6, 11, 12, 14]
    case 10 => [2, 3, 5, 6, 8, 13, 15]
    case 11 => [2, 3, 4, 7, 9, 12, 14]
    case 12 => [1, 2, 6, 7, 9, 11, 12]
    case 13 => [0, 3, 6, 7, 8, 10, 13]
    case 14 => [0, 3, 4, 5, 9, 11, 14]
    case _ => [1, 2, 4, 5, 8, 10, 15]
  }

  const MATRIX: Matrix := i => RowOf(i)

  function Odd7(p: bool, q: bool, r: bool, s: bool, t: bool, u: bool, v: bool): bool {
    (((((p != q) != r) != s) != t) != u) != v
  }

  lemma SupportStep(r: Row, k: nat, j: Index)
    requires k < |r|
    ensures Support(r[..k + 1])(j) <==> (Support(r[..k])(j) != (r[k] == j))
    ensures k == 0 ==> !Support(r[..k])(j)
  {
    assert r[..k + 1][..k] == r[..k];
  }

  lemma SupportOfSeven(r: Row, j: Index)
    requires |r| == 7
    ensures Support(r)(j)
       <==> Odd7(r[0] == j, r[1] == j, r[2] == j, r[3] == j, r[4] == j, r[5] == j, r[6] == j)
  {
    hide Support;
    SupportStep(r, 0, j); SupportStep(r, 1, j); SupportStep(r, 2, j); SupportStep(r, 3, j);
    SupportStep(r, 4, j); SupportStep(r, 5, j); SupportStep(r, 6, j);
    assert r[..7] == r;
  }

  /** Whether the matrix has a one in row `i` and column `j`. */
  predicate Uses(i: Index, j: Index) {
    match i
    case 0 => j == 3 || j == 4 || j == 6 || j == 8 || j == 9 || j == 13 || j == 14
    case 1 => j == 2 || j == 5 || j == 7 || j == 8 || j == 9 || j == 12 || j == 15
    case 2 => j == 1 || j == 4 || j == 6 || j == 10 || j == 11 || j == 12 || j == 15
    case 3 => j == 0 || j == 5 || j == 7 || j == 10 || j == 11 || j == 13 || j == 14
    case 4 => j == 0 || j == 2 || j == 5 || j == 8 || j == 11 || j == 14 || j == 15
    case 5 => j == 1 || j == 3 || j == 4 || j == 9 || j == 10 || j == 14 || j == 15
    case 6 => j == 0 || j == 2 || j == 7 || j == 9 || j == 10 || j == 12 || j == 13
    case 7 => j == 1 || j == 3 || j == 6 || j == 8 || j == 11 || j == 12 || j == 13
    case 8 => j == 0 || j == 1 || j == 4 || j == 7 || j == 10 || j == 13 || j == 15
    case 9 => j == 0 || j == 1 || j == 5 || j == 6 || j == 11 || j == 12 || j == 14
    case 10 => j == 2 || j == 3 || j == 5 || j == 6 || j == 8 || j == 13 || j == 15
    case 11 => j == 2 || j == 3 || j == 4 || j == 7 || j == 9 || j == 12 || j == 14
    case 12 => j == 1 || j == 2 || j == 6 || j == 7 || j == 9 || j == 11 || j == 12
    case 13 => j == 0 || j == 3 || j == 6 || j == 7 || j == 8 || j == 10 || j == 13
    case 14 => j == 0 || j == 3 || j == 4 || j == 5 || j == 9 || j == 11 || j == 14
    case _ => j == 1 || j == 2 || j == 4 || j == 5 || j == 8 || j == 10 || j == 15
  }

  lemma RowUses(i: Index, j: Index)
    ensures Support(RowOf(i))(j) <==> Uses(i, j)
  {
    hide Support;
    match i
    case 0 => SupportOfSeven([3, 4, 6, 8, 9, 13, 14], j);
    case 1 => SupportOfSeven([2, 5, 7, 8, 9, 12, 15], j);
    case 2 => SupportOfSeven([1, 4, 6, 10, 11, 12, 15], j);
    case 3 => SupportOfSeven([0, 5, 7, 10, 11, 13, 14], j);
    case 4 => SupportOfSeven([0, 2, 5, 8, 11, 14, 15], j);
    case 5 => SupportOfSeven([1, 3, 4, 9, 10, 14, 15], j);
    case 6 => SupportOfSeven([0, 2, 7, 9, 10, 12, 13], j);
    case 7 => SupportOfSeven([1, 3, 6, 8, 11, 12, 13], j);
    case 8 => SupportOfSeven([0, 1, 4, 7, 10, 13, 15], j);
    case 9 => SupportOfSeven([0, 1, 5, 6, 11, 12, 14], j);
    case 10 => SupportOfSeven([2, 3, 5, 6, 8, 13, 15], j);
    case 11 => SupportOfSeven([2, 3, 4, 7, 9, 12, 14], j);
    case 12 => SupportOfSeven([1, 2, 6, 7, 9, 11, 12], j);
    case 13 => SupportOfSeven([0, 3, 6, 7, 8, 10, 13], j);
    case 14 => SupportOfSeven([0, 3, 4, 5, 9, 11, 14], j);
    case _ => SupportOfSeven([1, 2, 4, 5, 8, 10, 15], j);
  }

  lemma ProductStep(r: Row, k: nat, j: Index)
    requires k < |r|
    ensures Product(MATRIX, r[..k + 1])(j) <==> (Product(MATRIX, r[..k])(j) != Uses(r[k], j))
    ensures k == 0 ==> !Product(MATRIX, r[..k])(j)
  {
    hide Support, RowOf, Uses;
    assert r[..k + 1][..k] == r[..k];
    RowUses(r[k], j);
  }

  lemma ProductOfSeven(r: Row, j: Index)
    requires |r| == 7
    ensures Product(MATRIX, r)(j)
       <==> Odd7(Uses(r[0], j), Uses(r[1], j), Uses(r[2], j), Uses(r[3], j),
                 Uses(r[4], j), Uses(r[5], j), Uses(r[6], j))
  {
    hide Uses, Product;
    ProductStep(r, 0, j); ProductStep(r, 1, j); ProductStep(r, 2, j); ProductStep(r, 3, j);
    ProductStep(r, 4, j); ProductStep(r, 5, j); ProductStep(r, 6, j);
    assert r[..7] == r;
  }

  /** The rows of the matrix squared, written out. */
  predicate Squared(i: Index, j: Index) {
    match i
    case 0 => (((((Uses(3, j) != Uses(4, j)) != Uses(6, j)) != Uses(8, j)) != Uses(9, j)) != Uses(13, j)) != Uses(14, j)
    case 1 => (((((Uses(2, j) != Uses(5, j)) != Uses(7, j)) != Uses(8, j)) != Uses(9, j)) != Uses(12, j)) != Uses(15, j)
    case 2 => (((((Uses(1, j) != Uses(4, j)) != Uses(6, j)) != Uses(10, j)) != Uses(11, j)) != Uses(12, j))
        != Uses(15, j)
    case 3 => (((((Uses(0, j) != Uses(5, j)) != Uses(7, j)) != Uses(10, j)) != Uses(11, j)) != Uses(13, j))
        != Uses(14, j)
    case 4 => (((((Uses(0, j) != Uses(2, j)) != Uses(5, j)) != Uses(8, j)) != Uses(11, j)) != Uses(14, j))
        != Uses(15, j)
    case 5 => (((((Uses(1, j) != Uses(3, j)) != Uses(4, j)) != Uses(9, j)) != Uses(10, j)) != Uses(14, j))
        != Uses(15, j)
    case 6 => (((((Uses(0, j) != Uses(2, j)) != Uses(7, j)) != Uses(9, j)) != Uses(10, j)) != Uses(12, j))
        != Uses(13, j)
    case 7 => (((((Uses(1, j) != Uses(3, j)) != Uses(6, j)) != Uses(8, j)) != Uses(11, j)) != Uses(12, j))
        != Uses(13, j)
    case 8 => (((((Uses(0, j) != Uses(1, j)) != Uses(4, j)) != Uses(7, j)) != Uses(10, j)) != Uses(13, j))
        != Uses(15, j)
    case 9 => (((((Uses(0, j) != Uses(1, j)) != Uses(5, j)) != Uses(6, j)) != Uses(11, j)) != Uses(12, j))
        != Uses(14, j)
    case 10 => (((((Uses(2, j) != Uses(3, j)) != Uses(5, j)) != Uses(6, j)) != Uses(8, j)) != Uses(13, j))
        != Uses(15, j)
    case 11 => (((((Uses(2, j) != Uses(3, j)) != Uses(4, j)) != Uses(7, j)) != Uses(9, j)) != Uses(12, j))
        != Uses(14, j)
    case 12 => (((((Uses(1, j) != Uses(2, j)) != Uses(6, j)) != Uses(7, j)) != Uses(9, j)) != Uses(11, j))
        != Uses(12, j)
    case 13 => (((((Uses(0, j) != Uses(3, j)) != Uses(6, j)) != Uses(7, j)) != Uses(8, j)) != Uses(10, j))
        != Uses(13, j)
    case 14 => (((((Uses(0, j) != Uses(3, j)) != Uses(4, j)) != Uses(5, j)) != Uses(9, j)) != Uses(11, j))
        != Uses(14, j)
    case _ => (((((Uses(1, j) != Uses(2, j)) != Uses(4, j)) != Uses(5, j)) != Uses(8, j)) != Uses(10, j)) != Uses(15, j)
  }

  lemma SquaredIsIdentity(i: Index, j: Index)
    ensures Squared(i, j) <==> i == j
  {}

  lemma SquaredIsProduct(i: Index, j: Index)
    ensures Product(MATRIX, RowOf(i))(j) <==> Squared(i, j)
  {
    hide Uses, Product;
    match i
    case 0 => ProductOfSeven([3, 4, 6, 8, 9, 13, 14], j);
    case 1 => ProductOfSeven([2, 5, 7, 8, 9, 12, 15], j);
    case 2 => ProductOfSeven([1, 4, 6, 10, 11, 12, 15], j);
    case 3 => ProductOfSeven([0, 5, 7, 10, 11, 13, 14], j);
    case 4 => ProductOfSeven([0, 2, 5, 8, 11, 14, 15], j);
    case 5 => ProductOfSeven([1, 3, 4, 9, 10, 14, 15], j);
    case 6 => ProductOfSeven([0, 2, 7, 9, 10, 12, 13], j);
    case 7 => ProductOfSeven([1, 3, 6, 8, 11, 12, 13], j);
    case 8 => ProductOfSeven([0, 1, 4, 7, 10, 13, 15], j);
    case 9 => ProductOfSeven([0, 1, 5, 6, 11, 12, 14], j);
    case 10 => ProductOfSeven([2, 3, 5, 6, 8, 13, 15], j);
    case 11 => ProductOfSeven([2, 3, 4, 7, 9, 12, 14], j);
    case 12 => ProductOfSeven([1, 2, 6, 7, 9, 11, 12], j);
    case 13 => ProductOfSeven([0, 3, 6, 7, 8, 10, 13], j);
    case 14 => ProductOfSeven([0, 3, 4, 5, 9, 11, 14], j);
    case _ => ProductOfSeven([1, 2, 4, 5, 8, 10, 15], j);
  }

  lemma MatrixSquare()
    ensures SquareIsIdentity(MATRIX)
  {
    hide Product, RowOf, Squared;
    forall i: Index, j: Index ensures Product(MATRIX, MATRIX(i))(j) <==> i == j {
      SquaredIsProduct(i, j);
      SquaredIsIdentity(i, j);
    }
  }

  // ---- The cipher ----------------------------------------------------------------

  const ARIA := Layers(x => BOXES.Substitute(true, x), x => BOXES.Substitute(false, x), x => Apply(MATRIX, x))

  lemma AriaInvertible()
    ensures ARIA.Invertible()
  {
    hide SBoxes.Substitute, RowOf, Apply;
    BoxesPaired();
    MatrixSquare();
    forall odd, x ensures ARIA.Substitute(!odd, ARIA.Substitute(odd, x)) == x {
      SubstituteInverse(BOXES, odd, x);
    }
    forall x: Block ensures ARIA.diffuse(ARIA.diffuse(x)) == x {
      ApplyInvolution(MATRIX, x);
    }
    forall x: Block, y: Block ensures ARIA.diffuse(Xor(x, y)) == Xor(ARIA.diffuse(x), ARIA.diffuse(y)) {
      ApplyLinear(MATRIX, x, y);
    }
  }

  /** ARIA undoes itself: run with the decryption keys, the routine inverts its run with `keys`. */
  lemma AriaUndone(n: nat, keys: seq<Block>, p: Block)
    requires KeyList(n, keys)
    ensures ARIA.Encrypt(n, ARIA.DecryptionKeys(n, keys), ARIA.Encrypt(n, keys, p)) == p
  {
    hide Layers.Encrypt, Layers.DecryptionKeys;
    AriaInvertible();
    EncryptUndone(ARIA, n, keys, p);
  }

  /** Hence for every key list it permutes the blocks. */
  lemma AriaIsPermutation(n: nat, keys: seq<Block>, p: Block, q: Block)
    requires KeyList(n, keys)
    ensures ARIA.Encrypt(n, keys, p) == ARIA.Encrypt(n, keys, q) <==> p == q
    ensures exists r :: ARIA.Encrypt(n, keys, r) == p
  {
    hide Layers.Encrypt, Layers.DecryptionKeys;
    AriaInvertible();
    if ARIA.Encrypt(n, keys, p) == ARIA.Encrypt(n, keys, q) {
      EncryptInjective(ARIA, n, keys, p, q);
    }
    EncryptOnto(ARIA, n, keys, p);
  }
}
