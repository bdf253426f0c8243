/** Binary matrices acting on blocks by XOR; a row lists the input positions that feed
    one output byte.  Main results: the action is linear, and it is an involution when
    the matrix squares to the identity. */
module ByteMatrix {
  import opened Bytes
  import opened Network

  type Index = i: nat | i < 16

  type Row = seq<Index>

  type Matrix = Index -> Row

  /** XOR of the bytes of `x` at the positions listed in `r`. */
  function XorRow(x: Block, r: Row): byte {
    if r == [] then 0 else Xor8(XorRow(x, r[..|r| - 1]), x[r[|r| - 1]])
  }

  function ApplyAt(m: Matrix, x: Block, i: Index): byte {
    XorRow(x, m(i))
  }

  function Apply(m: Matrix, x: Block): Block {
    seq(16, i requires 0 <= i < 16 => ApplyAt(m, x, i))
  }

  // ---- Rows as selections of positions -------------------------------------------

  type Select = Index -> bool

  const NONE: Select := _ => false

  function Only(i: Index): Select { (j: Index) => i == j }

  /** Symmetric difference. */
  function Toggle(s: Select, t: Select): Select { (i: Index) => s(i) != t(i) }

  /** The positions that occur in `r` an odd number of times. */
  function Support(r: Row): Select {
    if r == [] then NONE else Toggle(Support(r[..|r| - 1]), Only(r[|r| - 1]))
  }

  /** The support of the product of row `r` with the matrix. */
  function Product(m: Matrix, r: Row): Select {
    if r == [] then NONE else Toggle(Product(m, r[..|r| - 1]), Support(m(r[|r| - 1])))
  }

  ghost predicate SquareIsIdentity(m: Matrix) {
    forall i: Index, j: Index :: Product(m, m(i))(j) <==> i == j
  }

  // ---- XOR over a selection -------------------------------------------------------

  /** The byte `v` at position `i` if that is selected by `s`, else zero. */
  function Pick(s: Select, i: Index, v: byte): byte {
    if s(i) then v else 0
  }

  /** XOR of the bytes of `x` that are selected by `s`. */
  function Dot(s: Select, x: bytes): byte
    requires |x| <= 16
  {
    if x == [] then 0
    else
      var k := |x| - 1;
      Xor8(Dot(s, x[..k]), Pick(s, k, x[k]))
  }

  lemma PickToggle(s: Select, t: Select, i: Index, v: byte)
    ensures Pick(Toggle(s, t), i, v) == Xor8(Pick(s, i, v), Pick(t, i, v))
  {
    XorZero(v);
    XorZero(0);
  }

  lemma {:induction false} DotToggle(s: Select, t: Select, x: bytes)
    requires |x| <= 16
    ensures Dot(Toggle(s, t), x) == Xor8(Dot(s, x), Dot(t, x))
  {
    if x == [] {
      XorZero(0);
    } else {
      var k := |x| - 1;
      DotToggle(s, t, x[..k]);
      PickToggle(s, t, k, x[k]);
      XorSwap(Dot(s, x[..k]), Dot(t, x[..k]), Pick(s, k, x[k]), Pick(t, k, x[k]));
    }
  }

  lemma {:induction false} DotNone(x: bytes)
    requires |x| <= 16
    ensures Dot(NONE, x) == 0
  {
    if x != [] {
      DotNone(x[..|x| - 1]);
      XorZero(0);
    }
  }

  lemma {:induction false} DotSingle(s: Select, i: Index, x: bytes)
    requires |x| <= 16
    requires forall j: Index :: s(j) <==> i == j
    ensures Dot(s, x) == if i < |x| then x[i] else 0
  {
    if x != [] {
      DotSingle(s, i, x[..|x| - 1]);
      XorZero(x[|x| - 1]);
      if i < |x| { XorZero(x[i]); }
    }
  }

  lemma {:induction false} XorRowIsDot(x: Block, r: Row)
    ensures XorRow(x, r) == Dot(Support(r), x)
  {
    if r == [] {
      DotNone(x);
    } else {
      var k := |r| - 1;
      XorRowIsDot(x, r[..k]);
      DotToggle(Support(r[..k]), Only(r[k]), x);
      DotSingle(Only(r[k]), r[k], x);
    }
  }

  // ---- Linearity ---------------------------------------------------------------

  lemma {:induction false} XorRowLinear(x: Block, y: Block, r: Row)
    ensures XorRow(Xor(x, y), r) == Xor8(XorRow(x, r), XorRow(y, r))
  {
    if r == [] {
      XorZero(0);
    } else {
      var k := |r| - 1;
      XorRowLinear(x, y, r[..k]);
      XorSwap(XorRow(x, r[..k]), XorRow(y, r[..k]), x[r[k]], y[r[k]]);
    }
  }

  /** The action of a matrix is linear over XOR. */
  lemma ApplyLinear(m: Matrix, x: Block, y: Block)
    ensures Apply(m, Xor(x, y)) == Xor(Apply(m, x), Apply(m, y))
  {
    forall i: Index ensures Apply(m, Xor(x, y))[i] == Xor(Apply(m, x), Apply(m, y))[i] {
      XorRowLinear(x, y, m(i));
    }
  }

  // ---- Involution --------------------------------------------------------------

  lemma {:induction false} XorRowApplied(m: Matrix, x: Block, r: Row)
    ensures XorRow(Apply(m, x), r) == Dot(Product(m, r), x)
  {
    if r == [] {
      DotNone(x);
    } else {
      var k := |r| - 1;
      XorRowApplied(m, x, r[..k]);
      XorRowIsDot(x, m(r[k]));
      DotToggle(Product(m, r[..k]), Support(m(r[k])), x);
    }
  }

  /** A matrix that squares to the identity acts as an involution. */
  lemma ApplyInvolution(m: Matrix, x: Block)
    requires SquareIsIdentity(m)
    ensures Apply(m, Apply(m, x)) == x
  {
    forall i: Index ensures Apply(m, Apply(m, x))[i] == x[i] {
      XorRowApplied(m, x, m(i));
      DotSingle(Product(m, m(i)), i, x);
    }
  }
}
