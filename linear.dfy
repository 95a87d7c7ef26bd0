/**
 * The linear layer (`M_80`, `M_128`, `apply_matrix`). The state is cut into
 * four groups (30 bits for DIZY-80, 40 for DIZY-128). Within a group, output
 * bit r (counted from the most-significant end) is the XOR of the input bits
 * named by row r of the variant's matrix; a row lists bit positions, again
 * counted from the most-significant end of the group.
 */
module LinearLayer {
  import opened Bits
  import opened Groups
  import opened Variants

  /** `M_80` */
  const M_80: seq<set<nat>> := [
    {6, 22},  {16, 8},  {0, 18},  {15}, {1},
    {7, 27},  {20, 13}, {2, 23},  {21}, {11},
    {12, 17}, {26, 3},  {10, 28}, {25}, {5},
    {2, 27},  {21, 9},  {11, 24}, {16}, {0},
    {7, 17},  {15, 14}, {1, 29},  {20}, {10},
    {12, 25}, {22, 4},  {5, 19},  {26}, {6}
  ]

  /** `M_128` */
  const M_128: seq<set<nat>> := [
    {22, 2},  {35, 8},  {16, 28}, {10}, {31},
    {20, 7},  {27, 13}, {1, 33},  {15}, {36},
    {25, 12}, {32, 18}, {6, 38},  {0},  {21},
    {37, 17}, {26, 3},  {11, 23}, {5},  {30},
    {27, 17}, {30, 9},  {0, 24},  {11}, {35},
    {32, 2},  {36, 14}, {5, 29},  {16}, {20},
    {37, 7},  {21, 19}, {10, 34}, {1},  {25},
    {22, 12}, {31, 4},  {15, 39}, {6},  {26}
  ]

  /** The matrix `apply_matrix` uses for the variant. */
  function Matrix(variant: Variant): seq<set<nat>>
  {
    match variant
    case Dizy80 => M_80
    case Dizy128 => M_128
  }

  /** The group width `apply_matrix` uses for the variant. */
  function GroupSize(variant: Variant): (w: nat)
    ensures 4 * w == variant.StateSize()
  {
    match variant
    case Dizy80 => 30
    case Dizy128 => 40
  }

  /** Every position a row names lies inside a group of width w. */
  predicate RowFits(row: set<nat>, w: nat)
  {
    forall p | p in row :: p < w
  }

  /** The positions of the row whose bit is set in the group g of width w. */
  function Selected(g: nat, w: nat, row: set<nat>): set<nat>
    requires RowFits(row, w)
  {
    set p | p in row && GetBit(g, w - 1 - p) == 1
  }

  /** The output bit of a row: the XOR of the group bits the row names. */
  function RowBit(g: nat, w: nat, row: set<nat>): (b: nat)
    requires RowFits(row, w)
    ensures b < 2
  {
    |Selected(g, w, row)| % 2
  }

  /** The rows' output bits for the group g of width w, most significant first. */
  function RowBits(g: nat, w: nat, mat: seq<set<nat>>): (bits: seq<nat>)
    requires forall r | 0 <= r < |mat| :: RowFits(mat[r], w)
    ensures |bits| == |mat| && Fit(bits, 1)
  {
    seq(|mat|, r requires 0 <= r < |mat| => RowBit(g, w, mat[r]))
  }

  /** A matrix is well formed: as many rows as bits in a group, and every position inside the group. */
  predicate WellFormed(mat: seq<set<nat>>, w: nat)
  {
    |mat| == w && forall r | 0 <= r < |mat| :: RowFits(mat[r], w)
  }

  /** The matrix applied to one group. */
  function GroupProduct(g: nat, w: nat, mat: seq<set<nat>>): nat
    requires WellFormed(mat, w)
  {
    Pack(RowBits(g, w, mat), 1)
  }

  /** The matrix applied to each of the four groups of `state`, most significant first. */
  function GroupProducts(state: nat, mat: seq<set<nat>>, w: nat): (outs: seq<nat>)
    requires WellFormed(mat, w)
    ensures |outs| == 4
  {
    seq(4, i requires 0 <= i < 4 => GroupProduct(GetGroup(i, w, 4, state), w, mat))
  }

  /** The four group products packed back together. */
  function Product(state: nat, mat: seq<set<nat>>, w: nat): nat
    requires WellFormed(mat, w)
  {
    Pack(GroupProducts(state, mat, w), w)
  }

  /** The state `apply_matrix` returns. */
  function MatrixApplied(state: nat, variant: Variant): nat
  {
    MatrixWellFormed(variant);
    Product(state, Matrix(variant), GroupSize(variant))
  }

  /** `apply_matrix`: the variant picks the matrix and the group width */
  method ApplyMatrix(state: nat, variant: Variant) returns (newState: nat)
    ensures newState == MatrixApplied(state, variant)
  {
    var mat, groupSize := Matrix(variant), GroupSize(variant);
    MatrixWellFormed(variant);
    var noGroups := variant.StateSize() / groupSize;
    assert noGroups == 4;
    newState := MultiplyGroups(state, mat, groupSize);
  }

  /** The loops of `apply_matrix` over the four groups and the rows of the matrix. */
  method MultiplyGroups(state: nat, mat: seq<set<nat>>, groupSize: nat) returns (newState: nat)
    requires WellFormed(mat, groupSize)
    ensures newState == Product(state, mat, groupSize)
  {
    var noGroups := 4;
    ghost var outs := GroupProducts(state, mat, groupSize);
    newState := 0;
    for i := 0 to noGroups
      invariant newState == Pack(outs[..i], groupSize)
    {
      var group := GetGroup(i, groupSize, noGroups, state);
      ghost var bits := RowBits(group, groupSize, mat);
      ghost var prefix := Pack(outs[..i], groupSize);
      assert bits[..0] == [];
      ConcatNothing(prefix);
      for j := 0 to |mat| // MSB to LSB
        invariant newState == Concat(prefix, Pack(bits[..j], 1), j)
      {
        var newBit := RowParity(group, groupSize, mat[j]);
        RowStep(prefix, bits, j, newState, newBit);
        newState := Or(Shl(newState, 1), newBit);
      }
      assert bits[..|mat|] == bits;
      PackSnoc(outs, i, groupSize);
    }
    assert outs[..4] == outs;
  }

  /** The innermost loop of `apply_matrix`: the XOR of the group bits one row names, in any order. */
  method RowParity(group: nat, groupSize: nat, row: set<nat>) returns (newBit: nat)
    requires RowFits(row, groupSize)
    ensures newBit == RowBit(group, groupSize, row)
  {
    var bitIdxs := row;
    newBit := 0;
    ghost var seen: set<nat> := {};
    while bitIdxs != {}
      invariant bitIdxs + seen == row && bitIdxs !! seen
      invariant newBit == |Selected(group, groupSize, seen)| % 2
      decreases bitIdxs
    {
      var bitIdx :| bitIdx in bitIdxs;
      ParityStep(group, groupSize, seen, bitIdx, newBit);
      newBit := Xor(newBit, GetBit(group, groupSize - 1 - bitIdx));
      bitIdxs := bitIdxs - {bitIdx};
      seen := seen + {bitIdx};
    }
  }

  // ---------------------------------------------------------------------------
  // Steps of `apply_matrix`

  /** Parity of a sum. */
  lemma ParityOfSum(x: nat, y: nat)
    ensures (x + y) % 2 == (x % 2 + y % 2) % 2
  {
  }

  /** XOR-ing a bit into a parity. */
  lemma ParityAdd(n: nat, bit: nat, b: nat)
    requires bit < 2 && b == n % 2
    ensures Xor(b, bit) == (n + bit) % 2
  {
    XorOfBits(b, bit);
    ParityOfSum(n, bit);
  }

  /** XOR-ing one more named bit into the parity of the row's bits seen so far. */
  lemma ParityStep(g: nat, w: nat, seen: set<nat>, p: nat, b: nat)
    requires RowFits(seen, w) && p < w && p !in seen
    requires b == |Selected(g, w, seen)| % 2
    ensures Xor(b, GetBit(g, w - 1 - p)) == |Selected(g, w, seen + {p})| % 2
  {
    var bit := GetBit(g, w - 1 - p);
    var before, after := Selected(g, w, seen), Selected(g, w, seen + {p});
    if bit == 1 {
      assert after == before + {p};
    } else {
      assert after == before;
    }
    ParityAdd(|before|, bit, b);
  }

  /** Appending a row's bit as `apply_matrix` does: `(new_state << 1) | new_bit`. */
  lemma RowStep(prefix: nat, bits: seq<nat>, j: nat, acc: nat, b: nat)
    requires Fit(bits, 1) && j < |bits| && bits[j] == b
    requires acc == Concat(prefix, Pack(bits[..j], 1), j)
    ensures Or(Shl(acc, 1), b) == Concat(prefix, Pack(bits[..j + 1], 1), j + 1)
  {
    assert bits[..j + 1][..j] == bits[..j];
    assert Pow2(1) == 2;
    PackBound(bits[..j], 1);
    MulIsProduct(j, 1);
    ConcatAssoc(prefix, Pack(bits[..j], 1), b, j, 1);
  }

  // ---------------------------------------------------------------------------
  // Properties of a well-formed matrix

  /** Output bit r of a group, counted from the most-significant end, is the XOR of the bits row r names. */
  lemma GroupProductBit(g: nat, w: nat, mat: seq<set<nat>>, r: nat)
    requires WellFormed(mat, w) && r < w
    ensures GroupProduct(g, w, mat) < Pow2(w)
    ensures GetBit(GroupProduct(g, w, mat), w - 1 - r) == RowBit(g, w, mat[r])
  {
    var bits := RowBits(g, w, mat);
    PackBound(bits, 1);
    MulIsProduct(|bits|, 1);
    PackGroup(bits, 1, r);
    GetGroupOneBit(r, w, Pack(bits, 1));
  }

  /** The symmetric difference of two finite sets has the parity of their sizes' sum. */
  lemma SymmetricDifferenceParity(a: set<nat>, b: set<nat>)
    ensures |(a - b) + (b - a)| % 2 == (|a| + |b|) % 2
  {
    assert |a - b| + |a * b| == |a|;
    assert |b - a| + |a * b| == |b|;
    assert |(a - b) + (b - a)| == |a - b| + |b - a|;
  }

  /** The bits a row selects from the XOR of two groups: those selected from exactly one of them. */
  lemma SelectedXor(g: nat, h: nat, w: nat, row: set<nat>)
    requires RowFits(row, w)
    ensures Selected(Xor(g, h), w, row)
         == (Selected(g, w, row) - Selected(h, w, row)) + (Selected(h, w, row) - Selected(g, w, row))
  {
    forall p | p in row
      ensures GetBit(Xor(g, h), w - 1 - p) == (if GetBit(g, w - 1 - p) != GetBit(h, w - 1 - p) then 1 else 0)
    {
      GetBitXor(g, h, w - 1 - p);
    }
  }

  /** Parities of two sets and of their symmetric difference, related by XOR. */
  lemma ParityXor(a: set<nat>, b: set<nat>, c: set<nat>, x: nat, y: nat, z: nat)
    requires c == (a - b) + (b - a)
    requires x == |a| % 2 && y == |b| % 2 && z == |c| % 2
    ensures z == Xor(x, y)
  {
    SymmetricDifferenceParity(a, b);
    ParityOfSum(|a|, |b|);
    XorOfBits(x, y);
  }

  /** The parity of the bits a row selects is XOR-linear in the group. */
  lemma RowBitXor(g: nat, h: nat, w: nat, row: set<nat>)
    requires RowFits(row, w)
    ensures RowBit(Xor(g, h), w, row) == Xor(RowBit(g, w, row), RowBit(h, w, row))
  {
    SelectedXor(g, h, w, row);
    ParityXor(Selected(g, w, row), Selected(h, w, row), Selected(Xor(g, h), w, row),
              RowBit(g, w, row), RowBit(h, w, row), RowBit(Xor(g, h), w, row));
  }

  /** The matrix on one group is XOR-linear. */
  lemma GroupProductXor(g: nat, h: nat, w: nat, mat: seq<set<nat>>)
    requires WellFormed(mat, w)
    ensures GroupProduct(Xor(g, h), w, mat) == Xor(GroupProduct(g, w, mat), GroupProduct(h, w, mat))
  {
    var p, q := RowBits(g, w, mat), RowBits(h, w, mat);
    forall r | 0 <= r < |mat|
      ensures RowBits(Xor(g, h), w, mat)[r] == XorEach(p, q)[r]
    {
      RowBitXor(g, h, w, mat[r]);
    }
    assert RowBits(Xor(g, h), w, mat) == XorEach(p, q);
    PackXor(p, q, 1);
  }

  /** Every group product fits the group width. */
  lemma GroupProductsFit(state: nat, mat: seq<set<nat>>, w: nat)
    requires WellFormed(mat, w)
    ensures Fit(GroupProducts(state, mat, w), w)
  {
    forall k | 0 <= k < 4
      ensures GroupProducts(state, mat, w)[k] < Pow2(w)
    {
      if w > 0 {
        GroupProductBit(GetGroup(k, w, 4, state), w, mat, 0);
      } else {
        PackBound(RowBits(GetGroup(k, w, 4, state), w, mat), 1);
        MulIsProduct(w, 1);
      }
    }
  }

  lemma ProductGroupwise(state: nat, mat: seq<set<nat>>, w: nat, i: nat)
    requires WellFormed(mat, w) && i < 4
    ensures GetGroup(i, w, 4, Product(state, mat, w)) == GroupProduct(GetGroup(i, w, 4, state), w, mat)
  {
    GroupProductsFit(state, mat, w);
    PackGroup(GroupProducts(state, mat, w), w, i);
  }

  lemma ProductBound(state: nat, mat: seq<set<nat>>, w: nat)
    requires WellFormed(mat, w)
    ensures Product(state, mat, w) < Pow2(4 * w)
  {
    GroupProductsFit(state, mat, w);
    PackBound(GroupProducts(state, mat, w), w);
    MulIsProduct(4, w);
  }

  lemma ProductXor(a: nat, b: nat, mat: seq<set<nat>>, w: nat)
    requires WellFormed(mat, w)
    ensures Product(Xor(a, b), mat, w) == Xor(Product(a, mat, w), Product(b, mat, w))
  {
    var p, q := GroupProducts(a, mat, w), GroupProducts(b, mat, w);
    forall k | 0 <= k < 4
      ensures GroupProducts(Xor(a, b), mat, w)[k] == XorEach(p, q)[k]
    {
      GetGroupXor(k, w, 4, a, b);
      GroupProductXor(GetGroup(k, w, 4, a), GetGroup(k, w, 4, b), w, mat);
    }
    assert GroupProducts(Xor(a, b), mat, w) == XorEach(p, q);
    GroupProductsFit(a, mat, w);
    GroupProductsFit(b, mat, w);
    PackXor(p, q, w);
  }

  // ---------------------------------------------------------------------------
  // Properties of the layer

  /** Both tables are well formed. */
  lemma M80WellFormed()
    ensures WellFormed(M_80, 30)
  {
  }

  lemma M128WellFormed()
    ensures WellFormed(M_128, 40)
  {
  }

  lemma MatrixWellFormed(variant: Variant)
    ensures WellFormed(Matrix(variant), GroupSize(variant))
  {
    match variant
    case Dizy80 => M80WellFormed();
    case Dizy128 => M128WellFormed();
  }

  /** Output group i depends on input group i alone, through the matrix. */
  lemma MatrixGroupwise(state: nat, variant: Variant, i: nat)
    requires i < 4
    ensures WellFormed(Matrix(variant), GroupSize(variant))
    ensures GetGroup(i, GroupSize(variant), 4, MatrixApplied(state, variant))
         == GroupProduct(GetGroup(i, GroupSize(variant), 4, state), GroupSize(variant), Matrix(variant))
  {
    MatrixWellFormed(variant);
    ProductGroupwise(state, Matrix(variant), GroupSize(variant), i);
  }

  /** The layer fits the state width, however wide the input is. */
  lemma MatrixBound(state: nat, variant: Variant)
    ensures MatrixApplied(state, variant) < Pow2(variant.StateSize())
  {
    MatrixWellFormed(variant);
    ProductBound(state, Matrix(variant), GroupSize(variant));
  }

  /** The layer is XOR-linear. */
  lemma MatrixLinear(a: nat, b: nat, variant: Variant)
    ensures MatrixApplied(Xor(a, b), variant) == Xor(MatrixApplied(a, variant), MatrixApplied(b, variant))
  {
    MatrixWellFormed(variant);
    ProductXor(a, b, Matrix(variant), GroupSize(variant));
  }

  /** The layer maps the zero state to zero. */
  lemma MatrixOfZero(variant: Variant)
    ensures MatrixApplied(0, variant) == 0
  {
    MatrixLinear(0, 0, variant);
    XorZero(0);
    XorSelfInverse(0, MatrixApplied(0, variant));
    XorZero(MatrixApplied(0, variant));
  }
}
