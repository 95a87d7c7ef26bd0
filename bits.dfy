/**
 * Python's integer operators on non-negative integers, and the DIZY bit utilities
 * `get_bit` and `mask_bits`.
 *
 * Python integers are unbounded, so a cipher state is a `nat`. The operators
 * `>>`, `<<`, `&`, `|`, `^` and `**` are defined here by halving and doubling,
 * which is what they mean on non-negative integers. Every fact about them is
 * reduced to single bits: `GetBit` reads one bit, `BitsEqual` says that two
 * numbers with the same bits are equal, and `BoundFromBits`/`HighBitsZero`
 * translate between `x < Pow2(w)` and "every bit from w upwards is 0".
 */
module Bits {

  /** `2**n` */
  function Pow2(n: nat): (r: nat)
    ensures r >= 1
  {
    if n == 0 then 1 else 2 * Pow2(n - 1)
  }

  /** `x >> n`: n floor-halvings */
  function Shr(x: nat, n: nat): nat
  {
    if n == 0 then x else Shr(x / 2, n - 1)
  }

  /** `x << n`: n doublings */
  function Shl(x: nat, n: nat): nat
  {
    if n == 0 then x else 2 * Shl(x, n - 1)
  }

  /** `a & b` */
  function And(a: nat, b: nat): nat
    decreases a + b
  {
    if a == 0 && b == 0 then 0
    else 2 * And(a / 2, b / 2) + (if a % 2 == 1 && b % 2 == 1 then 1 else 0)
  }

  /** `a | b` */
  function Or(a: nat, b: nat): nat
    decreases a + b
  {
    if a == 0 && b == 0 then 0
    else 2 * Or(a / 2, b / 2) + (if a % 2 == 1 || b % 2 == 1 then 1 else 0)
  }

  /** `a ^ b` */
  function Xor(a: nat, b: nat): nat
    decreases a + b
  {
    if a == 0 && b == 0 then 0
    else 2 * Xor(a / 2, b / 2) + (if a % 2 != b % 2 then 1 else 0)
  }

  /** `(hi << w) | lo`: the shift-and-or step the source uses to append `lo` below `hi` */
  function Concat(hi: nat, lo: nat, w: nat): nat
  {
    Or(Shl(hi, w), lo)
  }

  /**
   * `get_bit`: bit n of `value`, counted from the least-significant bit. The
   * source computes `(value >> n) & 0b1`; `GetBitIsAnd` shows that this is the
   * remainder written here.
   */
  function GetBit(value: nat, n: nat): (b: nat)
    ensures b == 0 || b == 1
  {
    Shr(value, n) % 2
  }

  /** `mask_bits`: `value & (2**n - 1)` */
  function MaskBits(value: nat, n: nat): nat
  {
    And(value, Pow2(n) - 1)
  }

  // ---------------------------------------------------------------------------
  // One step of each operator: its lowest bit and the rest

  lemma AndZero(a: nat)
    ensures And(a, 0) == 0
    decreases a
  {
    if a != 0 {
      AndZero(a / 2);
    }
  }

  lemma AndOne(y: nat)
    ensures And(y, 1) == y % 2
  {
    if y != 0 {
      AndZero(y / 2);
    }
  }

  /** `get_bit` as the source writes it. */
  lemma GetBitIsAnd(value: nat, n: nat)
    ensures GetBit(value, n) == And(Shr(value, n), 1)
  {
    AndOne(Shr(value, n));
  }

  /** The lowest bit and the rest of `2 * r + bit`. */
  lemma HalfOf(x: nat, r: nat, bit: nat)
    requires bit < 2 && x == 2 * r + bit
    ensures x % 2 == bit && x / 2 == r
  {
  }

  lemma HalfAnd(a: nat, b: nat)
    ensures And(a, b) % 2 == (if a % 2 == 1 && b % 2 == 1 then 1 else 0)
    ensures And(a, b) / 2 == And(a / 2, b / 2)
  {
    var bit := if a % 2 == 1 && b % 2 == 1 then 1 else 0;
    if a == 0 && b == 0 {
      assert And(a / 2, b / 2) == 0;
    } else {
      assert And(a, b) == 2 * And(a / 2, b / 2) + bit;
      HalfOf(And(a, b), And(a / 2, b / 2), bit);
    }
  }

  lemma HalfOr(a: nat, b: nat)
    ensures Or(a, b) % 2 == (if a % 2 == 1 || b % 2 == 1 then 1 else 0)
    ensures Or(a, b) / 2 == Or(a / 2, b / 2)
  {
    var bit := if a % 2 == 1 || b % 2 == 1 then 1 else 0;
    if a == 0 && b == 0 {
      assert Or(a / 2, b / 2) == 0;
    } else {
      assert Or(a, b) == 2 * Or(a / 2, b / 2) + bit;
      HalfOf(Or(a, b), Or(a / 2, b / 2), bit);
    }
  }

  lemma HalfXor(a: nat, b: nat)
    ensures Xor(a, b) % 2 == (if a % 2 != b % 2 then 1 else 0)
    ensures Xor(a, b) / 2 == Xor(a / 2, b / 2)
  {
    var bit := if a % 2 != b % 2 then 1 else 0;
    if a == 0 && b == 0 {
      assert Xor(a / 2, b / 2) == 0;
    } else {
      assert Xor(a, b) == 2 * Xor(a / 2, b / 2) + bit;
      HalfOf(Xor(a, b), Xor(a / 2, b / 2), bit);
    }
  }

  lemma GetBitLow(x: nat)
    ensures GetBit(x, 0) == x % 2
  {
  }

  lemma GetBitHigh(x: nat, n: nat)
    ensures GetBit(x, n + 1) == GetBit(x / 2, n)
  {
  }

  lemma {:induction false} GetBitOfZero(n: nat)
    ensures GetBit(0, n) == 0
  {
    if n > 0 {
      GetBitHigh(0, n - 1);
      GetBitOfZero(n - 1);
    }
  }

  // ---------------------------------------------------------------------------
  // Extensionality and width

  /** Two numbers with the same bits are the same number. */
  lemma {:induction false} BitsEqual(a: nat, b: nat)
    requires forall n: nat :: GetBit(a, n) == GetBit(b, n)
    ensures a == b
    decreases a + b
  {
    if a != 0 || b != 0 {
      GetBitLow(a);
      GetBitLow(b);
      assert GetBit(a, 0) == GetBit(b, 0);
      forall n: nat
        ensures GetBit(a / 2, n) == GetBit(b / 2, n)
      {
        GetBitHigh(a, n);
        GetBitHigh(b, n);
        assert GetBit(a, n + 1) == GetBit(b, n + 1);
      }
      BitsEqual(a / 2, b / 2);
    }
  }

  /** A number below `2**w` has no bit set from w upwards. */
  lemma {:induction false} HighBitsZero(x: nat, w: nat, n: nat)
    requires x < Pow2(w) && w <= n
    ensures GetBit(x, n) == 0
  {
    if w == 0 {
      GetBitOfZero(n);
    } else {
      GetBitHigh(x, n - 1);
      HighBitsZero(x / 2, w - 1, n - 1);
    }
  }

  /** A number with no bit set from w upwards is below `2**w`. */
  lemma {:induction false} BoundFromBits(x: nat, w: nat)
    requires forall n: nat :: w <= n ==> GetBit(x, n) == 0
    ensures x < Pow2(w)
  {
    if w == 0 {
      forall n: nat
        ensures GetBit(x, n) == GetBit(0, n)
      {
        GetBitOfZero(n);
      }
      BitsEqual(x, 0);
    } else {
      forall n: nat | w - 1 <= n
        ensures GetBit(x / 2, n) == 0
      {
        GetBitHigh(x, n);
      }
      BoundFromBits(x / 2, w - 1);
    }
  }

  lemma {:induction false} Pow2Monotone(a: nat, b: nat)
    requires a <= b
    ensures Pow2(a) <= Pow2(b)
  {
    if a < b {
      Pow2Monotone(a, b - 1);
    }
  }

  // ---------------------------------------------------------------------------
  // Each operator, one bit at a time

  lemma {:induction false} GetBitAnd(a: nat, b: nat, n: nat)
    ensures GetBit(And(a, b), n) == (if GetBit(a, n) == 1 && GetBit(b, n) == 1 then 1 else 0)
  {
    HalfAnd(a, b);
    if n == 0 {
      GetBitLow(And(a, b));
      GetBitLow(a);
      GetBitLow(b);
    } else {
      GetBitHigh(And(a, b), n - 1);
      GetBitHigh(a, n - 1);
      GetBitHigh(b, n - 1);
      GetBitAnd(a / 2, b / 2, n - 1);
    }
  }

  lemma {:induction false} GetBitOr(a: nat, b: nat, n: nat)
    ensures GetBit(Or(a, b), n) == (if GetBit(a, n) == 1 || GetBit(b, n) == 1 then 1 else 0)
  {
    HalfOr(a, b);
    if n == 0 {
      GetBitLow(Or(a, b));
      GetBitLow(a);
      GetBitLow(b);
    } else {
      GetBitHigh(Or(a, b), n - 1);
      GetBitHigh(a, n - 1);
      GetBitHigh(b, n - 1);
      GetBitOr(a / 2, b / 2, n - 1);
    }
  }

  lemma {:induction false} GetBitXor(a: nat, b: nat, n: nat)
    ensures GetBit(Xor(a, b), n) == (if GetBit(a, n) != GetBit(b, n) then 1 else 0)
  {
    HalfXor(a, b);
    if n == 0 {
      GetBitLow(Xor(a, b));
      GetBitLow(a);
      GetBitLow(b);
    } else {
      GetBitHigh(Xor(a, b), n - 1);
      GetBitHigh(a, n - 1);
      GetBitHigh(b, n - 1);
      GetBitXor(a / 2, b / 2, n - 1);
    }
  }

  lemma {:induction false} ShrShr(x: nat, k: nat, n: nat)
    ensures Shr(Shr(x, k), n) == Shr(x, k + n)
  {
    if k > 0 {
      ShrShr(x / 2, k - 1, n);
    }
  }

  lemma GetBitShr(x: nat, k: nat, n: nat)
    ensures GetBit(Shr(x, k), n) == GetBit(x, n + k)
  {
    ShrShr(x, k, n);
  }

  lemma {:induction false} GetBitShl(x: nat, k: nat, n: nat)
    ensures GetBit(Shl(x, k), n) == (if n < k then 0 else GetBit(x, n - k))
  {
    if k > 0 {
      var y := Shl(x, k - 1);
      if n == 0 {
        GetBitLow(2 * y);
      } else {
        GetBitHigh(2 * y, n - 1);
        GetBitShl(x, k - 1, n - 1);
      }
    }
  }

  lemma {:induction false} GetBitOnes(w: nat, n: nat)
    ensures GetBit(Pow2(w) - 1, n) == (if n < w then 1 else 0)
  {
    if w == 0 {
      GetBitOfZero(n);
    } else if n == 0 {
      GetBitLow(Pow2(w) - 1);
    } else {
      GetBitHigh(Pow2(w) - 1, n - 1);
      GetBitOnes(w - 1, n - 1);
    }
  }

  lemma GetBitMask(x: nat, w: nat, n: nat)
    ensures GetBit(MaskBits(x, w), n) == (if n < w then GetBit(x, n) else 0)
  {
    GetBitAnd(x, Pow2(w) - 1, n);
    GetBitOnes(w, n);
  }

  lemma GetBitConcat(hi: nat, lo: nat, w: nat, n: nat)
    requires lo < Pow2(w)
    ensures GetBit(Concat(hi, lo, w), n) == (if n < w then GetBit(lo, n) else GetBit(hi, n - w))
  {
    GetBitOr(Shl(hi, w), lo, n);
    GetBitShl(hi, w, n);
    if w <= n {
      HighBitsZero(lo, w, n);
    }
  }

  // ---------------------------------------------------------------------------
  // Consequences used throughout the cipher

  lemma MaskBitsBound(x: nat, w: nat)
    ensures MaskBits(x, w) < Pow2(w)
  {
    forall n: nat | w <= n
      ensures GetBit(MaskBits(x, w), n) == 0
    {
      GetBitMask(x, w, n);
    }
    BoundFromBits(MaskBits(x, w), w);
  }

  lemma MaskBitsOfSmall(x: nat, w: nat)
    requires x < Pow2(w)
    ensures MaskBits(x, w) == x
  {
    forall n: nat
      ensures GetBit(MaskBits(x, w), n) == GetBit(x, n)
    {
      GetBitMask(x, w, n);
      if w <= n {
        HighBitsZero(x, w, n);
      }
    }
    BitsEqual(MaskBits(x, w), x);
  }

  lemma XorBound(a: nat, b: nat, w: nat)
    requires a < Pow2(w) && b < Pow2(w)
    ensures Xor(a, b) < Pow2(w)
  {
    forall n: nat | w <= n
      ensures GetBit(Xor(a, b), n) == 0
    {
      GetBitXor(a, b, n);
      HighBitsZero(a, w, n);
      HighBitsZero(b, w, n);
    }
    BoundFromBits(Xor(a, b), w);
  }

  lemma XorSelfInverse(a: nat, b: nat)
    ensures Xor(Xor(a, b), b) == a
  {
    forall n: nat
      ensures GetBit(Xor(Xor(a, b), b), n) == GetBit(a, n)
    {
      GetBitXor(Xor(a, b), b, n);
      GetBitXor(a, b, n);
    }
    BitsEqual(Xor(Xor(a, b), b), a);
  }

  lemma XorAssoc(a: nat, b: nat, c: nat)
    ensures Xor(Xor(a, b), c) == Xor(a, Xor(b, c))
  {
    forall n: nat
      ensures GetBit(Xor(Xor(a, b), c), n) == GetBit(Xor(a, Xor(b, c)), n)
    {
      GetBitXor(Xor(a, b), c, n);
      GetBitXor(a, b, n);
      GetBitXor(a, Xor(b, c), n);
      GetBitXor(b, c, n);
    }
    BitsEqual(Xor(Xor(a, b), c), Xor(a, Xor(b, c)));
  }

  lemma XorZero(a: nat)
    ensures Xor(a, 0) == a && Xor(0, a) == a
  {
    forall n: nat
      ensures GetBit(Xor(a, 0), n) == GetBit(a, n) && GetBit(Xor(0, a), n) == GetBit(a, n)
    {
      GetBitXor(a, 0, n);
      GetBitXor(0, a, n);
      GetBitOfZero(n);
    }
    BitsEqual(Xor(a, 0), a);
    BitsEqual(Xor(0, a), a);
  }

  lemma ConcatBound(hi: nat, lo: nat, w: nat, k: nat)
    requires hi < Pow2(k) && lo < Pow2(w)
    ensures Concat(hi, lo, w) < Pow2(k + w)
  {
    forall n: nat | k + w <= n
      ensures GetBit(Concat(hi, lo, w), n) == 0
    {
      GetBitConcat(hi, lo, w, n);
      HighBitsZero(hi, k, n - w);
    }
    BoundFromBits(Concat(hi, lo, w), k + w);
  }

  /** `(hi << w) | lo` with `lo` below `2**w`: shifting right by w gives back `hi`. */
  lemma ShrConcat(hi: nat, lo: nat, w: nat)
    requires lo < Pow2(w)
    ensures Shr(Concat(hi, lo, w), w) == hi
  {
    forall n: nat
      ensures GetBit(Shr(Concat(hi, lo, w), w), n) == GetBit(hi, n)
    {
      GetBitShr(Concat(hi, lo, w), w, n);
      GetBitConcat(hi, lo, w, n + w);
    }
    BitsEqual(Shr(Concat(hi, lo, w), w), hi);
  }

  /** `(hi << w) | lo` with `lo` below `2**w`: masking to w bits gives back `lo`. */
  lemma MaskConcat(hi: nat, lo: nat, w: nat)
    requires lo < Pow2(w)
    ensures MaskBits(Concat(hi, lo, w), w) == lo
  {
    forall n: nat
      ensures GetBit(MaskBits(Concat(hi, lo, w), w), n) == GetBit(lo, n)
    {
      GetBitMask(Concat(hi, lo, w), w, n);
      GetBitConcat(hi, lo, w, n);
      if w <= n {
        HighBitsZero(lo, w, n);
      }
    }
    BitsEqual(MaskBits(Concat(hi, lo, w), w), lo);
  }

  /** Every number is its high part above its low w bits. */
  lemma SplitConcat(x: nat, w: nat)
    ensures Concat(Shr(x, w), MaskBits(x, w), w) == x
  {
    MaskBitsBound(x, w);
    forall n: nat
      ensures GetBit(Concat(Shr(x, w), MaskBits(x, w), w), n) == GetBit(x, n)
    {
      GetBitConcat(Shr(x, w), MaskBits(x, w), w, n);
      GetBitMask(x, w, n);
      if w <= n {
        GetBitShr(x, w, n - w);
      }
    }
    BitsEqual(Concat(Shr(x, w), MaskBits(x, w), w), x);
  }

  /** Appending in two steps is appending once. */
  lemma ConcatAssoc(a: nat, b: nat, c: nat, r: nat, w: nat)
    requires b < Pow2(r) && c < Pow2(w)
    ensures Concat(Concat(a, b, r), c, w) == Concat(a, Concat(b, c, w), r + w)
  {
    ConcatBound(b, c, w, r);
    forall n: nat
      ensures GetBit(Concat(Concat(a, b, r), c, w), n) == GetBit(Concat(a, Concat(b, c, w), r + w), n)
    {
      GetBitConcat(Concat(a, b, r), c, w, n);
      GetBitConcat(a, Concat(b, c, w), r + w, n);
      GetBitConcat(b, c, w, n);
      if w <= n {
        GetBitConcat(a, b, r, n - w);
      }
    }
    BitsEqual(Concat(Concat(a, b, r), c, w), Concat(a, Concat(b, c, w), r + w));
  }

  /** Appending commutes with XOR. */
  lemma ConcatXor(a1: nat, b1: nat, a2: nat, b2: nat, w: nat)
    requires b1 < Pow2(w) && b2 < Pow2(w)
    ensures Xor(b1, b2) < Pow2(w)
    ensures Concat(Xor(a1, a2), Xor(b1, b2), w) == Xor(Concat(a1, b1, w), Concat(a2, b2, w))
  {
    XorBound(b1, b2, w);
    var lhs := Concat(Xor(a1, a2), Xor(b1, b2), w);
    var rhs := Xor(Concat(a1, b1, w), Concat(a2, b2, w));
    forall n: nat
      ensures GetBit(lhs, n) == GetBit(rhs, n)
    {
      GetBitConcat(Xor(a1, a2), Xor(b1, b2), w, n);
      GetBitXor(Concat(a1, b1, w), Concat(a2, b2, w), n);
      GetBitConcat(a1, b1, w, n);
      GetBitConcat(a2, b2, w, n);
      GetBitXor(b1, b2, n);
      if w <= n {
        GetBitXor(a1, a2, n - w);
      }
    }
    BitsEqual(lhs, rhs);
  }

  lemma ShrXor(a: nat, b: nat, k: nat)
    ensures Shr(Xor(a, b), k) == Xor(Shr(a, k), Shr(b, k))
  {
    forall n: nat
      ensures GetBit(Shr(Xor(a, b), k), n) == GetBit(Xor(Shr(a, k), Shr(b, k)), n)
    {
      GetBitShr(Xor(a, b), k, n);
      GetBitXor(a, b, n + k);
      GetBitXor(Shr(a, k), Shr(b, k), n);
      GetBitShr(a, k, n);
      GetBitShr(b, k, n);
    }
    BitsEqual(Shr(Xor(a, b), k), Xor(Shr(a, k), Shr(b, k)));
  }

  lemma MaskXor(a: nat, b: nat, w: nat)
    ensures MaskBits(Xor(a, b), w) == Xor(MaskBits(a, w), MaskBits(b, w))
  {
    forall n: nat
      ensures GetBit(MaskBits(Xor(a, b), w), n) == GetBit(Xor(MaskBits(a, w), MaskBits(b, w)), n)
    {
      GetBitMask(Xor(a, b), w, n);
      GetBitXor(a, b, n);
      GetBitXor(MaskBits(a, w), MaskBits(b, w), n);
      GetBitMask(a, w, n);
      GetBitMask(b, w, n);
    }
    BitsEqual(MaskBits(Xor(a, b), w), Xor(MaskBits(a, w), MaskBits(b, w)));
  }

  lemma ShrZero(k: nat)
    ensures Shr(0, k) == 0
  {
    forall n: nat
      ensures GetBit(Shr(0, k), n) == GetBit(0, n)
    {
      GetBitShr(0, k, n);
      GetBitOfZero(n + k);
      GetBitOfZero(n);
    }
    BitsEqual(Shr(0, k), 0);
  }

  lemma MaskZero(w: nat)
    ensures MaskBits(0, w) == 0
  {
    MaskBitsOfSmall(0, w);
  }

  lemma XorOfBits(a: nat, b: nat)
    requires a < 2 && b < 2
    ensures Xor(a, b) == (a + b) % 2
  {
  }

  lemma OrZero(a: nat)
    ensures Or(a, 0) == a && Or(0, a) == a
  {
    forall n: nat
      ensures GetBit(Or(a, 0), n) == GetBit(a, n) && GetBit(Or(0, a), n) == GetBit(a, n)
    {
      GetBitOr(a, 0, n);
      GetBitOr(0, a, n);
      GetBitOfZero(n);
    }
    BitsEqual(Or(a, 0), a);
    BitsEqual(Or(0, a), a);
  }

  /** XOR-ing `hi << m` onto a number below `2**m` appends `hi` above it. */
  lemma XorShlDisjoint(lo: nat, hi: nat, m: nat)
    requires lo < Pow2(m)
    ensures Xor(lo, Shl(hi, m)) == Concat(hi, lo, m)
  {
    forall n: nat
      ensures GetBit(Xor(lo, Shl(hi, m)), n) == GetBit(Concat(hi, lo, m), n)
    {
      GetBitXor(lo, Shl(hi, m), n);
      GetBitShl(hi, m, n);
      GetBitConcat(hi, lo, m, n);
      if m <= n {
        HighBitsZero(lo, m, n);
      }
    }
    BitsEqual(Xor(lo, Shl(hi, m)), Concat(hi, lo, m));
  }

  /** OR-ing `hi << m` onto a number below `2**m` appends `hi` above it. */
  lemma OrShlDisjoint(lo: nat, hi: nat, m: nat)
    requires lo < Pow2(m)
    ensures Or(lo, Shl(hi, m)) == Concat(hi, lo, m)
  {
    forall n: nat
      ensures GetBit(Or(lo, Shl(hi, m)), n) == GetBit(Concat(hi, lo, m), n)
    {
      GetBitOr(lo, Shl(hi, m), n);
      GetBitShl(hi, m, n);
      GetBitConcat(hi, lo, m, n);
      if m <= n {
        HighBitsZero(lo, m, n);
      }
    }
    BitsEqual(Or(lo, Shl(hi, m)), Concat(hi, lo, m));
  }

  lemma ShrBound(x: nat, w: nat, k: nat)
    requires x < Pow2(k + w)
    ensures Shr(x, w) < Pow2(k)
  {
    forall n: nat | k <= n
      ensures GetBit(Shr(x, w), n) == 0
    {
      GetBitShr(x, w, n);
      HighBitsZero(x, k + w, n + w);
    }
    BoundFromBits(Shr(x, w), k);
  }

  lemma ShlBound(x: nat, k: nat, w: nat)
    requires x < Pow2(w)
    ensures Shl(x, k) < Pow2(k + w)
  {
    forall n: nat | k + w <= n
      ensures GetBit(Shl(x, k), n) == 0
    {
      GetBitShl(x, k, n);
      HighBitsZero(x, w, n - k);
    }
    BoundFromBits(Shl(x, k), k + w);
  }

  lemma ShlShl(x: nat, a: nat, b: nat)
    ensures Shl(Shl(x, a), b) == Shl(x, a + b)
  {
    forall n: nat
      ensures GetBit(Shl(Shl(x, a), b), n) == GetBit(Shl(x, a + b), n)
    {
      GetBitShl(Shl(x, a), b, n);
      GetBitShl(x, a + b, n);
      if b <= n {
        GetBitShl(x, a, n - b);
      }
    }
    BitsEqual(Shl(Shl(x, a), b), Shl(x, a + b));
  }

  lemma ShlZero(k: nat)
    ensures Shl(0, k) == 0
  {
    if k > 0 {
      ShlZero(k - 1);
    }
  }

  lemma {:induction false} ShrShl(x: nat, k: nat)
    ensures Shr(Shl(x, k), k) == x
  {
    if k > 0 {
      assert Shl(x, k) / 2 == Shl(x, k - 1);
      ShrShl(x, k - 1);
    }
  }

  /** The k bits below `x << k` are zero. */
  lemma MaskShl(x: nat, k: nat)
    ensures MaskBits(Shl(x, k), k) == 0
  {
    forall n: nat
      ensures GetBit(MaskBits(Shl(x, k), k), n) == GetBit(0, n)
    {
      GetBitMask(Shl(x, k), k, n);
      GetBitShl(x, k, n);
      GetBitOfZero(n);
    }
    BitsEqual(MaskBits(Shl(x, k), k), 0);
  }

  /** A w-bit window at shift s of the low a bits of x: the window of x itself when it lies below a, zero when it lies above. */
  lemma MaskedWindow(x: nat, a: nat, s: nat, w: nat)
    ensures s + w <= a ==> MaskBits(Shr(MaskBits(x, a), s), w) == MaskBits(Shr(x, s), w)
    ensures a <= s ==> MaskBits(Shr(MaskBits(x, a), s), w) == 0
  {
    var y := MaskBits(Shr(MaskBits(x, a), s), w);
    forall n: nat
      ensures GetBit(y, n) == (if n < w && n + s < a then GetBit(MaskBits(Shr(x, s), w), n) else 0)
    {
      GetBitMask(Shr(MaskBits(x, a), s), w, n);
      GetBitShr(MaskBits(x, a), s, n);
      GetBitMask(x, a, n + s);
      GetBitMask(Shr(x, s), w, n);
      GetBitShr(x, s, n);
    }
    if s + w <= a {
      forall n: nat
        ensures GetBit(y, n) == GetBit(MaskBits(Shr(x, s), w), n)
      {
        GetBitMask(Shr(x, s), w, n);
      }
      BitsEqual(y, MaskBits(Shr(x, s), w));
    }
    if a <= s {
      forall n: nat
        ensures GetBit(y, n) == GetBit(0, n)
      {
        GetBitOfZero(n);
      }
      BitsEqual(y, 0);
    }
  }
}
