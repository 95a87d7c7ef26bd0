/**
 * The DIZY utility `get_group`, and packing: a state seen as equal-width
 * groups, group 0 holding the most-significant bits.
 *
 * `Pack(parts, w)` is the number the source builds when it starts from 0 and
 * appends each part with `(acc << w) | part`. It is the common specification
 * of the S-box layer, the linear layer and the group mixing.
 */
module Groups {
  import opened Bits

  /**
   * `a * b`, by repeated addition. The position of a group is a product of
   * two variables; keeping it recursive keeps the proofs about groups of any
   * width linear. `MulIsProduct` shows it is the product.
   */
  function Mul(a: nat, b: nat): nat
    decreases a
  {
    if a == 0 then 0 else Mul(a - 1, b) + b
  }

  /** `get_group`: group i of `state` seen as `noGroups` groups of `groupSize` bits, group 0 most significant */
  function GetGroup(i: nat, groupSize: nat, noGroups: nat, state: nat): (g: nat)
    requires i < noGroups
    ensures g < Pow2(groupSize)
  {
    MaskBitsBound(Shr(state, Mul(noGroups - (i + 1), groupSize)), groupSize);
    MaskBits(Shr(state, Mul(noGroups - (i + 1), groupSize)), groupSize)
  }

  /** Every part fits in w bits. */
  predicate Fit(parts: seq<nat>, w: nat)
  {
    forall i | 0 <= i < |parts| :: parts[i] < Pow2(w)
  }

  /** The parts appended most-significant first, w bits each. */
  function Pack(parts: seq<nat>, w: nat): nat
  {
    if parts == [] then 0 else Concat(Pack(parts[..|parts| - 1], w), parts[|parts| - 1], w)
  }

  /**
   * The i lowest parts placed from the least-significant end, the way a loop
   * that ORs `part << (k * w)` into an accumulator builds them;
   * `PackLowIsPack` shows it is the packing of those parts.
   */
  function PackLow(parts: seq<nat>, i: nat, w: nat): nat
    requires i <= |parts|
  {
    if i == 0 then 0 else Or(PackLow(parts, i - 1, w), Shl(parts[|parts| - i], Mul(i - 1, w)))
  }

  /** The groups of `state`, most significant first. */
  function GroupsOf(state: nat, w: nat, n: nat): (gs: seq<nat>)
    ensures |gs| == n && Fit(gs, w)
  {
    seq(n, i requires 0 <= i < n => GetGroup(i, w, n, state))
  }

  /** The parts XOR-ed pairwise. */
  function XorEach(p: seq<nat>, q: seq<nat>): (r: seq<nat>)
    requires |p| == |q|
    ensures |r| == |p|
  {
    seq(|p|, i requires 0 <= i < |p| => Xor(p[i], q[i]))
  }

  // ---------------------------------------------------------------------------

  lemma {:induction false} MulIsProduct(a: nat, b: nat)
    ensures Mul(a, b) == a * b
  {
    if a > 0 {
      MulIsProduct(a - 1, b);
    }
  }

  lemma {:induction false} MulLess(a: nat, b: nat, w: nat)
    requires a < b
    ensures Mul(a, w) + w <= Mul(b, w)
  {
    if a < b - 1 {
      MulLess(a, b - 1, w);
    }
  }

  lemma GetGroupConcat(i: nat, w: nat, n: nat, hi: nat, lo: nat)
    requires i < n && lo < Pow2(w)
    ensures GetGroup(i, w, n, Concat(hi, lo, w)) == if i == n - 1 then lo else GetGroup(i, w, n - 1, hi)
  {
    var c := Concat(hi, lo, w);
    if i == n - 1 {
      assert Mul(n - (i + 1), w) == 0;
      MaskConcat(hi, lo, w);
    } else {
      var k := Mul(n - 1 - (i + 1), w);
      assert Mul(n - (i + 1), w) == k + w;
      ShrShr(c, w, k);
      ShrConcat(hi, lo, w);
    }
  }

  /** Bit j of group i is bit `(n - 1 - i) * w + j` of the state. */
  lemma GetBitOfGroup(i: nat, w: nat, n: nat, x: nat, j: nat)
    requires i < n && j < w
    ensures GetBit(GetGroup(i, w, n, x), j) == GetBit(x, Mul(n - 1 - i, w) + j)
  {
    var k := Mul(n - (i + 1), w);
    GetBitMask(Shr(x, k), w, j);
    GetBitShr(x, k, j);
  }

  /** A group one bit wide is a single bit. */
  lemma GetGroupOneBit(i: nat, n: nat, x: nat)
    requires i < n
    ensures GetGroup(i, 1, n, x) == GetBit(x, n - 1 - i)
  {
    MulIsProduct(n - (i + 1), 1);
    assert Pow2(1) - 1 == 1;
  }

  lemma GetGroupXor(i: nat, w: nat, n: nat, a: nat, b: nat)
    requires i < n
    ensures GetGroup(i, w, n, Xor(a, b)) == Xor(GetGroup(i, w, n, a), GetGroup(i, w, n, b))
  {
    var k := Mul(n - (i + 1), w);
    ShrXor(a, b, k);
    MaskXor(Shr(a, k), Shr(b, k), w);
  }

  lemma GetGroupZero(i: nat, w: nat, n: nat)
    requires i < n
    ensures GetGroup(i, w, n, 0) == 0
  {
    ShrZero(Mul(n - (i + 1), w));
    MaskZero(w);
  }

  /** A number below `2**(n*w)` is determined by its n groups. */
  lemma {:induction false} GroupsEqual(x: nat, y: nat, w: nat, n: nat)
    requires x < Pow2(Mul(n, w)) && y < Pow2(Mul(n, w))
    requires forall i | 0 <= i < n :: GetGroup(i, w, n, x) == GetGroup(i, w, n, y)
    ensures x == y
    decreases n
  {
    if n == 0 {
    } else {
      SplitConcat(x, w);
      SplitConcat(y, w);
      MaskBitsBound(x, w);
      MaskBitsBound(y, w);
      ShrBound(x, w, Mul(n - 1, w));
      ShrBound(y, w, Mul(n - 1, w));
      var m := n - 1;
      var hx, hy := Shr(x, w), Shr(y, w);
      forall i | 0 <= i < m
        ensures GetGroup(i, w, m, hx) == GetGroup(i, w, m, hy)
      {
        GetGroupConcat(i, w, n, Shr(x, w), MaskBits(x, w));
        GetGroupConcat(i, w, n, Shr(y, w), MaskBits(y, w));
      }
      GroupsEqual(Shr(x, w), Shr(y, w), w, n - 1);
      GetGroupConcat(n - 1, w, n, Shr(x, w), MaskBits(x, w));
      GetGroupConcat(n - 1, w, n, Shr(y, w), MaskBits(y, w));
    }
  }

  lemma {:induction false} PackBound(parts: seq<nat>, w: nat)
    requires Fit(parts, w)
    ensures Pack(parts, w) < Pow2(Mul(|parts|, w))
  {
    if parts != [] {
      var n := |parts|;
      var init := parts[..n - 1];
      assert Fit(init, w);
      PackBound(init, w);
      ConcatBound(Pack(init, w), parts[n - 1], w, Mul(n - 1, w));
    }
  }

  /** Group i of a packed value is part i. */
  lemma {:induction false} PackGroup(parts: seq<nat>, w: nat, i: nat)
    requires Fit(parts, w) && i < |parts|
    ensures GetGroup(i, w, |parts|, Pack(parts, w)) == parts[i]
  {
    var n := |parts|;
    GetGroupConcat(i, w, n, Pack(parts[..n - 1], w), parts[n - 1]);
    if i < n - 1 {
      PackGroup(parts[..n - 1], w, i);
    }
  }

  /** Packing the groups of a value gives the value back. */
  lemma UnpackPack(x: nat, w: nat, n: nat)
    requires x < Pow2(Mul(n, w))
    ensures Pack(GroupsOf(x, w, n), w) == x
  {
    var gs := GroupsOf(x, w, n);
    PackBound(gs, w);
    forall i | 0 <= i < n
      ensures GetGroup(i, w, n, Pack(gs, w)) == GetGroup(i, w, n, x)
    {
      PackGroup(gs, w, i);
    }
    GroupsEqual(Pack(gs, w), x, w, n);
  }

  /** Packing commutes with XOR. */
  lemma {:induction false} PackXor(p: seq<nat>, q: seq<nat>, w: nat)
    requires |p| == |q| && Fit(p, w) && Fit(q, w)
    ensures Pack(XorEach(p, q), w) == Xor(Pack(p, w), Pack(q, w))
  {
    var n := |p|;
    if n == 0 {
      XorZero(0);
    } else {
      var r := XorEach(p, q);
      assert r[..n - 1] == XorEach(p[..n - 1], q[..n - 1]);
      PackXor(p[..n - 1], q[..n - 1], w);
      PackBound(p[..n - 1], w);
      ConcatXor(Pack(p[..n - 1], w), p[n - 1], Pack(q[..n - 1], w), q[n - 1], w);
    }
  }

  /** Prepending a part puts it above all the others. */
  lemma {:induction false} PackCons(x: nat, rest: seq<nat>, w: nat)
    requires Fit(rest, w)
    ensures Pack([x] + rest, w) == Concat(x, Pack(rest, w), Mul(|rest|, w))
  {
    var s := [x] + rest;
    if rest == [] {
      assert s[..0] == [];
      ShlZero(w);
      OrZero(x);
      assert Shl(x, 0) == x;
    } else {
      var n := |rest|;
      assert s[..|s| - 1] == [x] + rest[..n - 1];
      assert s[|s| - 1] == rest[n - 1];
      PackCons(x, rest[..n - 1], w);
      PackBound(rest[..n - 1], w);
      ConcatAssoc(x, Pack(rest[..n - 1], w), rest[n - 1], Mul(n - 1, w), w);
    }
  }

  /** Building from the least-significant end gives the packing of the lowest parts. */
  lemma {:induction false} PackLowIsPack(parts: seq<nat>, i: nat, w: nat)
    requires Fit(parts, w) && i <= |parts|
    ensures PackLow(parts, i, w) == Pack(parts[|parts| - i..], w)
  {
    var n := |parts|;
    if i == 0 {
      assert parts[n..] == [];
    } else {
      var rest := parts[n - i + 1..];
      assert parts[n - i..] == [parts[n - i]] + rest;
      assert Fit(rest, w);
      PackLowIsPack(parts, i - 1, w);
      PackCons(parts[n - i], rest, w);
      PackBound(rest, w);
      OrShlDisjoint(Pack(rest, w), parts[n - i], Mul(i - 1, w));
    }
  }

  /** Appending nothing leaves a value unchanged. */
  lemma ConcatNothing(x: nat)
    ensures Concat(x, 0, 0) == x
  {
    assert Shl(x, 0) == x;
    OrZero(x);
  }

  /** A packing grows by one part on the right. */
  lemma PackSnoc(parts: seq<nat>, i: nat, w: nat)
    requires i < |parts|
    ensures Pack(parts[..i + 1], w) == Concat(Pack(parts[..i], w), parts[i], w)
  {
    assert parts[..i + 1][..i] == parts[..i];
  }

  /** A w-bit value shifted to the place of group i is group i, and every other group is zero. */
  lemma LanePlaced(y: nat, i: nat, j: nat, w: nat, n: nat)
    requires i < n && j < n && y < Pow2(w)
    ensures GetGroup(j, w, n, Shl(y, Mul(n - 1 - i, w))) == if j == i then y else 0
  {
    var m := Mul(n - 1 - i, w);
    var g := GetGroup(j, w, n, Shl(y, m));
    var expected := if j == i then y else 0;
    forall b: nat
      ensures GetBit(g, b) == GetBit(expected, b)
    {
      GetBitOfZero(b);
      if b < w {
        var pos := Mul(n - 1 - j, w) + b;
        GetBitOfGroup(j, w, n, Shl(y, m), b);
        GetBitShl(y, m, pos);
        if j < i {
          MulLess(n - 1 - i, n - 1 - j, w);
          HighBitsZero(y, w, pos - m);
        } else if i < j {
          MulLess(n - 1 - j, n - 1 - i, w);
        }
      } else {
        HighBitsZero(g, w, b);
        HighBitsZero(y, w, b);
      }
    }
    BitsEqual(g, expected);
  }
}
