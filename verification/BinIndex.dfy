/** Tree-bin indices (components/common/dlmalloc/malloc.c, lines 2886 to 2918).
    Sizes are 64-bit words, the working registers of compute_tree_index are
    32-bit words. */
module BinIndex {
  import opened Words
  import opened Bits
  import opened BinMaps

  const TREEBIN_SHIFT: nat := 8
  const NTREEBINS: nat := 32

  function Sub32(x: uint32, y: uint32): uint32 {
    if y <= x then x - y else x + 0x1_0000_0000 - y
  }

  /** The branch-free compute_tree_index. */
  function TreeIndex(s: uint64): nat {
    var x := s / 0x100;
    if x == 0 then 0
    else if x > 0xFFFF then NTREEBINS - 1
    else
      var y0: uint32 := x;
      var n0 := And32(Shr32(Sub32(y0, 0x100), 16), 8);
      var y1 := Shl32(y0, n0);
      var k1 := And32(Shr32(Sub32(y1, 0x1000), 16), 4);
      var y2 := Shl32(y1, k1);
      var k2 := And32(Shr32(Sub32(y2, 0x4000), 16), 2);
      var n := n0 + k1 + k2;
      var y3 := Shl32(y2, k2);
      var k := 14 - n + Shr32(y3, 15);
      2 * k + And(Shr(s, k + 7), 1)
  }

  /** minsize_for_tree_index */
  function MinSize(i: nat): nat {
    Pow2(i / 2 + 8) + (if i % 2 == 1 then Pow2(i / 2 + 7) else 0)
  }

  // --------------------------------------------------------------- proofs

  lemma {:induction false} ShrDiv(x: nat, k: nat, p: nat)
    requires p == Pow2(k)
    ensures Shr(x, k) * p <= x < Shr(x, k) * p + p
  {
    if k > 0 {
      var q, h := Shr(x / 2, k - 1), Pow2(k - 1);
      ShrDiv(x / 2, k - 1, h);
      Parity(x);
      hide Pow2, Shr;
      DoubleProduct(q, h);
    }
  }

  lemma DoubleProduct(q: nat, h: nat)
    ensures q * (2 * h) == 2 * (q * h)
  {
  }

  lemma Pow16()
    ensures Pow2(16) == 0x10000 && Pow2(15) == 0x8000
  {
    hide Pow2;
    Pow2Bytes();
    Pow2Add(8, 8);
    Pow2Add(8, 7);
  }

  lemma {:induction false} AndPow2(x: nat, b: nat)
    requires x == 0 || x == 0xFFFF
    requires b == 8 || b == 4 || b == 2
    ensures And(x, b) == if x == 0 then 0 else b
  {
    hide And;
    AndStep(0, b);
    AndStep(0xFFFF, b);
    AndStep(0x7FFF, b / 2);
    AndStep(0x3FFF, b / 4);
    AndStep(0x1FFF, b / 8);
    AndZero(0x1FFF);
    AndZero(0x3FFF);
    AndZero(0xFFF);
  }

  /** The sign trick: the borrow of y - c is bit b of its high half. */
  lemma Borrow(y: uint32, c: uint32, b: uint32)
    requires 0 < y < 0x10000 && c < 0x10000
    requires b == 8 || b == 4 || b == 2
    ensures And32(Shr32(Sub32(y, c), 16), b) == if y < c then b else 0
  {
    hide And, Shr;
    var d := Sub32(y, c);
    Pow16();
    ShrDiv(d, 16, 0x10000);
    AndPow2(Shr(d, 16), b);
  }

  lemma ShlSmall(y: uint32, k: nat)
    requires y < 0x10000 && (k == 0 || k == 2 || k == 4 || k == 8)
    requires y * Pow2(k) < 0x10000
    ensures Shl32(y, k) == y * Pow2(k)
  {
    Width32();
    ShlMul(y, k);
  }

  lemma MulAssoc(a: nat, b: nat, c: nat)
    ensures a * b * c == a * (b * c)
  {
  }

  lemma Growing(a: nat, b: nat)
    requires b > 0
    ensures a <= a * b
  {
  }

  lemma {:induction false} ShlMul(y: nat, k: nat)
    requires y < Pow2(32) && y * Pow2(k) < Pow2(32)
    ensures Shl(y, k, 32) == y * Pow2(k)
    decreases k
  {
    if k > 0 {
      var h := Pow2(k - 1);
      MulAssoc(y, 2, h);
      hide Pow2;
      Growing(2 * y, h);
      ShlMul(2 * y, k - 1);
    }
  }

  /** floor-log2 of the size above the tree shift, as the registers compute it. */
  lemma FloorLog(x: uint32) returns (k: nat)
    requires 0 < x <= 0xFFFF
    ensures k < 16 && Pow2(k) <= x < Pow2(k + 1)
    ensures forall s: uint64 :: s / 0x100 == x ==> TreeIndex(s) == 2 * k + And(Shr(s, k + 7), 1)
  {
    hide And, Shr, Shl, Pow2;
    Pow2Bytes();
    var n0: nat := if x < 0x100 then 8 else 0;
    Borrow(x, 0x100, 8);
    var y1: uint32 := if x < 0x100 then x * 0x100 else x;
    ShlSmall(x, n0);
    var k1: nat := if y1 < 0x1000 then 4 else 0;
    Borrow(y1, 0x1000, 4);
    var y2: uint32 := if y1 < 0x1000 then y1 * 16 else y1;
    ShlSmall(y1, k1);
    var k2: nat := if y2 < 0x4000 then 2 else 0;
    Borrow(y2, 0x4000, 2);
    var y3: uint32 := if y2 < 0x4000 then y2 * 4 else y2;
    ShlSmall(y2, k2);
    Pow16();
    ShrDiv(y3, 15, 0x8000);
    var n := n0 + k1 + k2;
    k := 14 - n + Shr32(y3, 15);
    assert y3 == x * Pow2(n) by { ShiftTotal(x, n0, k1, k2, n, y1, y2, y3); }
    Normalised(x, n, y3, k);
  }

  lemma ShiftTotal(x: nat, n0: nat, k1: nat, k2: nat, n: nat, y1: nat, y2: nat, y3: nat)
    requires n == n0 + k1 + k2
    requires y1 == x * Pow2(n0) && y2 == y1 * Pow2(k1) && y3 == y2 * Pow2(k2)
    ensures y3 == x * Pow2(n)
  {
    hide Pow2;
    Pow2Add(n0, k1);
    Pow2Add(n0 + k1, k2);
    MulAssoc(x, Pow2(n0), Pow2(k1));
    MulAssoc(x, Pow2(n0 + k1), Pow2(k2));
  }

  lemma Normalised(x: nat, n: nat, y: nat, k: nat)
    requires n <= 14 && y == x * Pow2(n)
    requires 0x4000 <= y < 0x10000
    requires k == 14 - n + (if y >= 0x8000 then 1 else 0)
    ensures Pow2(k) <= x < Pow2(k + 1)
  {
    hide Pow2;
    Pow16();
    assert Pow2(14) == 0x4000 by { Pow2Bytes(); Pow2Add(8, 6); }
    Pow2Add(n, k);
    Pow2Add(n, k + 1);
    var p := Pow2(n);
    assert p * Pow2(k) <= p * x < p * Pow2(k + 1);
    if x < Pow2(k) { MulLess(p, x, Pow2(k)); }
    if x >= Pow2(k + 1) { MulLessEq(p, Pow2(k + 1), x); }
  }

  lemma MulLess(p: nat, a: nat, b: nat)
    requires p > 0 && a < b
    ensures p * a < p * b
  {
  }

  lemma MulLessEq(p: nat, a: nat, b: nat)
    requires a <= b
    ensures p * a <= p * b
  {
  }

  lemma {:induction false} MinSizeMonotonic(i: nat, j: nat)
    requires i < j
    ensures MinSize(i) < MinSize(j)
  {
    if i + 1 < j {
      MinSizeMonotonic(i, j - 1);
    }
    var h := j - 1;
    assert Pow2(h / 2 + 8) == 2 * Pow2(h / 2 + 7);
    if h % 2 == 1 {
      assert j / 2 == h / 2 + 1;
      assert Pow2(j / 2 + 8) == 2 * Pow2(h / 2 + 8);
    }
  }

  lemma LowBit(z: nat)
    ensures And(z, 1) == z % 2
  {
    AndZero(z / 2);
  }

  lemma ScaleUp(k: nat, x: nat, s: nat)
    requires x == s / 0x100 && Pow2(k) <= x < Pow2(k + 1)
    ensures Pow2(k + 8) <= s < Pow2(k + 9)
  {
    hide Pow2;
    Pow2Bytes();
    Pow2Add(8, k);
    Pow2Add(8, k + 1);
  }

  lemma LastBinMin()
    ensures MinSize(31) == 0xC0_0000
  {
    hide Pow2;
    Pow16();
    Pow2Bytes();
    Pow2Add(16, 7);
    Pow2Add(16, 6);
  }

  /** Each size of at least 256 bytes lies in the bin that minsize_for_tree_index
      bounds; the last bin has no upper bound. */
  lemma TreeIndexRange(s: uint64)
    requires s >= 0x100
    ensures TreeIndex(s) < NTREEBINS
    ensures MinSize(TreeIndex(s)) <= s
    ensures TreeIndex(s) < NTREEBINS - 1 ==> s < MinSize(TreeIndex(s) + 1)
  {
    hide And, Shr, Shl, MinSize, And32, Shr32, Shl32;
    var x := s / 0x100;
    if x > 0xFFFF {
      LastBinMin();
    } else {
      hide TreeIndex;
      var k := FloorLog(x);
      ScaleUp(k, x, s);
      BinOfLog(s, k);
      AndBound(Shr(s, k + 7), 1);
    }
  }

  lemma BinOfLog(s: nat, k: nat)
    requires Pow2(k + 8) <= s < Pow2(k + 9)
    ensures var i := 2 * k + And(Shr(s, k + 7), 1); MinSize(i) <= s < MinSize(i + 1)
  {
    hide And, Shr;
    var z := Shr(s, k + 7);
    var p := Pow2(k + 7);
    ShrDiv(s, k + 7, p);
    assert Pow2(k + 8) == 2 * p && Pow2(k + 9) == 4 * p;
    assert 2 <= z < 4 by {
      if z < 2 { MulLessEq(p, z, 1); }
      if z >= 4 { MulLessEq(p, 4, z); }
    }
    LowBit(z);
    var i := 2 * k + z % 2;
    assert i / 2 == k;
    assert z == 2 ==> (i + 1) / 2 == k;
    assert z == 3 ==> (i + 1) / 2 == k + 1 && (i + 1) % 2 == 0;
  }

  /** The bin of a size is the only one whose bounds hold it. */
  lemma TreeIndexUnique(s: uint64, i: nat)
    requires s >= 0x100 && i < NTREEBINS
    requires MinSize(i) <= s && (i < NTREEBINS - 1 ==> s < MinSize(i + 1))
    ensures TreeIndex(s) == i
  {
    hide TreeIndex, MinSize;
    TreeIndexRange(s);
    var t := TreeIndex(s);
    if t < i {
      if t + 1 < i { MinSizeMonotonic(t + 1, i); }
    } else if i < t {
      if i + 1 < t { MinSizeMonotonic(i + 1, t); }
    }
  }
}
