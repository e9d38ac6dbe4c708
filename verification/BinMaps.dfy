/** Bin maps: the 32-bit words smallmap and treemap that say which bins hold
    chunks, and the bit tricks dlmalloc searches them with
    (components/common/dlmalloc/malloc.c, lines 2921 to 2985). */
module BinMaps {
  import opened Words
  import opened Bits

  lemma Width32()
    ensures Pow2(32) == 0x1_0000_0000
  {
    hide Pow2;
    Pow2Bytes();
    Pow2Add(8, 8);
    Pow2Add(16, 16);
  }

  function Idx2Bit(i: nat): (b: uint32)
    requires i < 32
    ensures b > 0
  {
    Width32();
    Pow2Monotonic(i, 32);
    Pow2(i)
  }

  predicate Marked(m: uint32, i: nat)
    requires i < 32
  {
    And(m, Idx2Bit(i)) != 0
  }

  function Mark(m: uint32, i: nat): uint32
    requires i < 32
  {
    Width32();
    OrBound(m, Idx2Bit(i), 32);
    Or(m, Idx2Bit(i))
  }

  function Not32(x: uint32): uint32 {
    0xFFFF_FFFF - x
  }

  function Neg32(x: uint32): uint32 {
    if x == 0 then 0 else 0x1_0000_0000 - x
  }

  function And32(x: uint32, y: uint32): (r: uint32)
    ensures r <= x && r <= y
  {
    AndBound(x, y);
    And(x, y)
  }

  function Or32(x: uint32, y: uint32): uint32 {
    Width32();
    OrBound(x, y, 32);
    Or(x, y)
  }

  function Clear(m: uint32, i: nat): uint32
    requires i < 32
  {
    And32(m, Not32(Idx2Bit(i)))
  }

  function LeastBit(x: uint32): uint32 {
    And32(x, Neg32(x))
  }

  function Double32(x: uint32): uint32 {
    2 * x % 0x1_0000_0000
  }

  function Shr32(x: uint32, k: nat): (r: uint32)
  {
    ShrBound(x, k);
    Shr(x, k)
  }

  function Shl32(x: uint32, k: nat): uint32
  {
    Width32();
    Shl(x, k, 32)
  }

  /** left_bits: all bits to the left of the least bit of x. */
  function LeftBits(x: uint32): uint32 {
    Or32(Double32(x), Neg32(Double32(x)))
  }

  /** The shift-and-add form of compute_bit2idx: each step looks at one bit
      of Y and shifts Y down by that bit's weight when it is set. */
  function Bit2Idx(x: uint32): nat
    requires x > 0
  {
    var y0 := x - 1;
    var k0 := if y0 / 0x10000 % 2 == 1 then 16 else 0;
    var y1 := if k0 == 16 then y0 / 0x10000 else y0;
    var k1 := if y1 / 0x100 % 2 == 1 then 8 else 0;
    var y2 := if k1 == 8 then y1 / 0x100 else y1;
    k0 + k1 + Bit2IdxByte(y2)
  }

  function Bit2IdxByte(y2: nat): nat {
    var k2 := if y2 / 0x10 % 2 == 1 then 4 else 0;
    var y3 := if k2 == 4 then y2 / 0x10 else y2;
    var k3 := if y3 / 4 % 2 == 1 then 2 else 0;
    var y4 := if k3 == 2 then y3 / 4 else y3;
    var k4 := y4 % 2;
    k2 + k3 + k4 + (if k4 == 1 then y4 / 2 else y4)
  }

  // ---------------------------------------------------------------- marks

  lemma MarkedBit(m: uint32, i: nat)
    requires i < 32
    ensures Marked(m, i) <==> Bit(m, i)
  {
    var z := And(m, Idx2Bit(i));
    AndBound(m, Idx2Bit(i));
    Width32();
    if Bit(m, i) {
      AndBit(m, Idx2Bit(i), i);
      Pow2Bit(i, i);
      ZeroBit(i);
    } else {
      forall j: nat | j < 32
        ensures !Bit(z, j)
      {
        AndBit(m, Idx2Bit(i), j);
        Pow2Bit(i, j);
      }
      NoBits(z, 32);
    }
  }

  /** Marking and clearing change exactly one bin's mark. */
  lemma MarkClear(m: uint32, i: nat, j: nat)
    requires i < 32 && j < 32
    ensures Marked(Mark(m, i), j) <==> i == j || Marked(m, j)
    ensures Marked(Clear(m, i), j) <==> i != j && Marked(m, j)
  {
    hide Bit, And, Or;
    MarkedBit(m, j);
    MarkedBit(Mark(m, i), j);
    MarkedBit(Clear(m, i), j);
    Pow2Bit(i, j);
    OrBit(m, Idx2Bit(i), j);
    AndBit(m, Not32(Idx2Bit(i)), j);
    Width32();
    NotBit(Idx2Bit(i), 32, j);
  }

  lemma SomeMark(m: uint32)
    requires m != 0
    ensures exists i: nat :: i < 32 && Marked(m, i)
  {
    hide Bit;
    Width32();
    if forall i: nat :: i < 32 ==> !Bit(m, i) {
      NoBits(m, 32);
    } else {
      var i: nat :| i < 32 && Bit(m, i);
      MarkedBit(m, i);
    }
  }

  /** x & -x in a word of w bits is the lowest set bit of x. */
  lemma {:induction false} LeastBitIs(x: nat, w: nat) returns (l: nat)
    requires 0 < x < Pow2(w)
    ensures l < w && And(x, Pow2(w) - x) == Pow2(l)
    ensures Bit(x, l) && forall j: nat :: j < l ==> !Bit(x, j)
  {
    assert Pow2(w) == 2 * Pow2(w - 1);
    if x % 2 == 1 {
      l := 0;
      OddLeast(x, Pow2(w - 1), w - 1);
    } else {
      var l' := LeastBitIs(x / 2, w - 1);
      l := l' + 1;
      EvenAnd(x, Pow2(w - 1));
      assert Bit(x, l' + 1);
      forall j: nat | j < l
        ensures !Bit(x, j)
      {
        if j > 0 { assert !Bit(x / 2, j - 1); }
      }
    }
  }

  lemma OddLeast(x: nat, p: nat, w: nat)
    requires x % 2 == 1 && x < 2 * p && p == Pow2(w)
    ensures And(x, 2 * p - x) == 1
  {
    hide And, Pow2;
    var h := x / 2;
    assert x == 2 * h + 1;
    AndNot(h, w);
    AndOdd(h, p - 1 - h);
  }

  lemma AndOdd(h: nat, k: nat)
    ensures And(2 * h + 1, 2 * k + 1) == 2 * And(h, k) + 1
  {
    assert (2 * h + 1) / 2 == h && (2 * k + 1) / 2 == k && (2 * h + 1) % 2 == 1 && (2 * k + 1) % 2 == 1;
  }

  lemma EvenAnd(x: nat, p: nat)
    requires x % 2 == 0 && x < 2 * p
    ensures And(x, 2 * p - x) == 2 * And(x / 2, p - x / 2)
  {
    var h := x / 2;
    assert x == 2 * h;
    AndEven(h, p - h);
  }

  lemma AndEven(h: nat, k: nat)
    ensures And(2 * h, 2 * k) == 2 * And(h, k)
  {
    assert 2 * h / 2 == h && 2 * k / 2 == k && 2 * h % 2 == 0;
  }

  lemma {:induction false} AndNot(x: nat, w: nat)
    requires x < Pow2(w)
    ensures And(x, Not(x, w)) == 0
  {
    if x > 0 {
      assert Not(x, w) / 2 == Not(x / 2, w - 1);
      AndNot(x / 2, w - 1);
    }
  }

  lemma Pow2Bytes()
    ensures Pow2(0) == 1 && Pow2(1) == 2 && Pow2(2) == 4 && Pow2(3) == 8 && Pow2(4) == 0x10
    ensures Pow2(5) == 0x20 && Pow2(6) == 0x40 && Pow2(7) == 0x80 && Pow2(8) == 0x100
  {
  }

  lemma Pow2Shift(h: nat, l: nat)
    requires h < l
    ensures Pow2(l) == Pow2(h) * Pow2(l - h) && Pow2(l - h) % 2 == 0
  {
    Pow2Add(h, l - h);
    assert Pow2(l - h) == 2 * Pow2(l - h - 1);
  }

  lemma Bit2IdxOf(l: nat)
    requires l < 32
    ensures Pow2(l) < 0x1_0000_0000 && Bit2Idx(Pow2(l)) == l
  {
    hide Bit2IdxByte, Bit2Idx, Pow2;
    Width32();
    Pow2Monotonic(l, 32);
    assert Pow2(16) == 0x10000 by { Pow2Bytes(); Pow2Add(8, 8); }
    assert Pow2(8) == 0x100 by { Pow2Bytes(); }
    var l1 := if l > 16 then l - 16 else l;
    if l > 16 { Pow2Shift(16, l); }
    Pow2Order(l1, 16);
    var l2 := if l1 > 8 then l1 - 8 else l1;
    if l1 > 8 { Pow2Shift(8, l1); }
    Pow2Order(l2, 8);
    Bit2IdxByteOf(l2);
    Bit2IdxStages(Pow2(l), Pow2(l1), Pow2(l2), l > 16, l1 > 8);
  }

  lemma Bit2IdxStages(p: nat, p1: nat, p2: nat, b0: bool, b1: bool)
    requires 0 < p < 0x1_0000_0000 && 0 < p1 <= 0x10000 && 0 < p2 <= 0x100
    requires if b0 then p == 0x10000 * p1 && p1 % 2 == 0 else p == p1
    requires if b1 then p1 == 0x100 * p2 && p2 % 2 == 0 else p1 == p2
    ensures Bit2Idx(p) == (if b0 then 16 else 0) + (if b1 then 8 else 0) + Bit2IdxByte(p2 - 1)
  {
    hide Bit2IdxByte;
  }

  lemma Bit2IdxByteOf(l2: nat)
    requires l2 <= 8
    ensures Bit2IdxByte(Pow2(l2) - 1) == l2
  {
    hide Pow2, Bit2IdxByte;
    Pow2Bytes();
    Bit2IdxBytes();
  }

  lemma Bit2IdxBytes()
    ensures Bit2IdxByte(0) == 0 && Bit2IdxByte(1) == 1 && Bit2IdxByte(3) == 2 && Bit2IdxByte(7) == 3
            && Bit2IdxByte(15) == 4
    ensures Bit2IdxByte(31) == 5 && Bit2IdxByte(63) == 6 && Bit2IdxByte(127) == 7 && Bit2IdxByte(255) == 8
  {
  }

  /** compute_bit2idx of the least bit of a non-zero map is the map's lowest
      set position. */
  lemma LowestSetPosition(x: uint32)
    requires x != 0
    ensures LeastBit(x) > 0
    ensures var i := Bit2Idx(LeastBit(x)); i < 32 && Marked(x, i) && forall j: nat :: j < i ==> !Marked(x, j)
  {
    hide Bit, Bit2Idx, And;
    Width32();
    var l := LeastBitIs(x, 32);
    Bit2IdxOf(l);
    MarkedBit(x, l);
    forall j: nat | j < l
      ensures !Marked(x, j)
    {
      MarkedBit(x, j);
    }
  }

  lemma {:induction false} ShrBound(x: nat, k: nat)
    ensures Shr(x, k) <= x
  {
    if k > 0 { ShrBound(x / 2, k - 1); }
  }

  /** left_bits of a one-bit word has exactly the higher bits. */
  lemma LeftBitsOf(k: nat, j: nat)
    requires k < 32 && j < 32
    ensures Bit(LeftBits(Idx2Bit(k)), j) <==> k < j
  {
    hide Bit, Or;
    var d := Double32(Idx2Bit(k));
    Width32();
    assert d == Double(Pow2(k), 32);
    DoubleBit(Pow2(k), 32, j);
    if j > 0 { Pow2Bit(k, j - 1); }
    OrBit(d, Neg32(d), j);
    if k == 31 {
      assert d == 0;
      ZeroBit(j);
    } else {
      Pow2Monotonic(k, 31);
      assert d == Pow2(k + 1);
      NegPow2Bit(k + 1, 32, j);
    }
  }

  lemma {:induction false} NegPow2Bit(k: nat, w: nat, j: nat)
    requires k < w && j < w
    ensures Pow2(k) < Pow2(w) && (Bit(Pow2(w) - Pow2(k), j) <==> k <= j)
  {
    Pow2Monotonic(k, w);
    var y := Pow2(w) - Pow2(k);
    if k == 0 {
      assert y == Not(0, w);
      NotBit(0, w, j);
      ZeroBit(j);
    } else {
      assert y / 2 == Pow2(w - 1) - Pow2(k - 1);
      if j > 0 {
        NegPow2Bit(k - 1, w - 1, j - 1);
      }
    }
  }

  /** left_bits keeps exactly the bins above idx. */
  lemma LeftBitsAbove(m: uint32, idx: nat, j: nat)
    requires idx < 32 && j < 32
    ensures Marked(And32(LeftBits(Idx2Bit(idx)), m), j) <==> idx < j && Marked(m, j)
  {
    hide Bit, And;
    MarkedBit(m, j);
    MarkedBit(And32(LeftBits(Idx2Bit(idx)), m), j);
    AndBit(LeftBits(Idx2Bit(idx)), m, j);
    LeftBitsOf(idx, j);
  }

  /** The test dlmalloc makes for a remainderless fit, and its choice between
      the two bins. */
  lemma RemainderlessBits(m: uint32, idx: nat)
    requires idx < 31
    ensures And32(Shr32(m, idx), 3) != 0 <==> Marked(m, idx) || Marked(m, idx + 1)
    ensures And32(Not32(Shr32(m, idx)), 1) == if Marked(m, idx) then 0 else 1
  {
    var y := Shr32(m, idx);
    LowBits(y);
    ShrBit(m, idx, 0);
    ShrBit(m, idx, 1);
    MarkedBit(m, idx);
    MarkedBit(m, idx + 1);
  }

  lemma LowBits(y: uint32)
    ensures And(y, 3) == 0 <==> y % 2 == 0 && y / 2 % 2 == 0
    ensures And(Not32(y), 1) == 1 - y % 2
    ensures Bit(y, 0) <==> y % 2 == 1
    ensures Bit(y, 1) <==> y / 2 % 2 == 1
  {
    hide And;
    AndStep(y, 3);
    AndStep(y / 2, 1);
    AndZero(y / 2 / 2);
    AndStep(Not32(y), 1);
    AndZero(Not32(y) / 2);
    NotParity(y);
    BitTwo(y);
  }

  lemma NotParity(y: uint32)
    ensures Not32(y) % 2 == 1 - y % 2
  {
    Parity(y);
  }

  lemma BitTwo(y: nat)
    ensures (Bit(y, 0) <==> y % 2 == 1) && (Bit(y, 1) <==> y / 2 % 2 == 1)
  {
  }

  /** The small bins dlmalloc looks in after a failed remainderless fit are
      exactly the marked bins above idx. */
  lemma NextSmallBins(m: uint32, idx: nat, j: nat)
    requires idx < 32 && j < 32
    ensures Marked(And32(Shl32(Shr32(m, idx), idx), LeftBits(Idx2Bit(idx))), j) <==> idx < j && Marked(m, j)
  {
    hide Bit, And, Shl, Shr, LeftBits, Marked;
    var r := Shl32(Shr32(m, idx), idx);
    var l := LeftBits(Idx2Bit(idx));
    Width32();
    MarkedBit(m, j);
    MarkedBit(And32(r, l), j);
    AndBit(r, l, j);
    LeftBitsOf(idx, j);
    ShlBit(Shr32(m, idx), idx, 32, j);
    if idx <= j {
      ShrBit(m, idx, j - idx);
    }
  }

  lemma ShiftMarked(m: uint32, idx: nat, k: nat)
    requires idx + k < 32
    ensures Marked(Shr32(m, idx), k) <==> Marked(m, idx + k)
  {
    hide Bit, And, Shr;
    MarkedBit(Shr32(m, idx), k);
    MarkedBit(m, idx + k);
    ShrBit(m, idx, k);
  }

  lemma ShiftedOut(m: uint32, idx: nat, k: nat)
    requires idx < 32 && k < 32 && idx + k >= 32
    ensures !Marked(Shr32(m, idx), k)
  {
    hide Bit, And, Shr;
    MarkedBit(Shr32(m, idx), k);
    ShrBit(m, idx, k);
    Width32();
    BitBound(m, 32, idx + k);
  }

  lemma NoMarks(j: nat)
    requires j < 32
    ensures !Marked(0, j)
  {
  }

  /** What the shifted small map says about the bins from idx on. */
  lemma SmallBits(m: uint32, idx: nat)
    requires idx < 31
    ensures Shr32(m, idx) == 0 ==> forall j: nat :: idx <= j < 32 ==> !Marked(m, j)
    ensures Shr32(m, idx) != 0 && And32(Shr32(m, idx), 3) == 0 ==>
      (var l := And32(Shl32(Shr32(m, idx), idx), LeftBits(Idx2Bit(idx)));
       l != 0 && LeastBit(l) > 0 &&
       var i := Bit2Idx(LeastBit(l)); idx < i < 32 && Marked(m, i) && forall j: nat :: idx <= j < i ==> !Marked(m, j))
  {
    hide Marked, Shr32, And32, Shl32, LeftBits, LeastBit, Bit2Idx;
    var y := Shr32(m, idx);
    if y == 0 {
      forall j: nat | idx <= j < 32 ensures !Marked(m, j) {
        ShiftMarked(m, idx, j - idx);
        NoMarks(j - idx);
      }
    } else if And32(y, 3) == 0 {
      RemainderlessBits(m, idx);
      SomeMark(y);
      var k: nat :| k < 32 && Marked(y, k);
      if idx + k >= 32 { ShiftedOut(m, idx, k); }
      ShiftMarked(m, idx, k);
      NextSmallBins(m, idx, idx + k);
      var l := And32(Shl32(y, idx), LeftBits(Idx2Bit(idx)));
      NoMarks(idx + k);
      LowestSetPosition(l);
      var i := Bit2Idx(LeastBit(l));
      NextSmallBins(m, idx, i);
      forall j: nat | idx <= j < i ensures !Marked(m, j) {
        if j > idx { NextSmallBins(m, idx, j); }
      }
    }
  }
}
