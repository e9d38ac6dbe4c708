/** The register that steers a walk down a trie: the size shifted so that the
    bit that chooses the child is the sign bit, shifted on at every level
    (components/common/dlmalloc/malloc.c, lines 2906 to 2913, 3669 to 3673 and
    4448 to 4466). */
module TrieBits {
  import opened Words
  import opened Bits
  import opened BinMaps
  import opened BinIndex

  /** leftshift_for_tree_index */
  function LeftShift(i: nat): nat
    requires i < NTREEBINS
  {
    if i == NTREEBINS - 1 then 0 else 63 - (i / 2 + TREEBIN_SHIFT - 2)
  }

  /** The sizes of tree bin i are in [BinLow(i), BinLow(i) + 2^BinBits(i)). */
  function BinLow(i: nat): nat {
    if i == NTREEBINS - 1 then 0 else MinSize(i)
  }

  function BinBits(i: nat): (k: nat)
    ensures i < NTREEBINS ==> k <= 64
  {
    if i == NTREEBINS - 1 then 64 else i / 2 + 7
  }

  /** k << 1 in a 64-bit word */
  function Shl1(k: uint64): uint64 {
    if k < TWO63 then 2 * k else 2 * k - TWO64
  }

  function FirstBits(s: uint64, i: nat): (r: uint64)
    requires i < NTREEBINS
  {
    Width64();
    Shl(s, LeftShift(i), 64)
  }

  /** The register holds the low k bits of the size, left-aligned. */
  ghost predicate Steers(r: int, s: int, lo: int, k: nat) {
    k <= 64 && lo <= s < lo + Pow2(k) && r == (s - lo) * Pow2(64 - k)
  }

  lemma Width64()
    ensures Pow2(64) == TWO64 && Pow2(63) == TWO63
  {
    hide Pow2;
    Width32();
    Pow2Add(32, 32);
    Pow2Bytes();
    assert Pow2(31) == 0x8000_0000 by { Pow2Add(31, 1); }
    Pow2Add(32, 31);
  }

  lemma MulTwo(a: int, b: int)
    ensures 2 * (a * b) == a * (2 * b)
  {
  }

  lemma MulSplit(a: int, b: int, c: int)
    ensures (a - b) * c == a * c - b * c
  {
  }

  lemma MulGe(a: int, b: int, c: int)
    requires c > 0
    ensures a >= b <==> a * c >= b * c
  {
    if a >= b { assert (a - b) * c >= 0; } else { assert (b - a) * c > 0; }
  }

  /** The sign bit chooses the half, and the shifted register steers in it. */
  lemma SteerStep(r: uint64, s: int, lo: int, k: nat)
    requires Steers(r, s, lo, k) && k > 0
    ensures r >= TWO63 <==> s >= lo + Pow2(k - 1)
    ensures Steers(Shl1(r), s, if r >= TWO63 then lo + Pow2(k - 1) else lo, k - 1)
  {
    var d, h, c := s - lo, Pow2(k - 1), Pow2(64 - k);
    assert Pow2(k) == 2 * h;
    assert h * c == TWO63 by {
      hide Pow2;
      Pow2Add(k - 1, 64 - k);
      Width64();
    }
    assert Pow2(64 - (k - 1)) == 2 * c;
    hide Pow2;
    MulGe(d, h, c);
    MulTwo(d, c);
    if r >= TWO63 {
      MulSplit(d, h, 2 * c);
      MulTwo(h, c);
    }
  }

  lemma Pow2Half(n: nat)
    requires n > 0
    ensures Pow2(n) == 2 * Pow2(n - 1)
  {
  }

  lemma ShlZero(x: nat, w: nat, q: nat, r: nat)
    requires x < Pow2(w) && x == q * Pow2(w) + r
    ensures Shl(x, 0, w) == r
  {
    hide Pow2;
    if q > 0 { MulLessEq(Pow2(w), 1, q); }
  }

  lemma {:induction false} ShlValue(x: nat, k: nat, w: nat, q: nat, r: nat, p: nat, g: nat)
    requires k <= w && x < Pow2(w) && x == q * p + r && r < p && p == Pow2(w - k) && g == Pow2(k)
    ensures Shl(x, k, w) == r * g
    decreases k
  {
    if k == 0 {
      ShlZero(x, w, q, r);
      assert g == 1;
    } else {
      ShlUnfold(x, k, w);
      hide Pow2, Shl;
      Pow2Half(w - (k - 1));
      Pow2Half(k);
      var f := Pow2(k - 1);
      Pow2Add(k - 1, w - (k - 1));
      var q' := DoubleStep(x, q, p, r, f, Pow2(w));
      ShlValue(Double(x, w), k - 1, w, q', 2 * r, 2 * p, f);
      MulTwo(r, f);
      MulAssoc(2, r, f);
    }
  }

  lemma DoubleStep(x: nat, q: nat, p: nat, r: nat, g: nat, m: nat) returns (q': nat)
    requires x == q * p + r && r < p && g * (2 * p) == m && x < m
    ensures (if 2 * x < m then 2 * x else 2 * x - m) == q' * (2 * p) + 2 * r
  {
    MulTwo(q, p);
    if 2 * x < m {
      q' := q;
    } else {
      MulSplit(q, g, 2 * p);
      if q < g { MulNeg(q - g, 2 * p); }
      q' := q - g;
    }
  }

  lemma ShlUnfold(x: nat, k: nat, w: nat)
    requires x < Pow2(w) && k > 0
    ensures Shl(x, k, w) == Shl(Double(x, w), k - 1, w)
  {
  }

  lemma MulNeg(a: int, b: int)
    requires a < 0 < b
    ensures a * b <= -b
  {
  }

  lemma BinRange(s: uint64)
    requires s >= 0x100
    ensures var i := TreeIndex(s); BinLow(i) <= s < BinLow(i) + Pow2(BinBits(i))
  {
    hide TreeIndex;
    TreeIndexRange(s);
    var i := TreeIndex(s);
    if i < NTREEBINS - 1 {
      BinWidth(i);
    } else {
      hide Pow2;
      Width64();
    }
  }

  lemma BinWidth(i: nat)
    requires i < NTREEBINS - 1
    ensures MinSize(i + 1) == MinSize(i) + Pow2(i / 2 + 7)
    ensures MinSize(i) == (2 + i % 2) * Pow2(i / 2 + 7)
  {
    var p := Pow2(i / 2 + 7);
    assert Pow2(i / 2 + 8) == 2 * p;
    if i % 2 == 1 {
      assert (i + 1) / 2 == i / 2 + 1;
      assert Pow2(i / 2 + 9) == 4 * p;
    }
  }

  /** The first register of a walk steers in the whole bin. */
  lemma FirstSteers(s: uint64)
    requires s >= 0x100
    ensures TreeIndex(s) < NTREEBINS
    ensures var i := TreeIndex(s); Steers(FirstBits(s, i), s, BinLow(i), BinBits(i))
  {
    hide TreeIndex, Shl, Pow2;
    TreeIndexRange(s);
    BinRange(s);
    var i := TreeIndex(s);
    Width64();
    Pow2Bytes();
    if i == NTREEBINS - 1 {
      ShlValue(s, 0, 64, 0, s, TWO64, 1);
    } else {
      BinWidth(i);
      ShlValue(s, LeftShift(i), 64, 2 + i % 2, s - BinLow(i), Pow2(i / 2 + 7), Pow2(LeftShift(i)));
    }
  }
}
