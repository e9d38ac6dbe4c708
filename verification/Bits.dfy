/** Unsigned machine words as natural numbers: bits, shifts and the bitwise
    operators the allocator's index macros use. */
module Bits {

  function Pow2(n: nat): (p: nat)
    ensures p > 0
  {
    if n == 0 then 1 else 2 * Pow2(n - 1)
  }

  predicate Bit(x: nat, i: nat) {
    if i == 0 then x % 2 == 1 else Bit(x / 2, i - 1)
  }

  function And(x: nat, y: nat): nat {
    if x == 0 then 0 else 2 * And(x / 2, y / 2) + (x % 2) * (y % 2)
  }

  function Or(x: nat, y: nat): nat {
    if x == 0 then y else 2 * Or(x / 2, y / 2) + (if x % 2 == 1 || y % 2 == 1 then 1 else 0)
  }

  /** x >> k */
  function Shr(x: nat, k: nat): nat {
    if k == 0 then x else Shr(x / 2, k - 1)
  }

  /** x << 1 in a word of w bits */
  function Double(x: nat, w: nat): (r: nat)
    requires x < Pow2(w)
    ensures r < Pow2(w)
  {
    if 2 * x < Pow2(w) then 2 * x else 2 * x - Pow2(w)
  }

  /** x << k in a word of w bits */
  function Shl(x: nat, k: nat, w: nat): (r: nat)
    requires x < Pow2(w)
    ensures r < Pow2(w)
    decreases k
  {
    if k == 0 then x else Shl(Double(x, w), k - 1, w)
  }

  /** ~x in a word of w bits */
  function Not(x: nat, w: nat): nat
    requires x < Pow2(w)
  {
    Pow2(w) - 1 - x
  }

  // ------------------------------------------------------------------ bits

  lemma {:induction false} AndBit(x: nat, y: nat, i: nat)
    ensures Bit(And(x, y), i) <==> Bit(x, i) && Bit(y, i)
    decreases i
  {
    var z := And(x, y);
    if x == 0 {
      ZeroBit(i);
    } else {
      assert z / 2 == And(x / 2, y / 2) && z % 2 == (x % 2) * (y % 2);
      if i > 0 {
        AndBit(x / 2, y / 2, i - 1);
      }
    }
  }

  lemma {:induction false} ZeroBit(i: nat)
    ensures !Bit(0, i)
  {
    if i > 0 { ZeroBit(i - 1); }
  }

  lemma {:induction false} OrBit(x: nat, y: nat, i: nat)
    ensures Bit(Or(x, y), i) <==> Bit(x, i) || Bit(y, i)
    decreases i
  {
    if x == 0 {
      ZeroBit(i);
    } else if i > 0 {
      assert Or(x, y) / 2 == Or(x / 2, y / 2);
      OrBit(x / 2, y / 2, i - 1);
    }
  }

  lemma {:induction false} ShrBit(x: nat, k: nat, i: nat)
    ensures Bit(Shr(x, k), i) <==> Bit(x, i + k)
  {
    if k > 0 {
      ShrBit(x / 2, k - 1, i);
    }
  }

  lemma {:induction false} NotBit(x: nat, w: nat, i: nat)
    requires x < Pow2(w) && i < w
    ensures Bit(Not(x, w), i) <==> !Bit(x, i)
    decreases i
  {
    if i > 0 {
      assert Not(x, w) / 2 == Not(x / 2, w - 1);
      NotBit(x / 2, w - 1, i - 1);
    }
  }

  lemma {:induction false} Pow2Bit(k: nat, i: nat)
    ensures Bit(Pow2(k), i) <==> i == k
  {
    if k == 0 {
      if i > 0 { ZeroBit(i - 1); }
    } else if i > 0 {
      assert Pow2(k) / 2 == Pow2(k - 1);
      Pow2Bit(k - 1, i - 1);
    }
  }

  lemma {:induction false} Pow2Monotonic(i: nat, j: nat)
    requires i < j
    ensures 2 * Pow2(i) <= Pow2(j)
  {
    if i + 1 < j {
      Pow2Monotonic(i, j - 1);
    }
  }

  lemma {:induction false} Pow2Add(i: nat, j: nat)
    ensures Pow2(i + j) == Pow2(i) * Pow2(j)
  {
    if i > 0 {
      Pow2Add(i - 1, j);
    }
  }

  lemma {:induction false} BitBound(x: nat, w: nat, i: nat)
    requires x < Pow2(w) && w <= i
    ensures !Bit(x, i)
    decreases i
  {
    if w == 0 {
      ZeroBit(i);
    } else {
      BitBound(x / 2, w - 1, i - 1);
    }
  }

  /** A word with no set bit is zero. */
  lemma {:induction false} NoBits(x: nat, w: nat)
    requires x < Pow2(w)
    requires forall i: nat :: i < w ==> !Bit(x, i)
    ensures x == 0
  {
    if w > 0 {
      assert !Bit(x, 0);
      forall i: nat | i < w - 1
        ensures !Bit(x / 2, i)
      {
        assert !Bit(x, i + 1);
      }
      NoBits(x / 2, w - 1);
    }
  }

  lemma {:induction false} AndBound(x: nat, y: nat)
    ensures And(x, y) <= x && And(x, y) <= y
  {
    if x > 0 {
      AndBound(x / 2, y / 2);
    }
  }

  lemma {:induction false} OrBound(x: nat, y: nat, w: nat)
    requires x < Pow2(w) && y < Pow2(w)
    ensures Or(x, y) < Pow2(w)
  {
    if x > 0 {
      OrBound(x / 2, y / 2, w - 1);
    }
  }

  lemma {:induction false} DropTopBit(x: nat, w: nat, i: nat)
    requires Pow2(w) <= x && i < w
    ensures Bit(x - Pow2(w), i) <==> Bit(x, i)
    decreases i
  {
    assert Pow2(w) == 2 * Pow2(w - 1);
    assert (x - Pow2(w)) / 2 == x / 2 - Pow2(w - 1);
    if i > 0 {
      DropTopBit(x / 2, w - 1, i - 1);
    }
  }

  lemma DoubleBit(x: nat, w: nat, i: nat)
    requires x < Pow2(w) && i < w
    ensures Bit(Double(x, w), i) <==> i > 0 && Bit(x, i - 1)
  {
    assert Pow2(w) == 2 * Pow2(w - 1);
    if i > 0 && 2 * x >= Pow2(w) {
      assert Double(x, w) / 2 == x - Pow2(w - 1);
      DropTopBit(x, w - 1, i - 1);
    }
  }

  lemma {:induction false} ShlBit(x: nat, k: nat, w: nat, i: nat)
    requires x < Pow2(w) && i < w
    ensures Bit(Shl(x, k, w), i) <==> i >= k && Bit(x, i - k)
    decreases k
  {
    if k > 0 {
      ShlBit(Double(x, w), k - 1, w, i);
      if i >= k - 1 {
        DoubleBit(x, w, i - (k - 1));
      }
    }
  }

  lemma Pow2Order(a: nat, b: nat)
    requires a <= b
    ensures Pow2(a) <= Pow2(b)
  {
    if a < b { Pow2Monotonic(a, b); }
  }

  lemma {:induction false} AndZero(x: nat)
    ensures And(x, 0) == 0 && And(0, x) == 0
  {
    if x > 0 { AndZero(x / 2); }
  }

  lemma {:induction false} AndStep(x: nat, y: nat)
    ensures And(x, y) == if x == 0 then 0 else 2 * And(x / 2, y / 2) + if x % 2 == 1 && y % 2 == 1 then 1 else 0
  {
    ProductBits(x % 2, y % 2);
  }

  lemma ProductBits(a: nat, b: nat)
    requires a < 2 && b < 2
    ensures a * b == if a == 1 && b == 1 then 1 else 0
  {
  }

  lemma Parity(x: nat)
    ensures x == 2 * (x / 2) + x % 2 && (x % 2 == 0 || x % 2 == 1)
  {
  }

  lemma {:induction false} OrStep(x: nat, y: nat)
    ensures Or(x, y) == if x == 0 then y else 2 * Or(x / 2, y / 2) + if x % 2 == 1 || y % 2 == 1 then 1 else 0
  {
  }

  /** The halves of 2 * x and of 2 * x + 1. */
  lemma HalvesOf(x: nat)
    ensures (2 * x) / 2 == x && (2 * x) % 2 == 0 && (2 * x + 1) / 2 == x && (2 * x + 1) % 2 == 1
  {
  }
}
