/** Alignments of memalign: powers of two, the test for one, and the masks
    (components/common/dlmalloc/malloc.c, lines 4896 to 4945). */
module Aligning {
  import opened Words
  import opened Bits
  import opened TrieBits

  ghost predicate PowerOfTwo(x: nat) {
    exists k: nat :: x == Pow2(k)
  }

  lemma {:induction false} AndSelf(x: nat)
    ensures And(x, x) == x
  {
    hide And;
    AndStep(x, x);
    if x > 0 {
      Parity(x);
      AndSelf(x / 2);
    }
  }

  /** x & (x - 1) is zero exactly for powers of two. */
  lemma {:induction false} PowerTest(x: nat)
    requires x > 0
    ensures And(x, x - 1) == 0 <==> PowerOfTwo(x)
  {
    if x == 1 {
      assert x == Pow2(0);
    } else if x % 2 == 0 {
      var y := x / 2;
      assert (x - 1) / 2 == y - 1;
      PowerTest(y);
      if PowerOfTwo(y) {
        var k: nat :| y == Pow2(k);
        assert x == Pow2(k + 1);
      }
      if PowerOfTwo(x) {
        var k: nat :| x == Pow2(k);
        assert y == Pow2(k - 1);
      }
    } else {
      AndSelf(x / 2);
      assert And(x, x - 1) == 2 * And(x / 2, x / 2);
      forall k: nat ensures x != Pow2(k) { }
    }
  }

  /** x & (2^k - 1) is the remainder. */
  lemma {:induction false} LowMask(x: nat, k: nat)
    ensures And(x, Pow2(k) - 1) == x % Pow2(k)
    decreases k
  {
    if k == 0 {
      AndZero(x);
    } else {
      var p := Pow2(k - 1);
      LowMask(x / 2, k - 1);
      assert (2 * p - 1) / 2 == p - 1 && (2 * p - 1) % 2 == 1;
      HalfMod(x, p);
    }
  }

  /** Remainders by 2p from remainders of the half by p. */
  lemma HalfMod(x: nat, p: nat)
    requires p > 0
    ensures x % (2 * p) == 2 * (x / 2 % p) + x % 2
  {
    var q := x / 2 / p;
    assert x / 2 == q * p + x / 2 % p;
    assert x == q * (2 * p) + (2 * (x / 2 % p) + x % 2) by { assert q * (2 * p) == 2 * (q * p); }
    ModUnique(x, 2 * p, q, 2 * (x / 2 % p) + x % 2);
  }

  lemma ModUnique(x: nat, d: nat, q: nat, r: nat)
    requires d > 0 && x == q * d + r && r < d
    ensures x % d == r && x / d == q
  {
    var q' := x / d;
    assert x == q' * d + x % d;
    if q' < q { MulGap(q', q, d); } else if q < q' { MulGap(q, q', d); }
  }

  lemma ModSmall(y: nat, n: nat)
    requires y < n
    ensures y % n == y
  {
  }

  lemma ModOver(y: nat, n: nat)
    requires n <= y < 2 * n
    ensures y % n == y - n
  {
    ModUnique(y, n, 1, y - n);
  }

  lemma RoundDown(y: nat, n: nat)
    requires n > 0
    ensures (y - y % n) % n == 0 && y - n < y - y % n <= y
  {
    var q := y / n;
    assert y - y % n == q * n;
    ModUnique(q * n, n, q, 0);
  }

  lemma MulGap(a: nat, b: nat, d: nat)
    requires a < b
    ensures a * d + d <= b * d
  {
    assert b * d == a * d + (b - a) * d;
    assert (b - a) * d >= d by { assert (b - a) * d == d + (b - a - 1) * d; }
  }

  /** x & -(2^k), in w bits, rounds down to a multiple of 2^k. */
  lemma {:induction false} HighMask(x: nat, k: nat, w: nat)
    requires k <= w && x < Pow2(w) && Pow2(k) <= Pow2(w)
    ensures And(x, Pow2(w) - Pow2(k)) == x - x % Pow2(k)
    decreases w
  {
    hide Pow2, And;
    Pow2Step(k);
    Pow2Step(w);
    if k == 0 {
      AllOnes(x, w);
    } else {
      var p, q := Pow2(k - 1), Pow2(w - 1);
      Pow2Order(k - 1, w - 1);
      HighMask(x / 2, k - 1, w - 1);
      HighMaskStep(x, p, q);
    }
  }

  lemma Pow2Step(k: nat)
    ensures if k == 0 then Pow2(k) == 1 else Pow2(k) == 2 * Pow2(k - 1)
  {
  }

  lemma HighMaskStep(x: nat, p: nat, q: nat)
    requires 0 < p <= q && And(x / 2, q - p) == x / 2 - x / 2 % p
    ensures And(x, 2 * q - 2 * p) == x - x % (2 * p)
  {
    hide And;
    AndHalf(x, q - p);
    HalfMod(x, p);
  }

  lemma AndHalf(x: nat, y: nat)
    ensures And(x, 2 * y) == 2 * And(x / 2, y)
  {
    assert 2 * y / 2 == y && 2 * y % 2 == 0;
  }

  lemma {:induction false} AllOnes(x: nat, w: nat)
    requires x < Pow2(w)
    ensures And(x, Pow2(w) - 1) == x
    decreases w
  {
    if w > 0 {
      AllOnes(x / 2, w - 1);
      assert (2 * Pow2(w - 1) - 1) / 2 == Pow2(w - 1) - 1;
    }
  }

  // ------------------------------------------------------- the next power

  /** a <<= 1, in 64 bits. */
  function Twice64(a: uint64): uint64 {
    2 * a % TWO64
  }

  /** The loop of internal_memalign that finds the next power of two. It stops
      exactly for alignments up to 2^63; see NeverReached. */
  method NextPower(alignment: uint64) returns (a: uint64)
    requires alignment <= TWO63
    ensures PowerOfTwo(a) && alignment <= a && (a == 32 || a < 2 * alignment)
  {
    a := 32;
    ghost var k := 5;
    assert Pow2(5) == 32;
    while a < alignment
      invariant a == Pow2(k) && (a == 32 || a < 2 * alignment)
      decreases alignment - a
    {
      a := Twice64(a);
      k := k + 1;
    }
  }

  ghost function Doubled(k: nat): uint64 {
    if k == 0 then 32 else Twice64(Doubled(k - 1))
  }

  /** Beyond 2^63 no number of doublings ends the loop. */
  lemma {:induction false} NeverReached(alignment: uint64, k: nat)
    requires alignment > TWO63
    ensures Doubled(k) < alignment
  {
    DoubledPower(k);
  }

  lemma {:induction false} DoubledPower(k: nat)
    ensures Doubled(k) == if k < 59 then 32 * Pow2(k) else 0
    ensures k < 59 ==> 32 * Pow2(k) <= TWO63
  {
    Power58();
    if k > 0 {
      DoubledPower(k - 1);
      PowerNext(k - 1);
      hide Pow2;
      if k < 59 {
        Pow2Order(k, 58);
        ModSmall(32 * Pow2(k), TWO64);
      } else {
        TwiceZero();
      }
    }
  }

  lemma PowerNext(k: nat)
    ensures Pow2(k + 1) == 2 * Pow2(k)
  {
  }

  lemma TwiceZero()
    ensures Twice64(0) == 0 && Twice64(TWO63) == 0
  {
  }

  lemma Power58()
    ensures 32 * Pow2(58) == TWO63
  {
    Width64();
    assert Pow2(63) == 2 * 2 * 2 * 2 * 2 * Pow2(58);
  }

  // -------------------------------------------------- the aligned position

  lemma Multiple(q: nat, a: nat, c: nat)
    requires a > 0 && a == 16 * c
    ensures q * a % a == 0 && q * a % 16 == 0
  {
    ModUnique(q * a, a, q, 0);
    assert q * a == (q * c) * 16;
    ModUnique(q * a, 16, q * c, 0);
  }

  lemma PowerBy16(a: nat)
    requires PowerOfTwo(a) && a >= 32
    ensures a % 16 == 0
  {
    var k: nat :| a == Pow2(k);
    if k < 4 { Pow2Order(k, 4); }
    assert Pow2(4) == 16;
    Pow2Add(4, k - 4);
    ModUnique(a, 16, Pow2(k - 4), 0);
  }

  /** The place internal_memalign moves a misaligned block to. */
  function AlignedSpot(mem: uint64, a: uint64): int
    requires a > 0
  {
    var br := And((mem + a - 1) % TWO64, TWO64 - a) - 16;
    if br - (mem - 16) >= 32 then br else br + a
  }

  lemma MaskedUp(mem: uint64, a: uint64)
    requires PowerOfTwo(a) && a > 0 && mem + a - 1 < TWO64
    ensures And((mem + a - 1) % TWO64, TWO64 - a) == mem + a - 1 - (mem + a - 1) % a
  {
    hide And, Pow2;
    var k: nat :| a == Pow2(k);
    var x := mem + a - 1;
    Small64(x);
    Width64();
    if k > 64 { Pow2Order(64, k); }
    HighMask(x, k, 64);
  }

  lemma Small64(x: nat)
    requires x < TWO64
    ensures x % TWO64 == x
  {
  }

  lemma SpotFacts(mem: uint64, a: uint64)
    requires PowerOfTwo(a) && 32 <= a && mem % 16 == 0 && And(mem, a - 1) != 0 && mem + a - 1 < TWO64
    ensures var pos := AlignedSpot(mem, a); var lead := pos - (mem - 16);
            (pos + 16) % a == 0 && lead % 16 == 0 && 32 <= lead <= a + 16
  {
    hide And, PowerOfTwo;
    MaskTest(mem, a);
    MaskedUp(mem, a);
    PowerBy16(a);
    Rounding(mem, a);
    SpotOf(mem, a, mem + a - 1 - (mem + a - 1) % a, AlignedSpot(mem, a));
  }

  lemma SpotOf(mem: nat, a: nat, r: int, pos: int)
    requires a >= 32 && a % 16 == 0 && mem % 16 == 0 && r % a == 0 && (r + a) % a == 0 && r % 16 == 0
             && mem + 16 <= r < mem + a
    requires pos == if r - 16 - (mem - 16) >= 32 then r - 16 else r - 16 + a
    ensures var lead := pos - (mem - 16); (pos + 16) % a == 0 && lead % 16 == 0 && 32 <= lead <= a + 16
  {
    Sixteens(mem, a, r);
    assert pos + 16 == r || pos + 16 == r + a;
    assert pos - (mem - 16) == r - mem || pos - (mem - 16) == r - mem + a;
  }

  lemma Sixteens(mem: nat, a: nat, r: nat)
    requires a % 16 == 0 && mem % 16 == 0 && r % 16 == 0 && r >= mem
    ensures (r - mem) % 16 == 0 && (r - mem + a) % 16 == 0 && (r - mem < 32 ==> r - mem <= 16)
  {
  }

  lemma Rounding(mem: nat, a: nat)
    requires a >= 32 && a % 16 == 0 && mem % 16 == 0 && mem % a != 0
    ensures var x := mem + a - 1; var r := x - x % a;
            r % a == 0 && (r + a) % a == 0 && r % 16 == 0 && mem + 16 <= r < mem + a
  {
    var x := mem + a - 1;
    var q, c := x / a, a / 16;
    var r := x - x % a;
    RoundDown(x, a);
    assert r == q * a;
    Multiple(q, a, c);
    Multiple(q + 1, a, c);
    assert (q + 1) * a == q * a + a;
    NextSixteen(mem, r);
  }

  lemma NextSixteen(mem: nat, r: nat)
    requires mem % 16 == 0 && r % 16 == 0 && mem < r
    ensures mem + 16 <= r
  {
  }

  /** For a power of two the mask test is divisibility. */
  lemma MaskTest(mem: nat, a: nat)
    requires PowerOfTwo(a) && a > 0
    ensures And(mem, a - 1) == mem % a
  {
    var k: nat :| a == Pow2(k);
    LowMask(mem, k);
  }

  /** The alignment internal_memalign works with. */
  method Normalize(alignment0: uint64) returns (a: uint64)
    requires alignment0 <= TWO63
    ensures PowerOfTwo(a) && 32 <= a <= TWO63 && alignment0 <= a
    ensures PowerOfTwo(alignment0) && alignment0 >= 32 ==> a == alignment0
    ensures a == 32 || a < 2 * alignment0
  {
    hide And;
    a := alignment0;
    if a < 32 {
      a := 32;
      assert Pow2(5) == 32;
    }
    PowerTest(a);
    if And(a, a - 1) != 0 {
      a := NextPower(a);
      PowerBelow(a);
    }
  }

  /** A power of two below 2^64 is at most 2^63. */
  lemma PowerBelow(a: nat)
    requires PowerOfTwo(a) && a < TWO64
    ensures a <= TWO63
  {
    var k: nat :| a == Pow2(k);
    hide Pow2;
    Width64();
    if k >= 64 { Pow2Order(64, k); } else { Pow2Order(k, 63); }
  }

  lemma SmallPower(a: nat)
    requires PowerOfTwo(a) && a < 32
    ensures a == 1 || a == 2 || a == 4 || a == 8 || a == 16
  {
    var k: nat :| a == Pow2(k);
    assert Pow2(5) == 32;
    if k >= 5 { Pow2Order(5, k); }
  }

  lemma Divides16(a: nat, r: int)
    requires PowerOfTwo(a) && a <= 16 && r % 16 == 0
    ensures a > 0 && r % a == 0
  {
    hide PowerOfTwo;
    SmallPower(a);
    var k := r / 16;
    if a == 2 { assert r == 2 * (8 * k); } else if a == 4 { assert r == 4 * (4 * k);
      } else if a == 8 { assert r == 8 * (2 * k); }
  }

  lemma Above16(a: nat)
    requires PowerOfTwo(a) && a > 16
    ensures a >= 32
  {
    if a < 32 { SmallPower(a); }
  }

  lemma PowerSixteen()
    ensures PowerOfTwo(16)
  {
    assert Pow2(4) == 16;
  }
}
