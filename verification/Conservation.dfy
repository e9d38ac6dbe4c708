/** Every byte of the segment is in exactly one chunk: sums over the layout
    (components/common/dlmalloc/malloc.c, lines 3405 to 3457). */
module Conservation {
  import opened Tiling
  import opened HeapState

  ghost function Sum(h: Layout, s: set<int>): nat
    requires s <= h.Keys
    decreases |s|
  {
    if exists p :: p in s then
      var p: int :| p in s;
      h[p].size + Sum(h, s - {p})
    else 0
  }

  lemma {:induction false} SumPick(h: Layout, s: set<int>, p: int)
    requires s <= h.Keys && p in s
    ensures Sum(h, s) == h[p].size + Sum(h, s - {p})
    decreases |s|
  {
    var q :| q in s && Sum(h, s) == h[q].size + Sum(h, s - {q});
    if q != p {
      SumPick(h, s - {q}, p);
      SumPick(h, s - {p}, q);
      assert s - {q} - {p} == s - {p} - {q};
    }
  }

  lemma SumEmpty(h: Layout, s: set<int>)
    requires s <= h.Keys && forall p :: p !in s
    ensures Sum(h, s) == 0
  {
  }

  lemma {:induction false} SumSplit(h: Layout, a: set<int>, b: set<int>)
    requires a + b <= h.Keys && a !! b
    ensures Sum(h, a + b) == Sum(h, a) + Sum(h, b)
    decreases |a|
  {
    hide Sum;
    if exists p :: p in a {
      var p: int :| p in a;
      SumPick(h, a, p);
      SumPick(h, a + b, p);
      assert a + b - {p} == (a - {p}) + b;
      SumSplit(h, a - {p}, b);
    } else {
      assert a + b == b;
      SumEmpty(h, a);
    }
  }

  ghost function From(h: Layout, a: int): set<int> {
    set q | q in h && q >= a
  }

  /** The chunks from a on fill the space from a to the end. */
  lemma {:induction false} SumFrom(h: Layout, base: int, end: int, a: int)
    requires Tiled(h, base, end) && (a in h || a == end) && base <= a <= end
    ensures Sum(h, From(h, a)) == end - a
    decreases end - a
  {
    forall q | q in h ensures q < end { assert Fits(h, base, end, q); }
    if a == end {
      assert From(h, a) == {};
    } else {
      Whole(h, base, end, a);
      SpanAligned(h, base, end, a, h[a].size);
      var b := a + h[a].size;
      forall q | q in From(h, a) && q != a ensures q >= b { assert Before(h, a, q); }
      assert From(h, a) - {a} == From(h, b);
      SumPick(h, From(h, a), a);
      SumFrom(h, base, end, b);
    }
  }

  ghost function UsedSet(h: Layout): set<int> {
    set p | p in h && h[p].used
  }

  /** Used bytes and free bytes together are the whole segment but for the
      overhead at its end. */
  lemma Conserved(s: State)
    requires Ground(s)
    ensures Sum(s.h, UsedSet(s.h)) + Sum(s.h, FreeSet(s.h)) == s.end - s.base
  {
    SumFrom(s.h, s.base, s.end, s.base);
    forall q | q in s.h ensures q >= s.base { assert Fits(s.h, s.base, s.end, q); }
    assert From(s.h, s.base) == s.h.Keys;
    assert UsedSet(s.h) + FreeSet(s.h) == s.h.Keys;
    SumSplit(s.h, UsedSet(s.h), FreeSet(s.h));
  }
}
