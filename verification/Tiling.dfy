/** Chunks that tile a segment, and the boundary tags that record them in
    memory (components/common/dlmalloc/malloc.c, lines 2056 to 2298 and 3225
    to 3457). Chunk p owns the words from its head at p + 8 up to and including
    its foot at p + size, which is the prev_foot field of the next chunk. */
module Tiling {

  datatype Chunk = Chunk(size: nat, used: bool, prevUsed: bool)

  /** The chunks of the segment by address, the top chunk among them. */
  type Layout = map<int, Chunk>

  ghost predicate Fits(h: Layout, base: int, end: int, p: int)
    requires p in h
  {
    base <= p && p % 16 == 0 && h[p].size >= 16 && h[p].size % 16 == 0 && p + h[p].size <= end
  }

  /** The chunk after p exists and its prevUsed flag is p's used flag. */
  ghost predicate NextOk(h: Layout, end: int, p: int)
    requires p in h
  {
    var n := p + h[p].size;
    n == end || (n in h && h[n].prevUsed == h[p].used)
  }

  ghost predicate Before(h: Layout, p: int, q: int)
    requires p in h && q in h
  {
    p < q ==> p + h[p].size <= q
  }

  /** The chunks tile [base, end) without gap or overlap. */
  ghost predicate Tiled(h: Layout, base: int, end: int) {
    && 0 < base <= end && base % 16 == 0
    && (base < end ==> base in h && h[base].prevUsed)
    && (forall p {:trigger Fits(h, base, end, p)} :: p in h ==> Fits(h, base, end, p))
    && (forall p {:trigger NextOk(h, end, p)} :: p in h ==> NextOk(h, end, p))
    && (forall p, q {:trigger Before(h, p, q)} :: p in h && q in h ==> Before(h, p, q))
  }

  /** [a, a + s) is a run of whole chunks. */
  ghost predicate Span(h: Layout, end: int, a: int, s: int) {
    a in h && s > 0 && (a + s == end || a + s in h)
  }

  lemma Apart(h: Layout, base: int, end: int, a: int, s: int, q: int)
    requires Tiled(h, base, end) && Span(h, end, a, s)
    requires q in h && !(a <= q < a + s)
    ensures q + h[q].size <= a || a + s <= q
  {
    assert Before(h, q, a);
  }

  lemma Separate(h: Layout, base: int, end: int, p: int, q: int)
    requires Tiled(h, base, end) && p in h && q in h && p != q
    ensures p + h[p].size <= q || q + h[q].size <= p
  {
    assert Before(h, p, q) && Before(h, q, p);
  }

  lemma Whole(h: Layout, base: int, end: int, p: int)
    requires Tiled(h, base, end) && p in h
    ensures Span(h, end, p, h[p].size)
  {
    assert Fits(h, base, end, p) && NextOk(h, end, p);
  }

  /** Every chunk but the first has a chunk right before it. */
  lemma Previous(h: Layout, base: int, end: int, q: int) returns (p: int)
    requires Tiled(h, base, end) && q in h && q != base
    ensures p in h && p + h[p].size == q && h[q].prevUsed == h[p].used
  {
    p := base;
    assert Fits(h, base, end, q);
    assert Before(h, base, q) && NextOk(h, end, base);
    while p + h[p].size != q
      invariant p in h && p < q && p + h[p].size <= q
      invariant NextOk(h, end, p)
      decreases q - p
    {
      assert Fits(h, base, end, p);
      p := p + h[p].size;
      assert Before(h, p, q) && NextOk(h, end, p);
    }
  }

  // ------------------------------------------------------- changing the run

  /** The run [a, a + s) becomes one chunk with the given used flag. */
  ghost function Fuse(h: Layout, a: int, s: nat, used: bool): Layout
    requires a in h
  {
    map q | q in h && !(a < q < a + s) ::
      if q == a then Chunk(s, used, h[a].prevUsed)
      else if q == a + s then h[q].(prevUsed := used)
      else h[q]
  }

  lemma SpanAligned(h: Layout, base: int, end: int, a: int, s: nat)
    requires Tiled(h, base, end) && Span(h, end, a, s)
    ensures base <= a && a % 16 == 0 && s >= 16 && s % 16 == 0 && a + s <= end
  {
    assert Fits(h, base, end, a);
    if a + s in h { assert Fits(h, base, end, a + s); }
    EndAligned(h, base, end);
  }

  lemma FuseChunk(h: Layout, base: int, end: int, a: int, s: nat, used: bool, p: int)
    requires Tiled(h, base, end) && Span(h, end, a, s)
    requires p in Fuse(h, a, s, used)
    ensures Fits(Fuse(h, a, s, used), base, end, p) && NextOk(Fuse(h, a, s, used), end, p)
  {
    SpanAligned(h, base, end, a, s);
    if p != a {
      assert Fits(h, base, end, p) && NextOk(h, end, p);
      Apart(h, base, end, a, s, p);
    }
  }

  lemma FuseTiled(h: Layout, base: int, end: int, a: int, s: nat, used: bool)
    requires Tiled(h, base, end) && Span(h, end, a, s)
    ensures Tiled(Fuse(h, a, s, used), base, end)
  {
    var h' := Fuse(h, a, s, used);
    forall p | p in h'
      ensures Fits(h', base, end, p) && NextOk(h', end, p)
    {
      FuseChunk(h, base, end, a, s, used, p);
    }
    forall p, q | p in h' && q in h'
      ensures Before(h', p, q)
    {
      assert Before(h, p, q);
    }
    assert Fits(h, base, end, a);
  }

  lemma EndAligned(h: Layout, base: int, end: int)
    requires Tiled(h, base, end)
    ensures end % 16 == 0
  {
    if base < end {
      var p := base;
      assert NextOk(h, end, p);
      while p + h[p].size != end
        invariant p in h && NextOk(h, end, p) && Fits(h, base, end, p)
        decreases end - p
      {
        p := p + h[p].size;
        assert NextOk(h, end, p) && Fits(h, base, end, p);
      }
    }
  }

  /** The run [a, a + s) becomes a used chunk of size n and a second chunk
      with the given used flag. */
  ghost function Carve(h: Layout, a: int, s: nat, n: nat, used: bool): Layout
    requires a in h && n < s
  {
    Fuse(h, a, s, used)[a := Chunk(n, true, h[a].prevUsed)][a + n := Chunk(s - n, used, true)]
  }

  lemma CarveChunk(f: Layout, h': Layout, base: int, end: int, a: int, n: nat, p: int)
    requires Tiled(f, base, end) && a in f && 0 < n < f[a].size && n % 16 == 0
    requires h' == f[a := Chunk(n, true, f[a].prevUsed)][a + n := Chunk(f[a].size - n, f[a].used, true)]
    requires p in h'
    ensures Fits(h', base, end, p) && NextOk(h', end, p)
  {
    assert Fits(f, base, end, a) && NextOk(f, end, a);
    if p != a && p != a + n {
      assert Fits(f, base, end, p) && NextOk(f, end, p) && Before(f, p, a) && Before(f, a, p);
    }
  }

  lemma CarveBefore(f: Layout, h': Layout, base: int, end: int, a: int, n: nat, p: int, q: int)
    requires Tiled(f, base, end) && a in f && 0 < n < f[a].size
    requires h' == f[a := Chunk(n, true, f[a].prevUsed)][a + n := Chunk(f[a].size - n, f[a].used, true)]
    requires p in h' && q in h'
    ensures Before(h', p, q)
  {
    var p', q' := if p == a + n then a else p, if q == a + n then a else q;
    assert Before(f, p', q') && Before(f, q', p');
  }

  lemma CarveTiled(h: Layout, base: int, end: int, a: int, s: nat, n: nat, used: bool)
    requires Tiled(h, base, end) && Span(h, end, a, s)
    requires 0 < n < s && n % 16 == 0
    ensures Tiled(Carve(h, a, s, n, used), base, end)
  {
    var f := Fuse(h, a, s, used);
    var h' := Carve(h, a, s, n, used);
    FuseTiled(h, base, end, a, s, used);
    forall p | p in h'
      ensures Fits(h', base, end, p) && NextOk(h', end, p)
    {
      CarveChunk(f, h', base, end, a, n, p);
    }
    forall p, q | p in h' && q in h'
      ensures Before(h', p, q)
    {
      CarveBefore(f, h', base, end, a, n, p, q);
    }
  }

  /** The last chunk grows by e bytes. */
  lemma GrowTiled(h: Layout, base: int, end: int, t: int, e: nat)
    requires Tiled(h, base, end) && t in h && t + h[t].size == end && e % 16 == 0
    ensures Tiled(h[t := h[t].(size := h[t].size + e)], base, end + e)
  {
    var h' := h[t := h[t].(size := h[t].size + e)];
    assert Fits(h, base, end, t);
    forall p | p in h'
      ensures Fits(h', base, end + e, p) && NextOk(h', end + e, p)
    {
      assert Fits(h, base, end, p) && NextOk(h, end, p);
      if p != t { Separate(h, base, end, p, t); }
    }
    forall p, q | p in h' && q in h'
      ensures Before(h', p, q)
    {
      assert Before(h, p, q) && Fits(h, base, end, q);
    }
  }
}
