/** Boundary tags in memory: the head word of every chunk and the foot word of
    every free chunk, and what the header macros do to them
    (components/common/dlmalloc/malloc.c, lines 2245 to 2298 and 3057 to 3071). */
module Tags {
  import opened Rings
  import opened Tiling

  /** A head word: the size, CINUSE_BIT 2 and PINUSE_BIT 1. */
  function Encode(c: Chunk): nat {
    c.size + (if c.used then 2 else 0) + (if c.prevUsed then 1 else 0)
  }

  function ChunkSize(head: int): int { head - head % 8 }
  predicate Cinuse(head: int) { head / 2 % 2 == 1 }
  predicate Pinuse(head: int) { head % 2 == 1 }
  /** head | PINUSE_BIT and head & ~PINUSE_BIT */
  function SetPinuse(head: int): int { if head % 2 == 1 then head else head + 1 }
  function ClearPinuse(head: int): int { head - head % 2 }

  lemma Mod8(k: nat, f: nat)
    requires f < 8
    ensures (8 * k + f) % 8 == f
  {
  }

  lemma Halved(m: nat, b: nat)
    requires b < 2
    ensures (2 * m + b) / 2 == m && (2 * m + b) % 2 == b
  {
  }

  lemma Decode(c: Chunk)
    requires c.size % 16 == 0
    ensures ChunkSize(Encode(c)) == c.size
    ensures Cinuse(Encode(c)) == c.used && Pinuse(Encode(c)) == c.prevUsed
    ensures SetPinuse(Encode(c)) == Encode(c.(prevUsed := true))
    ensures ClearPinuse(Encode(c)) == Encode(c.(prevUsed := false))
  {
    var k := c.size / 16;
    var u, b := if c.used then 1 else 0, if c.prevUsed then 1 else 0;
    assert Encode(c) == 8 * (2 * k) + (2 * u + b) == 2 * (8 * k + u) + b && 8 * k + u == 2 * (4 * k) + u;
    Mod8(2 * k, 2 * u + b);
    Halved(8 * k + u, b);
    Halved(4 * k, u);
  }

  ghost predicate HeadOk(m: Memory, h: Layout, p: int)
    requires p in h
  {
    Word(m, p + 8) == Encode(h[p])
  }

  /** The top chunk keeps no foot. */
  ghost predicate FootOk(m: Memory, h: Layout, top: int, p: int)
    requires p in h
  {
    !h[p].used && p != top ==> Word(m, p + h[p].size) == h[p].size
  }

  ghost predicate Tagged(m: Memory, h: Layout, top: int) {
    && (forall p {:trigger HeadOk(m, h, p)} :: p in h ==> HeadOk(m, h, p))
    && (forall p {:trigger FootOk(m, h, top, p)} :: p in h ==> FootOk(m, h, top, p))
  }

  /** No two free chunks are neighbours. */
  ghost predicate Coalesced(h: Layout) {
    forall p :: p in h && !h[p].used ==> h[p].prevUsed
  }

  /** The memories differ at most in the words listed. */
  ghost predicate DifferAt(m: Memory, m': Memory, ws: set<int>) {
    forall a :: a !in ws ==> Word(m', a) == Word(m, a)
  }

  /** The words the header macros may write when the run [a, a + s) becomes
      one chunk. */
  ghost function FuseWords(a: int, s: int): set<int> {
    {a + 8, a + s, a + s + 8}
  }

  /** Writes to the tags of a run leave the rest of every other chunk alone:
      from its first link or payload word to its foot. */
  lemma FuseApart(m: Memory, m': Memory, h: Layout, base: int, end: int, a: int, s: nat, q: int)
    requires Tiled(h, base, end) && Span(h, end, a, s)
    requires DifferAt(m, m', FuseWords(a, s))
    requires q in h && !(a <= q < a + s)
    ensures SameOn(m, m', q + 16, q + h[q].size + 8)
  {
    SpanAligned(h, base, end, a, s);
    Apart(h, base, end, a, s, q);
  }

  lemma FuseTagged(m: Memory, m': Memory, h: Layout, base: int, end: int, top: int, top': int,
                   a: int, s: nat, used: bool)
    requires Tiled(h, base, end) && Span(h, end, a, s) && Tagged(m, h, top)
    requires DifferAt(m, m', FuseWords(a, s))
    requires top' == top || (top' == a && a <= top < a + s)
    requires a <= top < a + s ==> top' == a
    requires Word(m', a + 8) == Encode(Chunk(s, used, h[a].prevUsed))
    requires a + s in h ==> Word(m', a + s + 8) == Encode(h[a + s].(prevUsed := used))
    requires !used && a != top' ==> Word(m', a + s) == s
    ensures Tagged(m', Fuse(h, a, s, used), top')
  {
    var h' := Fuse(h, a, s, used);
    forall p | p in h'
      ensures HeadOk(m', h', p) && FootOk(m', h', top', p)
    {
      FuseTag(m, m', h, base, end, top, top', a, s, used, p);
    }
  }

  lemma FuseTag(m: Memory, m': Memory, h: Layout, base: int, end: int, top: int, top': int,
                a: int, s: nat, used: bool, p: int)
    requires Tiled(h, base, end) && Span(h, end, a, s) && Tagged(m, h, top)
    requires DifferAt(m, m', FuseWords(a, s))
    requires top' == top || (top' == a && a <= top < a + s)
    requires Word(m', a + 8) == Encode(Chunk(s, used, h[a].prevUsed))
    requires a + s in h ==> Word(m', a + s + 8) == Encode(h[a + s].(prevUsed := used))
    requires !used && a != top' ==> Word(m', a + s) == s
    requires p in Fuse(h, a, s, used)
    ensures HeadOk(m', Fuse(h, a, s, used), p) && FootOk(m', Fuse(h, a, s, used), top', p)
  {
    var h' := Fuse(h, a, s, used);
    SpanAligned(h, base, end, a, s);
    if p != a {
      assert Fits(h, base, end, p) && HeadOk(m, h, p) && FootOk(m, h, top, p);
      FuseApart(m, m', h, base, end, a, s, p);
      assert p != top' ==> p != top;
      if p != a + s {
        assert p + 8 !in FuseWords(a, s) by { Apart(h, base, end, a, s, p); }
      }
    }
  }

  /** Carving: the run becomes a used chunk of size n and a second chunk. */
  lemma CarveTagged(m: Memory, m': Memory, h: Layout, base: int, end: int, top: int, top': int,
                    a: int, s: nat, n: nat, used: bool)
    requires Tiled(h, base, end) && Span(h, end, a, s) && Tagged(m, h, top)
    requires 0 < n < s && n % 16 == 0
    requires DifferAt(m, m', FuseWords(a, s) + {a + n + 8})
    requires top' == top || (top' == a + n && a <= top < a + s)
    requires a <= top < a + s ==> top' == a + n
    requires Word(m', a + 8) == Encode(Chunk(n, true, h[a].prevUsed))
    requires Word(m', a + n + 8) == Encode(Chunk(s - n, used, true))
    requires a + s in h ==> Word(m', a + s + 8) == Encode(h[a + s].(prevUsed := used))
    requires !used && a + n != top' ==> Word(m', a + s) == s - n
    ensures Tagged(m', Carve(h, a, s, n, used), top')
  {
    var h' := Carve(h, a, s, n, used);
    SpanAligned(h, base, end, a, s);
    forall p | p in h'
      ensures HeadOk(m', h', p) && FootOk(m', h', top', p)
    {
      if p != a && p != a + n {
        CarveTag(m, m', h, base, end, top, top', a, s, n, used, p);
      }
    }
  }

  lemma CarveTag(m: Memory, m': Memory, h: Layout, base: int, end: int, top: int, top': int,
                 a: int, s: nat, n: nat, used: bool, p: int)
    requires Tiled(h, base, end) && Span(h, end, a, s) && Tagged(m, h, top)
    requires 0 < n < s && n % 16 == 0
    requires DifferAt(m, m', FuseWords(a, s) + {a + n + 8})
    requires top' == top || (top' == a + n && a <= top < a + s)
    requires a + s in h ==> Word(m', a + s + 8) == Encode(h[a + s].(prevUsed := used))
    requires p in Carve(h, a, s, n, used) && p != a && p != a + n
    ensures HeadOk(m', Carve(h, a, s, n, used), p) && FootOk(m', Carve(h, a, s, n, used), top', p)
  {
    SpanAligned(h, base, end, a, s);
    assert p in h && !(a <= p < a + s);
    assert Fits(h, base, end, p) && HeadOk(m, h, p) && FootOk(m, h, top, p);
    Apart(h, base, end, a, s, p);
    assert p != top' ==> p != top;
    assert p + h[p].size !in FuseWords(a, s) + {a + n + 8};
    if p != a + s {
      assert p + 8 !in FuseWords(a, s) + {a + n + 8};
    }
  }

  lemma CarveApart(m: Memory, m': Memory, h: Layout, base: int, end: int, a: int, s: nat, n: nat, q: int)
    requires Tiled(h, base, end) && Span(h, end, a, s) && 0 < n < s && n % 16 == 0
    requires DifferAt(m, m', FuseWords(a, s) + {a + n + 8})
    requires q in h && !(a <= q < a + s)
    ensures SameOn(m, m', q + 16, q + h[q].size + 8)
  {
    SpanAligned(h, base, end, a, s);
    Apart(h, base, end, a, s, q);
  }

  lemma FuseCoalesced(h: Layout, base: int, end: int, a: int, s: nat, used: bool)
    requires Tiled(h, base, end) && Span(h, end, a, s) && Coalesced(h)
    requires !used ==> h[a].prevUsed && (a + s in h ==> h[a + s].used)
    ensures Coalesced(Fuse(h, a, s, used))
  {
  }

  lemma CarveCoalesced(h: Layout, base: int, end: int, a: int, s: nat, n: nat, used: bool)
    requires Tiled(h, base, end) && Span(h, end, a, s) && Coalesced(h) && n < s
    requires !used && a + s in h ==> h[a + s].used
    ensures Coalesced(Carve(h, a, s, n, used))
  {
  }
}
