/** Changing the boundary tags of a run of chunks keeps the bookkeeping of all
    the others: the header macros of components/common/dlmalloc/malloc.c, lines
    2282 to 2298 and 3057 to 3071, seen from the whole state. */
module Retag {
  import opened Rings
  import opened Tiling
  import opened Tags
  import opened Bins
  import opened SmallBins
  import opened HeapState
  import opened Shelves

  /** Binned chunk p keeps its size and its interior. */
  ghost predicate ChunkKept(s: State, s': State, p: int) {
    && p in s.h && p in s'.h && s'.h[p].size == s.h[p].size && SameOn(s.mem, s'.mem, p + 16, p + s.h[p].size)
  }

  ghost predicate SameShelves(s: State, s': State) {
    && s'.gm == s.gm && s'.smallmap == s.smallmap && s'.treemap == s.treemap
    && s'.treebins == s.treebins && s'.rings == s.rings && s'.trees == s.trees
  }

  lemma BooksFrame(s: State, s': State)
    requires Books(s) && Ground(s') && Tagged(s'.mem, s'.h, s'.top) && Roles(s') && SameShelves(s, s')
    requires Binned(s') == Binned(s)
    requires forall p :: p in Binned(s) ==> ChunkKept(s, s', p)
    requires SameOn(s.mem, s'.mem, s.gm + 88, s.gm + 600)
    ensures Books(s')
  {
    hide Ground, Tagged, Roles, SmallsOk, TreesOk, SmallChunks, LargeChunks, NodeKept, Binned;
    forall x | x in SmallChunks(s.rings)
      ensures SameOn(s.mem, s'.mem, x + 16, x + 32)
    {
      var i, k := WhichRing(s.rings, x);
      ShelvedSmalls(s);
      SmallMember(s, i, x);
      BinnedSize(s, x);
    }
    SmallsFrame(s.mem, s'.mem, s.gm, s.smallmap, s.rings);
    forall y | y in LargeChunks(s.trees)
      ensures NodeKept(s.mem, s'.mem, s.h, s'.h, y)
    {
      LargeMember(s, y);
      assert ChunkKept(s, s', y);
      HeadSize(s', y);
      LargeKept(s, s', y);
    }
    TreesFrame(s.mem, s'.mem, s.h, s'.h, s.gm, s.treebins, s.treemap, s.trees);
    SizesKept(s, s');
  }

  lemma LargeKept(s: State, s': State, y: int)
    requires ChunkKept(s, s', y) && s.h[y].size >= 0x100 && ChunkSize(Word(s'.mem, y + 8)) == s'.h[y].size
    ensures NodeKept(s.mem, s'.mem, s.h, s'.h, y)
  {
    hide ChunkSize, Word;
  }

  lemma BinnedSize(s: State, p: int)
    requires Ground(s) && p in Binned(s)
    ensures p in s.h && s.h[p].size >= 32 && !s.h[p].used && p != s.top
  {
  }

  lemma SizesKept(s: State, s': State)
    requires Shelved(s) && SameShelves(s, s') && forall p :: p in Binned(s) ==> ChunkKept(s, s', p)
    ensures RingsSized(s'.h, s'.rings)
  {
    hide TreesOk, LargeChunks, Binned, Special;
    forall i, p | 0 <= i < |s.rings| && p in s.rings[i]
      ensures p in s'.h && s'.h[p].size == 8 * i
    {
      SmallMember(s, i, p);
      assert p in SmallChunks(s.rings);
      assert ChunkKept(s, s', p);
    }
  }

  // ----------------------------------------------------------- one run

  ghost predicate InRun(a: int, n: int, q: int) { a <= q < a + n }

  /** No chunk of the run is in a bin. */
  ghost predicate Cleared(s: State, a: int, n: int) {
    forall q :: q in s.h && InRun(a, n, q) ==> s.h[q].used || q in Special(s)
  }

  /** Outside the run the special chunks stay special and no others become so. */
  ghost predicate SameSpecial(s: State, s': State, a: int, n: int) {
    forall q :: q in s.h && !InRun(a, n, q) ==> (q in Special(s') <==> q in Special(s))
  }

  /** The words of the run's new tags, if it becomes one chunk. */
  ghost predicate FuseWritten(s: State, s': State, a: int, n: nat, used: bool)
    requires a in s.h
  {
    && DifferAt(s.mem, s'.mem, FuseWords(a, n))
    && Word(s'.mem, a + 8) == Encode(Chunk(n, used, s.h[a].prevUsed))
    && (a + n in s.h ==> Word(s'.mem, a + n + 8) == Encode(s.h[a + n].(prevUsed := used)))
    && (!used && a != s'.top ==> Word(s'.mem, a + n) == n)
  }

  ghost predicate TopMoves(s: State, s': State, a: int, n: nat, to: int) {
    && (s'.top == s.top || (s'.top == to && InRun(a, n, s.top)))
    && (InRun(a, n, s.top) ==> s'.top == to)
  }

  /** s' differs from s in its layout, tags, top, victim and loose chunks. */
  ghost predicate Relaid(s: State, s': State, h': Layout) {
    s' == s.(mem := s'.mem, h := h', dv := s'.dv, dvsize := s'.dvsize, top := s'.top, topsize := s'.topsize,
      loose := s'.loose)
  }

  lemma FuseBooks(s: State, s': State, a: int, n: nat, used: bool)
    requires Books(s) && Span(s.h, s.end, a, n) && Cleared(s, a, n)
    requires Relaid(s, s', Fuse(s.h, a, n, used)) && Roles(s') && MinSized(s'.h, s'.top)
    requires TopMoves(s, s', a, n, a) && SameSpecial(s, s', a, n) && (!used ==> a in Special(s'))
    requires FuseWritten(s, s', a, n, used)
    ensures Books(s')
    ensures forall q :: q in s.h && !InRun(a, n, q) ==> SameOn(s.mem, s'.mem, q + 16, q + s.h[q].size + 8)
  {
    hide Shelved, Tiled, Tagged, Roles, SameOn, MinSized, DifferAt, FuseWords;
    FuseTiled(s.h, s.base, s.end, a, n, used);
    FuseTagged(s.mem, s'.mem, s.h, s.base, s.end, s.top, s'.top, a, n, used);
    forall q | q in s.h && !InRun(a, n, q)
      ensures SameOn(s.mem, s'.mem, q + 16, q + s.h[q].size + 8)
    {
      FuseApart(s.mem, s'.mem, s.h, s.base, s.end, a, n, q);
    }
    RunBinned(s, s', a, n, a);
    RunHeaders(s, s', a, n, a);
    RunKept(s, s', a, n);
    BooksFrame(s, s');
  }

  /** The binned chunks are those of before. */
  lemma RunBinned(s: State, s': State, a: int, n: nat, to: int)
    requires Cleared(s, a, n) && SameSpecial(s, s', a, n)
    requires forall q :: q in s'.h && InRun(a, n, q) ==> s'.h[q].used || q in Special(s')
    requires forall q :: !InRun(a, n, q) ==> (q in s'.h <==> q in s.h)
    requires forall q :: q in s.h && !InRun(a, n, q) ==> s'.h[q].used == s.h[q].used
    ensures Binned(s') == Binned(s)
    ensures forall q :: q in Binned(s) ==> !InRun(a, n, q)
  {
    hide Special;
    forall q ensures q in Binned(s') <==> q in Binned(s) {
      if !InRun(a, n, q) && q in s.h { assert q in Special(s') <==> q in Special(s); }
    }
  }

  /** The small bin headers are out of reach of a run's tags. */
  lemma RunHeaders(s: State, s': State, a: int, n: nat, b: int)
    requires Ground(s) && Span(s.h, s.end, a, n) && a <= b < a + n
    requires DifferAt(s.mem, s'.mem, FuseWords(a, n)) || DifferAt(s.mem, s'.mem, FuseWords(a, n) + {b + 8})
    ensures SameOn(s.mem, s'.mem, s.gm + 88, s.gm + 600)
  {
    SpanAligned(s.h, s.base, s.end, a, n);
  }

  lemma RunKept(s: State, s': State, a: int, n: nat)
    requires forall q :: q in s.h && !InRun(a, n, q) ==> SameOn(s.mem, s'.mem, q + 16, q + s.h[q].size + 8)
    requires forall q :: q in s.h && !InRun(a, n, q) ==> q in s'.h && s'.h[q].size == s.h[q].size
    requires forall q :: q in Binned(s) ==> !InRun(a, n, q)
    ensures forall p :: p in Binned(s) ==> ChunkKept(s, s', p)
  {
    forall p | p in Binned(s)
      ensures ChunkKept(s, s', p)
    {
      assert SameOn(s.mem, s'.mem, p + 16, p + s.h[p].size + 8);
    }
  }

  /** The words of the run's new tags, if it becomes a used chunk of size k
      and a rest. */
  ghost predicate CarveWritten(s: State, s': State, a: int, n: nat, k: nat, used: bool)
    requires a in s.h && k < n
  {
    && DifferAt(s.mem, s'.mem, FuseWords(a, n) + {a + k + 8})
    && Word(s'.mem, a + 8) == Encode(Chunk(k, true, s.h[a].prevUsed))
    && Word(s'.mem, a + k + 8) == Encode(Chunk(n - k, used, true))
    && (a + n in s.h ==> Word(s'.mem, a + n + 8) == Encode(s.h[a + n].(prevUsed := used)))
    && (!used && a + k != s'.top ==> Word(s'.mem, a + n) == n - k)
  }

  lemma CarveBooks(s: State, s': State, a: int, n: nat, k: nat, used: bool)
    requires Books(s) && Span(s.h, s.end, a, n) && Cleared(s, a, n) && 0 < k < n && k % 16 == 0
    requires Relaid(s, s', Carve(s.h, a, n, k, used)) && Roles(s') && MinSized(s'.h, s'.top)
    requires TopMoves(s, s', a, n, a + k) && SameSpecial(s, s', a, n) && (!used ==> a + k in Special(s'))
    requires CarveWritten(s, s', a, n, k, used)
    ensures Books(s')
    ensures forall q :: q in s.h && !InRun(a, n, q) ==> SameOn(s.mem, s'.mem, q + 16, q + s.h[q].size + 8)
  {
    hide Shelved, Tiled, Tagged, Roles, SameOn, MinSized, DifferAt, FuseWords;
    CarveTiled(s.h, s.base, s.end, a, n, k, used);
    CarveTagged(s.mem, s'.mem, s.h, s.base, s.end, s.top, s'.top, a, n, k, used);
    forall q | q in s.h && !InRun(a, n, q)
      ensures SameOn(s.mem, s'.mem, q + 16, q + s.h[q].size + 8)
    {
      CarveApart(s.mem, s'.mem, s.h, s.base, s.end, a, n, k, q);
    }
    RunBinned(s, s', a, n, a);
    RunHeaders(s, s', a, n, a + k);
    RunKept(s, s', a, n);
    BooksFrame(s, s');
  }
}
