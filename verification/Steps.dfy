/** The steps malloc and free take on boundary tags, each keeping the books,
    the absence of adjacent free chunks, and every other caller's block
    (components/common/dlmalloc/malloc.c, lines 4369 to 4795). */
module Steps {
  import opened Words
  import opened Rings
  import opened Tiling
  import opened Tags
  import opened BinMaps
  import opened Tries
  import opened Bins
  import opened SmallBins
  import opened HeapState
  import opened Shelves
  import opened Retag

  /** The blocks handed out: address and size of every used chunk. */
  ghost function Blocks(h: Layout): map<int, nat> {
    map q | q in h && h[q].used :: h[q].size
  }

  /** All used chunks but x keep their payloads. */
  ghost predicate PayloadsBut(m: Memory, m': Memory, h: Layout, x: int) {
    forall q :: q in h && h[q].used && q != x ==> SameOn(m, m', q + 16, q + h[q].size + 8)
  }

  /** x is the only chunk of the run that may be in use. */
  ghost predicate OnlyUsed(h: Layout, a: int, n: int, x: int) {
    forall q :: q in h && InRun(a, n, q) && h[q].used ==> q == x
  }

  lemma FuseBlocks(h: Layout, a: int, n: nat, used: bool, x: int)
    requires a in h && n > 0 && OnlyUsed(h, a, n, x) && (x in h && h[x].used ==> InRun(a, n, x))
    ensures Blocks(Fuse(h, a, n, used)) == if used then (Blocks(h) - {x})[a := n] else Blocks(h) - {x}
  {
    var h' := Fuse(h, a, n, used);
    forall q ensures q in Blocks(h') <==> (used && q == a) || (q in Blocks(h) && q != x) {
      assert q in h' && q != a ==> !InRun(a, n, q);
    }
  }

  lemma CarveBlocks(h: Layout, a: int, n: nat, k: nat, used: bool, x: int)
    requires a in h && 0 < k < n && OnlyUsed(h, a, n, x) && (x in h && h[x].used ==> InRun(a, n, x))
    ensures Blocks(Carve(h, a, n, k, used)) == if used then (Blocks(h) - {x})[a := k][a + k := n - k]
            else (Blocks(h) - {x})[a := k]
  {
    var h' := Carve(h, a, n, k, used);
    forall q ensures q in Blocks(h') <==> q == a || (used && q == a + k) || (q in Blocks(h) && q != x) {
      assert q in h' && q != a && q != a + k ==> !InRun(a, n, q);
    }
  }

  lemma RunPayloads(s: State, s': State, a: int, n: nat, x: int)
    requires OnlyUsed(s.h, a, n, x)
    requires forall q :: q in s.h && !InRun(a, n, q) ==> SameOn(s.mem, s'.mem, q + 16, q + s.h[q].size + 8)
    ensures PayloadsBut(s.mem, s'.mem, s.h, x)
  {
  }

  /** Free chunk p and what follows it when nothing free is adjacent. */
  lemma AroundFree(s: State, p: int)
    requires Ground(s) && Roles(s) && Coalesced(s.h) && p in s.h && !s.h[p].used && p != s.top
    ensures var n := p + s.h[p].size; n in s.h && s.h[n].used && !s.h[n].prevUsed && s.h[p].prevUsed
    ensures p + s.h[p].size <= s.top && s.top in s.h && p > 0
    ensures Span(s.h, s.end, p, s.h[p].size) && s.h[p].size >= 32 && s.h[p].size % 16 == 0
  {
    NotLast(s, p);
  }

  /** Only the top chunk is last. */
  lemma NotLast(s: State, p: int)
    requires Ground(s) && Roles(s) && p in s.h && p != s.top
    ensures p + s.h[p].size in s.h && s.h[p + s.h[p].size].prevUsed == s.h[p].used
    ensures p + s.h[p].size <= s.top && s.top in s.h && p > 0
    ensures Span(s.h, s.end, p, s.h[p].size) && s.h[p].size >= 32 && s.h[p].size % 16 == 0
  {
    Whole(s.h, s.base, s.end, p);
    assert s.top != 0;
    assert Fits(s.h, s.base, s.end, p) && Fits(s.h, s.base, s.end, s.top) && NextOk(s.h, s.end, p);
    Separate(s.h, s.base, s.end, p, s.top);
  }

  lemma Single(s: State, p: int, q: int)
    requires Ground(s) && p in s.h && q in s.h && InRun(p, s.h[p].size, q)
    ensures q == p
  {
    assert Fits(s.h, s.base, s.end, p) && Fits(s.h, s.base, s.end, q);
    if q != p { Separate(s.h, s.base, s.end, p, q); }
  }

  lemma SingleRun(s: State, p: int)
    requires Ground(s) && p in s.h && (s.h[p].used || p in Special(s))
    ensures Cleared(s, p, s.h[p].size) && OnlyUsed(s.h, p, s.h[p].size, p) && InRun(p, s.h[p].size, p)
  {
    forall q | q in s.h && InRun(p, s.h[p].size, q) ensures q == p { Single(s, p, q); }
    assert Fits(s.h, s.base, s.end, p);
  }

  /** A special free chunk p leaves the special chunks: it was loose or dv. */
  ghost predicate GivenUp(s: State, s': State, p: int) {
    && s'.top == s.top && s'.topsize == s.topsize
    && ((p in s.loose && s'.loose == s.loose - {p} && s'.dv == s.dv && s'.dvsize == s.dvsize)
        || (p == s.dv && s'.loose == s.loose && s'.dv == 0 && s'.dvsize == 0))
  }

  /** What every allocation step promises: the books are kept, p is a new
      block of n bytes, and the other blocks keep their sizes and contents. */
  ghost predicate NewBlock(s: State, s': State, p: int, n: nat) {
    && Books(s') && Coalesced(s'.h)
    && p !in Blocks(s.h) && Blocks(s'.h) == Blocks(s.h)[p := n] && Payloads(s.mem, s'.mem, s.h)
  }

  /** A whole free chunk is taken into use. */
  lemma TakeWhole(s: State, s': State, p: int)
    requires Books(s) && Coalesced(s.h) && p in s.h && !s.h[p].used && p != s.top && GivenUp(s, s', p)
    requires Relaid(s, s', Fuse(s.h, p, s.h[p].size, true)) && FuseWritten(s, s', p, s.h[p].size, true)
    ensures NewBlock(s, s', p, s.h[p].size)
  {
    hide Shelved, Tagged, Tiled, FuseWritten, Blocks, Payloads;
    var n := s.h[p].size;
    AroundFree(s, p);
    SingleRun(s, p);
    TakenRoles(s, s', p);
    FuseBooks(s, s', p, n, true);
    FuseCoalesced(s.h, s.base, s.end, p, n, true);
    FuseBlocks(s.h, p, n, true, p);
    FreshBlock(s, s', p, n);
  }

  /** A free chunk was no block before. */
  lemma FreshBlock(s: State, s': State, p: int, n: nat)
    requires p in s.h && !s.h[p].used && Blocks(s'.h) == (Blocks(s.h) - {p})[p := n]
    requires forall q :: q in s.h && !InRun(p, s.h[p].size, q) ==> SameOn(s.mem, s'.mem, q + 16, q + s.h[q].size + 8)
    requires OnlyUsed(s.h, p, s.h[p].size, p)
    ensures p !in Blocks(s.h) && Blocks(s'.h) == Blocks(s.h)[p := n] && Payloads(s.mem, s'.mem, s.h)
  {
    RunPayloads(s, s', p, s.h[p].size, p);
    assert Blocks(s.h) - {p} == Blocks(s.h);
  }

  lemma TakenRoles(s: State, s': State, p: int)
    requires Ground(s) && Roles(s) && p in s.h && !s.h[p].used && p != s.top && GivenUp(s, s', p)
    requires Relaid(s, s', Fuse(s.h, p, s.h[p].size, true))
    ensures Roles(s') && MinSized(s'.h, s'.top) && TopMoves(s, s', p, s.h[p].size, p)
            && SameSpecial(s, s', p, s.h[p].size)
  {
    hide Tiled;
    NotLast(s, p);
    SingleRun(s, p);
    assert s'.dv != 0 ==> s'.dv == s.dv && s.dv != p;
    if s.dv in s.h { NotLast(s, s.dv); if InRun(p, s.h[p].size, s.dv) { Single(s, p, s.dv); } }
    forall q | q in s.h ensures q > 0 { PositiveChunk(s, q); }
    forall q | q in s.loose && q != p ensures q in FreeSet(s'.h) {
      if InRun(p, s.h[p].size, q) { Single(s, p, q); }
    }
  }

  lemma PositiveChunk(s: State, q: int)
    requires Ground(s) && q in s.h
    ensures q > 0
  {
    assert Fits(s.h, s.base, s.end, q);
  }

  /** The rest r of a split takes the role the chunk p had. */
  ghost predicate HandedOn(s: State, s': State, p: int, r: int, rsize: nat) {
    || (p in s.loose && s'.loose == s.loose - {p} + {r} && s'.dv == s.dv && s'.dvsize == s.dvsize
        && s'.top == s.top && s'.topsize == s.topsize)
    || (p == s.dv && s'.loose == s.loose && s'.dv == r && s'.dvsize == rsize
        && s'.top == s.top && s'.topsize == s.topsize)
    || (p == s.top && s'.loose == s.loose && s'.dv == s.dv && s'.dvsize == s.dvsize
        && s'.top == r && s'.topsize == rsize)
  }

  /** A free chunk p is split into a used chunk of k bytes and a free rest. */
  lemma Split(s: State, s': State, p: int, k: nat)
    requires Books(s) && Coalesced(s.h) && p in s.h && !s.h[p].used && 32 <= k < s.h[p].size && k % 16 == 0
    requires HandedOn(s, s', p, p + k, s.h[p].size - k) && (p != s.top ==> s.h[p].size - k >= 32)
    requires Relaid(s, s', Carve(s.h, p, s.h[p].size, k, false)) && CarveWritten(s, s', p, s.h[p].size, k, false)
    ensures NewBlock(s, s', p, k)
    ensures p + k in s'.h && s'.h[p + k] == Chunk(s.h[p].size - k, false, true)
  {
    hide Shelved, Tagged, Tiled, CarveWritten, Blocks, Payloads;
    var n := s.h[p].size;
    Whole(s.h, s.base, s.end, p);
    if p != s.top { AroundFree(s, p); }
    SingleRun(s, p);
    SplitRoles(s, s', p, k);
    CarveBooks(s, s', p, n, k, false);
    CarveCoalesced(s.h, s.base, s.end, p, n, k, false);
    CarveBlocks(s.h, p, n, k, false, p);
    FreshBlock(s, s', p, k);
  }

  lemma SplitRoles(s: State, s': State, p: int, k: nat)
    requires Ground(s) && Roles(s) && p in s.h && !s.h[p].used && 32 <= k < s.h[p].size
    requires HandedOn(s, s', p, p + k, s.h[p].size - k) && (p != s.top ==> s.h[p].size - k >= 32)
    requires Relaid(s, s', Carve(s.h, p, s.h[p].size, k, false))
    ensures Roles(s') && MinSized(s'.h, s'.top) && TopMoves(s, s', p, s.h[p].size, p + k)
            && SameSpecial(s, s', p, s.h[p].size)
    ensures p + k in Special(s') && (p == s.top ==> p + s.h[p].size !in s.h)
  {
    hide Tiled;
    var n, r := s.h[p].size, p + k;
    SingleRun(s, p);
    PositiveChunk(s, p);
    forall q | q in s.h ensures q > 0 && (InRun(p, n, q) ==> q == p) && q + s.h[q].size <= s.end {
      PositiveChunk(s, q);
      InEnd(s, q);
      if InRun(p, n, q) { Single(s, p, q); }
    }
    assert r !in s.h;
    assert s.top in s.h;
    assert s'.loose <= FreeSet(s'.h);
  }

  lemma InEnd(s: State, q: int)
    requires Ground(s) && q in s.h
    ensures q + s.h[q].size <= s.end && s.h[q].size >= 16
  {
    assert Fits(s.h, s.base, s.end, q);
  }

  // ------------------------------------------------------------- freeing

  /** The run [a, a + n) becomes one free chunk: a loose one, the designated
      victim or the top. All loose chunks of before are in the run. */
  ghost predicate Becomes(s: State, s': State, a: int, n: nat) {
    && (forall q :: q in s.loose ==> InRun(a, n, q))
    && (|| (s'.loose == {a} && s'.dv == s.dv && s'.dvsize == s.dvsize && !InRun(a, n, s.dv)
            && s'.top == s.top && s'.topsize == s.topsize && !InRun(a, n, s.top))
        || (s'.loose == {} && s'.dv == a && s'.dvsize == n && InRun(a, n, s.dv)
            && s'.top == s.top && s'.topsize == s.topsize && !InRun(a, n, s.top))
        || (s'.loose == {} && s'.top == a && s'.topsize == n && InRun(a, n, s.top)
            && (if InRun(a, n, s.dv) then s'.dv == 0 && s'.dvsize == 0 else s'.dv == s.dv && s'.dvsize == s.dvsize)))
  }

  lemma BecomesRoles(s: State, s': State, a: int, n: nat)
    requires Ground(s) && Roles(s) && Span(s.h, s.end, a, n) && Becomes(s, s', a, n)
    requires Relaid(s, s', Fuse(s.h, a, n, false)) && (InRun(a, n, s.top) ==> a + n == s.end) && a != 0 && n != 0
    ensures Roles(s') && SameSpecial(s, s', a, n) && a in Special(s') && TopMoves(s, s', a, n, a)
  {
    hide Tiled;
    if s.dv in s.h && !InRun(a, n, s.dv) { Apart(s.h, s.base, s.end, a, n, s.dv); }
    if s.top in s.h && !InRun(a, n, s.top) { Apart(s.h, s.base, s.end, a, n, s.top); }
    forall q | q in s.h ensures q > 0 { PositiveChunk(s, q); }
  }

  /** x becomes part of one free chunk [a, a + n). */
  lemma Release(s: State, s': State, a: int, n: nat, x: int)
    requires Books(s) && Coalesced(s.h) && Span(s.h, s.end, a, n) && Cleared(s, a, n)
    requires x in s.h && s.h[x].used && InRun(a, n, x) && OnlyUsed(s.h, a, n, x)
    requires s.h[a].prevUsed && (a + n in s.h ==> s.h[a + n].used)
    requires Relaid(s, s', Fuse(s.h, a, n, false)) && FuseWritten(s, s', a, n, false)
    requires Becomes(s, s', a, n)
    ensures Books(s') && Coalesced(s'.h)
    ensures Blocks(s'.h) == Blocks(s.h) - {x} && PayloadsBut(s.mem, s'.mem, s.h, x)
  {
    hide Shelved, Tagged, Tiled, FuseWritten, Blocks, PayloadsBut;
    PositiveChunk(s, a);
    RunHolds(s, a, n, x);
    if InRun(a, n, s.top) { RunHolds(s, a, n, s.top); SpanAligned(s.h, s.base, s.end, a, n); }
    BecomesRoles(s, s', a, n);
    FusedMinSized(s, s', a, n, x);
    FuseBooks(s, s', a, n, false);
    FuseCoalesced(s.h, s.base, s.end, a, n, false);
    FuseBlocks(s.h, a, n, false, x);
    RunPayloads(s, s', a, n, x);
  }

  /** A chunk of the run lies in it whole. */
  lemma RunHolds(s: State, a: int, n: nat, q: int)
    requires Ground(s) && Span(s.h, s.end, a, n) && q in s.h && InRun(a, n, q)
    ensures q + s.h[q].size <= a + n
  {
    assert Fits(s.h, s.base, s.end, q);
    if a + n in s.h { assert Before(s.h, q, a + n); }
  }

  lemma FusedMinSized(s: State, s': State, a: int, n: nat, x: int)
    requires Ground(s) && Span(s.h, s.end, a, n) && x in s.h && x != s.top && InRun(a, n, x)
    requires Relaid(s, s', Fuse(s.h, a, n, false)) && TopMoves(s, s', a, n, a)
    ensures MinSized(s'.h, s'.top)
  {
    RunHolds(s, a, n, x);
  }

  /** Reading the head of a chunk. */
  lemma ReadHead(s: State, p: int)
    requires Ground(s) && Tagged(s.mem, s.h, s.top) && p in s.h
    ensures var w := Word(s.mem, p + 8);
            w == Encode(s.h[p]) && ChunkSize(w) == s.h[p].size && Cinuse(w) == s.h[p].used
              && Pinuse(w) == s.h[p].prevUsed
            && SetPinuse(w) == Encode(s.h[p].(prevUsed := true)) && ClearPinuse(w) == Encode(s.h[p].(prevUsed := false))
  {
    hide Encode, ChunkSize, Cinuse, Pinuse, SetPinuse, ClearPinuse;
    assert Fits(s.h, s.base, s.end, p) && HeadOk(s.mem, s.h, p);
    Decode(s.h[p]);
  }

  /** When prevUsed is clear, the word before the head leads to the free chunk
      before. */
  lemma ReadFoot(s: State, p: int)
    requires Ground(s) && Tagged(s.mem, s.h, s.top) && Roles(s) && p in s.h && !s.h[p].prevUsed
    ensures var q := p - Word(s.mem, p);
            s.base <= q && q in s.h && !s.h[q].used && s.h[q].size == Word(s.mem, p) && q != s.top
              && Word(s.mem, p) >= 32
  {
    assert Fits(s.h, s.base, s.end, p);
    var q := Previous(s.h, s.base, s.end, p);
    assert Fits(s.h, s.base, s.end, q) && FootOk(s.mem, s.h, s.top, q);
  }

  // ------------------------------------------------------ putting together

  /** Only bins, and the set of loose chunks, have changed. */
  ghost predicate Reshelved(s: State, s': State, loose': set<int>) {
    && s' == s.(mem := s'.mem, smallmap := s'.smallmap, treemap := s'.treemap, treebins := s'.treebins,
                rings := s'.rings, trees := s'.trees, loose := loose')
    && Books(s') && Quiet(s.mem, s'.mem, s.h, s.gm)
  }

  /** The layout is the same, and only bins and roles have changed. */
  ghost predicate SameLayout(s: State, s': State) {
    && s' == s.(mem := s'.mem, smallmap := s'.smallmap, treemap := s'.treemap, treebins := s'.treebins,
                rings := s'.rings, trees := s'.trees, dv := s'.dv, dvsize := s'.dvsize, loose := s'.loose)
    && Books(s') && Quiet(s.mem, s'.mem, s.h, s.gm)
  }

  lemma BlockAfter(s0: State, s1: State, s2: State, p: int, n: nat)
    requires NewBlock(s0, s1, p, n) && SameLayout(s1, s2)
    ensures NewBlock(s0, s2, p, n)
  {
    hide Ground, Tagged, Roles, Shelved, Quiet, SameOn;
    QuietPayloads(s1, s2.mem);
    forall q | q in s0.h && s0.h[q].used
      ensures SameOn(s0.mem, s2.mem, q + 16, q + s0.h[q].size + 8)
    {
      assert q in Blocks(s0.h) && Blocks(s1.h)[q] == Blocks(s0.h)[q];
      SameTrans(s0.mem, s1.mem, s2.mem, q + 16, q + s0.h[q].size + 8);
    }
  }

  lemma BlockBefore(s0: State, s1: State, s2: State, p: int, n: nat)
    requires Books(s0) && SameLayout(s0, s1) && NewBlock(s1, s2, p, n)
    ensures NewBlock(s0, s2, p, n)
  {
    hide Ground, Tagged, Roles, Shelved, Quiet, SameOn, Blocks;
    QuietPayloads(s0, s1.mem);
    forall q | q in s0.h && s0.h[q].used
      ensures SameOn(s0.mem, s2.mem, q + 16, q + s0.h[q].size + 8)
    {
      SameTrans(s0.mem, s1.mem, s2.mem, q + 16, q + s0.h[q].size + 8);
    }
  }

  lemma SameTrans(a: Memory, b: Memory, c: Memory, lo: int, hi: int)
    requires SameOn(a, b, lo, hi) && SameOn(b, c, lo, hi)
    ensures SameOn(a, c, lo, hi)
  {
  }

  /** A chunk changes its role without a change of memory. */
  lemma Relabelled(s: State, s': State)
    requires Books(s) && s' == s.(dv := s'.dv, dvsize := s'.dvsize, loose := s'.loose) && Roles(s')
             && Binned(s') == Binned(s)
    ensures Books(s')
  {
    hide Tagged, SmallsOk, TreesOk, Tiled, MinSized, Binned, LargeChunks, SmallChunks;
  }

  lemma DvFacts(s: State)
    requires Books(s) && s.dvsize != 0
    ensures s.dv in s.h && s.h[s.dv].size == s.dvsize >= 32 && s.dvsize % 16 == 0 && !s.h[s.dv].used && s.dv != s.top
            && s.dv !in s.loose && s.dv > 0
  {
    hide Tagged, Shelved;
    assert Fits(s.h, s.base, s.end, s.dv);
  }

  lemma DvToLoose(s: State, s': State)
    requires Books(s) && s.dvsize != 0 && s' == s.(dv := 0, dvsize := 0, loose := s.loose + {s.dv})
    ensures Books(s')
  {
    hide Tagged, Shelved, Ground;
    DvFacts(s);
    forall q | q in s.h ensures q > 0 { PositiveChunk(s, q); }
    assert Binned(s') == Binned(s);
    Relabelled(s, s');
  }

  lemma LooseToDv(s: State, s': State, p: int)
    requires Books(s) && s.dvsize == 0 && p in s.loose && p in s.h
             && s' == s.(dv := p, dvsize := s.h[p].size, loose := s.loose - {p})
    ensures Books(s')
  {
    hide Tagged, Shelved, Ground;
    LooseFacts(s, p);
    forall q | q in s.h ensures q > 0 { PositiveChunk(s, q); }
    assert Binned(s') == Binned(s);
    Relabelled(s, s');
  }

  lemma QuietRefl(s: State)
    ensures Quiet(s.mem, s.mem, s.h, s.gm)
  {
  }

  // ------------------------------------------------- what malloc promises

  /** Chunk p can serve a request of nb bytes. */
  ghost predicate Fit(s: State, p: int, nb: int)
    requires p in s.h
  {
    !s.h[p].used && if p == s.top then nb < s.h[p].size else nb <= s.h[p].size
  }

  ghost predicate NoFit(s: State, nb: int) {
    forall p {:trigger Fit(s, p, nb)} :: p in s.h ==> !Fit(s, p, nb)
  }

  /** r points into a new block of nb bytes or one unusable remainder more. */
  ghost predicate Allocated(s: State, s': State, r: int, nb: nat) {
    && r - 16 in Blocks(s'.h) && nb <= Blocks(s'.h)[r - 16] < nb + 32
    && NewBlock(s, s', r - 16, Blocks(s'.h)[r - 16]) && s'.loose == {}
  }

  lemma IsAllocated(s: State, s': State, p: int, n: nat, nb: nat)
    requires NewBlock(s, s', p, n) && nb <= n < nb + 32 && s'.loose == {}
    ensures Allocated(s, s', p + 16, nb)
  {
    hide Books, Coalesced, Payloads;
  }

  lemma Reached(s: State, s': State)
    requires Reshelved(s, s', s'.loose)
    ensures SameLayout(s, s')
  {
    hide Books, Quiet;
  }

  lemma FreshBooks(s: State, s': State, p: int, n: nat)
    requires NewBlock(s, s', p, n)
    ensures Books(s') && Coalesced(s'.h)
  {
  }

  /** The first chunk of a marked small bin. */
  lemma FirstOf(s: State, i: nat)
    requires Books(s) && i < NSMALLBINS && Marked(s.smallmap, i)
    ensures |s.rings| == NSMALLBINS && s.rings[i] != [] && Word(s.mem, SmallHeader(s.gm, i) + 16) == s.rings[i][0]
    ensures var p := s.rings[i][0]; p in s.h && !s.h[p].used && s.h[p].size == 8 * i >= 32 && p != s.top && s.top != 0
  {
    hide Marked, SmallChunks, RingsClear, RingsApart, SmallsOk, TreesOk, LargeChunks, Tiled, Tagged;
    UnlinkSmallReady(s);
    FirstAtLeast(s.mem, s.gm, s.smallmap, s.rings, i, s.base);
    assert s.rings[i][0] in s.rings[i];
    SmallMember(s, i, s.rings[i][0]);
  }

  /** The chunk a tree search found. */
  lemma FoundChunk(s: State, v: int, nb: nat)
    requires Books(s) && v != 0 && BestFit(s.h, s.trees, v, nb)
    ensures v in s.h && v in Binned(s) && s.h[v].size >= 0x100 && s.h[v].size >= nb && s.h[v].size % 16 == 0
            && s.base <= v && v != s.top && Fit(s, v, nb)
    ensures s.top != 0 && s.h[v].size < TWO64
  {
    hide LargeChunks, SmallChunks, SmallsOk, TreesOk, Tagged, Special;
    LargeMember(s, v);
    assert Fits(s.h, s.base, s.end, v);
    LooseTop(s);
  }

  lemma LooseTop(s: State)
    ensures s.top in Special(s) && s.dv in Special(s)
  {
  }

  lemma ShelvedTrees(s: State)
    requires Books(s)
    ensures TreesOk(s.mem, s.h, s.gm, s.treebins, s.treemap, s.trees)
  {
    hide TreesOk, SmallsOk, Tagged;
  }

  // ------------------------------------------------------- when nothing fits

  lemma NoTrees(s: State)
    requires Shelved(s) && s.treemap == 0
    ensures LargeChunks(s.trees) == {}
  {
    hide SmallsOk, TreesOk, Marked, Nodes, SmallChunks;
    ShelvedSmalls(s);
    forall p | p in LargeChunks(s.trees)
      ensures false
    {
      var i := WhichBin(s.trees, p);
      TreeMarks(s.mem, s.h, s.gm, s.treebins, s.treemap, s.trees, i);
      NodesNode(s.trees[i], p);
      NoMarks(i);
    }
  }

  lemma SmallUnmarked(s: State, p: int)
    requires Shelved(s) && p in SmallChunks(s.rings)
    ensures exists i: nat :: i < NSMALLBINS && Marked(s.smallmap, i) && p in s.h && s.h[p].size == 8 * i
  {
    hide TreesOk, Marked, LargeChunks, SmallChunks, Special;
    ShelvedSmalls(s);
    var i, k := WhichRing(s.rings, p);
    SmallMember(s, i, p);
    assert SmallBinOk(s.mem, s.gm, s.smallmap, s.rings, i);
  }

  lemma NothingAtAll(s: State, nb: nat)
    requires Books(s) && s.loose == {} && s.dvsize < nb && s.topsize <= nb
    requires forall p :: p in SmallChunks(s.rings) ==> p in s.h && s.h[p].size < nb
    requires forall p :: p in LargeChunks(s.trees) ==> p in s.h && s.h[p].size < nb
    ensures NoFit(s, nb)
  {
    hide SmallsOk, TreesOk, SmallChunks, LargeChunks, Tiled, Tagged, MinSized;
    forall p | p in s.h
      ensures !Fit(s, p, nb)
    {
      PositiveChunk(s, p);
      if !s.h[p].used && p != s.top && p != s.dv {
        assert p in Binned(s);
      }
    }
  }

  lemma NoFitSmall(s: State, nb: nat)
    requires Books(s) && s.loose == {} && s.dvsize < nb && s.topsize <= nb && s.treemap == 0 && nb % 8 == 0
    requires forall i: nat :: nb / 8 <= i < NSMALLBINS ==> !Marked(s.smallmap, i)
    ensures NoFit(s, nb)
  {
    hide SmallsOk, TreesOk, SmallChunks, LargeChunks, Ground, Roles, Tagged, Marked, NoFit;
    NoTrees(s);
    forall p | p in SmallChunks(s.rings)
      ensures p in s.h && s.h[p].size < nb
    {
      SmallUnmarked(s, p);
    }
    NothingAtAll(s, nb);
  }

  lemma NoFitLarge(s: State, nb: nat)
    requires Books(s) && s.loose == {} && s.dvsize < nb && s.topsize <= nb && nb >= 0x100
    requires s.treemap == 0 || forall p :: p in LargeChunks(s.trees) ==> p in s.h && s.h[p].size < nb
    ensures NoFit(s, nb)
  {
    hide SmallsOk, TreesOk, SmallChunks, LargeChunks, Ground, Roles, Tagged, Marked, NoFit;
    if s.treemap == 0 { NoTrees(s); }
    forall p | p in SmallChunks(s.rings)
      ensures p in s.h && s.h[p].size < nb
    {
      SmallUnmarked(s, p);
    }
    NothingAtAll(s, nb);
  }

  lemma Victim64(s: State)
    requires Books(s)
    ensures s.dvsize + 1 < TWO64 && s.topsize + 1 < TWO64
  {
    hide Tagged, Shelved;
    if s.dv != 0 { assert Fits(s.h, s.base, s.end, s.dv); }
    if s.top != 0 { assert Fits(s.h, s.base, s.end, s.top); }
  }

  // ----------------------------------------------------- the smallest that fits

  /** p is a smallest binned chunk of at least nb bytes. */
  ghost predicate Tightest(s: State, p: int, nb: nat) {
    && p in Binned(s) && s.h[p].size >= nb
    && forall q :: q in Binned(s) && s.h[q].size >= nb ==> s.h[p].size <= s.h[q].size
  }

  /** No binned chunk has nb bytes. */
  ghost predicate NoneBinned(s: State, nb: nat) {
    forall q :: q in Binned(s) ==> s.h[q].size < nb
  }

  lemma BinnedWhere(s: State, q: int)
    requires Books(s)
    ensures q in Binned(s) <==> q in SmallChunks(s.rings) || q in LargeChunks(s.trees)
  {
    hide SmallsOk, TreesOk, SmallChunks, LargeChunks, Ground, Roles, Tagged, Binned;
  }

  /** A small chunk of at least nb bytes is in a marked bin from nb / 8 on. */
  lemma BinnedSmall(s: State, q: int, nb: nat, i: nat)
    requires Books(s) && q in SmallChunks(s.rings) && nb % 8 == 0 && i <= NSMALLBINS
    requires forall j: nat :: nb / 8 <= j < i ==> !Marked(s.smallmap, j)
    ensures q in s.h && (s.h[q].size >= nb ==> s.h[q].size >= 8 * i)
  {
    hide SmallChunks, Marked, Special, Shelved;
    SmallUnmarked(s, q);
  }

  lemma TightestSmall(s: State, i: nat, nb: nat)
    requires Books(s) && i < NSMALLBINS && Marked(s.smallmap, i) && nb % 8 == 0 && nb <= 8 * i
    requires forall j: nat :: nb / 8 <= j < i ==> !Marked(s.smallmap, j)
    ensures |s.rings| == NSMALLBINS && s.rings[i] != [] && Tightest(s, s.rings[i][0], nb)
  {
    hide Books, SmallChunks, LargeChunks, Marked;
    FirstOf(s, i);
    var p := s.rings[i][0];
    FirstBinned(s, i);
    forall q | q in Binned(s) && s.h[q].size >= nb ensures s.h[p].size <= s.h[q].size {
      BinnedWhere(s, q);
      if q in SmallChunks(s.rings) { BinnedSmall(s, q, nb, i); } else { LargeBinned(s, q); }
    }
  }

  /** malloc prefers a binned chunk of this size to the designated victim: when
      the victim does not fit, when the chunk leaves no remainder, and for large
      requests when it is smaller than the victim. */
  ghost predicate Preferred(size: nat, nb: nat, dvsize: nat) {
    nb <= size && (dvsize < nb || if nb < 0x100 then size < nb + 16 else size < dvsize)
  }

  ghost predicate NonePreferred(s: State, nb: nat) {
    forall q :: q in Binned(s) ==> !Preferred(s.h[q].size, nb, s.dvsize)
  }

  /** The chunk malloc uses: a smallest binned chunk that fits if one is
      preferred, else the designated victim if it fits, else the top chunk, which
      may have to grow and begins at start if there is none. */
  ghost predicate Chosen(s: State, start: int, p: int, nb: nat) {
    if !NonePreferred(s, nb) then Tightest(s, p, nb)
    else if nb <= s.dvsize then p == s.dv
    else p == if s.top != 0 then s.top else start
  }

  lemma ChosenBinned(s: State, start: int, p: int, nb: nat)
    requires Tightest(s, p, nb) && Preferred(s.h[p].size, nb, s.dvsize)
    ensures Chosen(s, start, p, nb)
  {
  }

  lemma ChosenOther(s: State, start: int, nb: nat)
    requires NonePreferred(s, nb)
    ensures Chosen(s, start, if nb <= s.dvsize then s.dv else if s.top != 0 then s.top else start, nb)
  {
  }

  lemma TightestFits(s: State, p: int, nb: nat)
    requires Tightest(s, p, nb)
    ensures p in Binned(s) && p in s.h && s.h[p].size >= nb
  {
  }

  lemma TopThere(s: State)
    requires Books(s) && s.topsize > 0
    ensures s.top != 0
  {
  }

  lemma NoneToPrefer(s: State, nb: nat)
    requires NoneBinned(s, nb)
    ensures NonePreferred(s, nb)
  {
  }

  /** With both bins for a remainderless fit unmarked, no binned chunk is. */
  lemma NoExactFit(s: State, nb: nat)
    requires Books(s) && nb % 16 == 0 && 32 <= nb <= 240 && nb <= s.dvsize
    requires !Marked(s.smallmap, nb / 8) && !Marked(s.smallmap, nb / 8 + 1)
    ensures NonePreferred(s, nb)
  {
    hide Books, SmallChunks, LargeChunks, Marked;
    forall q | q in Binned(s) ensures !Preferred(s.h[q].size, nb, s.dvsize) {
      BinnedWhere(s, q);
      if q in SmallChunks(s.rings) {
        if s.h[q].size >= nb { BinnedSmall(s, q, nb, nb / 8 + 2); }
      } else {
        LargeBinned(s, q);
      }
    }
  }

  /** For a large request only tree chunks fit. */
  lemma TightestLarge(s: State, v: int, nb: nat)
    requires Books(s) && nb >= 0x100 && v != 0 && BestFit(s.h, s.trees, v, nb)
    ensures Tightest(s, v, nb)
  {
    hide SmallChunks, LargeChunks, Books;
    BinnedWhere(s, v);
    forall q | q in Binned(s) && s.h[q].size >= nb ensures s.h[v].size <= s.h[q].size {
      BinnedWhere(s, q);
      if q in SmallChunks(s.rings) { SmallBinned(s, q); }
    }
  }

  /** What tmalloc_large found not worth taking. */
  lemma NoneLarge(s: State, nb: nat)
    requires Books(s) && nb >= 0x100
    requires forall p :: p in LargeChunks(s.trees) ==> p in s.h && (s.h[p].size < nb || nb <= s.dvsize <= s.h[p].size)
    ensures NonePreferred(s, nb)
  {
    hide SmallChunks, LargeChunks, Binned, Books;
    forall q | q in Binned(s) ensures q in s.h && !Preferred(s.h[q].size, nb, s.dvsize) {
      BinnedWhere(s, q);
      if q in SmallChunks(s.rings) { SmallBinned(s, q); }
    }
  }

  lemma FirstBinned(s: State, i: nat)
    requires Books(s) && i < NSMALLBINS && |s.rings| == NSMALLBINS && s.rings[i] != []
    ensures s.rings[i][0] in Binned(s)
  {
    hide SmallsOk, TreesOk, LargeChunks, Ground, Roles, Tagged;
    SmallMember(s, i, s.rings[i][0]);
  }

  lemma LargeBinned(s: State, q: int)
    requires Books(s) && q in LargeChunks(s.trees)
    ensures q in s.h && s.h[q].size >= 0x100
  {
    hide SmallsOk, TreesOk, LargeChunks, SmallChunks, Ground, Roles, Tagged;
    LargeMember(s, q);
  }

  /** When no small bin from nb / 8 on is marked, the best fit of the tree bins
      is the best of all, and without tree chunks nothing fits. */
  lemma TightestTree(s: State, v: int, nb: nat)
    requires Books(s) && nb % 8 == 0 && forall j: nat :: nb / 8 <= j < NSMALLBINS ==> !Marked(s.smallmap, j)
    ensures v != 0 && nb < 0x100 && BestFit(s.h, s.trees, v, nb) ==> Tightest(s, v, nb)
    ensures s.treemap == 0 && nb < 0x100 ==> NoneBinned(s, nb)
  {
    hide SmallChunks, LargeChunks, Marked, Binned, Books;
    if v != 0 && BestFit(s.h, s.trees, v, nb) { BinnedWhere(s, v); }
    if s.treemap == 0 { BookTrees(s); }
    forall q | q in Binned(s) ensures q in s.h && (q in LargeChunks(s.trees) || nb >= 0x100 || s.h[q].size < nb) {
      BinnedWhere(s, q);
      if q in SmallChunks(s.rings) { BinnedSmall(s, q, nb, NSMALLBINS); SmallBinned(s, q); } else { LargeBinned(s, q); }
    }
  }

  lemma BookTrees(s: State)
    requires Books(s) && s.treemap == 0
    ensures LargeChunks(s.trees) == {}
  {
    hide SmallsOk, TreesOk, LargeChunks, SmallChunks, Ground, Roles, Tagged;
    NoTrees(s);
  }

  lemma SmallBinned(s: State, q: int)
    requires Books(s) && q in SmallChunks(s.rings)
    ensures q in s.h && s.h[q].size < 0x100
  {
    hide SmallChunks, Marked, Special, Shelved;
    SmallUnmarked(s, q);
  }
}
