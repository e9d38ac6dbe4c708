/** A snapshot of the allocator's state with its ghost layout, and the
    bookkeeping invariant every step of malloc and free keeps
    (components/common/dlmalloc/malloc.c, lines 2578 to 2644 and 3225 to 3457):
    the chunks tile the segment, memory holds their tags, and every free chunk
    is in exactly one place. */
module HeapState {
  import opened Words
  import opened Rings
  import opened Tiling
  import opened Tags
  import opened Tries
  import opened BinMaps
  import opened BinIndex
  import opened TrieBits
  import opened TreeBins
  import opened Bins
  import opened SmallBins

  /** loose holds the free chunks that are on their way between places. */
  datatype State = State(gm: int, base: int, end: int, mem: Memory,
                         smallmap: uint32, treemap: uint32, treebins: seq<int>,
                         dv: int, dvsize: nat, top: int, topsize: nat,
                         h: Layout, rings: seq<seq<int>>, trees: seq<Tree>, loose: set<int>)

  /** The state record and the segment do not overlap. */
  ghost predicate Elsewhere(gm: int, base: int, end: int) {
    0 < gm && (gm + 856 <= base || end <= gm)
  }

  ghost predicate MinSized(h: Layout, top: int) {
    forall p :: p in h && p != top ==> h[p].size >= 32
  }

  ghost function FreeSet(h: Layout): set<int> {
    set p | p in h && !h[p].used
  }

  ghost function Special(s: State): set<int> {
    {s.top, s.dv} + s.loose
  }

  ghost function Binned(s: State): set<int> {
    FreeSet(s.h) - Special(s)
  }

  ghost predicate Ground(s: State) {
    && Tiled(s.h, s.base, s.end) && Elsewhere(s.gm, s.base, s.end) && s.end < TWO64
    && MinSized(s.h, s.top)
  }

  /** The bins hold exactly the free chunks that are not the top, the
      designated victim or loose. */
  ghost predicate Shelved(s: State) {
    && SmallsOk(s.mem, s.gm, s.smallmap, s.rings) && RingsSized(s.h, s.rings)
    && TreesOk(s.mem, s.h, s.gm, s.treebins, s.treemap, s.trees)
    && SmallChunks(s.rings) + LargeChunks(s.trees) == Binned(s)
  }

  /** The designated victim, the top chunk and the loose chunks. */
  ghost predicate Roles(s: State) {
    && s.loose <= FreeSet(s.h)
    && (s.dv == 0 <==> s.dvsize == 0)
    && (s.dv != 0 ==> s.dv in s.h && s.h[s.dv] == s.h[s.dv].(size := s.dvsize, used := false)
                      && s.dv != s.top && s.dv !in s.loose)
    && (s.top == 0 ==> s.h == map[] && s.topsize == 0)
    && (s.top != 0 ==> s.top in s.h && s.h[s.top] == s.h[s.top].(size := s.topsize, used := false)
                       && s.top + s.topsize == s.end && s.top !in s.loose)
  }

  ghost predicate Books(s: State) {
    Ground(s) && Tagged(s.mem, s.h, s.top) && Roles(s) && Shelved(s)
  }

  // --------------------------------------------------- quiet memory changes

  /** Address w is in the interior of a free chunk. */
  ghost predicate Inside(h: Layout, w: int) {
    exists y :: y in h && !h[y].used && y + 16 <= w < y + h[y].size
  }

  ghost predicate QuietAt(m: Memory, m': Memory, h: Layout, gm: int, w: int) {
    Word(m', w) == Word(m, w) || Inside(h, w) || gm + 88 <= w < gm + 600
  }

  /** Only interiors of free chunks and small bin headers have changed. */
  ghost predicate Quiet(m: Memory, m': Memory, h: Layout, gm: int) {
    forall w {:trigger QuietAt(m, m', h, gm, w)} :: QuietAt(m, m', h, gm, w)
  }

  lemma NotInside(h: Layout, base: int, end: int, q: int, w: int)
    requires Tiled(h, base, end) && q in h
    requires w == q + 8 || w == q + h[q].size || (h[q].used && q + 16 <= w < q + h[q].size + 8)
    ensures !Inside(h, w) && base < w < end + 8
  {
    assert Fits(h, base, end, q);
    forall y | y in h && !h[y].used
      ensures !(y + 16 <= w < y + h[y].size)
    {
      assert Fits(h, base, end, y);
      if y != q { Separate(h, base, end, y, q); }
    }
  }

  lemma QuietWord(s: State, m': Memory, q: int, w: int)
    requires Ground(s) && Quiet(s.mem, m', s.h, s.gm) && q in s.h
    requires w == q + 8 || w == q + s.h[q].size || (s.h[q].used && q + 16 <= w < q + s.h[q].size + 8)
    ensures Word(m', w) == Word(s.mem, w)
  {
    hide Inside, Tiled, MinSized;
    NotInside(s.h, s.base, s.end, q, w);
    assert QuietAt(s.mem, m', s.h, s.gm, w);
  }

  lemma QuietTagged(s: State, m': Memory)
    requires Ground(s) && Quiet(s.mem, m', s.h, s.gm) && Tagged(s.mem, s.h, s.top)
    ensures Tagged(m', s.h, s.top)
  {
    hide Ground, Quiet;
    forall p | p in s.h
      ensures HeadOk(m', s.h, p) && FootOk(m', s.h, s.top, p)
    {
      assert HeadOk(s.mem, s.h, p) && FootOk(s.mem, s.h, s.top, p);
      QuietWord(s, m', p, p + 8);
      QuietWord(s, m', p, p + s.h[p].size);
    }
  }

  /** The payloads of the used chunks of h are the same in both memories. */
  ghost predicate Payloads(m: Memory, m': Memory, h: Layout) {
    forall q :: q in h && h[q].used ==> SameOn(m, m', q + 16, q + h[q].size + 8)
  }

  lemma QuietPayloads(s: State, m': Memory)
    requires Ground(s) && Quiet(s.mem, m', s.h, s.gm)
    ensures Payloads(s.mem, m', s.h)
  {
    hide Ground, Quiet;
    forall q, w | q in s.h && s.h[q].used && q + 16 <= w < q + s.h[q].size + 8
      ensures Word(m', w) == Word(s.mem, w)
    {
      QuietWord(s, m', q, w);
    }
  }

  // ------------------------------------------------------------ frames

  lemma SmallsFrame(m: Memory, m': Memory, gm: int, smallmap: uint32, rings: seq<seq<int>>)
    requires SmallsOk(m, gm, smallmap, rings)
    requires SameOn(m, m', gm + 88, gm + 600)
    requires forall x :: x in SmallChunks(rings) ==> SameOn(m, m', x + 16, x + 32)
    ensures SmallsOk(m', gm, smallmap, rings)
  {
    hide Marked;
    forall i: nat | i < NSMALLBINS
      ensures SmallBinOk(m', gm, smallmap, rings, i)
    {
      assert SmallBinOk(m, gm, smallmap, rings, i);
      if rings[i] != [] {
        var r := RingOf(gm, rings, i);
        forall k | 0 <= k < |r|
          ensures SameOn(m, m', r[k] + 16, r[k] + 32)
        {
          if k > 0 {
            assert r[k] == rings[i][k - 1] && rings[i][k - 1] in rings[i];
            assert r[k] in SmallChunks(rings);
          }
        }
        RingFrame(m, m', r);
      }
    }
  }

  /** Tree chunk y keeps its links, its size and its head's size bits. */
  ghost predicate NodeKept(m: Memory, m': Memory, h: Layout, h': Layout, y: int) {
    && y in h && y in h' && h'[y].size == h[y].size
    && SameOn(m, m', y + 16, y + 64) && ChunkSize(Word(m', y + 8)) == h'[y].size
  }

  lemma TreeBinFrame(m: Memory, m': Memory, h: Layout, h': Layout, gm: int, treebins: seq<int>, treemap: uint32,
                     trees: seq<Tree>, i: nat)
    requires Shapes(treebins, trees) && i < NTREEBINS && TreeBinOk(m, h, gm, treebins, treemap, trees, i)
    requires forall y :: y in Nodes(trees[i]) ==> NodeKept(m, m', h, h', y)
    ensures TreeBinOk(m', h', gm, treebins, treemap, trees, i)
  {
    hide TreeAt, Sized, Nodes, Marked, TreeIndex, Spread, BinLow, BinBits, ChunkSize, Word;
    TreeFrame(m, m', trees[i], TreeSlot(gm, i), i);
    SizedFrame(h, h', trees[i], BinLow(i), BinBits(i));
  }

  lemma TreesFrame(m: Memory, m': Memory, h: Layout, h': Layout, gm: int, treebins: seq<int>, treemap: uint32,
                   trees: seq<Tree>)
    requires TreesOk(m, h, gm, treebins, treemap, trees)
    requires forall y :: y in LargeChunks(trees) ==> NodeKept(m, m', h, h', y)
    ensures TreesOk(m', h', gm, treebins, treemap, trees)
  {
    hide TreeBinOk, NodeKept, Nodes;
    forall i: nat | i < NTREEBINS
      ensures TreeBinOk(m', h', gm, treebins, treemap, trees, i)
    {
      TreeBinFrame(m, m', h, h', gm, treebins, treemap, trees, i);
    }
  }

  // ------------------------------------------------- where binned chunks are

  lemma SmallMember(s: State, i: nat, x: int)
    requires Shelved(s) && i < NSMALLBINS && x in s.rings[i]
    ensures x in SmallChunks(s.rings) && x in s.h && !s.h[x].used && s.h[x].size == 8 * i && x !in Special(s)
  {
    hide SmallsOk, TreesOk;
    assert |s.rings| == NSMALLBINS by { SmallLength(s.mem, s.gm, s.smallmap, s.rings); }
    assert x in SmallChunks(s.rings);
    assert x in Binned(s);
  }

  lemma LargeMember(s: State, x: int)
    requires Shelved(s) && x in LargeChunks(s.trees)
    ensures x in s.h && !s.h[x].used && 0x100 <= s.h[x].size < TWO64 && x !in Special(s)
  {
    hide SmallsOk, TreesOk, LargeChunks, SmallChunks;
    LargeSizes(s.mem, s.h, s.gm, s.treebins, s.treemap, s.trees);
    assert x in Binned(s);
  }

  lemma WhichRing(rings: seq<seq<int>>, x: int) returns (i: nat, k: nat)
    requires x in SmallChunks(rings)
    ensures i < |rings| && k < |rings[i]| && rings[i][k] == x
  {
    i :| 0 <= i < |rings| && x in rings[i];
    k :| 0 <= k < |rings[i]| && rings[i][k] == x;
  }

  /** A chunk and a small bin header do not overlap. */
  lemma HeaderClear(s: State, i: nat, x: int)
    requires Ground(s) && i < NSMALLBINS && x in s.h
    ensures x != SmallHeader(s.gm, i) && Clear16(x, SmallHeader(s.gm, i)) && Clear16(SmallHeader(s.gm, i), x)
    ensures s.base <= x
  {
    assert Fits(s.h, s.base, s.end, x);
  }

  lemma ChunksClear(s: State, x: int, y: int)
    requires Ground(s) && x in s.h && y in s.h && x != y
    ensures Clear16(x, y)
  {
    assert Fits(s.h, s.base, s.end, x) && Fits(s.h, s.base, s.end, y);
    Separate(s.h, s.base, s.end, x, y);
  }

  lemma RingNode(s: State, i: nat, x: int)
    requires Shelved(s) && |s.rings| == NSMALLBINS && i < NSMALLBINS && x in RingOf(s.gm, s.rings, i)
    ensures x == SmallHeader(s.gm, i)
            || (x in s.rings[i] && x in s.h && s.h[x].size == 8 * i && !s.h[x].used && x !in Special(s))
  {
    hide Shelved, Special;
    if x != SmallHeader(s.gm, i) {
      SmallMember(s, i, x);
    }
  }

  lemma RingsSeparate(s: State, extra: set<int>)
    requires Ground(s) && Shelved(s) && |s.rings| == NSMALLBINS
    requires forall p :: p in extra ==> p in s.h && (s.h[p].used || p in Special(s))
    ensures RingsClear(s.gm, s.rings, extra) && RingsApart(s.gm, s.rings)
    ensures AtLeast(SmallChunks(s.rings), s.base)
  {
    hide Ground, Shelved, SmallChunks, Special, RingOf, SmallHeader;
    forall i, j, x, y | 0 <= i < NSMALLBINS && 0 <= j < NSMALLBINS && x in RingOf(s.gm, s.rings, i)
      && y in RingOf(s.gm, s.rings, j)
      ensures x == y || Clear16(x, y)
    {
      RingNode(s, i, x);
      RingNode(s, j, y);
      NodesClear(s, i, x, j, y);
    }
    forall i, j, x, y | 0 <= i < |s.rings| && 0 <= j < |s.rings| && i != j && x in RingOf(s.gm, s.rings, i)
      && y in RingOf(s.gm, s.rings, j)
      ensures x != y
    {
      RingNode(s, i, x);
      RingNode(s, j, y);
      NodesClear(s, i, x, j, y);
    }
    assert RingsApart(s.gm, s.rings);
    forall i, x, y | 0 <= i < NSMALLBINS && x in RingOf(s.gm, s.rings, i) && y in extra
      ensures x != y && Clear16(x, y)
    {
      RingNode(s, i, x);
      HeaderClear(s, i, y);
      if x != SmallHeader(s.gm, i) { ChunksClear(s, x, y); }
    }
    forall x | x in SmallChunks(s.rings)
      ensures x >= s.base
    {
      var i, k := WhichRing(s.rings, x);
      SmallMember(s, i, x);
      HeaderClear(s, i, x);
    }
  }

  lemma NodesClear(s: State, i: nat, x: int, j: nat, y: int)
    requires Ground(s) && i < NSMALLBINS && j < NSMALLBINS
    requires x == SmallHeader(s.gm, i) || (x in s.h && s.h[x].size == 8 * i)
    requires y == SmallHeader(s.gm, j) || (y in s.h && s.h[y].size == 8 * j)
    ensures (x == y || Clear16(x, y)) && (i != j ==> x != y)
  {
    hide Ground;
    if x in s.h { HeaderClear(s, j, x); }
    if y in s.h { HeaderClear(s, i, y); }
    if x in s.h && y in s.h && x != y { ChunksClear(s, x, y); }
  }

  lemma LargeSpread(s: State, extra: set<int>)
    requires Ground(s) && Shelved(s)
    requires forall p :: p in extra ==> p in s.h && s.h[p].size >= 0x100
    ensures Spread(LargeChunks(s.trees) + extra) && AtLeast(LargeChunks(s.trees) + extra, s.base)
  {
    hide Shelved, LargeChunks;
    forall x, y | x in LargeChunks(s.trees) + extra && y in LargeChunks(s.trees) + extra && x != y
      ensures x + 64 <= y || y + 64 <= x
    {
      if x !in extra { LargeMember(s, x); }
      if y !in extra { LargeMember(s, y); }
      Separate(s.h, s.base, s.end, x, y);
    }
    forall x | x in LargeChunks(s.trees) + extra
      ensures x >= s.base
    {
      if x !in extra { LargeMember(s, x); }
      assert Fits(s.h, s.base, s.end, x);
    }
  }

  // --------------------------------------------- putting chunks into bins

  lemma SmallAdded(rings: seq<seq<int>>, i: nat, p: int)
    requires i < |rings|
    ensures SmallChunks(rings[i := [p] + rings[i]]) == SmallChunks(rings) + {p}
  {
    var rings' := rings[i := [p] + rings[i]];
    assert p in rings'[i];
    forall x | x in SmallChunks(rings) ensures x in SmallChunks(rings') {
      var j :| 0 <= j < |rings| && x in rings[j];
      assert x in rings'[j];
    }
    forall x | x in SmallChunks(rings') && x != p ensures x in SmallChunks(rings) {
      var j :| 0 <= j < |rings'| && x in rings'[j];
      assert x in rings[j];
    }
  }

  lemma SmallDropped(rings: seq<seq<int>>, i: nat, k: nat)
    requires i < |rings| && k < |rings[i]| && NoDups(rings[i])
    requires forall j :: 0 <= j < |rings| && j != i ==> rings[i][k] !in rings[j]
    ensures SmallChunks(Dropped(rings, i, k)) == SmallChunks(rings) - {rings[i][k]}
  {
    var rings', p := Dropped(rings, i, k), rings[i][k];
    var r := Without(rings[i], k);
    assert forall j :: 0 <= j < |r| ==> r[j] == rings[i][if j < k then j else j + 1];
    assert forall x :: x in rings[i] && x != p ==> x in r by {
      forall x | x in rings[i] && x != p ensures x in r {
        var j :| 0 <= j < |rings[i]| && rings[i][j] == x;
        assert r[if j < k then j else j - 1] == x;
      }
    }
    assert p !in r;
    forall x | x in SmallChunks(rings) && x != p ensures x in SmallChunks(rings') {
      var j :| 0 <= j < |rings| && x in rings[j];
      assert x in rings'[j];
    }
    forall x | x in SmallChunks(rings') ensures x in SmallChunks(rings) && x != p {
      var j :| 0 <= j < |rings'| && x in rings'[j];
      assert x in rings[j];
    }
  }

  lemma LargeReplaced(trees: seq<Tree>, i: nat, t: Tree, x: int)
    requires i < |trees|
    ensures Nodes(t) == Nodes(trees[i]) + {x} ==> LargeChunks(trees[i := t]) == LargeChunks(trees) + {x}
    ensures Nodes(t) == Nodes(trees[i]) - {x} && (forall j :: 0 <= j < |trees| && j != i ==> x !in Nodes(trees[j]))
            ==> LargeChunks(trees[i := t]) == LargeChunks(trees) - {x}
  {
    hide Nodes;
    var trees' := trees[i := t];
    forall y ensures y in LargeChunks(trees) <==> exists j :: 0 <= j < |trees| && y in Nodes(trees[j]) {}
    forall y ensures y in LargeChunks(trees') <==> exists j :: 0 <= j < |trees| && y in Nodes(trees'[j]) {}
    forall y | y != x && (Nodes(t) == Nodes(trees[i]) + {x} || Nodes(t) == Nodes(trees[i]) - {x})
      ensures y in LargeChunks(trees) <==> y in LargeChunks(trees')
    {
      if y in LargeChunks(trees) {
        var j :| 0 <= j < |trees| && y in Nodes(trees[j]);
        assert y in Nodes(trees'[j]);
      }
      if y in LargeChunks(trees') {
        var j :| 0 <= j < |trees| && y in Nodes(trees'[j]);
        assert y in Nodes(trees[j]);
      }
    }
    if Nodes(t) == Nodes(trees[i]) + {x} { assert x in Nodes(trees'[i]); }
  }
}
