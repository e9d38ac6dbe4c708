/** The bins of a malloc_state: 32 small bins, each a ring through a header in
    the state itself, and 32 tree bins; and the best-fit searches over all tree
    bins (components/common/dlmalloc/malloc.c, lines 2578 to 2611, 3357 to 3390
    and 4440 to 4526). */
module Bins {
  import opened Words
  import opened Bits
  import opened Rings
  import opened Tiling
  import opened Tags
  import opened Tries
  import opened BinMaps
  import opened BinIndex
  import opened TrieBits
  import opened TreeBins
  import opened TreeSearch

  /** treebin_at(gm, i): the address of the i-th tree bin's root pointer. */
  function TreeSlot(gm: int, i: nat): int {
    gm + 600 + 8 * i
  }

  /** smallbin_at(gm, i): the i-th small bin's header, seen as a chunk. */
  function SmallHeader(gm: int, i: nat): int {
    gm + 72 + 16 * i
  }

  ghost predicate Shapes(treebins: seq<int>, trees: seq<Tree>) {
    |treebins| == NTREEBINS && |trees| == NTREEBINS
  }

  /** Tree bin i: its tree in memory, its root pointer, its mark, and only
      chunks of its sizes. */
  ghost predicate TreeBinOk(m: Memory, h: Layout, gm: int, treebins: seq<int>, treemap: uint32, trees: seq<Tree>,
                            i: nat)
    requires Shapes(treebins, trees) && i < NTREEBINS
  {
    && BinAt(m, h, trees[i], TreeSlot(gm, i), i)
    && treebins[i] == Root(trees[i])
    && (Marked(treemap, i) <==> trees[i].Node?)
    && OfBin(h, trees[i], i)
  }

  ghost predicate OfBin(h: Layout, t: Tree, i: nat) {
    forall y :: y in Nodes(t) ==> y in h && 0x100 <= h[y].size < TWO64 && TreeIndex(h[y].size) == i
  }

  ghost predicate TreesOk(m: Memory, h: Layout, gm: int, treebins: seq<int>, treemap: uint32, trees: seq<Tree>) {
    Shapes(treebins, trees) &&
    forall i: nat {:trigger TreeBinOk(m, h, gm, treebins, treemap, trees, i)} ::
      i < NTREEBINS ==> TreeBinOk(m, h, gm, treebins, treemap, trees, i)
  }

  /** The chunks of all tree bins. */
  ghost function LargeChunks(trees: seq<Tree>): set<int> {
    set i, y | 0 <= i < |trees| && y in Nodes(trees[i]) :: y
  }

  lemma InLarge(trees: seq<Tree>, i: nat, y: int)
    requires i < |trees| && y in Nodes(trees[i])
    ensures y in LargeChunks(trees)
  {
  }

  lemma WhichBin(trees: seq<Tree>, y: int) returns (i: nat)
    requires y in LargeChunks(trees)
    ensures i < |trees| && y in Nodes(trees[i])
  {
    i :| 0 <= i < |trees| && y in Nodes(trees[i]);
  }

  /** Sizes grow from bin to bin. */
  lemma BinsOrdered(s: uint64, s': uint64)
    requires s >= 0x100 && s' >= 0x100 && TreeIndex(s) < TreeIndex(s')
    ensures s < s'
  {
    hide TreeIndex, MinSize;
    TreeIndexRange(s);
    TreeIndexRange(s');
    if TreeIndex(s) + 1 < TreeIndex(s') {
      MinSizeMonotonic(TreeIndex(s) + 1, TreeIndex(s'));
    }
  }

  lemma BinBounds(i: nat)
    requires i < NTREEBINS
    ensures BinLow(i) + Pow2(BinBits(i)) <= TWO64
  {
    hide Pow2, MinSize;
    if i == NTREEBINS - 1 {
      Width64();
    } else {
      BinWidth(i);
      var j := i / 2 + 7;
      Pow2Order(j, 22);
      assert Pow2(22) == 0x40_0000 by { Pow16(); Pow2Bytes(); Pow2Add(16, 6); }
      TwoOrThree(i % 2, Pow2(j));
    }
  }

  lemma TwoOrThree(r: nat, p: nat)
    requires r == 0 || r == 1
    ensures (2 + r) * p <= 3 * p
  {
  }

  ghost function BinPlace(gm: int, trees: seq<Tree>, i: nat): Place
    requires i < |trees|
  {
    Place(trees[i], TreeSlot(gm, i), BinLow(i), BinBits(i))
  }

  lemma BinPlaceAt(m: Memory, h: Layout, gm: int, treebins: seq<int>, treemap: uint32, trees: seq<Tree>, i: nat)
    requires TreesOk(m, h, gm, treebins, treemap, trees) && i < NTREEBINS
    ensures At(m, h, i, BinPlace(gm, trees, i), Nodes(trees[i]))
    ensures treebins[i] == Root(trees[i]) && (trees[i].Node? <==> Root(trees[i]) != 0)
            && (Marked(treemap, i) <==> trees[i].Node?)
  {
    hide TreeAt, Sized, Spread, HeadsGive, OfBin, Nodes, BinLow, BinBits;
    assert TreeBinOk(m, h, gm, treebins, treemap, trees, i);
    RootIn(m, trees[i], TreeSlot(gm, i), i);
    BinBounds(i);
    BinLowNat(i);
  }

  lemma BinLowNat(i: nat)
    ensures BinLow(i) >= 0
  {
  }

  // ---------------------------------------------------------- best fit

  /** v is the smallest chunk of all tree bins that holds nb bytes, and 0 if
      there is none. */
  ghost predicate BestFit(h: Layout, trees: seq<Tree>, v: int, nb: int) {
    && (v != 0 ==> v in LargeChunks(trees) && v in h && h[v].size >= nb)
    && (forall y :: y in LargeChunks(trees) && y in h && h[y].size >= nb ==> v != 0 && h[v].size <= h[y].size)
  }

  /** A chunk of another bin than nb's, against the walk's result in that bin. */
  lemma OtherBin(h: Layout, trees: seq<Tree>, nb: uint64, v: int, rsize: int, rest: Tree, y: int, j: nat)
    requires nb >= 0x100 && |trees| == NTREEBINS && TreeIndex(nb) < NTREEBINS && j < NTREEBINS && j != TreeIndex(nb)
    requires OfBin(h, trees[TreeIndex(nb)], TreeIndex(nb)) && OfBin(h, trees[j], j) && y in Nodes(trees[j])
    requires Best(h, v, rsize, nb) && (v != 0 ==> v in Nodes(trees[TreeIndex(nb)]))
             && Nodes(rest) <= Nodes(trees[TreeIndex(nb)])
    requires v != 0 || rest.Node?
    ensures Covered(h, y, nb, rsize, rest)
  {
    hide TreeIndex, Nodes;
    var i := TreeIndex(nb);
    if j < i {
      BinsOrdered(h[y].size, nb);
    } else if v != 0 {
      BinsOrdered(h[v].size, h[y].size);
    } else {
      forall z | z in Nodes(rest)
        ensures z in h && h[z].size <= h[y].size
      {
        BinsOrdered(h[z].size, h[y].size);
      }
    }
  }

  /** Against the next non-empty bin. */
  lemma NextBin(h: Layout, trees: seq<Tree>, treemap: uint32, nb: uint64, i: nat, y: int, j: nat)
    requires nb >= 0x100 && |trees| == NTREEBINS && j < NTREEBINS && TreeIndex(nb) < i < NTREEBINS
    requires OfBin(h, trees[i], i) && OfBin(h, trees[j], j) && y in Nodes(trees[j]) && trees[i].Node?
    requires j == TreeIndex(nb) ==> y in h && h[y].size < nb
    requires TreeIndex(nb) < j < i ==> trees[j].Nil?
    ensures Covered(h, y, nb, TWO64 - nb, trees[i])
  {
    hide TreeIndex;
    var i0 := TreeIndex(nb);
    if j < i0 {
      BinsOrdered(h[y].size, nb);
    } else if j > i {
      forall z | z in Nodes(trees[i])
        ensures z in h && h[z].size <= h[y].size
      {
        BinsOrdered(h[z].size, h[y].size);
      }
    }
  }

  /** After the walk in nb's bin every chunk is covered, unless the bin held
      no fitting chunk. */
  lemma AllCovered(m: Memory, h: Layout, gm: int, treebins: seq<int>, treemap: uint32, trees: seq<Tree>, nb: uint64,
                   v: int, rsize: int, rest: Place)
    requires TreesOk(m, h, gm, treebins, treemap, trees) && nb >= 0x100 && TreeIndex(nb) < NTREEBINS
    requires At(m, h, TreeIndex(nb), rest, Nodes(trees[TreeIndex(nb)])) && (Above(h, rest.tree, nb) || rsize == 0)
    requires Best(h, v, rsize, nb) && (v != 0 ==> v in Nodes(trees[TreeIndex(nb)]))
    requires forall y :: y in Nodes(trees[TreeIndex(nb)]) ==> Covered(h, y, nb, rsize, rest.tree)
    requires v != 0 || rest.tree.Node?
    ensures PathInv(m, h, TreeIndex(nb), rest, Nodes(trees[TreeIndex(nb)]), nb, rsize, LargeChunks(trees))
  {
    hide TreeIndex, At, Above, Covered, Best, BinAt, Nodes, LargeChunks;
    forall y | y in LargeChunks(trees)
      ensures Covered(h, y, nb, rsize, rest.tree)
    {
      var j := WhichBin(trees, y);
      if j != TreeIndex(nb) {
        assert TreeBinOk(m, h, gm, treebins, treemap, trees, j)
               && TreeBinOk(m, h, gm, treebins, treemap, trees, TreeIndex(nb));
        AtNodes(m, h, TreeIndex(nb), rest, Nodes(trees[TreeIndex(nb)]));
        OtherBin(h, trees, nb, v, rsize, rest.tree, y, j);
      }
    }
  }

  lemma AtNodes(m: Memory, h: Layout, idx: int, p: Place, all: set<int>)
    requires At(m, h, idx, p, all)
    ensures Nodes(p.tree) <= all && (p.tree.Node? <==> Root(p.tree) != 0)
  {
    RootIn(m, p.tree, p.parent, idx);
  }

  /** With nothing that fits in nb's bin, the next non-empty bin covers all. */
  lemma NextCovered(m: Memory, h: Layout, gm: int, treebins: seq<int>, treemap: uint32, trees: seq<Tree>, nb: uint64,
                    i: nat)
    requires TreesOk(m, h, gm, treebins, treemap, trees) && nb >= 0x100 && TreeIndex(nb) < i < NTREEBINS
    requires forall y :: y in Nodes(trees[TreeIndex(nb)]) ==> y in h && h[y].size < nb
    requires trees[i].Node? && forall j: nat :: TreeIndex(nb) < j < i ==> trees[j].Nil?
    ensures PathInv(m, h, i, BinPlace(gm, trees, i), Nodes(trees[i]), nb, TWO64 - nb, LargeChunks(trees))
  {
    hide TreeIndex, At, BinAt, Nodes, LargeChunks, Covered;
    BinPlaceAt(m, h, gm, treebins, treemap, trees, i);
    assert TreeBinOk(m, h, gm, treebins, treemap, trees, i);
    forall y | y in LargeChunks(trees)
      ensures Covered(h, y, nb, TWO64 - nb, trees[i])
    {
      var j := WhichBin(trees, y);
      assert TreeBinOk(m, h, gm, treebins, treemap, trees, j);
      NextBin(h, trees, treemap, nb, i, y, j);
    }
    forall y | y in Nodes(trees[i])
      ensures y in h && h[y].size >= nb
    {
      BinsOrdered(nb, h[y].size);
    }
  }

  /** With nothing that fits in nb's bin or above it, nothing fits. */
  lemma NothingFits(m: Memory, h: Layout, gm: int, treebins: seq<int>, treemap: uint32, trees: seq<Tree>, nb: uint64,
                    idx: nat)
    requires TreesOk(m, h, gm, treebins, treemap, trees) && nb >= 0x100 && TreeIndex(nb) < NTREEBINS
    requires forall y :: y in Nodes(trees[TreeIndex(nb)]) ==> y in h && h[y].size < nb
    requires forall j: nat :: TreeIndex(nb) < j < NTREEBINS ==> trees[j].Nil?
    ensures PathInv(m, h, idx, Place(Nil, 0, 0, 0), {}, nb, TWO64 - nb, LargeChunks(trees))
  {
    hide TreeIndex, BinAt;
    assert Pow2(0) == 1;
    forall y | y in LargeChunks(trees)
      ensures y in h && h[y].size < nb
    {
      var j := WhichBin(trees, y);
      assert TreeBinOk(m, h, gm, treebins, treemap, trees, j);
      if j < TreeIndex(nb) { BinsOrdered(h[y].size, nb); }
    }
  }

  lemma LargeSizes(m: Memory, h: Layout, gm: int, treebins: seq<int>, treemap: uint32, trees: seq<Tree>)
    requires TreesOk(m, h, gm, treebins, treemap, trees)
    ensures forall y :: y in LargeChunks(trees) ==> y in h && 0x100 <= h[y].size < TWO64
  {
    hide TreeIndex, BinAt;
    forall y | y in LargeChunks(trees)
      ensures y in h && 0x100 <= h[y].size < TWO64
    {
      var j := WhichBin(trees, y);
      assert TreeBinOk(m, h, gm, treebins, treemap, trees, j);
    }
  }

  lemma DoneIsBest(h: Layout, trees: seq<Tree>, v: int, rsize: int, nb: int)
    requires Best(h, v, rsize, nb) && (v != 0 ==> v in LargeChunks(trees))
    requires forall y :: y in LargeChunks(trees) ==> y in h && h[y].size < TWO64
    requires forall y :: y in LargeChunks(trees) ==> Covered(h, y, nb, rsize, Nil)
    ensures BestFit(h, trees, v, nb)
  {
  }

  lemma TreeMarks(m: Memory, h: Layout, gm: int, treebins: seq<int>, treemap: uint32, trees: seq<Tree>, j: nat)
    requires TreesOk(m, h, gm, treebins, treemap, trees) && j < NTREEBINS
    ensures Marked(treemap, j) <==> trees[j].Node?
  {
    hide BinAt, OfBin, Marked;
    assert TreeBinOk(m, h, gm, treebins, treemap, trees, j);
  }

  /** The lowest bit of the masked map is the next marked bin above idx. */
  lemma LeftmostMarked(treemap: uint32, idx: nat)
    requires idx < 32 && And32(LeftBits(Idx2Bit(idx)), treemap) != 0
    ensures LeastBit(And32(LeftBits(Idx2Bit(idx)), treemap)) > 0
    ensures var i := Bit2Idx(LeastBit(And32(LeftBits(Idx2Bit(idx)), treemap)));
            idx < i < 32 && Marked(treemap, i) && forall j: nat :: idx < j < i ==> !Marked(treemap, j)
  {
    hide Marked, LeftBits, Bit2Idx, LeastBit, And32;
    var bits := And32(LeftBits(Idx2Bit(idx)), treemap);
    LowestSetPosition(bits);
    var i := Bit2Idx(LeastBit(bits));
    LeftBitsAbove(treemap, idx, i);
    forall j: nat | idx < j < i
      ensures !Marked(treemap, j)
    {
      LeftBitsAbove(treemap, idx, j);
    }
  }

  lemma NoneMarked(treemap: uint32, idx: nat, j: nat)
    requires idx < j < 32 && And32(LeftBits(Idx2Bit(idx)), treemap) == 0
    ensures !Marked(treemap, j)
  {
    LeftBitsAbove(treemap, idx, j);
  }

  /** The walk found nothing and left nothing: no chunk of the bin fits. */
  lemma EmptyBin(h: Layout, t: Tree, nb: uint64)
    requires forall y :: y in Nodes(t) ==> Covered(h, y, nb, TWO64 - nb, Nil)
    requires forall y :: y in Nodes(t) ==> y in h && h[y].size < TWO64
    ensures forall y :: y in Nodes(t) ==> y in h && h[y].size < nb
  {
  }

  lemma BinSizes(m: Memory, h: Layout, gm: int, treebins: seq<int>, treemap: uint32, trees: seq<Tree>, i: nat)
    requires TreesOk(m, h, gm, treebins, treemap, trees) && i < NTREEBINS
    ensures forall y :: y in Nodes(trees[i]) ==> y in h && h[y].size < TWO64
  {
    assert TreeBinOk(m, h, gm, treebins, treemap, trees, i);
  }

  /** The search of tmalloc_large: the smallest chunk of at least nb bytes over
      all tree bins, or 0, and its excess. */
  method SearchLarge(m: Memory, treebins: seq<int>, treemap: uint32, nb: uint64, ghost h: Layout, ghost gm: int,
                     ghost trees: seq<Tree>)
    returns (v: int, rsize: uint64)
    requires TreesOk(m, h, gm, treebins, treemap, trees) && nb >= 0x100
    ensures BestFit(h, trees, v, nb) && Best(h, v, rsize, nb)
  {
    hide TreeBinOk, TreeIndex, PathInv, At, Above, Covered, LargeChunks, Nodes, BestFit, Marked, And32, LeftBits,
      Bit2Idx, LeastBit, BinBits, BinLow;
    TreeIndexRange(nb);
    var idx := TreeIndex(nb);
    BestStart(h, nb);
    v, rsize := 0, Sub64(0, nb);
    var t := treebins[idx];
    ghost var rest, nodes, bin := BinPlace(gm, trees, idx), Nodes(trees[idx]), idx;
    BinPlaceAt(m, h, gm, treebins, treemap, trees, idx);
    BinSizes(m, h, gm, treebins, treemap, trees, idx);
    if t != 0 {
      v, rsize, t, rest := WalkForFit(m, t, nb, idx, h, rest);
      AtNodes(m, h, idx, rest, nodes);
      if v != 0 || t != 0 {
        AllCovered(m, h, gm, treebins, treemap, trees, nb, v, rsize, rest);
      } else {
        EmptyBin(h, trees[idx], nb);
      }
    }
    if t == 0 && v == 0 {
      NilNodes(trees[idx]);
      var leftbits := And32(LeftBits(Idx2Bit(idx)), treemap);
      if leftbits != 0 {
        LeftmostMarked(treemap, idx);
        var i := Bit2Idx(LeastBit(leftbits));
        t := treebins[i];
        forall j: nat | j < NTREEBINS ensures Marked(treemap, j) <==> trees[j].Node? {
          TreeMarks(m, h, gm, treebins, treemap, trees, j);
        }
        NextCovered(m, h, gm, treebins, treemap, trees, nb, i);
        BinPlaceAt(m, h, gm, treebins, treemap, trees, i);
        rest, nodes, bin := BinPlace(gm, trees, i), Nodes(trees[i]), i;
      } else {
        forall j: nat | idx < j < NTREEBINS ensures trees[j].Nil? {
          NoneMarked(treemap, idx, j);
          TreeMarks(m, h, gm, treebins, treemap, trees, j);
        }
        NothingFits(m, h, gm, treebins, treemap, trees, nb, bin);
        rest, nodes := Place(Nil, 0, 0, 0), {};
      }
    }
    LargeSizes(m, h, gm, treebins, treemap, trees);
    var v0 := v;
    v, rsize := LeastOnPath(m, t, nb, v, rsize, h, bin, rest, nodes, LargeChunks(trees));
    if v != 0 { SearchFound(trees, idx, bin, v, v0, nodes); }
    DoneIsBest(h, trees, v, rsize, nb);
  }

  lemma NilNodes(t: Tree)
    ensures t.Nil? ==> Nodes(t) == {}
  {
  }

  lemma SearchFound(trees: seq<Tree>, idx: nat, bin: nat, v: int, v0: int, nodes: set<int>)
    requires idx < |trees| && bin < |trees| && v != 0
    requires (v == v0 && v in Nodes(trees[idx])) || v in nodes
    requires nodes == Nodes(trees[bin]) || nodes == {}
    ensures v in LargeChunks(trees)
  {
  }

  /** The first non-empty bin covers all when every size is large enough. */
  lemma FirstCovered(m: Memory, h: Layout, gm: int, treebins: seq<int>, treemap: uint32, trees: seq<Tree>, nb: uint64,
                     i: nat, r: int)
    requires TreesOk(m, h, gm, treebins, treemap, trees) && nb < 0x100 && i < NTREEBINS
    requires trees[i].Node? && forall j: nat :: j < i ==> trees[j].Nil?
    ensures PathInv(m, h, i, BinPlace(gm, trees, i), Nodes(trees[i]), nb, r, LargeChunks(trees))
  {
    hide TreeIndex, At, BinAt, LargeChunks;
    BinPlaceAt(m, h, gm, treebins, treemap, trees, i);
    assert TreeBinOk(m, h, gm, treebins, treemap, trees, i);
    forall y | y in LargeChunks(trees)
      ensures Covered(h, y, nb, r, trees[i])
    {
      var j := WhichBin(trees, y);
      assert TreeBinOk(m, h, gm, treebins, treemap, trees, j);
      if j > i {
        forall z | z in Nodes(trees[i])
          ensures z in h && h[z].size <= h[y].size
        {
          BinsOrdered(h[z].size, h[y].size);
        }
      }
    }
  }

  lemma LowestMarked(treemap: uint32)
    requires treemap != 0
    ensures LeastBit(treemap) > 0
    ensures var i := Bit2Idx(LeastBit(treemap));
            i < 32 && Marked(treemap, i) && forall j: nat :: j < i ==> !Marked(treemap, j)
  {
    LowestSetPosition(treemap);
  }

  /** The search of tmalloc_small: the smallest chunk of all tree bins. */
  method SearchSmall(m: Memory, treebins: seq<int>, treemap: uint32, nb: uint64, ghost h: Layout, ghost gm: int,
                     ghost trees: seq<Tree>)
    returns (v: int, rsize: uint64)
    requires TreesOk(m, h, gm, treebins, treemap, trees) && nb < 0x100 && treemap != 0
    ensures v != 0 && BestFit(h, trees, v, nb) && rsize == h[v].size - nb
  {
    hide TreeBinOk, TreeIndex, PathInv, At, LargeChunks, Nodes, BestFit, Marked, Bit2Idx, LeastBit, BinBits, BinLow,
      Covered, ChunkSize;
    LowestMarked(treemap);
    var i := Bit2Idx(LeastBit(treemap));
    forall j: nat | j <= i ensures trees[j].Node? <==> j == i {
      TreeMarks(m, h, gm, treebins, treemap, trees, j);
    }
    BinPlaceAt(m, h, gm, treebins, treemap, trees, i);
    var t := treebins[i];
    v := t;
    LargeSizes(m, h, gm, treebins, treemap, trees);
    ghost var place, nodes := BinPlace(gm, trees, i), Nodes(trees[i]);
    FirstCovered(m, h, gm, treebins, treemap, trees, nb, i, TWO64);
    PathRead(m, h, i, place, nodes, nb, TWO64, LargeChunks(trees));
    rsize := Sub64(ChunkSize(Word(m, t + 8)), nb);
    PathNext(m, h, i, place, nodes, nb, TWO64, rsize, LargeChunks(trees));
    t := LeftmostChild(m, t);
    v, rsize := LeastOnPath(m, t, nb, v, rsize, h, i, LeftmostPlace(place), nodes, LargeChunks(trees));
    SearchFound(trees, i, i, v, v, nodes);
    DoneIsBest(h, trees, v, rsize, nb);
  }
}
