/** The allocator of one secure partition: dlmalloc's global state over a heap
    array that only sbrk hands out (components/common/dlmalloc/malloc.c, lines
    2578 to 2644, and components/common/dlmalloc/malloc_wrapper.c). */
module Allocator {
  import opened Words
  import opened Bits
  import opened Rings
  import opened Tiling
  import opened Tags
  import opened Tries
  import opened BinMaps
  import opened BinIndex
  import opened TreeBins
  import opened TreeUnlink
  import opened TreeSearch
  import opened Bins
  import opened SmallBins
  import opened HeapState
  import opened Shelves
  import opened Retag
  import opened Steps
  import opened Macros
  import opened Growth
  import opened Freeing
  import opened Resizing
  import opened Bytes
  import opened Moving
  import opened Aligning
  import opened Conservation
  import opened Arrays

  /** The failure value of sbrk, (void *) -1. */
  const CMFAIL: int := -1

  class Heap {
    const gm: int
    const heapStart: int
    const heapSize: nat

    var mem: Memory
    var smallmap: uint32
    var treemap: uint32
    var treebins: seq<int>
    var dv: int
    var dvsize: nat
    var top: int
    var topsize: nat
    var leastAddr: int
    var segBase: int
    var segSize: nat
    var footprint: nat
    var noncontiguous: bool
    var programBreak: int

    ghost var h: Layout
    ghost var rings: seq<seq<int>>
    ghost var trees: seq<Tree>
    ghost var loose: set<int>

    /** The state before the first call: everything zero. */
    constructor (gm: int, heapStart: int, heapSize: nat)
      requires 0 < heapStart && heapStart % 16 == 0 && heapSize < TWO63 && heapStart + heapSize < TWO64
      requires 0 < gm && (gm + 856 <= heapStart || heapStart + heapSize <= gm)
      ensures Valid() && Blocks(h) == map[] && footprint == 0
      ensures this.gm == gm && this.heapStart == heapStart && this.heapSize == heapSize
    {
      this.gm, this.heapStart, this.heapSize := gm, heapStart, heapSize;
      mem, smallmap, treemap := map[], 0, 0;
      treebins := seq(NTREEBINS, i => 0);
      dv, dvsize, top, topsize, leastAddr := 0, 0, 0, 0, 0;
      segBase, segSize, footprint, noncontiguous := 0, 0, 0, false;
      programBreak := heapStart;
      h, rings, trees, loose := map[], seq(NSMALLBINS, i => []), seq(NTREEBINS, i => Nil), {};
      new;
      hide Books;
      BlankBooks(St());
    }

    ghost function End(): int
      reads this
    {
      if top == 0 then heapStart else heapStart + segSize - TOP_FOOT_SIZE
    }

    ghost function St(): State
      reads this
    {
      State(gm, heapStart, End(), mem, smallmap, treemap, treebins, dv, dvsize, top, topsize, h, rings, trees, loose)
    }

    /** Where the heap array and the state record are. */
    ghost predicate Placed() {
      && 0 < heapStart && heapStart % 16 == 0 && heapSize < TWO63 && heapStart + heapSize < TWO64
      && 0 < gm && (gm + 856 <= heapStart || heapStart + heapSize <= gm)
    }

    /** One segment, from the start of the heap array to the program break. */
    ghost predicate Segment(brk: int)
      reads this
    {
      && brk == heapStart + footprint && footprint == segSize && footprint <= heapSize
      && (top == 0 ==> footprint == 0 && leastAddr == 0)
      && (top != 0 ==> segBase == heapStart && leastAddr == heapStart)
    }

    ghost predicate Sound(brk: int)
      reads this
    {
      Placed() && Segment(brk) && Books(St()) && Coalesced(h) && loose == {}
    }

    /** What holds between any two calls. */
    ghost predicate Valid()
      reads this
    {
      Sound(programBreak)
    }

    /** The blocks as arrays of words. */
    ghost function Arrays(): Store
      reads this
    {
      ArraysOf(St())
    }

    /** How many bytes the heap must grow by to serve nb bytes. */
    ghost function Shortage(nb: int): int
      reads this
    {
      Up64(nb + SYS_ALLOC_PADDING - if top != 0 && !noncontiguous then topsize else 0)
    }

    /** insert_chunk */
    method InsertChunk(p: int, s: nat)
      requires Books(St()) && CanShelve(St(), p) && h[p].size == s && leastAddr == heapStart
      modifies `mem, `smallmap, `treemap, `treebins, `rings, `trees, `loose
      ensures Reshelved(old(St()), St(), old(loose) - {p})
    {
      hide Books, RingsClear, RingsApart, AtLeast, SmallChunks, SmallsOk, OnlyRing, RingOf, Quiet;
      ghost var s0 := St();
      if s < 0x100 {
        InsertSmallReady(s0, p);
        mem, smallmap := InsertSmall(mem, gm, smallmap, p, s, leastAddr, rings);
        rings, loose := rings[s / 8 := [p] + rings[s / 8]], loose - {p};
        InsertSmallBooks(s0, St(), p);
      } else {
        InsertTree(p, s);
      }
    }

    /** insert_large_chunk */
    method InsertTree(p: int, s: nat)
      requires Books(St()) && CanShelve(St(), p) && h[p].size == s >= 0x100 && leastAddr == heapStart
      modifies `mem, `treemap, `treebins, `trees, `loose
      ensures Reshelved(old(St()), St(), old(loose) - {p})
    {
      hide Books, AtLeast, OnlyLinks, BinAt, Nodes, Spread, HeadsGive, TreeIndex, Marked, Mark, Quiet;
      ghost var s0 := St();
      InsertLargeReady(s0, p);
      var i := TreeIndex(s);
      var marked := Marked(treemap, i);
      var root;
      ghost var t;
      mem, root, t := InsertLarge(mem, marked, treebins[i], TreeSlot(gm, i), i, p, s, leastAddr, h, trees[i]);
      if !marked {
        treemap := Mark(treemap, i);
      }
      treebins := treebins[i := root];
      trees, loose := trees[i := t], loose - {p};
      InsertLargeBooks(s0, St(), p, i, t, root, treemap);
    }

    /** unlink_chunk */
    method UnlinkChunk(p: int, s: nat)
      requires Books(St()) && p in Binned(St()) && h[p].size == s && leastAddr == heapStart
      modifies `mem, `smallmap, `treemap, `treebins, `rings, `trees, `loose
      ensures Reshelved(old(St()), St(), old(loose) + {p})
    {
      hide Books, RingsClear, RingsApart, AtLeast, SmallChunks, SmallsOk, OnlyRing, OnlyLinks, BinAt, Nodes, Spread,
        HeadsGive, TreeIndex, Marked, RingOf, Quiet, Binned;
      ghost var s0 := St();
      if s < 0x100 {
        UnlinkSmallReady(s0);
        ghost var k := SmallPlace(s0, p);
        mem, smallmap := UnlinkSmall(mem, gm, smallmap, p, s, leastAddr, rings, k);
        rings, loose := Dropped(rings, s / 8, k), loose + {p};
        UnlinkSmallBooks(s0, St(), s / 8, k);
      } else {
        UnlinkTree(p);
      }
    }

    /** unlink_large_chunk, on the bin the chunk's index field names. */
    method UnlinkTree(x: int)
      requires Books(St()) && x in Binned(St()) && h[x].size >= 0x100 && leastAddr == heapStart
      modifies `mem, `treemap, `treebins, `trees, `loose
      ensures Reshelved(old(St()), St(), old(loose) + {x})
    {
      hide Books, AtLeast, OnlyLinks, BinAt, Nodes, TreeIndex, Marked, Clear, Quiet, Binned;
      ghost var s0 := St();
      UnlinkLargeReady(s0, x);
      var i := Word(mem, x + 56);
      var root;
      ghost var t;
      mem, root, t := UnlinkLarge(mem, treebins[i], TreeSlot(gm, i), i, x, leastAddr, h, trees[i]);
      if root == 0 {
        treemap := Clear(treemap, i);
      }
      treebins := treebins[i := root];
      trees, loose := trees[i := t], loose + {x};
      UnlinkLargeBooks(s0, St(), x, i, t, root, treemap);
    }

    /** unlink_first_small_chunk */
    method UnlinkFirst(b: int, p: int, i: nat)
      requires Books(St()) && |rings| == NSMALLBINS && i < NSMALLBINS && b == SmallHeader(gm, i)
      requires rings[i] != [] && p == rings[i][0] && leastAddr == heapStart
      modifies `mem, `smallmap, `rings, `loose
      ensures Reshelved(old(St()), St(), old(loose) + {p})
    {
      hide Books, RingsClear, RingsApart, AtLeast, SmallChunks, SmallsOk, OnlyRing, RingOf, Quiet;
      ghost var s0 := St();
      UnlinkSmallReady(s0);
      mem, smallmap := UnlinkFirstSmall(mem, gm, smallmap, b, p, i, leastAddr, rings);
      rings, loose := Dropped(rings, i, 0), loose + {p};
      UnlinkSmallBooks(s0, St(), i, 0);
    }

    // ------------------------------------------------------- taking chunks

    /** set_inuse_and_pinuse on a chunk just taken from its bin. */
    method UseWhole(p: int, s: nat)
      requires Books(St()) && Coalesced(h) && p in loose && p in h && h[p].size == s
      modifies `mem, `h, `loose
      ensures NewBlock(old(St()), St(), p, s)
      ensures St() == old(St()).(mem := mem, h := h, loose := old(loose) - {p})
    {
      hide Books, Coalesced, FuseWritten, SetInuseAndPinuse, NewBlock;
      ghost var s0 := St();
      LooseFacts(s0, p);
      mem := SetInuseAndPinuse(mem, p, s);
      h, loose := Fuse(h, p, s, true), loose - {p};
      TakeWritten(s0, St(), p);
      TakeWhole(s0, St(), p);
    }

    /** The chunk becomes a used chunk of nb bytes and a loose rest. */
    method UseSplit(p: int, s: nat, nb: nat)
      requires Books(St()) && Coalesced(h) && p in loose && p in h && h[p].size == s
      requires 32 <= nb && nb + 32 <= s && nb % 16 == 0
      modifies `mem, `h, `loose
      ensures NewBlock(old(St()), St(), p, nb)
      ensures St() == old(St()).(mem := mem, h := h, loose := old(loose) - {p} + {p + nb})
      ensures p + nb in h && h[p + nb] == Chunk(s - nb, false, true)
    {
      hide Books, Coalesced, CarveWritten, SetSizeAndPinuseOfFree, SetSizeAndPinuseOfInuse, NewBlock;
      ghost var s0 := St();
      LooseFacts(s0, p);
      var m := SetSizeAndPinuseOfInuse(mem, p, nb);
      m := SetSizeAndPinuseOfFree(m, p + nb, s - nb);
      mem, h, loose := m, Carve(h, p, s, nb, false), loose - {p} + {p + nb};
      SplitWritten(s0, St(), p, nb);
      Split(s0, St(), p, nb);
    }

    /** replace_dv: the old designated victim goes to its small bin. */
    method ReplaceDv(p: int, s: nat)
      requires Books(St()) && p in loose && p in h && h[p].size == s && dvsize < 0x100 && leastAddr == heapStart
      modifies `mem, `smallmap, `treemap, `treebins, `rings, `trees, `loose, `dv, `dvsize
      ensures SameLayout(old(St()), St()) && loose == old(loose) - {p} && dv == p && dvsize == s
    {
      hide Books, Quiet;
      ghost var s0 := St();
      LooseFacts(s0, p);
      if dvsize != 0 {
        var d, dvs := dv, dvsize;
        DvFacts(s0);
        dv, dvsize, loose := 0, 0, loose + {d};
        DvToLoose(s0, St());
        InsertChunk(d, dvs);
      } else {
        QuietRefl(s0);
      }
      ghost var s1 := St();
      dvsize, dv, loose := s, p, loose - {p};
      LooseToDv(s1, St(), p);
    }

    // ---------------------------------------------------------------- malloc

    /** The remainderless fit: a whole chunk of small bin i. */
    method FromSmallBin(i: nat, nb: nat) returns (r: int)
      requires Valid() && i < NSMALLBINS && Marked(smallmap, i) && nb <= 8 * i < nb + 32 && nb % 16 == 0
      requires forall j: nat :: nb / 8 <= j < i ==> !Marked(smallmap, j)
      modifies `mem, `smallmap, `rings, `loose, `h
      ensures Valid() && Allocated(old(St()), St(), r, nb) && !NoFit(old(St()), nb) && Tightest(old(St()), r - 16, nb)
      ensures r - 16 in old(h) && old(h)[r - 16].size == 8 * i
    {
      hide Books, Coalesced, Marked, NewBlock, Quiet, Allocated, Tightest;
      ghost var s0 := St();
      FirstOf(s0, i);
      TightestSmall(s0, i, nb);
      var b := SmallHeader(gm, i);
      var p := Word(mem, b + 16);
      assert Fit(s0, p, nb);
      UnlinkFirst(b, p, i);
      ghost var s1 := St();
      Reached(s0, s1);
      UseWhole(p, 8 * i);
      BlockBefore(s0, s1, St(), p, 8 * i);
      IsAllocated(s0, St(), p, 8 * i, nb);
      FreshBooks(s0, St(), p, 8 * i);
      r := p + 16;
    }

    /** A chunk of a larger small bin; the rest becomes the designated victim. */
    method FromLargerSmallBin(i: nat, nb: nat) returns (r: int)
      requires Valid() && i < NSMALLBINS && Marked(smallmap, i) && 32 <= nb <= 8 * i && nb % 16 == 0 && dvsize < 0x100
      requires forall j: nat :: nb / 8 <= j < i ==> !Marked(smallmap, j)
      modifies `mem, `smallmap, `treemap, `treebins, `rings, `trees, `loose, `h, `dv, `dvsize
      ensures Valid() && Allocated(old(St()), St(), r, nb) && !NoFit(old(St()), nb) && Tightest(old(St()), r - 16, nb)
    {
      hide Books, Coalesced, Marked, NewBlock, Quiet, Allocated, SameLayout, Tightest;
      ghost var s0 := St();
      FirstOf(s0, i);
      TightestSmall(s0, i, nb);
      var b := SmallHeader(gm, i);
      var p := Word(mem, b + 16);
      assert Fit(s0, p, nb);
      UnlinkFirst(b, p, i);
      ghost var s1 := St();
      Reached(s0, s1);
      var rsize := 8 * i - nb;
      if rsize < 32 {
        UseWhole(p, 8 * i);
        BlockBefore(s0, s1, St(), p, 8 * i);
        IsAllocated(s0, St(), p, 8 * i, nb);
        FreshBooks(s0, St(), p, 8 * i);
      } else {
        SplitIntoDv(p, 8 * i, nb);
        BlockBefore(s0, s1, St(), p, nb);
        IsAllocated(s0, St(), p, nb, nb);
        FreshBooks(s0, St(), p, nb);
      }
      r := p + 16;
    }

    /** Split a chunk off its bin; the rest becomes the designated victim. */
    method SplitIntoDv(p: int, s: nat, nb: nat)
      requires Books(St()) && Coalesced(h) && loose == {p} && p in h && h[p].size == s && dvsize < 0x100
               && leastAddr == heapStart
      requires 32 <= nb && nb + 32 <= s && nb % 16 == 0
      modifies `mem, `smallmap, `treemap, `treebins, `rings, `trees, `loose, `h, `dv, `dvsize
      ensures NewBlock(old(St()), St(), p, nb) && loose == {}
    {
      hide Books, Coalesced, NewBlock, Quiet, SameLayout;
      ghost var s1 := St();
      UseSplit(p, s, nb);
      ghost var s2 := St();
      FreshBooks(s1, s2, p, nb);
      ReplaceDv(p + nb, s - nb);
      BlockAfter(s1, s2, St(), p, nb);
    }

    /** Split a chunk off its bin; the rest goes to a bin. */
    method SplitIntoBin(p: int, s: nat, nb: nat)
      requires Books(St()) && Coalesced(h) && loose == {p} && p in h && h[p].size == s && leastAddr == heapStart
      requires 32 <= nb && nb + 32 <= s && nb % 16 == 0
      modifies `mem, `smallmap, `treemap, `treebins, `rings, `trees, `loose, `h
      ensures NewBlock(old(St()), St(), p, nb) && loose == {}
    {
      hide Books, Coalesced, NewBlock, Quiet, SameLayout;
      ghost var s1 := St();
      UseSplit(p, s, nb);
      ghost var s2 := St();
      FreshBooks(s1, s2, p, nb);
      InsertChunk(p + nb, s - nb);
      Reached(s2, St());
      BlockAfter(s1, s2, St(), p, nb);
    }

    /** tmalloc_small */
    method TmallocSmall(nb: nat) returns (r: int)
      requires Valid() && 32 <= nb < 0x100 && nb % 16 == 0 && treemap != 0 && dvsize < 0x100
      modifies `mem, `smallmap, `treemap, `treebins, `rings, `trees, `loose, `h, `dv, `dvsize
      ensures Valid() && Allocated(old(St()), St(), r, nb) && !NoFit(old(St()), nb)
      ensures r != 16 && BestFit(old(h), old(trees), r - 16, nb)
    {
      hide Books, Coalesced, NewBlock, Quiet, Allocated, SameLayout, Binned, TreesOk, BestFit;
      ghost var s0 := St();
      ShelvedTrees(s0);
      var v, rsize := SearchSmall(mem, treebins, treemap, nb, h, gm, trees);
      FoundChunk(s0, v, nb);
      if v >= leastAddr {
        if v < v + nb {
          UnlinkTree(v);
          ghost var s1 := St();
          Reached(s0, s1);
          if rsize < 32 {
            UseWhole(v, rsize + nb);
            BlockBefore(s0, s1, St(), v, rsize + nb);
            IsAllocated(s0, St(), v, rsize + nb, nb);
            FreshBooks(s0, St(), v, rsize + nb);
          } else {
            SplitIntoDv(v, rsize + nb, nb);
            BlockBefore(s0, s1, St(), v, nb);
            IsAllocated(s0, St(), v, nb, nb);
            FreshBooks(s0, St(), v, nb);
          }
          return v + 16;
        }
      }
      assert false;
    }

    /** Take tree chunk v for a large request; a rest goes to a bin. */
    method TakeLarge(v: int, size: nat, nb: nat)
      requires Valid() && v in Binned(St()) && v in h && h[v].size == size && 0x100 <= nb <= size && nb % 16 == 0
               && top != 0
      modifies `mem, `smallmap, `treemap, `treebins, `rings, `trees, `loose, `h
      ensures Valid() && Allocated(old(St()), St(), v + 16, nb)
    {
      hide Books, Coalesced, NewBlock, Quiet, Allocated, SameLayout, Binned;
      ghost var s0 := St();
      UnlinkTree(v);
      ghost var s1 := St();
      Reached(s0, s1);
      if size - nb < 32 {
        UseWhole(v, size);
        BlockBefore(s0, s1, St(), v, size);
        IsAllocated(s0, St(), v, size, nb);
        FreshBooks(s0, St(), v, size);
      } else {
        SplitIntoBin(v, size, nb);
        BlockBefore(s0, s1, St(), v, nb);
        IsAllocated(s0, St(), v, nb, nb);
        FreshBooks(s0, St(), v, nb);
      }
    }

    /** tmalloc_large: best fit, unless the designated victim fits better. */
    method TmallocLarge(nb: uint64) returns (r: int)
      requires Valid() && 0x100 <= nb && nb % 16 == 0 && dvsize < TWO64
      modifies `mem, `smallmap, `treemap, `treebins, `rings, `trees, `loose, `h
      ensures Valid()
      ensures r == 0 ==> St() == old(St())
      ensures r == 0 ==>
        forall p :: p in LargeChunks(trees) ==> p in h && (h[p].size < nb || nb <= dvsize <= h[p].size)
      ensures r != 0 ==> Allocated(old(St()), St(), r, nb) && !NoFit(old(St()), nb)
      ensures r != 0 ==> r != 16 && BestFit(old(h), old(trees), r - 16, nb) && r - 16 in old(h)
      ensures r != 0 && nb <= dvsize ==> old(h)[r - 16].size < dvsize
    {
      hide Books, Coalesced, NewBlock, Quiet, Allocated, SameLayout, Binned, TreesOk, BestFit, LargeChunks;
      ghost var s0 := St();
      ShelvedTrees(s0);
      var v, rsize := SearchLarge(mem, treebins, treemap, nb, h, gm, trees);
      if v != 0 && rsize < Sub64(dvsize, nb) {
        FoundChunk(s0, v, nb);
        if v >= leastAddr {
          if v < v + nb {
            TakeLarge(v, rsize + nb, nb);
            return v + 16;
          }
        }
        assert false;
      }
      YieldsToDv(s0, v, rsize, nb);
      return 0;
    }

    /** Split or use up the designated victim. */
    method FromDv(nb: nat) returns (r: int)
      requires Valid() && 32 <= nb <= dvsize && nb % 16 == 0
      modifies `mem, `h, `dv, `dvsize
      ensures Valid() && Allocated(old(St()), St(), r, nb) && !NoFit(old(St()), nb) && r - 16 == old(dv)
    {
      hide Books, Coalesced, NewBlock, Allocated, FuseWritten, CarveWritten, SetInuseAndPinuse, SetSizeAndPinuseOfFree,
        SetSizeAndPinuseOfInuse;
      ghost var s0 := St();
      DvFacts(s0);
      var rsize := dvsize - nb;
      var p := dv;
      assert Fit(s0, p, nb);
      if rsize >= 32 {
        var m := SetSizeAndPinuseOfFree(mem, p + nb, rsize);
        m := SetSizeAndPinuseOfInuse(m, p, nb);
        dv, dvsize, mem, h := p + nb, rsize, m, Carve(h, p, dvsize, nb, false);
        SplitWritten(s0, St(), p, nb);
        Split(s0, St(), p, nb);
        IsAllocated(s0, St(), p, nb, nb);
        FreshBooks(s0, St(), p, nb);
      } else {
        var dvs := dvsize;
        dvsize, dv, mem, h := 0, 0, SetInuseAndPinuse(mem, p, dvs), Fuse(h, p, dvs, true);
        TakeWritten(s0, St(), p);
        TakeWhole(s0, St(), p);
        IsAllocated(s0, St(), p, dvs, nb);
        FreshBooks(s0, St(), p, dvs);
      }
      r := p + 16;
    }

    /** Split the top chunk. */
    method FromTop(nb: nat) returns (r: int)
      requires Valid() && 32 <= nb < topsize && nb % 16 == 0
      modifies `mem, `h, `top, `topsize
      ensures Valid() && Allocated(old(St()), St(), r, nb) && !NoFit(old(St()), nb) && r - 16 == old(top)
    {
      hide Books, Coalesced, NewBlock, Allocated, CarveWritten, SetSizeAndPinuseOfInuse, Or;
      ghost var s0 := St();
      TopFacts(s0);
      var p := top;
      assert Fit(s0, p, nb);
      var rsize := topsize - nb;
      var m := mem[p + nb + 8 := Or(rsize, 1)];
      m := SetSizeAndPinuseOfInuse(m, p, nb);
      topsize, top, mem, h := rsize, p + nb, m, Carve(h, p, topsize, nb, false);
      SplitTopWritten(s0, St(), nb);
      Split(s0, St(), p, nb);
      IsAllocated(s0, St(), p, nb, nb);
      FreshBooks(s0, St(), p, nb);
      r := p + 16;
    }

    // ------------------------------------------------------------ sys_alloc

    /** sbrk over the heap array. */
    method Sbrk(incr: int) returns (r: int)
      modifies `programBreak
      ensures if heapStart <= old(programBreak) + incr <= heapStart + heapSize
              then r == old(programBreak) && programBreak == r + incr
              else r == CMFAIL && programBreak == old(programBreak)
    {
      var newBreak := programBreak + incr;
      if newBreak < heapStart || newBreak > heapStart + heapSize {
        return CMFAIL;
      }
      r := programBreak;
      programBreak := programBreak + incr;
    }

    /** New bytes right behind the segment, enough for nb and the overhead. */
    ghost predicate Obtained(brk: int, tbase: int, tsize: nat, nb: nat)
      reads this
    {
      && tbase == brk && programBreak == tbase + tsize <= heapStart + heapSize
      && tsize % 16 == 0 && nb + TOP_FOOT_SIZE < topsize + tsize
    }

    /** The contiguous attempt of sys_alloc with no segment yet. */
    method FirstCore(nb: uint64, asize: uint64) returns (tbase: int, tsize: nat, br: int)
      requires Valid() && top == 0 && asize == Up64(nb + 96)
      modifies `programBreak
      ensures tbase == CMFAIL <==> asize + Gap(heapStart) > heapSize
      ensures tbase == CMFAIL ==> programBreak == old(programBreak) && br == CMFAIL
      ensures tbase != CMFAIL ==> Obtained(old(programBreak), tbase, tsize, nb) && tsize == asize + Gap(heapStart)
      ensures tbase != CMFAIL ==> (tbase + tsize) % 4096 == asize % 4096
    {
      hide Books, Coalesced, Up64, PageAlign, Add64, Sub64, IsPageAligned, Gap;
      tbase, tsize, br := CMFAIL, 0, CMFAIL;
      var ssize := asize;
      Up64Mono(nb + 96, nb + 96);
      var base := Sbrk(0);
      if base != CMFAIL {
        FirstSize(nb, asize, base);
        PageBase(base);
        if !IsPageAligned(base) {
          ssize := Add64(ssize, Sub64(PageAlign(base), base));
        }
        if ssize > nb && ssize < HALF_MAX_SIZE_T {
          br := Sbrk(ssize);
          if br == base {
            tbase, tsize := base, ssize;
            EndsAt(base, asize);
          }
        }
      }
    }

    /** The contiguous attempt of sys_alloc behind the segment. */
    method ExtendCore(nb: uint64) returns (tbase: int, tsize: nat, br: int)
      requires Valid() && top != 0 && topsize <= nb && nb + 160 <= TWO64
      modifies `programBreak
      ensures tbase == CMFAIL ==> programBreak == old(programBreak) && br == CMFAIL
      ensures tbase == CMFAIL ==> footprint + Up64(nb - topsize + 96) > heapSize
      ensures tbase != CMFAIL ==> Obtained(old(programBreak), tbase, tsize, nb) && tsize == Up64(nb - topsize + 96)
    {
      hide Books, Coalesced, Up64, GranularityAlign;
      tbase, tsize, br := CMFAIL, 0, CMFAIL;
      AlignIsUp64(nb - topsize + 96);
      Up64Mono(nb - topsize + 96, nb - topsize + 96);
      var ssize := GranularityAlign(nb - topsize + SYS_ALLOC_PADDING);
      if ssize < HALF_MAX_SIZE_T {
        br := Sbrk(ssize);
        if br == segBase + segSize {
          tbase, tsize := br, ssize;
        }
      }
    }

    /** The noncontiguous attempt of sys_alloc. */
    method AnyCore(nb: uint64, asize: uint64) returns (tbase: int, tsize: nat)
      requires Valid() && asize == Up64(nb + 96)
      modifies `programBreak
      ensures tbase == CMFAIL ==> programBreak == old(programBreak) && footprint + asize > heapSize
      ensures tbase != CMFAIL ==> Obtained(old(programBreak), tbase, tsize, nb) && tsize == asize
    {
      hide Books, Coalesced, Up64;
      tbase, tsize := CMFAIL, 0;
      Up64Mono(nb + 96, nb + 96);
      if asize < HALF_MAX_SIZE_T {
        var br := Sbrk(asize);
        var end := Sbrk(0);
        if br != CMFAIL && end != CMFAIL && br < end {
          var ssize := end - br;
          if ssize > nb + TOP_FOOT_SIZE {
            tbase, tsize := br, ssize;
          }
        }
      }
    }

    /** First-time initialization: the segment record, the bins and the top. */
    method StartSegment(tbase: int, tsize: nat)
      requires top == 0 && tbase == heapStart != 0 && tbase % 16 == 0 && tsize > TOP_FOOT_SIZE && leastAddr == 0
      requires Elsewhere(gm, tbase, tbase + tsize)
      modifies `footprint, `leastAddr, `segBase, `segSize, `mem, `top, `topsize, `h
      ensures top == tbase && topsize == tsize - TOP_FOOT_SIZE && h == map[tbase := Chunk(topsize, false, true)]
      ensures Word(mem, tbase + 8) == Or(topsize, 1) && Word(mem, tbase + topsize + 8) == TOP_FOOT_SIZE
      ensures SelfLinked(mem, gm)
      ensures forall w :: !(gm + 88 <= w < gm + 600) && w != tbase + 8 && w != tbase + topsize + 8 ==>
                Word(mem, w) == old(Word(mem, w))
      ensures footprint == old(footprint) + tsize && segBase == leastAddr == tbase && segSize == tsize
    {
      hide Or, SelfLinked;
      var least := if leastAddr == 0 || tbase < leastAddr then tbase else leastAddr;
      var bins := InitBins(mem, gm);
      var m, q, qsize := InitTop(bins, tbase, tsize - TOP_FOOT_SIZE);
      SelfLinkedFrame(bins, m, gm);
      mem, top, topsize, footprint, segBase, segSize, leastAddr, h :=
        m, q, qsize, footprint + tsize, tbase, tsize, least, map[tbase := Chunk(qsize, false, true)];
    }

    /** The new bytes become the first segment. */
    method AdoptFirst(tbase: int, tsize: nat)
      requires Sound(tbase) && programBreak == tbase + tsize <= heapStart + heapSize && tsize % 16 == 0
      requires top == 0 && tsize > TOP_FOOT_SIZE
      modifies `footprint, `leastAddr, `segBase, `segSize, `mem, `top, `topsize, `h
      ensures Valid() && Blocks(h) == old(Blocks(h)) && Payloads(old(mem), mem, old(h))
      ensures top == tbase && topsize == tsize - TOP_FOOT_SIZE
    {
      hide Books, Coalesced, Blocks, Payloads, Or;
      ghost var s0 := St();
      NoVictim(s0);
      StartSegment(tbase, tsize);
      StartedBooks(s0, St(), tsize);
    }

    /** The top chunk takes in new bytes behind the segment. */
    method GrowSegment(tsize: nat)
      requires top in h && top != 0 && top % 16 == 0 && h[top].size == topsize && !h[top].used && top + topsize == End()
      modifies `footprint, `segSize, `mem, `top, `topsize, `h
      ensures top == old(top) && topsize == old(topsize) + tsize && h == old(h)[top := old(h)[top].(size := topsize)]
      ensures mem == old(mem)[top + 8 := Or(topsize, 1)][top + topsize + 8 := TOP_FOOT_SIZE]
      ensures footprint == old(footprint) + tsize && segSize == old(segSize) + tsize
    {
      hide Or;
      var m, q, qsize := InitTop(mem, top, topsize + tsize);
      mem, top, topsize, footprint, segSize, h := m, q, qsize, footprint + tsize, segSize + tsize,
        h[q := h[q].(size := qsize)];
    }

    /** The new bytes extend the segment and its top chunk; they never need a
        segment of their own. */
    method AdoptMore(tbase: int, tsize: nat)
      requires Sound(tbase) && programBreak == tbase + tsize <= heapStart + heapSize && tsize % 16 == 0 && top != 0
      modifies `footprint, `segSize, `mem, `top, `topsize, `h
      ensures Valid() && Blocks(h) == old(Blocks(h)) && Payloads(old(mem), mem, old(h))
      ensures top == old(top) && topsize == old(topsize) + tsize
    {
      hide Books, Coalesced, Blocks, Payloads, Or;
      ghost var s0 := St();
      TopHeld(s0);
      TopFacts(s0);
      if tbase == segBase + segSize && segBase <= top < segBase + segSize {
        GrowSegment(tsize);
        GrownBooks(s0, St(), tsize);
      } else {
        assert false;
      }
    }

    /** The ways sys_alloc tries to get memory from MORECORE. */
    method MoreCore(nb: uint64, asize: uint64) returns (tbase: int, tsize: nat)
      requires Valid() && asize == Up64(nb + 96) && topsize <= nb && nb + 160 <= TWO64
      modifies `programBreak, `noncontiguous
      ensures tbase == CMFAIL ==> programBreak == old(programBreak) && footprint + old(Shortage(nb)) > heapSize
      ensures tbase != CMFAIL ==> Obtained(old(programBreak), tbase, tsize, nb)
      ensures tbase != CMFAIL ==> footprint + old(Shortage(nb)) <= heapSize
      ensures tbase == CMFAIL || old(noncontiguous) ==> noncontiguous
      ensures tbase != CMFAIL && top != 0 ==> noncontiguous == old(noncontiguous)
    {
      hide Books, Coalesced, Up64;
      tbase, tsize := CMFAIL, 0;
      Up64Mono(nb - topsize + 96, nb + 96);
      if !noncontiguous {
        var br := CMFAIL;
        if top != 0 { TopHeld(St()); }
        if !(top != 0 && segBase <= top < segBase + segSize) {
          tbase, tsize, br := FirstCore(nb, asize);
        } else {
          tbase, tsize, br := ExtendCore(nb);
        }
        if tbase == CMFAIL {
          if br != CMFAIL {
            assert false;
          } else {
            noncontiguous := true;
          }
        }
      }
      if tbase == CMFAIL {
        tbase, tsize := AnyCore(nb, asize);
      }
    }

    /** The new bytes become the first segment or extend it. */
    method Adopt(ghost nb: nat, tbase: int, tsize: nat)
      requires Sound(tbase) && Obtained(tbase, tbase, tsize, nb)
      modifies `footprint, `leastAddr, `segBase, `segSize, `mem, `top, `topsize, `h
      ensures Valid() && Blocks(h) == old(Blocks(h)) && Payloads(old(mem), mem, old(h))
      ensures top == (if old(top) != 0 then old(top) else heapStart) && nb < topsize
      ensures footprint == old(footprint) + tsize && dv == old(dv) && dvsize == old(dvsize)
    {
      hide Books, Coalesced, Blocks, Payloads;
      if top == 0 {
        NoVictim(St());
        AdoptFirst(tbase, tsize);
      } else {
        AdoptMore(tbase, tsize);
      }
    }

    /** sys_alloc */
    method SysAlloc(nb: uint64) returns (r: int)
      requires Valid() && 32 <= nb && topsize <= nb && (nb % 16 == 0 || nb == TWO64 - 1)
      modifies `programBreak, `noncontiguous, `footprint, `leastAddr, `segBase, `segSize, `mem, `top, `topsize, `h
      ensures Valid()
      ensures r == 0 <==> old(footprint + Shortage(nb)) > heapSize
      ensures r == 0 ==> St() == old(St()) && footprint == old(footprint)
      ensures r != 0 ==> Allocated(old(St()), St(), r, nb) && r - 16 == (if old(top) != 0 then old(top) else heapStart)
      ensures (r == 0 && nb + 160 <= TWO64) || old(noncontiguous) ==> noncontiguous
      ensures r != 0 && old(top) != 0 ==> noncontiguous == old(noncontiguous)
    {
      hide Books, Coalesced, Blocks, Payloads, Allocated, NoFit, Up64, GranularityAlign, Add64;
      ghost var s0 := St();
      NoWrap(nb);
      if top != 0 { TopHeld(s0); }
      Requested(nb, if top != 0 && !noncontiguous then topsize else 0, footprint, heapSize);
      var asize := GranularityAlign(Add64(nb, SYS_ALLOC_PADDING));
      if asize <= nb {
        return 0;
      }
      var tbase, tsize := MoreCore(nb, asize);
      if tbase != CMFAIL {
        Adopt(nb, tbase, tsize);
        if nb < topsize {
          ghost var s1 := St();
          r := FromTop(nb);
          AllocatedFrom(s0, s1, St(), r, nb);
          NotNull(s0, St(), r, nb);
          return;
        }
        assert false;
      }
      return 0;
    }

    /** The small-request part of malloc; 0 if it finds nothing. */
    method MallocSmall(nb: nat) returns (r: int)
      requires Valid() && 32 <= nb <= 240 && nb % 16 == 0
      modifies `mem, `smallmap, `treemap, `treebins, `rings, `trees, `loose, `h, `dv, `dvsize
      ensures Valid()
      ensures r != 0 ==> Allocated(old(St()), St(), r, nb) && !NoFit(old(St()), nb) && Tightest(old(St()), r - 16, nb)
      ensures r != 0 ==> Chosen(old(St()), heapStart, r - 16, nb)
      ensures r == 0 ==> St() == old(St()) && NonePreferred(St(), nb) && (nb <= dvsize || NoneBinned(St(), nb))
      ensures r == 0 ==> nb <= dvsize || topsize > nb || NoFit(St(), nb)
    {
      hide Books, Coalesced, Allocated, NoFit, Tightest, NoneBinned, Chosen, NonePreferred, Marked, BestFit,
        Shr32, And32, Shl32, Not32, LeftBits, LeastBit, Bit2Idx, Idx2Bit;
      ghost var s0 := St();
      var idx := nb / 8;
      var smallbits := Shr32(smallmap, idx);
      RemainderlessBits(smallmap, idx);
      SmallBits(smallmap, idx);
      if And32(smallbits, 3) != 0 {
        idx := idx + And32(Not32(smallbits), 1);
        r := FromSmallBin(idx, nb);
        NotNull(s0, St(), r, nb);
        ChosenBinned(s0, heapStart, r - 16, nb);
        return;
      } else if nb > dvsize {
        if smallbits != 0 {
          var leftbits := And32(Shl32(smallbits, idx), LeftBits(Idx2Bit(idx)));
          var leastbit := LeastBit(leftbits);
          var i := Bit2Idx(leastbit);
          r := FromLargerSmallBin(i, nb);
          NotNull(s0, St(), r, nb);
          TightestFits(s0, r - 16, nb);
          ChosenBinned(s0, heapStart, r - 16, nb);
          return;
        } else if treemap != 0 {
          r := TmallocSmall(nb);
          NotNull(s0, St(), r, nb);
          TightestTree(s0, r - 16, nb);
          TightestFits(s0, r - 16, nb);
          ChosenBinned(s0, heapStart, r - 16, nb);
          return;
        }
        TightestTree(s0, 0, nb);
        NoneToPrefer(s0, nb);
        if topsize <= nb { NoFitSmall(s0, nb); }
      } else {
        NoExactFit(s0, nb);
      }
      r := 0;
    }

    /** The large-request part of malloc; 0 if it finds nothing. */
    method MallocLarge(nb: uint64) returns (r: int)
      requires Valid() && 0x100 <= nb && nb % 16 == 0 && dvsize < TWO64
      modifies `mem, `smallmap, `treemap, `treebins, `rings, `trees, `loose, `h
      ensures Valid()
      ensures r != 0 ==> Allocated(old(St()), St(), r, nb) && !NoFit(old(St()), nb)
      ensures r != 0 ==> Chosen(old(St()), heapStart, r - 16, nb)
      ensures r == 0 ==> St() == old(St()) && NonePreferred(St(), nb)
      ensures r == 0 ==> nb <= dvsize || topsize > nb || NoFit(St(), nb)
    {
      hide Books, Coalesced, Allocated, NoFit, Tightest, BestFit, Chosen, NonePreferred, LargeChunks;
      ghost var s0 := St();
      r := 0;
      if treemap != 0 {
        r := TmallocLarge(nb);
        if r != 0 {
          TightestLarge(s0, r - 16, nb);
          TightestFits(s0, r - 16, nb);
          ChosenBinned(s0, heapStart, r - 16, nb);
          return;
        }
      } else {
        BookTrees(s0);
      }
      NoneLarge(s0, nb);
      if dvsize < nb && topsize <= nb { NoFitLarge(s0, nb); }
    }

    /** r is an aligned pointer into the heap with room for the bytes. */
    ghost predicate Usable(r: int, bytes: nat)
      reads this
    {
      && r % 16 == 0 && r - 16 in Blocks(h) && bytes + 8 <= Blocks(h)[r - 16]
      && heapStart + 16 <= r && r + bytes <= programBreak
    }

    lemma IsUsable(s0: State, r: int, bytes: uint64)
      requires Valid() && bytes < MAX_REQUEST && Allocated(s0, St(), r, Request2Size(bytes))
      ensures Usable(r, bytes)
    {
      hide Tagged, Shelved, Payloads, Request2Size;
      Padded(bytes);
      assert Fits(h, heapStart, End(), r - 16);
    }

    /** The end of malloc: the designated victim, the top, or more memory. */
    method FromRest(nb: uint64) returns (r: int)
      requires Valid() && 32 <= nb && (nb % 16 == 0 || nb == TWO64 - 1)
      modifies `programBreak, `noncontiguous, `footprint, `leastAddr, `segBase, `segSize, `mem, `top, `topsize, `h,
        `dv, `dvsize
      ensures Valid()
      ensures r == 0 <==> old(dvsize < nb && topsize <= nb && footprint + Shortage(nb) > heapSize)
      ensures r == 0 ==> St() == old(St()) && footprint == old(footprint)
      ensures r != 0 ==> Allocated(old(St()), St(), r, nb)
      ensures r != 0 && old(dvsize >= nb || topsize > nb) ==> !NoFit(old(St()), nb)
      ensures r != 0 ==> r - 16 == old(if nb <= dvsize then dv else if top != 0 then top else heapStart)
    {
      hide Books, Coalesced, Allocated, NoFit, Up64, NewBlock;
      ghost var s0 := St();
      Victim64(s0);
      if nb <= dvsize {
        r := FromDv(nb);
        NotNull(s0, St(), r, nb);
      } else if nb < topsize {
        TopThere(s0);
        r := FromTop(nb);
        NotNull(s0, St(), r, nb);
      } else {
        r := SysAlloc(nb);
      }
    }

    /** malloc: a block for the request, unless nothing fits and the heap
        cannot grow enough. */
    method Malloc(bytes: uint64) returns (r: int)
      requires Valid()
      modifies this
      ensures Valid()
      ensures r == 0 <==> old(Refused(bytes))
      ensures r == 0 ==> St() == old(St()) && footprint == old(footprint)
      ensures r != 0 ==> Allocated(old(St()), St(), r, Request2Size(bytes)) && Usable(r, bytes)
      ensures r != 0 ==> Chosen(old(St()), heapStart, r - 16, Request2Size(bytes))
    {
      hide Books, Coalesced, Allocated, NoFit, Up64, PadRequest, NewBlock, Usable, NonePreferred, Chosen;
      ghost var s0 := St();
      var nb;
      if bytes < MAX_REQUEST { Padded(bytes); }
      Victim64(s0);
      if bytes <= MAX_SMALL_REQUEST {
        nb := if bytes < MIN_REQUEST then MIN_CHUNK_SIZE else PadRequest(bytes);
        r := MallocSmall(nb);
        if r != 0 {
          IsUsable(s0, r, bytes);
          return;
        }
      } else if bytes >= MAX_REQUEST {
        nb := TWO64 - 1;
        TooMuch();
      } else {
        nb := PadRequest(bytes);
        r := MallocLarge(nb);
        if r != 0 {
          IsUsable(s0, r, bytes);
          return;
        }
      }
      if bytes < MAX_REQUEST { ChosenOther(s0, heapStart, nb); }
      r := FromRest(nb);
      if r != 0 { IsUsable(s0, r, bytes); }
    }

    /** malloc fails exactly for requests beyond MAX_REQUEST, and for those no
        free chunk fits when the heap array has no room to grow by enough. */
    ghost predicate Refused(bytes: nat)
      reads this
    {
      bytes >= MAX_REQUEST
      || (NoFit(St(), Request2Size(bytes)) && footprint + Shortage(Request2Size(bytes)) > heapSize)
    }

    /** No heap can grow by as much as a too large request. */
    lemma TooMuch()
      requires Valid()
      ensures footprint + Shortage(TWO64 - 1) > heapSize
    {
      hide Books;
      if top != 0 { TopHeld(St()); }
      Up64Mono(TWO64 - 1 + 96 - if top != 0 && !noncontiguous then topsize else 0, TWO64 + 96);
    }

    // ------------------------------------------------------------------ free

    /** The freed chunk joins the top. */
    method JoinTop(ghost p: int, a: int, n: nat)
      requires Merging(St(), p, a, n) && loose <= {a} && a + n == top
      modifies `mem, `loose, `h, `dv, `dvsize, `top, `topsize
      ensures Freed(old(St()), St(), p) && loose == {} && top != 0
    {
      hide Books, Coalesced, Merging, Fuse, Freed, Special, Or;
      ghost var s1 := St();
      MergingFacts(s1, p, a, n);
      var tsize := topsize + n;
      topsize, top, mem, h, loose := tsize, a, mem[a + 8 := Or(tsize, 1)], Fuse(h, a, tsize, false), {};
      if a == dv {
        dv, dvsize := 0, 0;
      }
      EndTop(s1, St(), p, a, n);
    }

    /** The freed chunk joins the designated victim that follows it. */
    method JoinVictim(ghost p: int, a: int, n: nat)
      requires Merging(St(), p, a, n) && loose <= {a} && a + n == dv
      modifies `mem, `loose, `h, `dv, `dvsize
      ensures Freed(old(St()), St(), p) && loose == {}
    {
      hide Books, Coalesced, Merging, Fuse, Freed, Special, SetSizeAndPinuseOfFree;
      ghost var s1 := St();
      MergingFacts(s1, p, a, n);
      VictimNext(s1, p, a, n);
      var dsize := dvsize + n;
      dvsize, dv, mem, h, loose := dsize, a, SetSizeAndPinuseOfFree(mem, a, dsize), Fuse(h, a, dsize, false), {};
      EndMerged(s1, St(), p, a, n);
    }

    /** The freed chunk takes in the binned chunk that follows it. */
    method JoinNext(ghost p: int, a: int, n: nat) returns (size: nat)
      requires Merging(St(), p, a, n) && loose <= {a} && leastAddr == heapStart && a + n in Binned(St())
      modifies `mem, `smallmap, `treemap, `treebins, `rings, `trees, `loose, `h, `dv, `dvsize
      ensures Freed(old(St()), St(), p) && a in h && h[a].size == size
      ensures if a == old(dv) then loose == {} && dv == a else loose == {a} && dv == old(dv)
    {
      hide Books, Coalesced, Merging, Fuse, Freed, Special, SetSizeAndPinuseOfFree, Binned, ChunkSize, SameLayout,
        Quiet;
      ghost var s1 := St();
      MergingFacts(s1, p, a, n);
      NextHead(s1, p, a, n);
      BinnedFacts(s1, a + n);
      var next := a + n;
      var nsize := ChunkSize(Word(mem, next + 8));
      size := n + nsize;
      UnlinkChunk(next, nsize);
      ghost var s2 := St();
      Reached(s1, s2);
      StillMerging(s1, s2, p, a, n);
      mem := SetSizeAndPinuseOfFree(mem, a, size);
      h := Fuse(h, a, size, false);
      if a == dv {
        dvsize := size;
        loose := {};
      } else {
        loose := {a};
      }
      EndMerged(s2, St(), p, a, n);
      FreedBefore(s1, s2, St(), p);
    }

    /** The forward half of consolidation: a is p or the free chunk before it. */
    method ConsolidateForward(ghost p: int, a: int, n: nat, checked: bool)
      requires Merging(St(), p, a, n) && loose <= {a} && leastAddr == heapStart
      requires a + n in h && (a == dv ==> !h[a + n].used)
      modifies `mem, `smallmap, `treemap, `treebins, `rings, `trees, `loose, `h, `dv, `dvsize, `top, `topsize
      ensures Freed(old(St()), St(), p) && loose == {} && top != 0
    {
      hide Books, Coalesced, Merging, Fuse, Freed, Special, SetFreeWithPinuse, Cinuse, Pinuse, Binned, SameLayout,
        Quiet;
      ghost var s1 := St();
      var next, size := a + n, n;
      NextHead(s1, p, a, n);
      MergingFacts(s1, p, a, n);
      if if checked then a < next && Pinuse(Word(mem, next + 8)) else next >= leastAddr {
        if !Cinuse(Word(mem, next + 8)) {
          if next == top {
            JoinTop(p, a, n);
            return;
          } else if next == dv {
            JoinVictim(p, a, n);
            return;
          } else {
            size := JoinNext(p, a, n);
            if a == dv {
              return;
            }
          }
        } else {
          mem := SetFreeWithPinuse(mem, a, n, next);
          h, loose := Fuse(h, a, n, false), {a};
          EndFree(s1, St(), p, a, n);
        }
        ghost var s2 := St();
        FreedBooks(s1, s2, p);
        InsertChunk(a, size);
        Reached(s2, St());
        FreedAfter(s1, s2, St(), p);
      } else {
        assert false;
      }
    }

    /** dispose_chunk, and the part of free it shares: consolidate the block p
        with its free neighbours and bin the result. */
    method Consolidate(p: int, psize: nat, checked: bool)
      requires Books(St()) && Coalesced(h) && loose == {} && leastAddr == heapStart
      requires p in h && h[p].used && h[p].size == psize
      modifies `mem, `smallmap, `treemap, `treebins, `rings, `trees, `loose, `h, `dv, `dvsize, `top, `topsize
      ensures Freed(old(St()), St(), p) && loose == {} && top != 0
    {
      hide Books, Coalesced, Merging, Fuse, Freed, Special, SetFreeWithPinuse, Cinuse, Pinuse, Binned, SameLayout,
        Quiet;
      ghost var s0 := St();
      UsedHead(s0, p);
      var next := p + psize;
      var a, n := p, psize;
      if !Pinuse(Word(mem, p + 8)) {
        BeforeFreed(s0, p);
        var prevsize := Word(mem, p);
        a := p - prevsize;
        n := n + prevsize;
        if a >= leastAddr {
          if a != dv {
            UnlinkChunk(a, prevsize);
            Reached(s0, St());
            MergeUnlinked(s0, St(), p, a);
          } else {
            VictimLayout(s0);
            NextHead(s0, p, a, n);
            if Cinuse(Word(mem, next + 8)) && Pinuse(Word(mem, next + 8)) {
              MergingFacts(s0, p, a, n);
              dvsize := n;
              mem := SetFreeWithPinuse(mem, a, n, next);
              h := Fuse(h, a, n, false);
              EndFree(s0, St(), p, a, n);
              return;
            }
          }
        } else {
          assert false;
        }
      } else {
        VictimLayout(s0);
        MergeAlone(s0, p);
      }
      ghost var s1 := St();
      NextHead(s1, p, a, n);
      MergingFacts(s1, p, a, n);
      ConsolidateForward(p, a, n, checked);
      FreedBefore(s0, s1, St(), p);
    }

    /** free: a pointer malloc handed out, or 0. */
    method Free(r: int)
      requires Valid() && (r != 0 ==> r - 16 in Blocks(h))
      modifies `mem, `smallmap, `treemap, `treebins, `rings, `trees, `loose, `h, `dv, `dvsize, `top, `topsize
      ensures Valid()
      ensures r == 0 ==> St() == old(St())
      ensures r != 0 ==> Freed(old(St()), St(), r - 16)
    {
      hide Books, Coalesced, Freed, Cinuse, Pinuse, ChunkSize;
      if r != 0 {
        var p := r - 16;
        ghost var s0 := St();
        UsedHead(s0, p);
        FromBase(s0, p);
        var head := Word(mem, p + 8);
        if p >= leastAddr && (Cinuse(head) || !Pinuse(head)) {
          Consolidate(p, ChunkSize(head), true);
          FreedValid(s0, St(), p);
        } else {
          assert false;
        }
      }
    }

    // --------------------------------------------------------------- realloc

    /** Cut the run of n bytes at p after nb bytes and free the rest. */
    method GiveBackTail(p: int, n: nat, nb: nat)
      requires Stretch(St(), p, n) && 32 <= nb && nb + 32 <= n && nb % 16 == 0 && leastAddr == heapStart
      requires !InRun(p, n, top) && !InRun(p, n, dv) && loose <= {p + h[p].size} && (n == h[p].size ==> loose == {})
      modifies `mem, `smallmap, `treemap, `treebins, `rings, `trees, `loose, `h, `dv, `dvsize, `top, `topsize
      ensures Resized(old(St()), St(), p, nb) && loose == {} && top != 0
    {
      hide Books, Coalesced, Stretch, Carve, CarveWritten, SetInuse, Blocks, PayloadsBut, Freed, Resized, Special;
      ghost var s0 := St();
      StretchBooks(s0, p, n);
      NoBlockInside(s0, p, n, nb);
      var r, rsize := p + nb, n - nb;
      var m := SetInuse(mem, p, nb);
      m := SetInuse(m, r, rsize);
      mem, h, loose := m, Carve(h, p, n, nb, true), {};
      SplitBlockWritten(s0, St(), p, n, nb);
      Recut(s0, St(), p, n, nb, true);
      SplitOff(s0.h, p, n, nb);
      ghost var s1 := St();
      Consolidate(r, rsize, false);
      SplitThenFree(s0, s1, St(), p, n, nb);
    }

    /** Extend a block into the top chunk. */
    method ExtendIntoTop(p: int, oldsize: nat, nb: nat)
      requires Valid() && p in h && h[p].used && h[p].size == oldsize && p + oldsize == top
      requires oldsize < nb < oldsize + topsize && nb % 16 == 0
      modifies `mem, `h, `top, `topsize
      ensures Valid() && Resized(old(St()), St(), p, nb)
    {
      hide Books, Coalesced, Stretch, Carve, CarveWritten, SetInuse, Blocks, PayloadsBut, Resized, Special, Or;
      ghost var s0 := St();
      TopFacts(s0);
      TopSpecial(s0);
      BlockFacts(s0, p);
      IsStretch(s0, p, oldsize + topsize);
      var newsize := oldsize + topsize;
      var newtopsize := newsize - nb;
      var m := SetInuse(mem, p, nb);
      m := m[p + nb + 8 := Or(newtopsize, 1)];
      mem, top, topsize, h := m, p + nb, newtopsize, Carve(h, p, newsize, nb, false);
      IntoTopWritten(s0, St(), p, newsize, nb);
      Recut(s0, St(), p, newsize, nb, false);
      IsResized(s0, St(), p, nb);
    }

    /** Extend a block into the designated victim, and leave it the rest. */
    method ShrinkVictim(p: int, oldsize: nat, nb: nat)
      requires Valid() && p in h && h[p].used && h[p].size == oldsize && p + oldsize == dv
      requires oldsize < nb && nb + 32 <= oldsize + dvsize && nb % 16 == 0
      modifies `mem, `h, `dv, `dvsize
      ensures Valid() && Resized(old(St()), St(), p, nb)
    {
      hide Books, Coalesced, Stretch, Carve, CarveWritten, SetInuse, SetSizeAndPinuseOfFree, ClearPinuse, Blocks,
        PayloadsBut, Resized, Special, Cleared, OnlyUsed;
      ghost var s0 := St();
      VictimStretch(s0, p);
      ghost var n := oldsize + dvsize;
      var dsize := oldsize + dvsize - nb;
      var r := p + nb;
      var next := r + dsize;
      var m := SetInuse(mem, p, nb);
      m := SetSizeAndPinuseOfFree(m, r, dsize);
      m := m[next + 8 := ClearPinuse(Word(m, next + 8))];
      mem, dvsize, dv, h := m, dsize, r, Carve(h, p, n, nb, false);
      IntoVictimWritten(s0, St(), p, n, nb);
      Recut(s0, St(), p, n, nb, false);
      IsResized(s0, St(), p, nb);
    }

    /** Extend a block over the whole designated victim. */
    method UseUpVictim(p: int, newsize: nat)
      requires Valid() && p in h && h[p].used && p + h[p].size == dv && newsize == h[p].size + dvsize && dvsize > 0
      modifies `mem, `h, `dv, `dvsize
      ensures Valid() && Resized(old(St()), St(), p, newsize)
    {
      hide Books, Coalesced, Stretch, Fuse, FuseWritten, SetInuse, Blocks, PayloadsBut, Resized, Special, Cleared,
        OnlyUsed;
      ghost var s0 := St();
      VictimStretch(s0, p);
      mem, dvsize, dv, h := SetInuse(mem, p, newsize), 0, 0, Fuse(h, p, newsize, true);
      WidenWritten(s0, St(), p, newsize);
      Widen(s0, St(), p, newsize);
      ResizedBooks(s0, St(), p, newsize);
    }

    /** Extend a block over the whole chunk after it, just taken from its bin. */
    method TakeNext(p: int, newsize: nat)
      requires Stretch(St(), p, newsize) && newsize > h[p].size && loose == {p + h[p].size}
      requires !InRun(p, newsize, top) && !InRun(p, newsize, dv)
      modifies `mem, `h, `loose
      ensures Resized(old(St()), St(), p, newsize) && loose == {}
    {
      hide Books, Coalesced, Stretch, Fuse, FuseWritten, SetInuse, Blocks, PayloadsBut, Resized, Special, Cleared,
        OnlyUsed;
      ghost var s1 := St();
      StretchBooks(s1, p, newsize);
      mem, h, loose := SetInuse(mem, p, newsize), Fuse(h, p, newsize, true), {};
      WidenWritten(s1, St(), p, newsize);
      Widen(s1, St(), p, newsize);
    }

    /** Extend a block into the binned chunk after it. */
    method ExtendIntoNext(p: int, oldsize: nat, nb: nat) returns (ghost n: nat)
      requires Valid() && p in h && h[p].used && h[p].size == oldsize && p + oldsize in Binned(St())
      requires oldsize < nb <= oldsize + h[p + oldsize].size && nb % 16 == 0
      modifies `mem, `smallmap, `treemap, `treebins, `rings, `trees, `loose, `h, `dv, `dvsize, `top, `topsize
      ensures Valid() && nb <= n < nb + 32 && Resized(old(St()), St(), p, n)
    {
      hide Books, Coalesced, Stretch, Blocks, PayloadsBut, Resized, Special, ChunkSize, SameLayout, Quiet, Binned;
      ghost var s0 := St();
      BlockFacts(s0, p);
      NextReadable(s0, p);
      BinnedFacts(s0, p + oldsize);
      var next := p + oldsize;
      var nextsize := ChunkSize(Word(mem, next + 8));
      var rsize := oldsize + nextsize - nb;
      UnlinkChunk(next, nextsize);
      ghost var s1 := St();
      Reached(s0, s1);
      LooseStretch(s0, s1, p, next);
      if rsize < 32 {
        n := oldsize + nextsize;
        TakeNext(p, oldsize + nextsize);
      } else {
        n := nb;
        GiveBackTail(p, oldsize + nextsize, nb);
      }
      ResizedBefore(s0, s1, St(), p, n);
      ResizedBooks(s0, St(), p, n);
    }

    /** try_realloc_chunk */
    method TryRealloc(p: int, nb: nat) returns (newp: int, ghost n: nat)
      requires Valid() && p in Blocks(h) && 32 <= nb && nb % 16 == 0
      modifies `mem, `smallmap, `treemap, `treebins, `rings, `trees, `loose, `h, `dv, `dvsize, `top, `topsize
      ensures Valid()
      ensures newp != 0 <==> old(Extensible(St(), p, nb))
      ensures newp == 0 ==> St() == old(St()) && footprint == old(footprint)
      ensures newp != 0 ==> newp == p && nb <= n < nb + 32 && Resized(old(St()), St(), p, n)
    {
      hide Books, Coalesced, Stretch, Blocks, PayloadsBut, Resized, Special, ChunkSize, Cinuse, Pinuse, Binned;
      ghost var s0 := St();
      newp, n := 0, 0;
      BlockUsed(h, p);
      BlockFacts(s0, p);
      UsedHead(s0, p);
      NextReadable(s0, p);
      var head := Word(mem, p + 8);
      var oldsize := ChunkSize(head);
      var next := p + oldsize;
      if p >= leastAddr && (Cinuse(head) || !Pinuse(head)) && p < next && Pinuse(Word(mem, next + 8)) {
        if oldsize >= nb {
          var rsize := oldsize - nb;
          if rsize >= 32 {
            WholeStretch(s0, p);
            GiveBackTail(p, oldsize, nb);
            ResizedBooks(s0, St(), p, nb);
            n := nb;
          } else {
            n := oldsize;
            Unchanged(s0, p);
          }
          newp := p;
        } else if next == top {
          if oldsize + topsize > nb {
            ExtendIntoTop(p, oldsize, nb);
            newp, n := p, nb;
          }
        } else if next == dv {
          if oldsize + dvsize >= nb {
            if oldsize + dvsize - nb >= 32 {
              ShrinkVictim(p, oldsize, nb);
              n := nb;
            } else {
              n := oldsize + dvsize;
              UseUpVictim(p, oldsize + dvsize);
            }
            newp := p;
          }
        } else if !Cinuse(Word(mem, next + 8)) {
          if oldsize + ChunkSize(Word(mem, next + 8)) >= nb {
            n := ExtendIntoNext(p, oldsize, nb);
            newp := p;
          }
        }
      } else {
        assert false;
      }
    }

    /** A client writes one word of its block. */
    method ClientWrite(r: int, a: int, v: int)
      requires Valid() && r - 16 in Blocks(h) && r <= a < r - 16 + Blocks(h)[r - 16] + 8
      modifies `mem
      ensures Valid() && mem == old(mem)[a := v] && PayloadsBut(old(mem), mem, h, r - 16)
    {
      hide Books, Coalesced, PayloadsBut;
      ghost var s0 := St();
      mem := mem[a := v];
      ClientBooks(s0, St(), r - 16);
    }

    /** The memcpy and the free of realloc, after its malloc. */
    method CopyAndFree(r: int, q: int, bytes: nat, ghost s0: State)
      requires Valid() && Books(s0) && r - 16 in Blocks(s0.h) && q - 16 in Blocks(h) && bytes + 8 <= Blocks(h)[q - 16]
      requires NewBlock(s0, St(), q - 16, Blocks(h)[q - 16])
      modifies `mem, `smallmap, `treemap, `treebins, `rings, `trees, `loose, `h, `dv, `dvsize, `top, `topsize
      ensures Valid() && q - 16 in Blocks(h) && Blocks(h)[q - 16] == old(Blocks(h)[q - 16])
      ensures Moved(s0, St(), r - 16, q - 16, Blocks(h)[q - 16], Min(Blocks(s0.h)[r - 16] - 8, bytes))
    {
      hide Books, Coalesced, Blocks, PayloadsBut, Freed, ChunkSize, Moved, ClientWrote, Copied, NewBlock;
      ghost var s1 := St();
      ghost var n := Blocks(h)[q - 16];
      BlocksApart(s0, s1, r - 16, q - 16, n);
      var oc := ChunkSize(Word(mem, r - 16 + 8)) - 8;
      var k := if oc < bytes then oc else bytes;
      mem := MemCpy(mem, q, r, k);
      ghost var s2 := St();
      WroteNew(s1, s2, q - 16, k);
      ClientBooks(s1, s2, q - 16);
      Free(r);
      MovedAway(s0, s1, s2, St(), r - 16, q - 16, n, k);
      MovedHolds(s0, St(), r - 16, q - 16, n, k);
    }

    /** malloc, memcpy and free: the part of realloc that moves the block. */
    method MoveBlock(r: int, bytes: uint64) returns (q: int)
      requires Valid() && r - 16 in Blocks(h) && bytes < MAX_REQUEST
      modifies this
      ensures Valid()
      ensures q == 0 ==> St() == old(St())
      ensures q == 0 <==> old(Refused(bytes))
      ensures q != 0 ==> q != r && q - 16 in Blocks(h) && bytes + 8 <= Blocks(h)[q - 16]
      ensures q != 0 ==> Moved(old(St()), St(), r - 16, q - 16, Blocks(h)[q - 16],
              Min(old(Blocks(h))[r - 16] - 8, bytes))
      ensures q != 0 ==> Kept(old(mem), r, mem, q, old(Blocks(h))[r - 16] - 8, bytes)
    {
      hide Books, Coalesced, Blocks, Moved, Request2Size, NoFit, Up64, NewBlock, Kept;
      ghost var s0 := St();
      q := Malloc(bytes);
      if q != 0 {
        BlocksApart(s0, St(), r - 16, q - 16, Blocks(h)[q - 16]);
        CopyAndFree(r, q, bytes, s0);
        BlockUsed(s0.h, r - 16);
        BlockFacts(s0, r - 16);
        MovedKept(s0, St(), r - 16, q - 16, Blocks(h)[q - 16], Blocks(s0.h)[r - 16] - 8, bytes);
      }
    }

    /** realloc */
    method Realloc(r: int, bytes: uint64) returns (q: int)
      requires Valid() && (r != 0 ==> r - 16 in Blocks(h))
      modifies this
      ensures Valid()
      ensures q == 0 ==> St() == old(St())
      ensures q == 0 <==> old(Refused(bytes)
              && (r != 0 && bytes < MAX_REQUEST ==> !Extensible(St(), r - 16, Request2Size(bytes))))
      ensures r != 0 && q != 0 ==> (q == r <==> old(Extensible(St(), r - 16, Request2Size(bytes))))
      ensures r == 0 && q != 0 ==> Allocated(old(St()), St(), q, Request2Size(bytes))
      ensures q != 0 ==> q - 16 in Blocks(h) && bytes + 8 <= Blocks(h)[q - 16]
      ensures r != 0 && q != 0 ==> Moved(old(St()), St(), r - 16, q - 16, Blocks(h)[q - 16],
              Min(old(Blocks(h))[r - 16] - 8, bytes))
      ensures r != 0 && q != 0 ==> Kept(old(mem), r, mem, q, old(Blocks(h))[r - 16] - 8, bytes)
    {
      hide Books, Coalesced, Blocks, PayloadsBut, Resized, Moved, Request2Size, NoFit, Up64, Allocated, Kept;
      q := 0;
      if r == 0 {
        q := Malloc(bytes);
      } else if bytes < MAX_REQUEST {
        ghost var s0 := St();
        var nb := Request2Size(bytes);
        Padded(bytes);
        BlockUsed(h, r - 16);
        BlockFacts(s0, r - 16);
        var newp, n := TryRealloc(r - 16, nb);
        if newp != 0 {
          InPlace(s0, St(), r - 16, n, bytes);
          MovedKept(s0, St(), r - 16, r - 16, n, Blocks(s0.h)[r - 16] - 8, bytes);
          q := r;
        } else {
          q := MoveBlock(r, bytes);
        }
      }
    }

    // -------------------------------------------------------------- memalign

    /** Free the first lead bytes of the new block p. */
    method GiveBackLead(p: int, size: nat, lead: nat, ghost s0: State)
      requires Valid() && NewBlock(s0, St(), p, size) && 32 <= lead && lead + 32 <= size && lead % 16 == 0
      modifies `mem, `smallmap, `treemap, `treebins, `rings, `trees, `loose, `h, `dv, `dvsize, `top, `topsize
      ensures Valid() && NewBlock(s0, St(), p + lead, size - lead)
    {
      hide Books, Coalesced, Stretch, Carve, CarveWritten, SetInuse, Blocks, PayloadsBut, Freed, NewBlock, Special;
      ghost var s1 := St();
      NewAt(s0, s1, p, size);
      WholeStretch(s1, p);
      NoBlockInside(s1, p, size, lead);
      BlockFacts(s1, p);
      var newp, newsize := p + lead, size - lead;
      var m := SetInuse(mem, newp, newsize);
      m := SetInuse(m, p, lead);
      mem, h := m, Carve(h, p, size, lead, true);
      ghost var s2 := St();
      LeadWritten(s1, s2, p, lead);
      Recut(s1, s2, p, size, lead, true);
      SplitFirst(s1.h, p, size, lead);
      Consolidate(p, lead, false);
      LeadFreed(s0, s1, s2, St(), p, size, lead);
      FreshBooks(s0, St(), p + lead, size - lead);
    }

    /** Give back spare room at the end of the new block p. */
    method TrimTail(p: int, nb: nat, ghost s0: State) returns (ghost n: nat)
      requires Valid() && p in Blocks(h) && NewBlock(s0, St(), p, Blocks(h)[p]) && 32 <= nb <= Blocks(h)[p]
               && nb % 16 == 0
      modifies `mem, `smallmap, `treemap, `treebins, `rings, `trees, `loose, `h, `dv, `dvsize, `top, `topsize
      ensures Valid() && nb <= n <= nb + 32 && NewBlock(s0, St(), p, n)
    {
      hide Books, Coalesced, Stretch, Blocks, Resized, NewBlock, ChunkSize;
      ghost var s1 := St();
      BlockUsed(h, p);
      UsedHead(s1, p);
      var size := ChunkSize(Word(mem, p + 8));
      n := size;
      if size > nb + 32 {
        WholeStretch(s1, p);
        GiveBackTail(p, size, nb);
        ResizedBooks(s1, St(), p, nb);
        TailFreed(s0, s1, St(), p, size, nb);
        n := nb;
      }
    }

    /** Move a misaligned new block up to a multiple of the alignment. */
    method MoveUp(mem0: int, req: nat, alignment: uint64, nb: nat, ghost s0: State) returns (p: int)
      requires Valid() && Usable(mem0, req) && NewBlock(s0, St(), mem0 - 16, Blocks(h)[mem0 - 16])
      requires PowerOfTwo(alignment) && 32 <= alignment && req == nb + alignment + 32 - 8 && nb >= 32
      modifies `mem, `smallmap, `treemap, `treebins, `rings, `trees, `loose, `h, `dv, `dvsize, `top, `topsize
      ensures Valid() && p in Blocks(h) && nb <= Blocks(h)[p] && NewBlock(s0, St(), p, Blocks(h)[p])
              && (p + 16) % alignment == 0
    {
      hide Books, Coalesced, Blocks, NewBlock, And, PowerOfTwo, ChunkSize, AlignedSpot;
      ghost var s1 := St();
      p := mem0 - 16;
      BlockUsed(h, p);
      UsedHead(s1, p);
      MaskTest(mem0, alignment);
      if And(mem0, alignment - 1) != 0 {
        SpotFacts(mem0, alignment);
        var newp := AlignedSpot(mem0, alignment);
        var size := ChunkSize(Word(mem, p + 8));
        GiveBackLead(p, size, newp - p, s0);
        NewAt(s0, St(), newp, size - (newp - p));
        UsedBlock(h, newp);
        p := newp;
      }
    }

    /** internal_memalign: a block whose pointer is a multiple of a, the
        alignment or the next power of two. */
    method InternalMemalign(alignment0: uint64, bytes: uint64) returns (r: int, ghost a: nat, ghost n: nat)
      requires Valid() && alignment0 <= TWO63
      modifies this
      ensures Valid()
      ensures PowerOfTwo(a) && alignment0 <= a && (PowerOfTwo(alignment0) && alignment0 >= 32 ==> a == alignment0)
      ensures a == 32 || a < 2 * alignment0
      ensures r == 0 <==> bytes + a >= MAX_REQUEST || old(Refused(Request2Size(bytes) + a + 24))
      ensures r == 0 ==> St() == old(St())
      ensures r != 0 ==> r % a == 0 && bytes + 8 <= n <= Request2Size(bytes) + 32
      ensures r != 0 ==> NewBlock(old(St()), St(), r - 16, n)
    {
      hide Books, Coalesced, Blocks, NewBlock, And, PowerOfTwo, Request2Size, NoFit, Up64;
      ghost var s0 := St();
      r, n := 0, 0;
      var alignment := Normalize(alignment0);
      a := alignment;
      if bytes < MAX_REQUEST - alignment {
        var nb := Request2Size(bytes);
        Padded(bytes);
        var req := nb + alignment + 32 - 8;
        var mem0 := Malloc(req);
        if mem0 != 0 {
          var p := MoveUp(mem0, req, alignment, nb, s0);
          n := TrimTail(p, nb, s0);
          NewAt(s0, St(), p, n);
          BlockFacts(St(), p);
          r := p + 16;
        }
      }
    }

    /** memalign */
    method Memalign(alignment: uint64, bytes: uint64) returns (r: int, ghost a: nat, ghost n: nat)
      requires Valid() && alignment <= TWO63
      modifies this
      ensures Valid()
      ensures PowerOfTwo(a) && alignment <= a && (PowerOfTwo(alignment) && alignment > 16 ==> a == alignment)
      ensures if alignment <= 16 then a == 16 else a == 32 || a < 2 * alignment
      ensures r == 0 ==> St() == old(St())
      ensures r == 0 <==> if alignment <= 16 then old(Refused(bytes))
                          else bytes + a >= MAX_REQUEST || old(Refused(Request2Size(bytes) + a + 24))
      ensures r != 0 ==> r % a == 0
      ensures r != 0 ==> bytes + 8 <= n <= Request2Size(bytes) + 32 && NewBlock(old(St()), St(), r - 16, n)
      ensures r != 0 && PowerOfTwo(alignment) ==> r % alignment == 0
    {
      hide Books, Coalesced, NewBlock, PowerOfTwo, Request2Size, NoFit, Up64;
      a, n := 16, 0;
      if alignment <= 16 {
        PowerSixteen();
        r := Malloc(bytes);
        if r != 0 {
          n := Blocks(h)[r - 16];
          if PowerOfTwo(alignment) { Divides16(alignment, r); }
        }
      } else {
        r, a, n := InternalMemalign(alignment, bytes);
        if PowerOfTwo(alignment) { Above16(alignment); }
      }
    }

    // ---------------------------------------------------------------- calloc

    /** calloc */
    method Calloc(n: uint64, elem: uint64) returns (r: int)
      requires Valid()
      modifies this
      ensures Valid()
      ensures r == 0 <==> old(Refused(Product(n, elem)))
      ensures r == 0 ==> St() == old(St())
      ensures r != 0 ==> r - 16 in Blocks(h) && NewBlock(old(St()), St(), r - 16, Blocks(h)[r - 16])
      ensures r != 0 ==> Usable(r, Product(n, elem)) && Filled(mem, r, Product(n, elem), 0)
    {
      hide Product, Books, Coalesced, Blocks, NewBlock, CallocRequest, Request2Size, NoFit, Up64, ClientWrote, Filled;
      ghost var s0 := St();
      var req := CallocRequest(n, elem);
      CallocExact(n, elem);
      r := Malloc(req);
      if r != 0 {
        ghost var s1 := St();
        Aligned8(r - 16);
        mem := MemSet(mem, r, 0, req);
        WroteNew(s1, St(), r - 16, req);
        ClientBooks(s1, St(), r - 16);
        NewThenWrite(s0, s1, St(), r - 16, Blocks(h)[r - 16]);
      }
    }

    // ------------------------------------------------ what holds in any state

    /** Two live blocks never overlap, and lie in the heap array. */
    lemma BlocksDisjoint(p: int, q: int)
      requires Valid() && p in Blocks(h) && q in Blocks(h) && p != q
      ensures p + Blocks(h)[p] <= q || q + Blocks(h)[q] <= p
      ensures heapStart <= p && p + Blocks(h)[p] + 8 <= programBreak <= heapStart + heapSize
    {
      hide Tagged, Shelved, Roles, Coalesced;
      Separate(h, heapStart, End(), p, q);
      assert Fits(h, heapStart, End(), p);
    }

    /** Used bytes, free bytes and the overhead are the footprint. */
    lemma FootprintConserved()
      requires Valid() && top != 0
      ensures Sum(h, UsedSet(h)) + Sum(h, FreeSet(h)) + TOP_FOOT_SIZE == footprint <= heapSize
    {
      hide Tagged, Shelved, Roles, Coalesced, Tiled, Sum;
      Conserved(St());
    }

    /** A free chunk is in exactly one place: the top, the designated victim,
        one small bin or one tree bin; no other chunk is in any. */
    lemma OnePlace(p: int)
      requires Valid() && p in h
      ensures h[p].used <==> p != top && p != dv && p !in SmallChunks(rings) && p !in LargeChunks(trees)
      ensures p in SmallChunks(rings) ==> p != top && p != dv && p !in LargeChunks(trees)
      ensures p in LargeChunks(trees) ==> p != top && p != dv
      ensures p == dv ==> p != top
    {
      hide Tagged, Coalesced, Tiled, MinSized, SmallsOk, TreesOk, SmallChunks, LargeChunks;
      PositiveAt(p);
      if p in LargeChunks(trees) { NotSmall(St(), p); }
      assert p in Binned(St()) <==> p in SmallChunks(rings) || p in LargeChunks(trees);
    }

    lemma PositiveAt(p: int)
      requires Valid() && p in h
      ensures p > 0
    {
      hide Tagged, Coalesced, Shelved, Roles;
      PositiveChunk(St(), p);
    }
  }

  lemma NewThenWrite(s0: State, s1: State, s2: State, p: int, n: nat)
    requires NewBlock(s0, s1, p, n) && ClientWrote(s1, s2, p) && Books(s2)
    ensures NewBlock(s0, s2, p, n)
  {
    hide Tagged, Shelved, Roles, Coalesced, SameOn, Ground;
    forall q | q in s0.h && s0.h[q].used
      ensures SameOn(s0.mem, s2.mem, q + 16, q + s0.h[q].size + 8)
    {
      StillBlock(s0, s1, p, n, q);
      ClientOthers(s1, s2, p, q);
      SameTrans(s0.mem, s1.mem, s2.mem, q + 16, q + s0.h[q].size + 8);
    }
  }

  lemma UsedBlock(h: Layout, p: int)
    requires p in h && h[p].used
    ensures p in Blocks(h) && Blocks(h)[p] == h[p].size
  {
  }

  lemma SplitFirst(h: Layout, p: int, n: nat, k: nat)
    requires p in h && 0 < k < n
    ensures var h' := Carve(h, p, n, k, true); p in h' && h'[p] == Chunk(k, true, h[p].prevUsed)
  {
  }

  lemma InPlace(s: State, s': State, p: int, n: nat, bytes: nat)
    requires Resized(s, s', p, n) && p % 16 == 0 && bytes + 8 <= n && p in Blocks(s.h) && Blocks(s.h)[p] >= 32
    ensures p in Blocks(s'.h) && Blocks(s'.h)[p] == n && Moved(s, s', p, p, n, Min(Blocks(s.h)[p] - 8, bytes))
  {
    hide Books, Coalesced, PayloadsBut, SameOn, Copied, Moved;
    MovedInPlace(s, s', p, n, Min(Blocks(s.h)[p] - 8, bytes));
  }

  /** The old and the new block do not overlap, and the old one is as before. */
  lemma BlocksApart(s: State, s': State, p: int, p': int, n: nat)
    requires Books(s) && NewBlock(s, s', p', n) && p in Blocks(s.h)
    ensures p in Blocks(s'.h) && Blocks(s'.h)[p] == Blocks(s.h)[p] >= 32
            && ChunkSize(Word(s'.mem, p + 8)) == Blocks(s.h)[p]
    ensures p' + 16 + n - 8 <= p + 16 || p + 16 + Blocks(s.h)[p] - 8 <= p' + 16
    ensures p != p' && p % 16 == 0 && p' % 16 == 0 && p > 0 && (p' + 16) % 8 == 0
  {
    hide Coalesced, Payloads, Tagged, Shelved, Roles, ChunkSize;
    StillBlock(s, s', p', n, p);
    NewAt(s, s', p', n);
    UsedHead(s', p);
    assert Fits(s'.h, s'.base, s'.end, p) && Fits(s'.h, s'.base, s'.end, p');
    Separate(s'.h, s'.base, s'.end, p, p');
    BlockFacts(s', p);
    Aligned8(p');
  }

  lemma WroteNew(s: State, s': State, p: int, k: nat)
    requires p in Blocks(s.h) && k + 8 <= Blocks(s.h)[p] && s' == s.(mem := s'.mem)
    requires forall w :: !(p + 16 <= w < p + 16 + k) ==> Word(s'.mem, w) == Word(s.mem, w)
    ensures ClientWrote(s, s', p)
  {
  }

  lemma MovedHolds(s: State, s': State, p: int, p': int, n: nat, k: nat)
    requires Moved(s, s', p, p', n, k)
    ensures p' in Blocks(s'.h) && Blocks(s'.h)[p'] == n
  {
    hide Books, Coalesced;
  }

  lemma BlockUsed(h: Layout, p: int)
    requires p in Blocks(h)
    ensures p in h && h[p].used && Blocks(h)[p] == h[p].size
  {
  }

  lemma VictimStretch(s: State, p: int)
    requires Books(s) && Coalesced(s.h) && p in s.h && s.h[p].used && s.loose == {} && p + s.h[p].size == s.dv
             && s.dvsize > 0
    ensures var n := s.h[p].size + s.dvsize;
            && Stretch(s, p, n) && p > 0 && !InRun(p, n, s.top) && InRun(p, n, s.dv) && s.h[p].size >= 32 && n % 16 == 0
    ensures s.top != 0
  {
    hide Books, Coalesced, Special, Cleared, OnlyUsed, Stretch;
    DvFacts(s);
    BlockFacts(s, p);
    VictimSpecial(s);
    IsStretch(s, p, s.h[p].size + s.dvsize);
    StretchRun(s, p, s.h[p].size + s.dvsize);
  }

  lemma LooseStretch(s: State, s': State, p: int, q: int)
    requires Books(s) && Coalesced(s.h) && s.loose == {} && SameLayout(s, s') && s'.loose == {q} && s'.dv == s.dv
    requires p in s.h && s.h[p].used && q == p + s.h[p].size && q in s.h && !s.h[q].used && q != s.top && q != s.dv
    ensures var n := s.h[p].size + s.h[q].size; Stretch(s', p, n) && !InRun(p, n, s.top) && !InRun(p, n, s.dv)
  {
    hide Ground, Tagged, Roles, Shelved, Coalesced, Quiet, Cleared, OnlyUsed;
    StretchRun(s', p, s.h[p].size + s.h[q].size);
  }

  lemma WholeStretch(s: State, p: int)
    requires Books(s) && Coalesced(s.h) && p in s.h && s.h[p].used
    ensures Stretch(s, p, s.h[p].size) && !InRun(p, s.h[p].size, s.top) && !InRun(p, s.h[p].size, s.dv)
  {
    hide Books, Coalesced, Cleared, OnlyUsed, Special;
    StretchRun(s, p, s.h[p].size);
  }

  lemma NextReadable(s: State, p: int)
    requires Books(s) && s.loose == {} && p in s.h && s.h[p].used && p + s.h[p].size in s.h
    ensures var q := p + s.h[p].size; var w := Word(s.mem, q + 8);
            && ChunkSize(w) == s.h[q].size && Cinuse(w) == s.h[q].used && Pinuse(w) == s.h[q].prevUsed
            && (!s.h[q].used && q != s.top && q != s.dv ==> q in Binned(s))
            && (q == s.top || q == s.dv ==> !s.h[q].used)
            && (q == s.top ==> s.h[q].size == s.topsize) && (q == s.dv ==> s.h[q].size == s.dvsize > 0)
  {
    hide Shelved, Tagged, ChunkSize, Cinuse, Pinuse;
    var q := p + s.h[p].size;
    ReadHead(s, q);
    PositiveChunk(s, q);
    if !s.h[q].used && q != s.top && q != s.dv { assert q in FreeSet(s.h); }
  }

  lemma Unchanged(s: State, p: int)
    requires Books(s) && Coalesced(s.h) && p in s.h && s.h[p].used
    ensures Resized(s, s, p, s.h[p].size)
  {
    hide Books, Coalesced;
    assert Blocks(s.h)[p := s.h[p].size] == Blocks(s.h);
  }

  /** A block and the chunk after it. */
  lemma BlockFacts(s: State, p: int)
    requires Books(s) && p in s.h && s.h[p].used
    ensures p != s.top && p != s.dv && p > 0 && s.h[p].size >= 32 && s.h[p].size % 16 == 0 && s.top != 0
    ensures p + s.h[p].size in s.h && s.h[p + s.h[p].size].prevUsed && p < p + s.h[p].size && s.base <= p && p % 16 == 0
  {
    hide Tagged, Shelved;
    NotLast(s, p);
    assert Fits(s.h, s.base, s.end, p);
  }

  lemma IsStretch(s: State, p: int, n: nat)
    requires Books(s) && Coalesced(s.h) && p in s.h && s.h[p].used
    requires var q := p + s.h[p].size; q in s.h && !s.h[q].used && q in Special(s) && n == s.h[p].size + s.h[q].size
    ensures Stretch(s, p, n)
  {
    hide Books, Coalesced, Special;
  }

  lemma VictimSpecial(s: State)
    ensures s.dv in Special(s)
  {
  }

  lemma IsResized(s: State, s': State, p: int, n: nat)
    requires Books(s') && Coalesced(s'.h) && PayloadsBut(s.mem, s'.mem, s.h, p) && p in s.h && s.h[p].used
    requires Blocks(s'.h) == Blocks(s.h)[p := n] && SameOn(s.mem, s'.mem, p + 16, p + Min(s.h[p].size, n) + 8)
    ensures Resized(s, s', p, n)
  {
    hide Books, Coalesced, PayloadsBut, SameOn;
  }

  lemma FromBase(s: State, p: int)
    requires Books(s) && p in s.h
    ensures s.base <= p
  {
    hide Tagged, Shelved;
    assert Fits(s.h, s.base, s.end, p);
  }

  lemma FreedValid(s: State, s': State, p: int)
    requires Freed(s, s', p)
    ensures Books(s') && Coalesced(s'.h)
  {
  }

  lemma NotNull(s: State, s': State, r: int, nb: nat)
    requires Allocated(s, s', r, nb)
    ensures r > 0
  {
    hide Tagged, Shelved, Payloads;
    PositiveChunk(s', r - 16);
  }

  /** Which requests pass the wraparound check, and that no other could be
      served. */
  lemma Requested(nb: uint64, t: nat, footprint: nat, heapSize: nat)
    requires t <= nb && heapSize < TWO63 && t <= footprint
    ensures GranularityAlign(Add64(nb, SYS_ALLOC_PADDING)) > nb ==>
      nb + 160 <= TWO64 && GranularityAlign(Add64(nb, SYS_ALLOC_PADDING)) == Up64(nb + 96)
    ensures GranularityAlign(Add64(nb, SYS_ALLOC_PADDING)) <= nb ==> footprint + Up64(nb + 96 - t) > heapSize
  {
    hide GranularityAlign, Up64;
    NoWrap(nb);
    Up64Mono(nb + 96 - t, nb + 96 - t);
    if nb + 96 + 63 < TWO64 {
      assert Add64(nb, 96) == nb + 96;
      AlignIsUp64(nb + 96);
    }
  }

  lemma TopHeld(s: State)
    requires Books(s) && s.top != 0
    ensures s.base <= s.top < s.end && s.topsize != 0 && s.topsize <= s.end - s.base
  {
    hide Tagged, Shelved;
    TopLast(s);
    assert Fits(s.h, s.base, s.end, s.top);
  }

  lemma NoVictim(s: State)
    requires Books(s) && s.top == 0
    ensures s.dvsize == 0 && s.topsize == 0 && s.base % 16 == 0 && s.h == map[]
  {
    hide Tagged, Shelved;
  }

  lemma TopFacts(s: State)
    requires Books(s) && s.topsize != 0
    ensures s.top > 0 && s.top in s.h && s.h[s.top].size == s.topsize && !s.h[s.top].used && s.topsize % 16 == 0
            && s.top + s.topsize == s.end
    ensures s.base <= s.top && s.top % 16 == 0
  {
    hide Tagged, Shelved;
    TopLast(s);
    assert Fits(s.h, s.base, s.end, s.top);
  }

  /** When tmalloc_large gives way, nothing fits or the designated victim fits
      at least as well. */
  lemma YieldsToDv(s: State, v: int, rsize: uint64, nb: uint64)
    requires Books(s) && BestFit(s.h, s.trees, v, nb) && Best(s.h, v, rsize, nb) && s.dvsize < TWO64
    requires v == 0 || rsize >= Sub64(s.dvsize, nb)
    ensures forall p :: p in LargeChunks(s.trees) ==> p in s.h && (s.h[p].size < nb || nb <= s.dvsize <= s.h[p].size)
  {
    hide Tagged, SmallsOk, TreesOk, LargeChunks, SmallChunks, Tiled;
    ShelvedTrees(s);
    LargeSizes(s.mem, s.h, s.gm, s.treebins, s.treemap, s.trees);
  }
}
