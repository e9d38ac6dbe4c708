/** Getting memory from sbrk: alignment arithmetic, the first segment, and
    growing the top chunk (components/common/dlmalloc/malloc.c, lines 2678 to
    2700, 3902 to 3925 and 4043 to 4249). */
module Growth {
  import opened Words
  import opened Bits
  import opened Rings
  import opened Tiling
  import opened Tags
  import opened Tries
  import opened BinMaps
  import opened BinIndex
  import opened TrieBits
  import opened TreeBins
  import opened TreeSearch
  import opened Bins
  import opened SmallBins
  import opened HeapState
  import opened Shelves
  import opened Retag
  import opened Steps
  import opened Macros
  import opened Aligning

  const TOP_FOOT_SIZE: nat := 80
  const SYS_ALLOC_PADDING: nat := 96
  const HALF_MAX_SIZE_T: nat := 0x7FFF_FFFF_FFFF_FFFF

  /** (x + (n - 1)) & ~(n - 1) in 64 bits, for n a power of two. */
  function AlignUp(x: uint64, n: nat): uint64
    requires n == 16 || n == 64 || n == 4096
  {
    var y := (x + n - 1) % TWO64;
    y - y % n
  }

  function GranularityAlign(x: uint64): uint64 { AlignUp(x, 64) }
  function PageAlign(x: uint64): uint64 { AlignUp(x, 4096) }

  /** Add in 64 bits. */
  function Add64(x: uint64, y: nat): uint64 { (x + y) % TWO64 }

  lemma AlignUpExact(x: uint64, n: nat)
    requires (n == 16 || n == 64 || n == 4096) && x + n - 1 < TWO64
    ensures AlignUp(x, n) % n == 0 && x <= AlignUp(x, n) < x + n
  {
    var y := x + n - 1;
    ModSmall(y, TWO64);
    RoundDown(y, n);
  }

  /** The wraparound check: asize > nb only if nothing wrapped. */
  lemma NoWrap(nb: uint64)
    ensures var asize := GranularityAlign(Add64(nb, SYS_ALLOC_PADDING));
            if nb + 96 + 63 < TWO64 then nb + 96 <= asize < nb + 96 + 64 && asize % 64 == 0
            else asize <= nb
  {
    if nb + 96 + 63 < TWO64 {
      ModSmall(nb + 96, TWO64);
      AlignUpExact(nb + 96, 64);
    } else {
      var x: int := Add64(nb, 96);
      if nb + 96 < TWO64 {
        ModSmall(nb + 96, TWO64);
        ModOver(x + 63, TWO64);
      } else {
        ModOver(nb + 96, TWO64);
        ModSmall(x + 63, TWO64);
      }
    }
  }

  // ------------------------------------------------------------ the top grows

  /** The state after init_top(top, topsize + e). */
  ghost predicate Grown(s: State, s': State, e: nat) {
    && s.top in s.h
    && s' == s.(mem := s'.mem, end := s.end + e, topsize := s.topsize + e,
    h := s.h[s.top := s.h[s.top].(size := s.topsize + e)])
    && s'.mem == s.mem[s.top + 8 := Or(s.topsize + e, 1)][s.end + e + 8 := TOP_FOOT_SIZE]
  }

  lemma GrownTagged(s: State, s': State, e: nat)
    requires Ground(s) && Roles(s) && Coalesced(s.h) && Tagged(s.mem, s.h, s.top) && s.top != 0 && Grown(s, s', e)
             && e % 16 == 0
    ensures Tagged(s'.mem, s'.h, s'.top)
  {
    hide Tiled, MinSized, Or, Encode, Ground, Roles, Coalesced, HeadOk, FootOk;
    forall p | p in s'.h
      ensures HeadOk(s'.mem, s'.h, p) && FootOk(s'.mem, s'.h, s'.top, p)
    {
      if p != s.top {
        assert HeadOk(s.mem, s.h, p) && FootOk(s.mem, s.h, s.top, p);
        GrownOther(s, s', e, p);
      } else {
        GrownTop(s, s', e);
      }
    }
  }

  lemma GrownTop(s: State, s': State, e: nat)
    requires Ground(s) && Roles(s) && Coalesced(s.h) && s.top != 0 && Grown(s, s', e) && e % 16 == 0
    ensures HeadOk(s'.mem, s'.h, s.top) && FootOk(s'.mem, s'.h, s'.top, s.top)
  {
    hide Tiled, MinSized, Or, Encode, Elsewhere;
    TopLast(s);
    assert (s.topsize + e) % 16 == 0;
    OrFlags(s.topsize + e);
    EncodeFlags(s.topsize + e);
  }

  lemma GrownOther(s: State, s': State, e: nat, p: int)
    requires Ground(s) && Roles(s) && s.top != 0 && Grown(s, s', e) && p in s.h && p != s.top
    requires HeadOk(s.mem, s.h, p) && FootOk(s.mem, s.h, s.top, p)
    ensures HeadOk(s'.mem, s'.h, p) && FootOk(s'.mem, s'.h, s'.top, p)
  {
    hide Tiled, MinSized, Or, Encode, Elsewhere;
    InEnd(s, p);
    NotLast(s, p);
    TopLast(s);
  }

  lemma GrownBooks(s: State, s': State, e: nat)
    requires Books(s) && Coalesced(s.h) && s.top != 0 && Grown(s, s', e) && e % 16 == 0
    requires Elsewhere(s.gm, s.base, s.end + e) && s.end + e < TWO64
    ensures Books(s') && Coalesced(s'.h) && Blocks(s'.h) == Blocks(s.h) && Payloads(s.mem, s'.mem, s.h)
  {
    hide Tiled, Tagged, Shelved, Or, Blocks, Payloads;
    TopLast(s);
    GrowTiled(s.h, s.base, s.end, s.top, e);
    GrownTagged(s, s', e);
    assert Roles(s');
    assert FreeSet(s'.h) == FreeSet(s.h);
    assert Binned(s') == Binned(s);
    forall p | p in s.h && p != s.top
      ensures SameOn(s.mem, s'.mem, p + 16, p + s.h[p].size + 8)
    {
      GrownKeeps(s, s', e, p);
    }
    GrownShelves(s, s', e);
    GrownBlocks(s, s', e);
  }

  lemma GrownKeeps(s: State, s': State, e: nat, p: int)
    requires Ground(s) && Roles(s) && s.top != 0 && Grown(s, s', e) && p in s.h && p != s.top
    ensures SameOn(s.mem, s'.mem, p + 16, p + s.h[p].size + 8)
  {
    hide Or;
    NotLast(s, p);
    TopLast(s);
  }

  lemma GrownShelves(s: State, s': State, e: nat)
    requires Books(s) && s.top != 0 && Grown(s, s', e) && Ground(s') && Tagged(s'.mem, s'.h, s'.top) && Roles(s')
    requires Binned(s') == Binned(s) && Elsewhere(s.gm, s.base, s.end + e)
    requires forall p :: p in s.h && p != s.top ==> SameOn(s.mem, s'.mem, p + 16, p + s.h[p].size + 8)
    ensures Books(s')
  {
    hide Tagged, Shelved, Or;
    TopLast(s);
    forall p | p in Binned(s) ensures ChunkKept(s, s', p) {
      assert SameOn(s.mem, s'.mem, p + 16, p + s.h[p].size + 8);
    }
    assert s.base <= s.top by { assert Fits(s.h, s.base, s.end, s.top); }
    assert SameOn(s.mem, s'.mem, s.gm + 88, s.gm + 600);
    BooksFrame(s, s');
  }

  lemma GrownBlocks(s: State, s': State, e: nat)
    requires Roles(s) && s.top != 0 && Grown(s, s', e)
    requires forall p :: p in s.h && p != s.top ==> SameOn(s.mem, s'.mem, p + 16, p + s.h[p].size + 8)
    ensures Blocks(s'.h) == Blocks(s.h) && Payloads(s.mem, s'.mem, s.h)
  {
    hide Or, SameOn;
  }

  // ------------------------------------------------------- the first segment

  lemma EmptyBins(s: State)
    requires Shelved(s) && s.h == map[]
    ensures |s.rings| == NSMALLBINS && Shapes(s.treebins, s.trees)
    ensures SmallChunks(s.rings) == {} && LargeChunks(s.trees) == {}
    ensures forall i :: 0 <= i < NSMALLBINS ==> s.rings[i] == []
  {
    hide SmallsOk, TreesOk;
    ShelvedSmalls(s);
    forall i | 0 <= i < NSMALLBINS ensures s.rings[i] == [] {
      if s.rings[i] != [] { SmallMember(s, i, s.rings[i][0]); }
    }
  }

  lemma EmptySmalls(m: Memory, m': Memory, gm: int, smallmap: uint32, rings: seq<seq<int>>)
    requires SmallsOk(m, gm, smallmap, rings) && forall i :: 0 <= i < NSMALLBINS ==> rings[i] == []
    ensures SmallsOk(m', gm, smallmap, rings)
  {
    hide Marked, Ring;
    forall i: nat | i < NSMALLBINS
      ensures SmallBinOk(m', gm, smallmap, rings, i)
    {
      assert SmallBinOk(m, gm, smallmap, rings, i);
    }
  }

  /** The state after init_bins and init_top(tbase, tsize - TOP_FOOT_SIZE). */
  ghost predicate Started(s: State, s': State, tsize: nat) {
    && s.top == 0 && tsize > TOP_FOOT_SIZE
    && s' == s.(mem := s'.mem, end := s.base + tsize - TOP_FOOT_SIZE, top := s.base, topsize := tsize - TOP_FOOT_SIZE,
                h := map[s.base := Chunk(tsize - TOP_FOOT_SIZE, false, true)])
    && Word(s'.mem, s.base + 8) == Or(tsize - TOP_FOOT_SIZE, 1)
  }

  lemma StartedBooks(s: State, s': State, tsize: nat)
    requires Books(s) && s.loose == {} && Started(s, s', tsize) && tsize % 16 == 0 && s.dvsize == 0
    requires Elsewhere(s.gm, s.base, s'.end) && s'.end < TWO64
    ensures Books(s') && Coalesced(s'.h) && Blocks(s'.h) == Blocks(s.h) && Payloads(s.mem, s'.mem, s.h)
  {
    hide SmallsOk, TreesOk, SmallChunks, LargeChunks, Or, Encode;
    EmptyBins(s);
    EmptySmalls(s.mem, s'.mem, s.gm, s.smallmap, s.rings);
    TreesFrame(s.mem, s'.mem, s.h, s'.h, s.gm, s.treebins, s.treemap, s.trees);
    StartedTiled(s, s', tsize);
    assert Roles(s');
    assert RingsSized(s'.h, s'.rings);
    assert FreeSet(s'.h) == {s.base};
    assert Binned(s') == {};
  }

  lemma StartedTiled(s: State, s': State, tsize: nat)
    requires Books(s) && Started(s, s', tsize) && tsize % 16 == 0 && Elsewhere(s.gm, s.base, s'.end) && s'.end < TWO64
    ensures Ground(s') && Tagged(s'.mem, s'.h, s'.top)
  {
    hide Shelved, Or, Encode;
    var h', n := s'.h, tsize - TOP_FOOT_SIZE;
    OrFlags(n);
    EncodeFlags(n);
    assert Fits(h', s.base, s'.end, s.base) && NextOk(h', s'.end, s.base);
    assert Tiled(h', s.base, s'.end);
    assert HeadOk(s'.mem, h', s.base);
  }

  // ------------------------------------------------------- request sizes

  /** The next multiple of 64, unbounded. */
  ghost function Up64(x: int): int {
    x + 63 - (x + 63) % 64
  }

  lemma AlignIsUp64(x: uint64)
    ensures x + 63 < TWO64 ==> GranularityAlign(x) == Up64(x)
    ensures x + 63 >= TWO64 ==> GranularityAlign(x) == 0 && Up64(x) >= TWO64
  {
    if x + 63 >= TWO64 { ModOver(x + 63, TWO64); } else { ModSmall(x + 63, TWO64); }
  }

  lemma Up64Mono(x: int, y: int)
    requires x <= y
    ensures Up64(x) <= Up64(y) && Up64(x) % 16 == 0 && Up64(x) % 64 == 0 && x <= Up64(x) < x + 64
  {
    Blocks64(x + 63);
    Blocks64(y + 63);
    InOrder(x + 63, y + 63);
    Multiple16((x + 63) / 64);
  }

  lemma Blocks64(z: int)
    ensures z - z % 64 == 64 * (z / 64) && 0 <= z % 64 < 64
  {
  }

  lemma InOrder(z: int, w: int)
    requires z <= w
    ensures z / 64 <= w / 64
  {
  }

  lemma Multiple16(k: int)
    ensures 64 * k % 64 == 0 && 64 * k % 16 == 0
  {
    assert 64 * k == 16 * (4 * k);
  }

  /** How far it is to a page boundary. */
  function Gap(base: nat): nat { (4096 - base % 4096) % 4096 }

  /** The gap to the next page boundary, also where the boundary wraps. */
  lemma PageGap(base: uint64)
    requires base % 16 == 0
    ensures Sub64(PageAlign(base), base) == Gap(base) < 4096 && Gap(base) % 16 == 0 && (base + Gap(base)) % 4096 == 0
  {
    hide AlignUp;
    GapIs(base);
    if base + 4095 < TWO64 {
      AlignUpExact(base, 4096);
      OneMultiple(AlignUp(base, 4096), base + Gap(base), base);
      Multiples(AlignUp(base, 4096), base);
    } else {
      WrappedUp(base);
      OneMultiple(TWO64, base + Gap(base), base);
      assert (TWO64 - base) % 16 == 0;
    }
  }

  lemma GapIs(base: nat)
    ensures Gap(base) < 4096 && (base + Gap(base)) % 4096 == 0
  {
    var r := base % 4096;
    if r != 0 {
      assert Gap(base) == 4096 - r;
      assert base + Gap(base) == 4096 * (base / 4096 + 1);
    }
  }

  lemma OneMultiple(x: nat, y: nat, base: nat)
    requires x % 4096 == 0 && y % 4096 == 0 && base <= x < base + 4096 && base <= y < base + 4096
    ensures x == y
  {
  }

  /** A request behind the gap ends on a page exactly if it is whole pages. */
  lemma EndsAt(base: uint64, asize: nat)
    requires base % 16 == 0
    ensures (base + (asize + Gap(base))) % 4096 == asize % 4096
  {
    hide Gap;
    PageGap(base);
    var q, r := (base + Gap(base)) / 4096, asize / 4096;
    assert base + (asize + Gap(base)) == (q + r) * 4096 + asize % 4096;
    ModUnique(base + (asize + Gap(base)), 4096, q + r, asize % 4096);
  }

  lemma Multiples(x: nat, y: nat)
    requires x % 4096 == 0 && y % 16 == 0 && y <= x
    ensures (x - y) % 16 == 0
  {
  }

  lemma WrappedUp(base: uint64)
    requires base + 4095 >= TWO64
    ensures AlignUp(base, 4096) == 0
  {
    var y := base + 4095 - TWO64;
    ModOver(base + 4095, TWO64);
    ModSmall(y, 4096);
  }

  lemma Sixteenth(a: nat, b: nat)
    requires a % 64 == 0 && b % 16 == 0
    ensures (a + b) % 16 == 0
  {
    var q, r := a / 64, b / 16;
    assert a + b == (4 * q + r) * 16 + 0;
    ModUnique(a + b, 16, 4 * q + r, 0);
  }

  predicate IsPageAligned(x: uint64) { x % 4096 == 0 }

  lemma PageBase(base: uint64)
    ensures IsPageAligned(base) ==> Gap(base) == 0
  {
  }

  /** The first request is longer by the gap to the next page boundary, unless
      that wraps. */
  lemma FirstSize(nb: uint64, asize: uint64, base: uint64)
    requires base % 16 == 0 && asize % 64 == 0 && nb + 96 <= asize < nb + 160
    ensures var ssize := Add64(asize, Sub64(PageAlign(base), base));
            if asize + Gap(base) < TWO64 then ssize == asize + Gap(base) && ssize % 16 == 0 else ssize <= nb
  {
    hide PageAlign, Sub64, Gap;
    PageGap(base);
    var g := Gap(base);
    if asize + g >= TWO64 {
      ModOver(asize + g, TWO64);
    } else {
      ModSmall(asize + g, TWO64);
      Sixteenth(asize, g);
    }
  }

  /** align_offset */
  function AlignOffset(a: int): int {
    if a % 16 == 0 then 0 else (16 - a % 16) % 16
  }

  /** Only small bin headers have changed. */
  ghost predicate HeadersOnly(m: Memory, m': Memory, gm: int) {
    forall w :: !(gm + 88 <= w < gm + 600) ==> Word(m', w) == Word(m, w)
  }

  /** Every small bin is a ring of its header alone. */
  ghost predicate SelfLinked(m: Memory, gm: int) {
    forall i: nat :: i < NSMALLBINS ==> Ring(m, [SmallHeader(gm, i)])
  }

  lemma SelfLinkedFrame(m: Memory, m': Memory, gm: int)
    requires SelfLinked(m, gm) && SameOn(m, m', gm + 88, gm + 600)
    ensures SelfLinked(m', gm)
  {
    forall i: nat | i < NSMALLBINS ensures Ring(m', [SmallHeader(gm, i)]) {
      assert Ring(m, [SmallHeader(gm, i)]) && Linked(m, [SmallHeader(gm, i)], 0);
      assert Linked(m', [SmallHeader(gm, i)], 0);
    }
  }

  /** Blocks that were there before the heap grew. */
  lemma AllocatedFrom(s0: State, s1: State, s2: State, r: int, nb: nat)
    requires Blocks(s1.h) == Blocks(s0.h) && Payloads(s0.mem, s1.mem, s0.h) && Allocated(s1, s2, r, nb)
    ensures Allocated(s0, s2, r, nb)
  {
    hide Books, Coalesced, SameOn;
    forall q | q in s0.h && s0.h[q].used
      ensures SameOn(s0.mem, s2.mem, q + 16, q + s0.h[q].size + 8)
    {
      assert q in Blocks(s0.h) && Blocks(s1.h)[q] == Blocks(s0.h)[q];
      SameTrans(s0.mem, s1.mem, s2.mem, q + 16, q + s0.h[q].size + 8);
    }
  }

  // ---------------------------------------------------- sizes of requests

  const MIN_CHUNK_SIZE: nat := 32
  const MIN_REQUEST: nat := 23
  const MAX_SMALL_REQUEST: nat := 232
  const MAX_REQUEST: nat := TWO64 - 128

  /** pad_request in 64 bits. */
  function PadRequest(req: uint64): uint64 {
    var y := (req + 8 + 15) % TWO64;
    y - y % 16
  }

  /** request2size */
  function Request2Size(req: uint64): uint64 {
    if req < MIN_REQUEST then MIN_CHUNK_SIZE else PadRequest(req)
  }

  /** A padded request holds the request and a head word, is aligned, and is
      small exactly for small requests. */
  lemma Padded(bytes: uint64)
    requires bytes < MAX_REQUEST
    ensures var nb := Request2Size(bytes);
            && nb % 16 == 0 && 32 <= nb && bytes + 8 <= nb && (nb == 32 || nb < bytes + 24)
            && (bytes <= MAX_SMALL_REQUEST ==> nb <= 240) && (bytes > MAX_SMALL_REQUEST ==> nb >= 0x100)
  {
    var y := bytes + 23;
    assert y % TWO64 == y;
    assert (y - y % 16) % 16 == 0;
  }

  // ---------------------------------------------------------- calloc's size

  /** The request of calloc: the product, or the largest size on overflow. */
  function CallocRequest(n: uint64, elem: uint64): uint64 {
    if n == 0 then 0
    else
      var req := n * elem % TWO64;
      if (n >= 0x1_0000 || elem >= 0x1_0000) && req / n != elem then TWO64 - 1 else req
  }

  /** The product as a natural number. */
  function Product(n: nat, elem: nat): (p: nat)
    ensures p == n * elem
  {
    MulNonNeg(n, elem);
    n * elem
  }

  lemma MulNonNeg(a: nat, b: nat)
    ensures 0 <= a * b
  {
  }

  /** The overflow test is exact. */
  lemma CallocExact(n: uint64, elem: uint64)
    ensures CallocRequest(n, elem) == if Product(n, elem) < TWO64 then Product(n, elem) else TWO64 - 1
  {
    if n < 0x1_0000 && elem < 0x1_0000 {
      SmallProduct(n, elem);
    } else if n > 0 {
      var p := n * elem;
      if p < TWO64 {
        assert p == elem * n + 0;
        ModUnique(p, n, elem, 0);
      } else {
        var req := p % TWO64;
        QuotientBound(req, n);
        assert req < p;
      }
    }
  }

  lemma SmallProduct(n: nat, e: nat)
    requires n < 0x1_0000 && e < 0x1_0000
    ensures n * e < 0x1_0000_0000
  {
    MulLessEq(n, e, 0x1_0000);
    assert n * 0x1_0000 < 0x1_0000 * 0x1_0000;
  }

  lemma QuotientBound(r: nat, n: nat)
    requires n > 0
    ensures n * (r / n) <= r
  {
  }

  // ---------------------------------------------------- the state at start

  /** The zeroed state: no segment, no bins in use. */
  ghost predicate Blank(s: State) {
    && s.h == map[] && s.loose == {} && s.top == 0 && s.topsize == 0 && s.dv == 0 && s.dvsize == 0
    && s.smallmap == 0 && s.treemap == 0 && s.base == s.end && 0 < s.base && s.base % 16 == 0 && s.base < TWO64
    && |s.rings| == NSMALLBINS && (forall i :: 0 <= i < NSMALLBINS ==> s.rings[i] == [])
    && Shapes(s.treebins, s.trees) && (forall i :: 0 <= i < NTREEBINS ==> s.trees[i].Nil? && s.treebins[i] == 0)
    && Elsewhere(s.gm, s.base, s.end)
  }

  lemma BlankBooks(s: State)
    requires Blank(s)
    ensures Books(s) && Coalesced(s.h) && Blocks(s.h) == map[]
  {
    hide Marked;
    forall i: nat | i < NSMALLBINS ensures SmallBinOk(s.mem, s.gm, s.smallmap, s.rings, i) { NoMarks(i); }
    forall i: nat | i < NTREEBINS ensures TreeBinOk(s.mem, s.h, s.gm, s.treebins, s.treemap, s.trees, i) {
      NoMarks(i);
      BlankTree(s, i);
    }
    assert SmallChunks(s.rings) == {};
    assert LargeChunks(s.trees) == {};
    assert Binned(s) == {};
    assert RingsSized(s.h, s.rings);
    assert Tiled(s.h, s.base, s.end);
  }

  lemma BlankTree(s: State, i: nat)
    requires Blank(s) && i < NTREEBINS
    ensures BinAt(s.mem, s.h, s.trees[i], TreeSlot(s.gm, i), i) && OfBin(s.h, s.trees[i], i) && Nodes(s.trees[i]) == {}
  {
    hide BinLow, BinBits;
  }

  // ------------------------------------------------------ initializing memory

  /** init_bins: every small bin header points to itself. */
  method InitBins(m0: Memory, gm: int) returns (m: Memory)
    ensures HeadersOnly(m0, m, gm) && SelfLinked(m, gm)
  {
    m := m0;
    for i := 0 to NSMALLBINS
      invariant HeadersOnly(m0, m, gm)
      invariant forall j: nat :: j < i ==> Word(m, SmallHeader(gm, j) + 16) == SmallHeader(gm, j) == Word(m,
                SmallHeader(gm, j) + 24)
    {
      var bin := SmallHeader(gm, i);
      m := m[bin + 24 := bin];
      m := m[bin + 16 := bin];
    }
    forall i: nat | i < NSMALLBINS ensures Ring(m, [SmallHeader(gm, i)]) {
      assert Linked(m, [SmallHeader(gm, i)], 0);
    }
  }

  /** init_top: the top chunk begins at the first aligned address. */
  method InitTop(m0: Memory, p: int, psize: nat) returns (m: Memory, top: int, topsize: nat)
    requires psize >= AlignOffset(p + 16)
    ensures p <= top < p + 16 && top % 16 == 0 && top + topsize == p + psize
    ensures m == m0[top + 8 := Or(topsize, 1)][top + topsize + 8 := TOP_FOOT_SIZE]
  {
    hide Or;
    var offset := AlignOffset(p + 16);
    top := p + offset;
    topsize := psize - offset;
    m := m0[top + 8 := Or(topsize, 1)];
    m := m[top + topsize + 8 := TOP_FOOT_SIZE];
  }
}
