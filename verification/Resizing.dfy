/** Stretch, shrinking and splitting a block in place
    (components/common/dlmalloc/malloc.c, lines 4817 to 4968). */
module Resizing {
  import opened Bits
  import opened Rings
  import opened Tiling
  import opened Tags
  import opened HeapState
  import opened Retag
  import opened Steps
  import opened Macros
  import opened Freeing

  function Min(a: int, b: int): (m: int)
    ensures m <= a && m <= b && (m == a || m == b)
  {
    if a < b then a else b
  }

  /** Block p now has n bytes and keeps what fits of its contents; all other
      blocks are untouched. */
  ghost predicate Resized(s: State, s': State, p: int, n: nat) {
    && Books(s') && Coalesced(s'.h) && p in Blocks(s.h)
    && Blocks(s'.h) == Blocks(s.h)[p := n] && PayloadsBut(s.mem, s'.mem, s.h, p)
    && SameOn(s.mem, s'.mem, p + 16, p + Min(Blocks(s.h)[p], n) + 8)
  }

  /** Block p has nb bytes, or gets them together with the free chunk after it. */
  ghost predicate Extensible(s: State, p: int, nb: nat) {
    p in s.h &&
    var size, q := s.h[p].size, p + s.h[p].size;
    nb <= size
    || (q in s.h && !s.h[q].used && if q == s.top then nb < size + s.h[q].size else nb <= size + s.h[q].size)
  }

  /** The block p and the free, unbinned chunk after it, if n is larger. */
  ghost predicate Stretch(s: State, p: int, n: nat) {
    && Books(s) && Coalesced(s.h) && p in s.h && s.h[p].used
    && (n == s.h[p].size
        || (var q := p + s.h[p].size; q in s.h && !s.h[q].used && q in Special(s) && n == s.h[p].size + s.h[q].size))
  }

  lemma StretchRun(s: State, p: int, n: nat)
    requires Stretch(s, p, n)
    ensures Span(s.h, s.end, p, n) && Cleared(s, p, n) && OnlyUsed(s.h, p, n, p) && InRun(p, n, p)
    ensures p > 0 && n >= 32 && n % 16 == 0 && p != s.top && s.h[p].size <= n
    ensures var q := p + s.h[p].size;
            && (InRun(p, n, s.top) ==> s.top == q && n > s.h[p].size && p + n == s.end && p + n !in s.h)
            && (InRun(p, n, s.dv) ==> s.dv == q && n > s.h[p].size)
            && (!InRun(p, n, s.top) ==> p + n in s.h && (n > s.h[p].size ==> s.h[p + n].used && !s.h[p + n].prevUsed))
            && (n == s.h[p].size ==> p + n in s.h && s.h[p + n].prevUsed)
            && (n > s.h[p].size ==> InRun(p, n, q))
  {
    hide Tagged, Shelved;
    NotLast(s, p);
    var q := p + s.h[p].size;
    PositiveChunk(s, p);
    if n > s.h[p].size {
      InEnd(s, q);
      if q != s.top { AroundFree(s, q); } else { TopLast(s); }
    }
    forall x | x in s.h && InRun(p, n, x) ensures x == p || (x == q && n > s.h[p].size) {
      if x < q { Single(s, p, x); } else { Single(s, q, x); }
    }
  }

  /** The run becomes one block. */
  lemma Widen(s: State, s': State, p: int, n: nat)
    requires Stretch(s, p, n) && n > s.h[p].size && !InRun(p, n, s.top) && s.loose <= {p + s.h[p].size}
    requires Relaid(s, s', Fuse(s.h, p, n, true)) && FuseWritten(s, s', p, n, true)
    requires s'.loose == {} && s'.top == s.top && s'.topsize == s.topsize
    requires if InRun(p, n, s.dv) then s'.dv == 0 && s'.dvsize == 0 else s'.dv == s.dv && s'.dvsize == s.dvsize
    ensures Resized(s, s', p, n)
  {
    hide Shelved, Tagged, Tiled, Blocks, PayloadsBut;
    StretchRun(s, p, n);
    WidenRoles(s, s', p, n);
    FuseBooks(s, s', p, n, true);
    FuseCoalesced(s.h, s.base, s.end, p, n, true);
    FuseBlocks(s.h, p, n, true, p);
    RunPayloads(s, s', p, n, p);
    BlockAt(s.h, p, n);
    SpanAligned(s.h, s.base, s.end, p, n);
    NotLast(s, p);
  }

  lemma BlockAt(h: Layout, p: int, n: nat)
    requires p in h && h[p].used
    ensures p in Blocks(h) && Blocks(h)[p] == h[p].size && (Blocks(h) - {p})[p := n] == Blocks(h)[p := n]
  {
  }

  lemma WidenRoles(s: State, s': State, p: int, n: nat)
    requires Ground(s) && Roles(s) && p in s.h && s.h[p].used && n >= 32 && p != s.top && !InRun(p, n, s.top)
             && s.loose <= {p + s.h[p].size}
    requires Relaid(s, s', Fuse(s.h, p, n, true)) && InRun(p, n, p + s.h[p].size)
    requires s'.loose == {} && s'.top == s.top && s'.topsize == s.topsize
    requires if InRun(p, n, s.dv) then s'.dv == 0 && s'.dvsize == 0 else s'.dv == s.dv && s'.dvsize == s.dvsize
    ensures Roles(s') && MinSized(s'.h, s'.top) && TopMoves(s, s', p, n, p) && SameSpecial(s, s', p, n)
  {
    hide Tiled;
    forall q | q in s.h ensures q > 0 { PositiveChunk(s, q); }
  }

  /** The rest p + k of the run is a block of its own, the top or the
      designated victim. */
  ghost predicate RestRole(s: State, s': State, p: int, n: nat, k: nat, used: bool) {
    && s'.loose == {}
    && (if used then
          && !InRun(p, n, s.top) && !InRun(p, n, s.dv) && n - k >= 32
          && s'.dv == s.dv && s'.dvsize == s.dvsize && s'.top == s.top && s'.topsize == s.topsize
        else if InRun(p, n, s.top) then
          s'.top == p + k && s'.topsize == n - k && s'.dv == s.dv && s'.dvsize == s.dvsize
        else
          && InRun(p, n, s.dv) && n - k >= 32
          && s'.dv == p + k && s'.dvsize == n - k && s'.top == s.top && s'.topsize == s.topsize)
  }

  /** The run becomes a block of k bytes and a rest. */
  lemma Recut(s: State, s': State, p: int, n: nat, k: nat, used: bool)
    requires Stretch(s, p, n) && 32 <= k < n && k % 16 == 0 && s.loose <= {p + s.h[p].size}
             && (n == s.h[p].size ==> s.loose == {})
    requires Relaid(s, s', Carve(s.h, p, n, k, used)) && CarveWritten(s, s', p, n, k, used)
    requires RestRole(s, s', p, n, k, used)
    ensures Books(s') && Coalesced(s'.h) && PayloadsBut(s.mem, s'.mem, s.h, p)
    ensures Blocks(s'.h) == if used then Blocks(s.h)[p := k][p + k := n - k] else Blocks(s.h)[p := k]
    ensures SameOn(s.mem, s'.mem, p + 16, p + Min(s.h[p].size, k) + 8)
  {
    hide Books, Coalesced, Blocks, PayloadsBut, Stretch, RestRole, CarveWritten, Carve, TopMoves, SameSpecial, Special,
      MinSized, Roles;
    hide Span, Cleared, OnlyUsed;
    StretchBooks(s, p, n);
    StretchRun(s, p, n);
    RecutRoles(s, s', p, n, k, used);
    CarveBooks(s, s', p, n, k, used);
    RecutCoalesced(s, p, n, k, used);
    CarveBlocks(s.h, p, n, k, used, p);
    RunPayloads(s, s', p, n, p);
    BlockAt(s.h, p, k);
    RecutSame(s, s', p, n, k, used);
  }

  lemma RecutCoalesced(s: State, p: int, n: nat, k: nat, used: bool)
    requires Stretch(s, p, n) && 0 < k < n && (!used && p + n in s.h ==> s.h[p + n].used)
    ensures Coalesced(Carve(s.h, p, n, k, used))
  {
    hide Shelved, Tagged, Tiled, Roles, Carve, Special;
    StretchRun(s, p, n);
    CarveCoalesced(s.h, s.base, s.end, p, n, k, used);
  }

  /** The words the block keeps. */
  lemma RecutSame(s: State, s': State, p: int, n: nat, k: nat, used: bool)
    requires Stretch(s, p, n) && 32 <= k < n && k % 16 == 0 && CarveWritten(s, s', p, n, k, used)
    ensures SameOn(s.mem, s'.mem, p + 16, p + Min(s.h[p].size, k) + 8)
  {
    hide Shelved, Tagged, Tiled, Encode, Special;
    StretchRun(s, p, n);
    NotLast(s, p);
  }

  lemma RecutRoles(s: State, s': State, p: int, n: nat, k: nat, used: bool)
    requires Stretch(s, p, n) && 32 <= k < n && s.loose <= {p + s.h[p].size} && (n == s.h[p].size ==> s.loose == {})
    requires Relaid(s, s', Carve(s.h, p, n, k, used)) && RestRole(s, s', p, n, k, used)
    ensures Roles(s') && MinSized(s'.h, s'.top) && TopMoves(s, s', p, n, p + k) && SameSpecial(s, s', p, n)
    ensures !used ==> p + k in Special(s') && (p + n in s.h ==> s.h[p + n].used)
  {
    hide Tiled, Tagged, Shelved, Coalesced, Carve, Special;
    StretchRun(s, p, n);
    CarveIn(s.h, p, n, k, used);
    RecutVictim(s, s', p, n, k, used);
    RecutTop(s, s', p, n, k, used);
    RecutSpecial(s, s', p, n, k, used);
    CarveMinSized(s, s', p, n, k, used);
  }

  lemma CarveIn(h: Layout, p: int, n: nat, k: nat, used: bool)
    requires p in h && 0 < k < n
    ensures var h' := Carve(h, p, n, k, used);
            && p in h' && p + k in h' && h'[p] == Chunk(k, true, h[p].prevUsed) && h'[p + k] == Chunk(n - k, used, true)
            && (forall q :: q in h && !InRun(p, n, q) ==> q in h' && h'[q].size == h[q].size && h'[q].used == h[q].used)
            && (forall q :: q in h' && q != p && q != p + k ==> q in h && !InRun(p, n, q) && h'[q].size == h[q].size)
  {
  }

  lemma RecutVictim(s: State, s': State, p: int, n: nat, k: nat, used: bool)
    requires Stretch(s, p, n) && 32 <= k < n && Relaid(s, s', Carve(s.h, p, n, k, used))
             && RestRole(s, s', p, n, k, used)
    ensures s'.dv == 0 <==> s'.dvsize == 0
    ensures s'.dv != 0 ==> s'.dv in s'.h && s'.h[s'.dv] == s'.h[s'.dv].(size := s'.dvsize, used := false)
    ensures s'.dv != 0 ==> s'.dv != s'.top
  {
    hide Tiled, Tagged, Shelved, Coalesced, Carve, Special;
    StretchRun(s, p, n);
    CarveIn(s.h, p, n, k, used);
    if s.dv != 0 { NotLast(s, s.dv); }
  }

  lemma RecutTop(s: State, s': State, p: int, n: nat, k: nat, used: bool)
    requires Stretch(s, p, n) && 32 <= k < n && Relaid(s, s', Carve(s.h, p, n, k, used))
             && RestRole(s, s', p, n, k, used)
    ensures s'.top != 0 && s'.top in s'.h && s'.h[s'.top] == s'.h[s'.top].(size := s'.topsize, used := false)
    ensures s'.top + s'.topsize == s'.end && TopMoves(s, s', p, n, p + k)
  {
    hide Tiled, Tagged, Shelved, Coalesced, Carve, Special;
    StretchRun(s, p, n);
    CarveIn(s.h, p, n, k, used);
  }

  lemma RecutSpecial(s: State, s': State, p: int, n: nat, k: nat, used: bool)
    requires Stretch(s, p, n) && 32 <= k < n && s.loose <= {p + s.h[p].size} && (n == s.h[p].size ==> s.loose == {})
    requires RestRole(s, s', p, n, k, used)
    ensures SameSpecial(s, s', p, n) && (!used ==> p + k in Special(s'))
  {
    hide Tagged, Shelved, Coalesced;
    StretchRun(s, p, n);
    forall q | q in s.h ensures q > 0 { PositiveChunk(s, q); }
  }

  lemma CarveMinSized(s: State, s': State, p: int, n: nat, k: nat, used: bool)
    requires Stretch(s, p, n) && 32 <= k < n && Relaid(s, s', Carve(s.h, p, n, k, used))
             && RestRole(s, s', p, n, k, used)
    ensures MinSized(s'.h, s'.top)
  {
    hide Tiled, Tagged, Shelved, Coalesced, Carve, Special, Roles;
    StretchRun(s, p, n);
    CarveIn(s.h, p, n, k, used);
  }

  // ------------------------------------------------------ what is written

  lemma InuseHead(s: State, p: int, n: nat)
    requires Ground(s) && Tagged(s.mem, s.h, s.top) && p in s.h && n % 16 == 0
    ensures Or(Or(Word(s.mem, p + 8) % 2, n), 2) == Encode(Chunk(n, true, s.h[p].prevUsed))
  {
    hide Or;
    ReadHead(s, p);
    OrFlags(n);
    EncodeFlags(n);
    assert Word(s.mem, p + 8) % 2 == if s.h[p].prevUsed then 1 else 0;
  }

  lemma WidenWritten(s: State, s': State, p: int, n: nat)
    requires Stretch(s, p, n) && n > s.h[p].size && !InRun(p, n, s.top) && s'.mem == SetInuse(s.mem, p, n)
    ensures FuseWritten(s, s', p, n, true)
  {
    hide Shelved, Tagged, Tiled, Encode, Or, SetPinuse, Cleared, OnlyUsed;
    StretchRun(s, p, n);
    InuseHead(s, p, n);
    ReadHead(s, p + n);
  }

  lemma SplitBlockWritten(s: State, s': State, p: int, n: nat, k: nat)
    requires Stretch(s, p, n) && 32 <= k < n && k % 16 == 0 && !InRun(p, n, s.top)
    requires s'.mem == SetInuse(SetInuse(s.mem, p, k), p + k, n - k)
    ensures CarveWritten(s, s', p, n, k, true)
  {
    hide Shelved, Tagged, Tiled, Encode, Or, SetPinuse, Cleared, OnlyUsed;
    StretchRun(s, p, n);
    InuseHead(s, p, k);
    ReadHead(s, p + n);
    OrFlags(n - k);
    EncodeFlags(n - k);
    SetPinuseOdd(Word(s.mem, p + k + 8));
  }

  lemma SetPinuseOdd(w: int)
    ensures SetPinuse(w) % 2 == 1
  {
  }

  lemma IntoTopWritten(s: State, s': State, p: int, n: nat, k: nat)
    requires Stretch(s, p, n) && 32 <= k < n && k % 16 == 0 && InRun(p, n, s.top) && s'.top == p + k
    requires s'.mem == SetInuse(s.mem, p, k)[p + k + 8 := Or(n - k, 1)]
    ensures CarveWritten(s, s', p, n, k, false)
  {
    hide Shelved, Tagged, Tiled, Encode, Or, SetPinuse, Cleared, OnlyUsed;
    StretchRun(s, p, n);
    InuseHead(s, p, k);
    OrFlags(n - k);
    EncodeFlags(n - k);
  }

  lemma IntoVictimWritten(s: State, s': State, p: int, n: nat, k: nat)
    requires Stretch(s, p, n) && 32 <= k < n && k % 16 == 0 && n > s.h[p].size && !InRun(p, n, s.top)
    requires var m1 := SetSizeAndPinuseOfFree(SetInuse(s.mem, p, k), p + k, n - k);
             s'.mem == m1[p + n + 8 := ClearPinuse(Word(m1, p + n + 8))]
    ensures CarveWritten(s, s', p, n, k, false)
  {
    hide Shelved, Tagged, Tiled, Encode, Or, SetPinuse, ClearPinuse, Cleared, OnlyUsed;
    StretchRun(s, p, n);
    InuseHead(s, p, k);
    ReadHead(s, p + n);
    OrFlags(n - k);
    EncodeFlags(n - k);
  }

  // --------------------------------------------------------- composition

  /** A block split off p and then freed again leaves p resized. */
  lemma SplitThenFree(s: State, s1: State, s2: State, p: int, n: nat, k: nat)
    requires p in s.h && s.h[p].used && p + k !in Blocks(s.h) && 0 < k
    requires PayloadsBut(s.mem, s1.mem, s.h, p) && Blocks(s1.h) == Blocks(s.h)[p := k][p + k := n - k]
    requires SameOn(s.mem, s1.mem, p + 16, p + Min(s.h[p].size, k) + 8)
    requires Freed(s1, s2, p + k) && k <= n
    ensures Resized(s, s2, p, k)
  {
    hide Books, Coalesced, SameOn;
    BlockAt(s.h, p, k);
    assert Blocks(s2.h) == Blocks(s.h)[p := k];
    forall q | q in s.h && s.h[q].used && q != p
      ensures SameOn(s.mem, s2.mem, q + 16, q + s.h[q].size + 8)
    {
      assert q in Blocks(s.h) && q != p + k && Blocks(s1.h)[q] == Blocks(s.h)[q];
      SameTrans(s.mem, s1.mem, s2.mem, q + 16, q + s.h[q].size + 8);
    }
    assert p in Blocks(s1.h) && Blocks(s1.h)[p] == k;
    assert SameOn(s1.mem, s2.mem, p + 16, p + k + 8);
    SameShorter(s1.mem, s2.mem, p + 16, p + k + 8, p + Min(s.h[p].size, k) + 8);
    SameTrans(s.mem, s1.mem, s2.mem, p + 16, p + Min(s.h[p].size, k) + 8);
  }

  lemma SameShorter(m: Memory, m': Memory, lo: int, hi: int, hi': int)
    requires SameOn(m, m', lo, hi) && hi' <= hi
    ensures SameOn(m, m', lo, hi')
  {
  }

  lemma ResizedBefore(s0: State, s1: State, s2: State, p: int, n: nat)
    requires Books(s0) && SameLayout(s0, s1) && Resized(s1, s2, p, n)
    ensures Resized(s0, s2, p, n)
  {
    hide Ground, Tagged, Roles, Shelved, Quiet, SameOn;
    QuietPayloads(s0, s1.mem);
    forall q | q in s0.h && s0.h[q].used && q != p
      ensures SameOn(s0.mem, s2.mem, q + 16, q + s0.h[q].size + 8)
    {
      SameTrans(s0.mem, s1.mem, s2.mem, q + 16, q + s0.h[q].size + 8);
    }
    assert p in s0.h && s0.h[p].used;
    SameShorter(s0.mem, s1.mem, p + 16, p + s0.h[p].size + 8, p + Min(s0.h[p].size, n) + 8);
    SameTrans(s0.mem, s1.mem, s2.mem, p + 16, p + Min(s0.h[p].size, n) + 8);
  }

  lemma NoBlockInside(s: State, p: int, n: nat, k: nat)
    requires Stretch(s, p, n) && 0 < k < n
    ensures p + k !in Blocks(s.h) && p > 0 && s.top != 0
  {
    hide Books, Coalesced, Cleared;
    StretchRun(s, p, n);
    StretchBooks(s, p, n);
  }

  lemma StretchBooks(s: State, p: int, n: nat)
    requires Stretch(s, p, n)
    ensures Books(s) && Coalesced(s.h) && p in s.h && s.h[p].used && s.top != 0
  {
    hide Ground, Tagged, Shelved, Coalesced;
  }

  lemma ResizedBooks(s: State, s': State, p: int, n: nat)
    requires Resized(s, s', p, n)
    ensures Books(s') && Coalesced(s'.h)
  {
  }

  lemma SplitOff(h: Layout, p: int, n: nat, k: nat)
    requires p in h && 0 < k < n
    ensures var h' := Carve(h, p, n, k, true); p + k in h' && h'[p + k] == Chunk(n - k, true, true)
  {
  }

  // ------------------------------------------------------ giving up a lead

  lemma LeadWritten(s: State, s': State, p: int, k: nat)
    requires p in s.h && Stretch(s, p, s.h[p].size) && 32 <= k < s.h[p].size && k % 16 == 0
    requires s'.mem == SetInuse(SetInuse(s.mem, p + k, s.h[p].size - k), p, k)
    ensures CarveWritten(s, s', p, s.h[p].size, k, true)
  {
    hide Shelved, Tagged, Tiled, Encode, Or, SetPinuse, Cleared, OnlyUsed;
    var n := s.h[p].size;
    StretchRun(s, p, n);
    InuseHead(s, p, k);
    ReadHead(s, p + n);
    OrFlags(n - k);
    EncodeFlags(n - k);
    OddHead(n - k);
  }

  lemma OddHead(n: nat)
    requires n % 16 == 0
    ensures SetPinuse(n + 2) == n + 3 && SetPinuse(n + 3) == n + 3
  {
    var c := n / 16;
    assert n == 2 * (8 * c);
  }

  /** A block cut in two whose first part is freed again. */
  lemma LeadFreed(s0: State, s1: State, s2: State, s3: State, p: int, n: nat, k: nat)
    requires NewBlock(s0, s1, p, n) && 0 < k < n && p + k !in Blocks(s1.h)
    requires PayloadsBut(s1.mem, s2.mem, s1.h, p) && Blocks(s2.h) == Blocks(s1.h)[p := k][p + k := n - k]
    requires Freed(s2, s3, p)
    ensures NewBlock(s0, s3, p + k, n - k)
  {
    hide Books, Coalesced, SameOn;
    forall q | q in s0.h && s0.h[q].used
      ensures SameOn(s0.mem, s3.mem, q + 16, q + s0.h[q].size + 8)
    {
      assert q in Blocks(s0.h) && q != p && q != p + k;
      assert Blocks(s1.h)[q] == Blocks(s0.h)[q] && Blocks(s2.h)[q] == Blocks(s0.h)[q];
      SameTrans(s0.mem, s1.mem, s2.mem, q + 16, q + s0.h[q].size + 8);
      SameTrans(s0.mem, s2.mem, s3.mem, q + 16, q + s0.h[q].size + 8);
    }
    assert p + k !in Blocks(s0.h);
    assert Blocks(s3.h) == Blocks(s0.h)[p + k := n - k];
  }

  /** A new block cut shorter is a new block. */
  lemma TailFreed(s0: State, s1: State, s2: State, p: int, n: nat, k: nat)
    requires NewBlock(s0, s1, p, n) && Resized(s1, s2, p, k)
    ensures NewBlock(s0, s2, p, k)
  {
    hide Books, Coalesced, SameOn;
    forall q | q in s0.h && s0.h[q].used
      ensures SameOn(s0.mem, s2.mem, q + 16, q + s0.h[q].size + 8)
    {
      assert q in Blocks(s0.h) && q != p && Blocks(s1.h)[q] == Blocks(s0.h)[q];
      SameTrans(s0.mem, s1.mem, s2.mem, q + 16, q + s0.h[q].size + 8);
    }
    assert Blocks(s2.h) == Blocks(s0.h)[p := k];
  }
}
