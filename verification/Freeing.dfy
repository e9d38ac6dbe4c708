/** Consolidating a freed chunk with its free neighbours
    (components/common/dlmalloc/malloc.c, lines 4369 to 4435 and 4707 to 4790). */
module Freeing {
  import opened Bits
  import opened Rings
  import opened Tiling
  import opened Tags
  import opened HeapState
  import opened Shelves
  import opened Retag
  import opened Steps
  import opened Macros

  /** The books after p is gone: all other blocks keep sizes and contents. */
  ghost predicate Freed(s: State, s': State, p: int) {
    && Books(s') && Coalesced(s'.h)
    && Blocks(s'.h) == Blocks(s.h) - {p} && PayloadsBut(s.mem, s'.mem, s.h, p)
  }

  lemma FreedBefore(s0: State, s1: State, s2: State, p: int)
    requires Books(s0) && SameLayout(s0, s1) && Freed(s1, s2, p)
    ensures Freed(s0, s2, p)
  {
    hide Ground, Tagged, Roles, Shelved, Quiet, SameOn, Blocks;
    QuietPayloads(s0, s1.mem);
    forall q | q in s0.h && s0.h[q].used && q != p
      ensures SameOn(s0.mem, s2.mem, q + 16, q + s0.h[q].size + 8)
    {
      SameTrans(s0.mem, s1.mem, s2.mem, q + 16, q + s0.h[q].size + 8);
    }
  }

  lemma FreedAfter(s0: State, s1: State, s2: State, p: int)
    requires Freed(s0, s1, p) && SameLayout(s1, s2)
    ensures Freed(s0, s2, p)
  {
    hide Ground, Tagged, Roles, Shelved, Quiet, SameOn;
    QuietPayloads(s1, s2.mem);
    forall q | q in s0.h && s0.h[q].used && q != p
      ensures SameOn(s0.mem, s2.mem, q + 16, q + s0.h[q].size + 8)
    {
      assert q in Blocks(s0.h) - {p} && Blocks(s1.h)[q] == Blocks(s0.h)[q];
      SameTrans(s0.mem, s1.mem, s2.mem, q + 16, q + s0.h[q].size + 8);
    }
  }

  /** p is in use, and a is p or the free, unbinned chunk right before it. */
  ghost predicate Merging(s: State, p: int, a: int, n: nat) {
    && Books(s) && Coalesced(s.h) && p in s.h && s.h[p].used && a in s.h && s.h[a].prevUsed
    && a + n == p + s.h[p].size && s.loose <= {a, a + n}
    && (a == p || (!s.h[a].used && a + s.h[a].size == p && a in Special(s) && a != s.top))
  }

  lemma MergingRun(s: State, p: int, a: int, n: nat)
    requires Merging(s, p, a, n)
    ensures Span(s.h, s.end, a, n) && Cleared(s, a, n) && OnlyUsed(s.h, a, n, p) && InRun(a, n, p) && InRun(a, n, a)
    ensures a > 0 && n >= 32 && n % 16 == 0 && a + n in s.h && s.h[a + n].prevUsed
    ensures !InRun(a, n, s.top) && (InRun(a, n, s.dv) ==> s.dv == a)
    ensures p != s.top
  {
    hide Tagged, Shelved;
    NotLast(s, p);
    if a != p { NotLast(s, a); }
    forall q | q in s.h && InRun(a, n, q) ensures q == a || q == p {
      if q < p { Single(s, a, q); } else { Single(s, p, q); }
    }
    PositiveChunk(s, a);
    if s.top != 0 { assert s.top in s.h; }
  }

  /** The run and the free, unbinned chunk r after it. */
  lemma MergingNext(s: State, p: int, a: int, n: nat)
    requires Merging(s, p, a, n) && a + n in s.h && !s.h[a + n].used && a + n in Special(s)
    ensures var m := n + s.h[a + n].size;
            && Span(s.h, s.end, a, m) && Cleared(s, a, m) && OnlyUsed(s.h, a, m, p) && InRun(a, m, p)
            && InRun(a, m, a + n)
            && a > 0 && m >= 32 && m % 16 == 0
            && (a + n != s.top ==> a + m in s.h && s.h[a + m].used && !s.h[a + m].prevUsed)
            && (a + n == s.top ==> a + m == s.end && a + m !in s.h)
            && (InRun(a, m, s.top) ==> s.top == a + n) && (InRun(a, m, s.dv) ==> s.dv == a || s.dv == a + n)
  {
    hide Tagged, Shelved;
    MergingRun(s, p, a, n);
    var r := a + n;
    var m := n + s.h[r].size;
    if r != s.top { AroundFree(s, r); } else { TopLast(s); }
    forall q | q in s.h && InRun(a, m, q) ensures q == r || InRun(a, n, q) {
      if q >= r { Single(s, r, q); }
    }
  }

  // ------------------------------------------- the tags each ending writes

  lemma WrittenFree(s: State, s': State, p: int, a: int, n: nat)
    requires Merging(s, p, a, n) && s'.top == s.top && a + n in s.h && s'.mem == SetFreeWithPinuse(s.mem, a, n, a + n)
    ensures FuseWritten(s, s', a, n, false)
  {
    hide Tagged, Shelved, Encode, Or, ClearPinuse, Special;
    MergingRun(s, p, a, n);
    ReadHead(s, a + n);
    OrFlags(n);
    EncodeFlags(n);
  }

  lemma WrittenMerged(s: State, s': State, p: int, a: int, n: nat)
    requires Merging(s, p, a, n) && s'.top == s.top && a + n in s.h && !s.h[a + n].used && a + n in Special(s)
             && a + n != s.top
    requires s'.mem == SetSizeAndPinuseOfFree(s.mem, a, n + s.h[a + n].size)
    ensures FuseWritten(s, s', a, n + s.h[a + n].size, false)
  {
    hide Merging, Books, Special, Span, Cleared, OnlyUsed, InRun, FuseWritten, SetSizeAndPinuseOfFree, ChunkSize,
      SetPinuse, ClearPinuse;
    MergingNext(s, p, a, n);
    MergingHead(s, p, a, n);
    BookHead(s, a + (n + s.h[a + n].size));
    FreeTags(s, s', a, n + s.h[a + n].size);
  }

  lemma MergingHead(s: State, p: int, a: int, n: nat)
    requires Merging(s, p, a, n)
    ensures a in s.h && s.h[a].prevUsed && Books(s)
  {
  }

  lemma BookHead(s: State, p: int)
    requires Books(s) && p in s.h
    ensures Word(s.mem, p + 8) == Encode(s.h[p])
  {
    hide Shelved, Tagged, Roles;
    ReadHead(s, p);
  }

  /** set_size_and_pinuse_of_free_chunk, before a chunk that knows it is free. */
  lemma FreeTags(s: State, s': State, a: int, m: nat)
    requires a in s.h && s.h[a].prevUsed && 32 <= m && m % 16 == 0 && a + m in s.h && !s.h[a + m].prevUsed
    requires Word(s.mem, a + m + 8) == Encode(s.h[a + m]) && s'.mem == SetSizeAndPinuseOfFree(s.mem, a, m)
    ensures FuseWritten(s, s', a, m, false)
  {
    hide Encode, Or;
    OrFlags(m);
    EncodeFlags(m);
    assert s.h[a + m] == s.h[a + m].(prevUsed := false);
  }

  lemma WrittenTop(s: State, s': State, p: int, a: int, n: nat)
    requires Merging(s, p, a, n) && a + n == s.top && s'.top == a && s'.mem == s.mem[a + 8 := Or(s.topsize + n, 1)]
    ensures FuseWritten(s, s', a, s.topsize + n, false)
  {
    hide Tagged, Shelved, Encode, Or, Special;
    MergingRun(s, p, a, n);
    TopLast(s);
    OrFlags(s.topsize + n);
    EncodeFlags(s.topsize + n);
  }

  // --------------------------------------------------------- the endings

  /** a takes the victim's place if the victim was merged, else it is loose. */
  ghost predicate Settles(s: State, s': State, a: int, n: nat, victim: bool) {
    && s'.top == s.top && s'.topsize == s.topsize
    && (if victim then s'.loose == {} && s'.dv == a && s'.dvsize == n
        else s'.loose == {a} && s'.dv == s.dv && s'.dvsize == s.dvsize)
  }

  /** The chunk after is in use. */
  lemma EndFree(s: State, s': State, p: int, a: int, n: nat)
    requires Merging(s, p, a, n) && a + n in s.h && s.h[a + n].used
    requires Relaid(s, s', Fuse(s.h, a, n, false)) && s'.mem == SetFreeWithPinuse(s.mem, a, n, a + n)
    requires Settles(s, s', a, n, a == s.dv)
    ensures Freed(s, s', p) && a in s'.h && s'.h[a].size == n
  {
    hide Books, Coalesced, Fuse, Special, SetFreeWithPinuse, FuseWritten, Cleared, OnlyUsed;
    MergingRun(s, p, a, n);
    WrittenFree(s, s', p, a, n);
    NotLoose(s, a + n);
    BecomesWhole(s, s', a, n, n);
    Release(s, s', a, n, p);
    FuseAt(s.h, a, n, false);
  }

  lemma BecomesWhole(s: State, s': State, a: int, n: nat, m: nat)
    requires s.loose <= {a, a + n} && InRun(a, m, a) && (a + n in s.loose ==> InRun(a, m, a + n)) && !InRun(a, m, s.top)
    requires Settles(s, s', a, m, InRun(a, m, s.dv))
    ensures Becomes(s, s', a, m)
  {
  }

  lemma NotLoose(s: State, q: int)
    requires Books(s) && q in s.h && s.h[q].used
    ensures q !in s.loose
  {
    hide Tagged, Shelved, Ground;
  }

  lemma FuseAt(h: Layout, a: int, n: nat, used: bool)
    requires a in h && n > 0
    ensures a in Fuse(h, a, n, used) && Fuse(h, a, n, used)[a].size == n
  {
  }

  /** The chunk after is free and neither the top nor in a bin. */
  lemma EndMerged(s: State, s': State, p: int, a: int, n: nat)
    requires Merging(s, p, a, n) && a + n in s.h && !s.h[a + n].used && a + n in Special(s) && a + n != s.top
    requires Relaid(s, s', Fuse(s.h, a, n + s.h[a + n].size, false))
             && s'.mem == SetSizeAndPinuseOfFree(s.mem, a, n + s.h[a + n].size)
    requires Settles(s, s', a, n + s.h[a + n].size, a == s.dv || a + n == s.dv)
    ensures Freed(s, s', p) && a in s'.h && s'.h[a].size == n + s.h[a + n].size
  {
    hide Books, Coalesced, Fuse, Special, SetSizeAndPinuseOfFree, FuseWritten, Cleared, OnlyUsed;
    var m := n + s.h[a + n].size;
    MergingNext(s, p, a, n);
    WrittenMerged(s, s', p, a, n);
    BecomesWhole(s, s', a, n, m);
    Release(s, s', a, m, p);
    FuseAt(s.h, a, m, false);
  }

  /** The chunk after is the top. */
  lemma EndTop(s: State, s': State, p: int, a: int, n: nat)
    requires Merging(s, p, a, n) && a + n == s.top && s.loose <= {a}
    requires Relaid(s, s', Fuse(s.h, a, s.topsize + n, false)) && s'.mem == s.mem[a + 8 := Or(s.topsize + n, 1)]
    requires s'.top == a && s'.topsize == s.topsize + n && s'.loose == {}
    requires if a == s.dv then s'.dv == 0 && s'.dvsize == 0 else s'.dv == s.dv && s'.dvsize == s.dvsize
    ensures Freed(s, s', p)
  {
    hide Coalesced, Fuse, Special, FuseWritten, Cleared, OnlyUsed, Ground, Tagged, Shelved, Or;
    MergingRun(s, p, a, n);
    TopSpecial(s);
    MergingNext(s, p, a, n);
    WrittenTop(s, s', p, a, n);
    assert Becomes(s, s', a, s.topsize + n);
    Release(s, s', a, s.topsize + n, p);
  }

  lemma TopSpecial(s: State)
    ensures s.top in Special(s)
  {
  }

  // ------------------------------------------------------- starting a merge

  lemma MergeAlone(s: State, p: int)
    requires Books(s) && Coalesced(s.h) && s.loose == {} && p in s.h && s.h[p].used && s.h[p].prevUsed
    ensures Merging(s, p, p, s.h[p].size)
  {
    hide Ground, Tagged, Shelved, Roles, Coalesced;
  }

  /** The free chunk before p: a binned chunk or the designated victim. */
  lemma BeforeFreed(s: State, p: int)
    requires Books(s) && Coalesced(s.h) && s.loose == {} && p in s.h && s.h[p].used && !s.h[p].prevUsed
    ensures var a := p - Word(s.mem, p);
            && s.base <= a && a in s.h && !s.h[a].used && s.h[a].prevUsed && s.h[a].size == Word(s.mem, p) && a != s.top
            && (if a == s.dv then Merging(s, p, a, Word(s.mem, p) + s.h[p].size) && s.dvsize == Word(s.mem, p)
                else a in Binned(s))
            && Word(s.mem, p) >= 32
  {
    hide Ground, Tagged, Shelved;
    ReadFoot(s, p);
    BasePositive(s);
  }

  lemma MergeUnlinked(s: State, s': State, p: int, a: int)
    requires Books(s) && Coalesced(s.h) && s.loose == {} && p in s.h && s.h[p].used && SameLayout(s, s')
             && s'.loose == {a}
    requires a in s.h && !s.h[a].used && s.h[a].prevUsed && a + s.h[a].size == p && a != s.top
    ensures Merging(s', p, a, s.h[a].size + s.h[p].size)
  {
    hide Ground, Tagged, Shelved, Roles, Coalesced, Quiet;
  }

  /** What the word of the following head says. */
  lemma NextHead(s: State, p: int, a: int, n: nat)
    requires Merging(s, p, a, n)
    ensures a + n in s.h && a < a + n && s.base <= a + n
    ensures var w := Word(s.mem, a + n + 8);
            Cinuse(w) == s.h[a + n].used && Pinuse(w) && ChunkSize(w) == s.h[a + n].size
    ensures s.loose <= {a} && !s.h[a + n].used && a + n != s.top && a + n != s.dv ==> a + n in Binned(s)
  {
    hide Tagged, Shelved, Cinuse, Pinuse, ChunkSize;
    MergingRun(s, p, a, n);
    ReadHead(s, a + n);
    assert Fits(s.h, s.base, s.end, a + n);
    if s.loose <= {a} && !s.h[a + n].used && a + n != s.top && a + n != s.dv {
      assert a + n in FreeSet(s.h) && a + n !in s.loose;
    }
  }

  lemma MergingFacts(s: State, p: int, a: int, n: nat)
    requires Merging(s, p, a, n)
    ensures a in s.h && p in s.h && a > 0 && n > 0 && s.top != 0 && a + n in s.h && s.top in s.h && a != s.top
    ensures a + n == s.top ==> s.h[s.top].size == s.topsize
    ensures Books(s) && (s.h[a].used ==> s.dv != a)
  {
    hide Tagged, Shelved, Ground;
    MergingRun(s, p, a, n);
    TopInLayout(s, p);
  }

  lemma TopInLayout(s: State, p: int)
    requires Books(s) && p in s.h
    ensures s.top != 0 && s.top in s.h
  {
    hide Tagged, Shelved, Ground;
  }

  lemma VictimNext(s: State, p: int, a: int, n: nat)
    requires Merging(s, p, a, n) && a + n == s.dv
    ensures a + n in s.h && !s.h[a + n].used && s.h[a + n].size == s.dvsize && a + n in Special(s) && a + n != s.top
  {
    hide Tagged, Shelved, Ground;
    MergingRun(s, p, a, n);
  }

  lemma BinnedFacts(s: State, q: int)
    requires q in Binned(s)
    ensures q in s.h && !s.h[q].used && q != s.top && q != s.dv && q !in s.loose
  {
  }

  lemma StillMerging(s: State, s': State, p: int, a: int, n: nat)
    requires Merging(s, p, a, n) && SameLayout(s, s') && s'.loose == s.loose + {a + n} && s'.dv == s.dv
    ensures Merging(s', p, a, n) && a + n in Special(s')
  {
    hide Ground, Tagged, Shelved, Roles, Coalesced, Quiet;
  }

  lemma FreedBooks(s: State, s': State, p: int)
    requires Freed(s, s', p)
    ensures Books(s')
  {
  }

  lemma UsedHead(s: State, p: int)
    requires Books(s) && p in s.h && s.h[p].used
    ensures var w := Word(s.mem, p + 8);
            Pinuse(w) == s.h[p].prevUsed && Cinuse(w) && ChunkSize(w) == s.h[p].size
    ensures s.top != 0
  {
    hide Shelved, Pinuse, Cinuse, ChunkSize, Tagged, Ground;
    ReadHead(s, p);
  }

  lemma VictimLayout(s: State)
    requires Books(s)
    ensures SameLayout(s, s)
  {
    hide Books, Quiet;
    QuietRefl(s);
  }
}
