/** What a client may do with its block, and moving a block to another place
    (components/common/dlmalloc/malloc.c, lines 5191 to 5234). */
module Moving {
  import opened Rings
  import opened Tiling
  import opened Tags
  import opened HeapState
  import opened Retag
  import opened Steps
  import opened Freeing
  import opened Resizing
  import opened Bytes

  /** Only the payload of block q has changed. */
  ghost predicate ClientWrote(s: State, s': State, q: int) {
    && q in s.h && s.h[q].used && s' == s.(mem := s'.mem)
    && forall w :: !(q + 16 <= w < q + s.h[q].size + 8) ==> Word(s'.mem, w) == Word(s.mem, w)
  }

  lemma ClientTagged(s: State, s': State, q: int)
    requires Ground(s) && Roles(s) && Tagged(s.mem, s.h, s.top) && ClientWrote(s, s', q)
    ensures Tagged(s'.mem, s'.h, s'.top)
  {
    forall p | p in s.h
      ensures HeadOk(s'.mem, s.h, p) && FootOk(s'.mem, s.h, s.top, p)
    {
      assert HeadOk(s.mem, s.h, p) && FootOk(s.mem, s.h, s.top, p);
      assert Fits(s.h, s.base, s.end, p) && Fits(s.h, s.base, s.end, q);
      if p != q { Separate(s.h, s.base, s.end, p, q); }
    }
  }

  lemma ClientOthers(s: State, s': State, q: int, p: int)
    requires Ground(s) && ClientWrote(s, s', q) && p in s.h && p != q
    ensures SameOn(s.mem, s'.mem, p + 16, p + s.h[p].size + 8)
  {
    assert Fits(s.h, s.base, s.end, p) && Fits(s.h, s.base, s.end, q);
    Separate(s.h, s.base, s.end, p, q);
  }

  /** Whatever clients write into their own blocks, the books are kept and no
      other block changes. */
  lemma ClientBooks(s: State, s': State, q: int)
    requires Books(s) && ClientWrote(s, s', q)
    ensures Books(s') && PayloadsBut(s.mem, s'.mem, s.h, q)
  {
    hide Shelved, Tagged, Tiled;
    ClientTagged(s, s', q);
    forall p | p in s.h && p != q
      ensures SameOn(s.mem, s'.mem, p + 16, p + s.h[p].size + 8)
    {
      ClientOthers(s, s', q, p);
    }
    assert Binned(s') == Binned(s);
    forall p | p in Binned(s) ensures ChunkKept(s, s', p) {
      assert SameOn(s.mem, s'.mem, p + 16, p + s.h[p].size + 8);
    }
    ClientHeaders(s, s', q);
    BooksFrame(s, s');
  }

  lemma ClientHeaders(s: State, s': State, q: int)
    requires Ground(s) && ClientWrote(s, s', q)
    ensures SameOn(s.mem, s'.mem, s.gm + 88, s.gm + 600)
  {
    assert Fits(s.h, s.base, s.end, q);
  }

  /** The block at p is now at p' with n bytes; its first k bytes are the same,
      and so is every other block. */
  ghost predicate Moved(s: State, s': State, p: int, p': int, n: nat, k: nat) {
    && Books(s') && Coalesced(s'.h) && p in Blocks(s.h) && (p' == p || p' !in Blocks(s.h))
    && Blocks(s'.h) == (Blocks(s.h) - {p})[p' := n] && PayloadsBut(s.mem, s'.mem, s.h, p)
    && Copied(s.mem, p + 16, s'.mem, p' + 16, k)
  }

  /** The bytes from q on are those from r on, as many as were usable and are
      asked for. */
  ghost predicate Kept(m: Memory, r: int, m': Memory, q: int, usable: int, bytes: int) {
    forall a :: q <= a < q + bytes && a < q + usable ==> Byte(m', a) == Byte(m, r + a - q)
  }

  lemma MovedKept(s: State, s': State, p: int, p': int, n: nat, usable: nat, bytes: nat)
    requires Moved(s, s', p, p', n, Min(usable, bytes))
    ensures Kept(s.mem, p + 16, s'.mem, p' + 16, usable, bytes)
  {
    hide Books, Coalesced, Blocks, PayloadsBut, Byte;
  }

  lemma MovedInPlace(s: State, s': State, p: int, n: nat, k: nat)
    requires Resized(s, s', p, n) && p % 16 == 0 && k + 8 <= Min(Blocks(s.h)[p], n)
    ensures Moved(s, s', p, p, n, k)
  {
    hide Books, Coalesced, Copied, SameOn;
    SameBytes(s.mem, s'.mem, p + 16, p + Min(Blocks(s.h)[p], n) + 8, k);
    assert (Blocks(s.h) - {p})[p := n] == Blocks(s.h)[p := n];
  }

  /** A block of before is a block with the same size after malloc. */
  lemma StillBlock(s0: State, s1: State, p': int, n: nat, q: int)
    requires NewBlock(s0, s1, p', n) && q in s0.h && s0.h[q].used
    ensures q in s1.h && s1.h[q].used && s1.h[q].size == s0.h[q].size && q != p' && q in Blocks(s0.h)
            && Blocks(s0.h)[q] == s0.h[q].size
  {
    hide Books, Coalesced, Payloads;
    assert q in Blocks(s0.h) && Blocks(s1.h)[q] == Blocks(s0.h)[q];
  }

  lemma MovedPayloads(s0: State, s1: State, s2: State, s3: State, p: int, p': int, n: nat)
    requires NewBlock(s0, s1, p', n) && ClientWrote(s1, s2, p') && Freed(s2, s3, p)
    ensures PayloadsBut(s0.mem, s3.mem, s0.h, p)
  {
    hide Coalesced, SameOn, Tagged, Shelved, Roles, Ground, Blocks;
    forall q | q in s0.h && s0.h[q].used && q != p
      ensures SameOn(s0.mem, s3.mem, q + 16, q + s0.h[q].size + 8)
    {
      StillBlock(s0, s1, p', n, q);
      ClientOthers(s1, s2, p', q);
      SameTrans(s0.mem, s1.mem, s2.mem, q + 16, q + s0.h[q].size + 8);
      SameTrans(s0.mem, s2.mem, s3.mem, q + 16, q + s0.h[q].size + 8);
    }
  }

  lemma MovedBytes(s0: State, s1: State, s2: State, s3: State, p: int, p': int, n: nat, k: nat)
    requires p in s0.h && s0.h[p].used && NewBlock(s0, s1, p', n) && ClientWrote(s1, s2, p') && Freed(s2, s3, p)
    requires (p + 16) % 8 == 0 && (p' + 16) % 8 == 0 && k + 8 <= s0.h[p].size && k + 8 <= n
             && Copied(s1.mem, p + 16, s2.mem, p' + 16, k)
    ensures Copied(s0.mem, p + 16, s3.mem, p' + 16, k)
  {
    hide Books, Coalesced, SameOn, Copied, Blocks;
    StillBlock(s0, s1, p', n, p);
    NewAt(s0, s1, p', n);
    assert SameOn(s2.mem, s3.mem, p' + 16, p' + n + 8);
    SameBytes(s2.mem, s3.mem, p' + 16, p' + n + 8, k);
    SameBytes(s0.mem, s1.mem, p + 16, p + s0.h[p].size + 8, k);
    CopiedTrans(s0.mem, p + 16, s1.mem, p + 16, s2.mem, p' + 16, k);
    CopiedTrans(s0.mem, p + 16, s2.mem, p' + 16, s3.mem, p' + 16, k);
  }

  lemma NewAt(s: State, s': State, p: int, n: nat)
    requires NewBlock(s, s', p, n)
    ensures p in s'.h && s'.h[p].used && s'.h[p].size == n
  {
    hide Books, Coalesced, Payloads;
    assert p in Blocks(s'.h) && Blocks(s'.h)[p] == n;
  }

  lemma Aligned8(p: int)
    requires p % 16 == 0
    ensures (p + 16) % 8 == 0
  {
    var q := p / 16;
    assert p + 16 == 8 * (2 * q + 2);
    Eights(2 * q + 2);
  }

  lemma Eights(q: int)
    ensures (8 * q) % 8 == 0
  {
  }

  /** malloc, memcpy and free in turn. */
  lemma MovedAway(s0: State, s1: State, s2: State, s3: State, p: int, p': int, n: nat, k: nat)
    requires p in Blocks(s0.h) && NewBlock(s0, s1, p', n) && ClientWrote(s1, s2, p') && Freed(s2, s3, p)
    requires p % 16 == 0 && p' % 16 == 0 && k + 8 <= Blocks(s0.h)[p] && k + 8 <= n
             && Copied(s1.mem, p + 16, s2.mem, p' + 16, k)
    ensures Moved(s0, s3, p, p', n, k)
  {
    hide Books, Coalesced, Copied, PayloadsBut, Payloads;
    MovedPayloads(s0, s1, s2, s3, p, p', n);
    Aligned8(p);
    Aligned8(p');
    MovedBytes(s0, s1, s2, s3, p, p', n, k);
    assert Blocks(s3.h) == (Blocks(s0.h) - {p})[p' := n];
  }
}
