/** The header macros (components/common/dlmalloc/malloc.c, lines 2282 to 2298
    and 3057 to 3071) as functions on memory, and what they leave in the tags
    of the chunks they are used on. */
module Macros {
  import opened Bits
  import opened Rings
  import opened Tiling
  import opened Tags
  import opened HeapState
  import opened Retag
  import opened Steps

  function SetInuse(m: Memory, p: int, s: nat): Memory {
    var m1 := m[p + 8 := Or(Or(Word(m, p + 8) % 2, s), 2)];
    m1[p + s + 8 := SetPinuse(Word(m1, p + s + 8))]
  }

  function SetInuseAndPinuse(m: Memory, p: int, s: nat): Memory {
    var m1 := m[p + 8 := Or(Or(s, 1), 2)];
    m1[p + s + 8 := SetPinuse(Word(m1, p + s + 8))]
  }

  function SetSizeAndPinuseOfInuse(m: Memory, p: int, s: nat): Memory {
    m[p + 8 := Or(Or(s, 1), 2)]
  }

  function SetSizeAndPinuseOfFree(m: Memory, p: int, s: nat): Memory {
    m[p + 8 := Or(s, 1)][p + s := s]
  }

  function SetFreeWithPinuse(m: Memory, p: int, s: nat, n: int): Memory {
    SetSizeAndPinuseOfFree(m[n + 8 := ClearPinuse(Word(m, n + 8))], p, s)
  }

  /** Or-ing flag bits into an aligned size. */
  lemma OrFlags(s: nat)
    requires s % 16 == 0
    ensures Or(s, 1) == s + 1 && Or(Or(s, 1), 2) == s + 3
    ensures Or(Or(0, s), 2) == s + 2 && Or(Or(1, s), 2) == s + 3
  {
    hide Or;
    var q := s / 16;
    assert s == 4 * (4 * q);
    FlagsOver(4 * q);
  }

  lemma FlagsOver(c: nat)
    ensures Or(4 * c, 1) == 4 * c + 1 && Or(4 * c + 1, 2) == 4 * c + 3 && Or(4 * c, 2) == 4 * c + 2
    ensures Or(0, 4 * c) == 4 * c && Or(1, 4 * c) == 4 * c + 1
  {
    hide Or;
    HalvesOf(2 * c);
    HalvesOf(c);
    HalvesOf(0);
    HalvesOf(1);
    OrStep(4 * c, 1);
    OrStep(4 * c + 1, 2);
    OrStep(4 * c, 2);
    OrStep(0, 4 * c);
    OrStep(1, 4 * c);
    OrStep(2 * c, 0);
    OrStep(2 * c, 1);
    OrStep(0, 2 * c);
    OrStep(0, 1);
    OrStep(0, 0);
    OrZero(2 * c);
    OrZero(c);
  }

  lemma {:induction false} OrZero(x: nat)
    ensures Or(x, 0) == x
  {
    hide Or;
    OrStep(x, 0);
    if x > 0 {
      Parity(x);
      OrZero(x / 2);
    }
  }

  /** set_inuse_and_pinuse on a whole free chunk. */
  lemma TakeWritten(s: State, s': State, p: int)
    requires Books(s) && Coalesced(s.h) && p in s.h && !s.h[p].used && p != s.top
    requires s'.mem == SetInuseAndPinuse(s.mem, p, s.h[p].size)
    ensures FuseWritten(s, s', p, s.h[p].size, true)
  {
    hide Shelved, Tagged, Tiled, Encode, Or, SetPinuse;
    var n := s.h[p].size;
    AroundFree(s, p);
    ReadHead(s, p + n);
    OrFlags(n);
    EncodeFlags(n);
  }

  lemma EncodeFlags(n: nat)
    ensures Encode(Chunk(n, true, true)) == n + 3 && Encode(Chunk(n, false, true)) == n + 1
    ensures Encode(Chunk(n, true, false)) == n + 2
  {
  }

  /** The heads and the foot of a split chunk. */
  lemma SplitWritten(s: State, s': State, p: int, k: nat)
    requires Books(s) && Coalesced(s.h) && p in s.h && !s.h[p].used && p != s.top
    requires 0 < k < s.h[p].size && k % 16 == 0
    requires var r, rsize := p + k, s.h[p].size - k;
             s'.mem == SetSizeAndPinuseOfFree(SetSizeAndPinuseOfInuse(s.mem, p, k), r, rsize)
             || s'.mem == SetSizeAndPinuseOfInuse(SetSizeAndPinuseOfFree(s.mem, r, rsize), p, k)
    ensures CarveWritten(s, s', p, s.h[p].size, k, false)
  {
    hide Shelved, Tagged, Tiled, Encode, Or, SetPinuse;
    var n := s.h[p].size;
    AroundFree(s, p);
    ReadHead(s, p + n);
    OrFlags(k);
    OrFlags(n - k);
    EncodeFlags(k);
    EncodeFlags(n - k);
    assert s.h[p + n] == s.h[p + n].(prevUsed := false);
  }

  /** The heads of a split top chunk, which has no foot. */
  lemma SplitTopWritten(s: State, s': State, k: nat)
    requires Books(s) && Coalesced(s.h) && s.top != 0 && 0 < k < s.topsize && k % 16 == 0 && s'.top == s.top + k
    requires s'.mem == SetSizeAndPinuseOfInuse(s.mem[s.top + k + 8 := Or(s.topsize - k, 1)], s.top, k)
    ensures CarveWritten(s, s', s.top, s.topsize, k, false)
  {
    hide Shelved, Tagged, Encode, Or, SetPinuse;
    TopLast(s);
    OrFlags(k);
    OrFlags(s.topsize - k);
    EncodeFlags(k);
    EncodeFlags(s.topsize - k);
  }

  lemma TopLast(s: State)
    requires Ground(s) && Roles(s) && s.top != 0
    ensures s.topsize % 16 == 0 && s.topsize >= 16 && s.top + s.topsize == s.end && s.end !in s.h && s.top > 0
  {
    assert Fits(s.h, s.base, s.end, s.top);
    forall q | q in s.h ensures q < s.end { InEnd(s, q); }
  }
}
