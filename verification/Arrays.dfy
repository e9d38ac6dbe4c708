/** What a heap is for: a map from pointers to independent arrays of words.
    Each step of the allocator is a step on that map. */
module Arrays {
  import opened Rings
  import opened Tags
  import opened HeapState
  import opened Steps
  import opened Freeing
  import opened Bytes
  import opened Moving

  type Store = map<int, seq<int>>

  /** How many words a block of n bytes holds: all but one for the head. */
  function Length(n: nat): nat { if n < 8 then 0 else n / 8 - 1 }

  /** The usable words of a block of n bytes at p. */
  ghost function Contents(m: Memory, p: int, n: nat): seq<int> {
    seq(Length(n), i requires 0 <= i => Word(m, p + 16 + 8 * i))
  }

  /** The blocks of the heap as arrays, by chunk address. */
  ghost function ArraysOf(s: State): Store {
    map q | q in s.h && s.h[q].used :: Contents(s.mem, q, s.h[q].size)
  }

  lemma SameContents(m: Memory, m': Memory, p: int, n: nat)
    requires SameOn(m, m', p + 16, p + n + 8)
    ensures Contents(m', p, n) == Contents(m, p, n)
  {
    forall i | 0 <= i < |Contents(m, p, n)|
      ensures Contents(m', p, n)[i] == Contents(m, p, n)[i]
    {
    }
  }

  /** malloc adds one array and leaves the others. */
  lemma MallocArrays(s: State, s': State, p: int, n: nat)
    requires NewBlock(s, s', p, n)
    ensures p !in ArraysOf(s) && ArraysOf(s') == ArraysOf(s)[p := Contents(s'.mem, p, n)]
  {
    hide Books, Coalesced, Contents, SameOn;
    forall q ensures q in ArraysOf(s') <==> q == p || q in ArraysOf(s) { InBlocks(s, q); InBlocks(s', q); }
    InBlocks(s, p);
    InBlocks(s', p);
    forall q | q in ArraysOf(s) ensures ArraysOf(s')[q] == ArraysOf(s)[q] {
      InBlocks(s, q);
      InBlocks(s', q);
      SameContents(s.mem, s'.mem, q, s.h[q].size);
    }
  }

  lemma InBlocks(s: State, q: int)
    ensures q in ArraysOf(s) <==> q in Blocks(s.h)
    ensures q in Blocks(s.h) ==> q in s.h && s.h[q].used && Blocks(s.h)[q] == s.h[q].size
  {
  }

  /** free removes one array and leaves the others. */
  lemma FreeArrays(s: State, s': State, p: int)
    requires Freed(s, s', p)
    ensures ArraysOf(s') == ArraysOf(s) - {p}
  {
    hide Books, Coalesced, Contents, SameOn;
    forall q ensures q in ArraysOf(s') <==> q != p && q in ArraysOf(s) { InBlocks(s, q); InBlocks(s', q); }
    forall q | q in ArraysOf(s) && q != p ensures ArraysOf(s')[q] == ArraysOf(s)[q] {
      InBlocks(s, q);
      InBlocks(s', q);
      SameContents(s.mem, s'.mem, q, s.h[q].size);
    }
  }

  lemma WriteContents(m: Memory, p: int, n: nat, i: nat, v: int)
    requires i < Length(n)
    ensures Contents(m[p + 16 + 8 * i := v], p, n) == Contents(m, p, n)[i := v]
  {
    hide Length;
    var c, c' := Contents(m, p, n), Contents(m[p + 16 + 8 * i := v], p, n);
    forall j | 0 <= j < |c| ensures c'[j] == c[i := v][j] {
    }
  }

  lemma WordInside(p: int, n: nat, i: nat)
    requires i < Length(n)
    ensures p + 16 <= p + 16 + 8 * i < p + n + 8
  {
  }

  /** A client's write changes one entry of its own array. */
  lemma WriteArrays(s: State, s': State, p: int, i: nat, v: int)
    requires Books(s) && p in ArraysOf(s) && i < |ArraysOf(s)[p]| && s' == s.(mem := s.mem[p + 16 + 8 * i := v])
    ensures Books(s') && ArraysOf(s') == ArraysOf(s)[p := ArraysOf(s)[p][i := v]]
  {
    hide Books, Contents, Length;
    Lengths(s, p);
    WordInside(p, s.h[p].size, i);
    assert ClientWrote(s, s', p);
    ClientBooks(s, s', p);
    forall q | q in ArraysOf(s) && q != p ensures ArraysOf(s')[q] == ArraysOf(s)[q] {
      SameContents(s.mem, s'.mem, q, s.h[q].size);
    }
    WriteContents(s.mem, p, s.h[p].size, i, v);
  }

  lemma Lengths(s: State, p: int)
    requires p in ArraysOf(s)
    ensures p in s.h && s.h[p].used && |ArraysOf(s)[p]| == Length(s.h[p].size)
  {
  }

  /** Byte j of an array of words. */
  ghost function ByteAt(a: seq<int>, j: nat): int
    requires j / 8 < |a|
  {
    Digit(a[j / 8], j % 8)
  }

  /** The first k bytes of both arrays are the same. */
  ghost predicate SamePrefix(a: seq<int>, b: seq<int>, k: nat) {
    forall j: nat :: j < k ==> j / 8 < |a| && j / 8 < |b| && ByteAt(a, j) == ByteAt(b, j)
  }

  lemma ByteOfContents(m: Memory, p: int, n: nat, j: nat)
    requires (p + 16) % 8 == 0 && j + 8 < n && n % 16 == 0
    ensures j / 8 < Length(n) && ByteAt(Contents(m, p, n), j) == Byte(m, p + 16 + j)
  {
    hide Digit;
    EighthOf(p + 16, j);
  }

  lemma EighthOf(a: int, j: nat)
    requires a % 8 == 0
    ensures (a + j) % 8 == j % 8 && a + j - (a + j) % 8 == a + 8 * (j / 8)
  {
  }

  /** realloc replaces one array by one with the same first bytes, and leaves
      the others. */
  lemma MoveArrays(s: State, s': State, p: int, p': int, n: nat, k: nat)
    requires Moved(s, s', p, p', n, k)
    requires (p + 16) % 8 == 0 && (p' + 16) % 8 == 0 && k + 8 <= n && k + 8 <= Blocks(s.h)[p] && n % 16 == 0
             && Blocks(s.h)[p] % 16 == 0
    ensures p in ArraysOf(s) && p' in ArraysOf(s') && ArraysOf(s') == (ArraysOf(s) - {p})[p' := ArraysOf(s')[p']]
    ensures SamePrefix(ArraysOf(s)[p], ArraysOf(s')[p'], k) && |ArraysOf(s')[p']| == Length(n)
  {
    hide Books, Coalesced, Contents, SameOn, Length, SamePrefix, Copied;
    forall q ensures q in ArraysOf(s') <==> q == p' || (q in ArraysOf(s) && q != p) { InBlocks(s, q); InBlocks(s', q); }
    InBlocks(s, p);
    InBlocks(s', p');
    Lengths(s', p');
    forall q | q in ArraysOf(s) && q != p && q != p' ensures ArraysOf(s')[q] == ArraysOf(s)[q] {
      InBlocks(s, q);
      InBlocks(s', q);
      SameContents(s.mem, s'.mem, q, s.h[q].size);
    }
    MovePrefix(s.mem, s'.mem, p, p', s.h[p].size, n, k);
  }

  lemma MovePrefix(m: Memory, m': Memory, p: int, p': int, n: nat, n': nat, k: nat)
    requires Copied(m, p + 16, m', p' + 16, k) && (p + 16) % 8 == 0 && (p' + 16) % 8 == 0
    requires k + 8 <= n && k + 8 <= n' && n % 16 == 0 && n' % 16 == 0
    ensures SamePrefix(Contents(m, p, n), Contents(m', p', n'), k)
  {
    hide Contents, ByteAt, Byte, Length;
    forall j: nat | j < k
      ensures j / 8 < |Contents(m, p, n)| && j / 8 < |Contents(m', p', n')|
              && ByteAt(Contents(m, p, n), j) == ByteAt(Contents(m', p', n'), j)
    {
      ContentsLength(m, p, n);
      ContentsLength(m', p', n');
      ByteOfContents(m, p, n, j);
      ByteOfContents(m', p', n', j);
      assert Byte(m', p' + 16 + j) == Byte(m, p + 16 + (p' + 16 + j) - (p' + 16));
    }
  }

  /** The first k bytes of the array are zero. */
  ghost predicate ZeroPrefix(a: seq<int>, k: nat) {
    forall j: nat :: j < k ==> j / 8 < |a| && ByteAt(a, j) == 0
  }

  lemma ZeroContents(m: Memory, p: int, n: nat, k: nat)
    requires Filled(m, p + 16, k, 0) && (p + 16) % 8 == 0 && k + 8 <= n && n % 16 == 0
    ensures ZeroPrefix(Contents(m, p, n), k)
  {
    hide Contents, ByteAt, Byte, Length;
    forall j: nat | j < k
      ensures j / 8 < |Contents(m, p, n)| && ByteAt(Contents(m, p, n), j) == 0
    {
      ContentsLength(m, p, n);
      ByteOfContents(m, p, n, j);
      assert Byte(m, p + 16 + j) == 0;
    }
  }

  lemma ContentsLength(m: Memory, p: int, n: nat)
    ensures |Contents(m, p, n)| == Length(n)
  {
  }
}
