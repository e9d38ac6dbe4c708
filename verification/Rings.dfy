/** Word-addressed memory and the circular doubly linked lists dlmalloc keeps
    in it: a chunk's forward link is at offset 16, its backward link at 24
    (components/common/dlmalloc/malloc.c, lines 2193 to 2198). */
module Rings {

  /** Memory holds 64-bit words at byte addresses; what was never written
      reads as zero, as in a static array. */
  type Memory = map<int, int>

  function Word(m: Memory, a: int): int {
    if a in m then m[a] else 0
  }

  /** Every word of the range [lo, hi) is the same in both memories. */
  ghost predicate SameOn(m: Memory, m': Memory, lo: int, hi: int) {
    forall a :: lo <= a < hi ==> Word(m', a) == Word(m, a)
  }

  ghost predicate NoDups(s: seq<int>) {
    forall j, k :: 0 <= j < k < |s| ==> s[j] != s[k]
  }

  function Succ(k: nat, n: nat): nat
    requires k < n
  {
    if k + 1 == n then 0 else k + 1
  }

  function Pred(k: nat, n: nat): nat
    requires k < n
  {
    if k == 0 then n - 1 else k - 1
  }

  ghost predicate Linked(m: Memory, s: seq<int>, k: nat)
    requires k < |s|
  {
    && Word(m, s[k] + 16) == s[Succ(k, |s|)]
    && Word(m, s[k] + 24) == s[Pred(k, |s|)]
  }

  /** No forward link of one node is the backward link of another. */
  ghost predicate Staggered(s: seq<int>) {
    forall j, k :: 0 <= j < |s| && 0 <= k < |s| ==> s[j] + 8 != s[k]
  }

  /** s lists a circular list in forward order. */
  ghost predicate Ring(m: Memory, s: seq<int>) {
    && NoDups(s) && Staggered(s)
    && (forall k: nat {:trigger Linked(m, s, k)} :: k < |s| ==> Linked(m, s, k))
  }

  lemma RingFrame(m: Memory, m': Memory, s: seq<int>)
    requires Ring(m, s)
    requires forall k :: 0 <= k < |s| ==> SameOn(m, m', s[k] + 16, s[k] + 32)
    ensures Ring(m', s)
  {
    forall k: nat | k < |s|
      ensures Linked(m', s, k)
    {
      assert Linked(m, s, k);
      assert SameOn(m, m', s[k] + 16, s[k] + 32);
    }
  }

  /** The four link writes that put x between b and the node f after it. */
  function Link(m: Memory, b: int, x: int, f: int): Memory {
    m[b + 16 := x][f + 24 := x][x + 16 := f][x + 24 := b]
  }

  /** What the four writes leave in the links of a node of the old ring. */
  lemma LinkWords(m: Memory, s: seq<int>, x: int, i: nat)
    requires Ring(m, s) && i < |s| && x !in s && forall k :: 0 <= k < |s| ==> x + 8 != s[k] && s[k] + 8 != x
    ensures var n := |s|; var m' := Link(m, s[0], x, Word(m, s[0] + 16));
            && Word(m', s[i] + 16) == (if i == 0 then x else s[Succ(i, n)])
            && Word(m', s[i] + 24) == (if i == Succ(0, n) then x else s[Pred(i, n)])
            && Word(m', x + 16) == s[Succ(0, n)] && Word(m', x + 24) == s[0]
  {
    var n := |s|;
    assert Linked(m, s, 0) && Linked(m, s, i);
    assert i != 0 ==> s[i] != s[0];
    assert i != Succ(0, n) ==> s[i] != s[Succ(0, n)];
    assert s[i] != x && s[0] != x && s[Succ(0, n)] != x;
    assert s[i] + 8 != s[0] && s[Succ(0, n)] + 8 != s[i] && s[0] + 8 != s[i] && s[i] + 8 != s[Succ(0, n)];
    assert s[Succ(0, n)] + 8 != s[0] && s[0] + 8 != s[Succ(0, n)];
  }

  lemma InsertLinked(m: Memory, s: seq<int>, x: int, j: nat)
    requires Ring(m, s) && s != [] && j <= |s| && x !in s && forall k :: 0 <= k < |s| ==> x + 8 != s[k] && s[k] + 8 != x
    ensures Linked(Link(m, s[0], x, Word(m, s[0] + 16)), [s[0], x] + s[1..], j)
  {
    hide Ring, Link, Word;
    var s', n := [s[0], x] + s[1..], |s|;
    LinkWords(m, s, x, if j <= 1 then 0 else j - 1);
    assert forall h :: 2 <= h <= n ==> s'[h] == s[h - 1];
  }

  lemma RingInsert(m: Memory, s: seq<int>, x: int)
    requires Ring(m, s) && s != [] && x !in s && forall k :: 0 <= k < |s| ==> x + 8 != s[k] && s[k] + 8 != x
    ensures Ring(Link(m, s[0], x, Word(m, s[0] + 16)), [s[0], x] + s[1..])
  {
    var m', s' := Link(m, s[0], x, Word(m, s[0] + 16)), [s[0], x] + s[1..];
    assert NoDups(s') && Staggered(s');
    hide Link, NoDups, Staggered;
    forall j: nat {:trigger Linked(m', s', j)} | j < |s'|
      ensures Linked(m', s', j)
    {
      InsertLinked(m, s, x, j);
    }
  }

  function Without(s: seq<int>, k: nat): seq<int>
    requires k < |s|
  {
    s[..k] + s[k + 1..]
  }

  /** The two link writes that take a node with neighbours f and b out. */
  function Unlink(m: Memory, f: int, b: int): Memory {
    m[f + 24 := b][b + 16 := f]
  }

  /** What the two writes leave in the links of a remaining node. */
  lemma UnlinkWords(m: Memory, s: seq<int>, k: nat, i: nat)
    requires Ring(m, s) && k < |s| && i < |s| && i != k
    ensures var n := |s|; var m' := Unlink(m, Word(m, s[k] + 16), Word(m, s[k] + 24));
            && Word(m', s[i] + 16) == s[if i == Pred(k, n) then Succ(k, n) else Succ(i, n)]
            && Word(m', s[i] + 24) == s[if i == Succ(k, n) then Pred(k, n) else Pred(i, n)]
  {
    var n := |s|;
    assert Linked(m, s, k) && Linked(m, s, i);
    assert s[i] + 8 != s[Succ(k, n)] && s[Pred(k, n)] + 8 != s[i] && s[Succ(k, n)] + 8 != s[Pred(k, n)];
    assert s[i] + 8 != s[Pred(k, n)] && s[Succ(k, n)] + 8 != s[i] && s[Pred(k, n)] + 8 != s[Succ(k, n)];
    assert i != Pred(k, n) ==> s[i] != s[Pred(k, n)];
    assert i != Succ(k, n) ==> s[i] != s[Succ(k, n)];
  }

  /** The neighbours of a node in the shorter sequence. */
  lemma WithoutNeighbours(s: seq<int>, k: nat, j: nat)
    requires k < |s| && j < |s| - 1
    ensures var n := |s|; var s' := Without(s, k); var i := if j < k then j else j + 1;
            && s'[j] == s[i]
            && s'[Succ(j, n - 1)] == s[if i == Pred(k, n) then Succ(k, n) else Succ(i, n)]
            && s'[Pred(j, n - 1)] == s[if i == Succ(k, n) then Pred(k, n) else Pred(i, n)]
  {
    assert forall h :: 0 <= h < |s| - 1 ==> Without(s, k)[h] == s[if h < k then h else h + 1];
  }

  lemma RemoveLinked(m: Memory, s: seq<int>, k: nat, j: nat)
    requires Ring(m, s) && k < |s| && j < |s| - 1
    ensures Linked(Unlink(m, Word(m, s[k] + 16), Word(m, s[k] + 24)), Without(s, k), j)
  {
    hide Ring, Unlink, Word;
    var i := if j < k then j else j + 1;
    UnlinkWords(m, s, k, i);
    WithoutNeighbours(s, k, j);
  }

  lemma RingRemove(m: Memory, s: seq<int>, k: nat)
    requires Ring(m, s) && k < |s|
    ensures Ring(Unlink(m, Word(m, s[k] + 16), Word(m, s[k] + 24)), Without(s, k))
  {
    var m', s' := Unlink(m, Word(m, s[k] + 16), Word(m, s[k] + 24)), Without(s, k);
    forall j: nat {:trigger Linked(m', s', j)} | j < |s'|
      ensures Linked(m', s', j)
    {
      RemoveLinked(m, s, k, j);
    }
  }

  /** Rotating a ring by one keeps it a ring. */
  lemma RingRotate(m: Memory, s: seq<int>)
    requires Ring(m, s) && s != []
    ensures Ring(m, [s[|s| - 1]] + s[..|s| - 1])
  {
    var n := |s|;
    var s' := [s[n - 1]] + s[..n - 1];
    forall j: nat | j < n
      ensures Linked(m, s', j)
    {
      assert Linked(m, s, Pred(j, n));
    }
  }
}
