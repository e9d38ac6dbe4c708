/** Unlinking a large chunk from its tree bin: a chunk chained to another of
    its size, the head of such a chain, a leaf, or an interior node that is
    replaced by its rightmost leaf descendant
    (components/common/dlmalloc/malloc.c, lines 3705 to 3791). */
module TreeUnlink {
  import opened Bits
  import opened Rings
  import opened Tiling
  import opened Tries
  import opened TrieBits
  import opened TreeBins

  /** The nodes of s are nodes of the subtree at p, so their sizes fit there. */
  lemma SubsetSizes(h: Layout, t: Tree, lo: int, k: nat, p: Path, s: Tree)
    requires Sized(h, t, lo, k) && Valid(t, p) && Sub(t, p).Node? && Nodes(s) <= Nodes(Sub(t, p))
    ensures forall z :: z in Nodes(s) ==> z in h && h[z].size !in PathSizes(h, t, p)
  {
    SubSized(h, t, lo, k, p);
  }

  lemma SameSide(h: Layout, u: Tree, lo: int, k: nat, b: bool, v: int, y: int)
    requires Sized(h, u, lo, k) && u.Node? && v in Nodes(Child(u, b)) && y in Nodes(u)
    requires v in h && y in h && h[y].size == h[v].size
    ensures y in Nodes(Child(u, b)) && k > 0
  {
    var lo0, lo1 := lo, lo + (if k == 0 then 0 else Pow2(k - 1));
    if k > 0 {
      SizedRange(h, Child(u, b), if b then lo1 else lo0, k - 1, v);
      if y in Nodes(Child(u, !b)) {
        SizedRange(h, Child(u, !b), if b then lo0 else lo1, k - 1, y);
      }
    }
  }

  /** Nodes of one size are in one ring. */
  lemma {:induction false} SameSizeSameRing(h: Layout, u: Tree, lo: int, k: nat, q: Path, v: int, y: int)
    requires Sized(h, u, lo, k) && Valid(u, q) && Sub(u, q).Node? && y in Nodes(u)
    requires v in Sub(u, q).ring && v in h && y in h && h[y].size == h[v].size
    ensures y in Sub(u, q).ring
    decreases |q|
  {
    if q == [] {
    } else {
      var b := q[0];
      var c := Child(u, b);
      SubNodes(c, q[1..]);
      assert v in Elements(Sub(c, q[1..]).ring) && v in Nodes(c);
      SameSide(h, u, lo, k, b, v, y);
      SizedParts(h, u, lo, k, b);
      hide Sized, Nodes;
      SameSizeSameRing(h, c, if b then lo + Pow2(k - 1) else lo, k - 1, q[1..], v, y);
    }
  }

  // ---------------------------------------------- taking x out of its ring

  lemma UnlinkSame(m: Memory, f: int, b: int, z: int)
    requires (f == z || Away(f, z)) && (b == z || Away(b, z))
    ensures SameOn(m, Unlink(m, f, b), z + 32, z + 64)
    ensures f != z && b != z ==> SameOn(m, Unlink(m, f, b), z + 16, z + 64)
  {
  }

  lemma WithoutElements(s: seq<int>, k: nat)
    requires NoDups(s) && k < |s|
    ensures Elements(Without(s, k)) == Elements(s) - {s[k]}
  {
    var w := Without(s, k);
    forall z
      ensures z in Elements(w) <==> z in Elements(s) && z != s[k]
    {
      if z in w {
        var j :| 0 <= j < |w| && w[j] == z;
        assert z == s[if j < k then j else j + 1];
      }
      if z in s && z != s[k] {
        var i :| 0 <= i < |s| && s[i] == z;
        assert w[if i < k then i else i - 1] == z;
      }
    }
  }

  /** A member of a node's ring whose neighbours are f and b. */
  lemma Neighbours(m: Memory, u: Tree, parent: int, idx: int, k: nat)
    requires NodeAt(m, u, parent, idx) && k < |u.ring|
    ensures Word(m, u.ring[k] + 16) in u.ring && Word(m, u.ring[k] + 24) in u.ring
    ensures Word(m, Word(m, u.ring[k] + 16) + 24) == u.ring[k]
    ensures Word(m, Word(m, u.ring[k] + 24) + 16) == u.ring[k]
    ensures Word(m, u.ring[k] + 24) == u.ring[k] <==> |u.ring| == 1
    ensures Word(m, u.ring[k] + 24) == u.ring[Pred(k, |u.ring|)]
  {
    var n := |u.ring|;
    assert Linked(m, u.ring, k) && Linked(m, u.ring, Succ(k, n)) && Linked(m, u.ring, Pred(k, n));
  }

  lemma RingAway(ring: seq<int>, a: int, z: int)
    requires Spread(Elements(ring)) && a in ring && z in ring
    ensures a == z || Away(a, z)
  {
    assert a in Elements(ring) && z in Elements(ring);
  }

  /** A chained chunk leaves its ring; the node stays in the tree. */
  lemma ChainedOut(m: Memory, u: Tree, parent: int, idx: int, k: nat, f: int, b: int)
    requires NodeAt(m, u, parent, idx) && 1 <= k < |u.ring| && Spread(Elements(u.ring))
    requires f == Word(m, u.ring[k] + 16) && b == Word(m, u.ring[k] + 24)
    ensures NodeAt(Unlink(m, f, b), Node(Without(u.ring, k), u.left, u.right), parent, idx)
  {
    var ring := Without(u.ring, k);
    var m' := Unlink(m, f, b);
    RingRemove(m, u.ring, k);
    Neighbours(m, u, parent, idx, k);
    hide Unlink, Ring, Spread;
    forall j | 0 <= j < |ring|
      ensures SameOn(m, m', ring[j] + 32, ring[j] + 64) && ring[j] == u.ring[if j < k then j else j + 1]
    {
      RingAway(u.ring, f, ring[j]);
      RingAway(u.ring, b, ring[j]);
      UnlinkSame(m, f, b, ring[j]);
    }
    assert ring[0] == u.ring[0];
    forall j | 1 <= j < |ring|
      ensures Chained(m', ring[j])
    {
      assert SameOn(m, m', ring[j] + 32, ring[j] + 64);
    }
  }

  lemma HeadRing(m: Memory, s: seq<int>, f: int, b: int)
    requires Ring(m, s) && |s| > 1 && f == Word(m, s[0] + 16) && b == Word(m, s[0] + 24)
    ensures b == s[|s| - 1] && Ring(Unlink(m, f, b), [b] + s[1..|s| - 1])
  {
    hide Staggered, NoDups, Unlink;
    var n := |s|;
    var rest := s[1..];
    assert Linked(m, s, 0);
    RingRemove(m, s, 0);
    assert Without(s, 0) == rest;
    RingRotate(Unlink(m, f, b), rest);
    assert [rest[n - 2]] + rest[..n - 2] == [b] + s[1..n - 1];
  }

  /** The head of a chain leaves; the last of the ring is the new head, still
      outside the tree. */
  lemma HeadOut(m: Memory, u: Tree, parent: int, idx: int, f: int, b: int)
    requires NodeAt(m, u, parent, idx) && |u.ring| > 1 && Spread(Elements(u.ring))
    requires f == Word(m, u.ring[0] + 16) && b == Word(m, u.ring[0] + 24)
    ensures var n := |u.ring|;
            b == u.ring[n - 1] && NodeAt(Unlink(m, f, b), Node([b] + u.ring[1..n - 1], Nil, Nil), 0, idx)
  {
    hide Unlink, Ring, Spread;
    var n := |u.ring|;
    var ring := [b] + u.ring[1..n - 1];
    var m' := Unlink(m, f, b);
    HeadRing(m, u.ring, f, b);
    Neighbours(m, u, parent, idx, 0);
    forall j | 0 <= j < |ring|
      ensures Chained(m', ring[j]) && ring[j] > 0 && Word(m', ring[j] + 56) == idx
    {
      assert ring[j] == u.ring[if j == 0 then n - 1 else j];
      RingAway(u.ring, f, ring[j]);
      RingAway(u.ring, b, ring[j]);
      UnlinkSame(m, f, b, ring[j]);
    }
  }

  // ------------------------------------------- putting a node in x's place

  lemma RelinkSame(m: Memory, r: int, xp: int, c0: int, c1: int, z: int)
    requires Away(r, z) && (c0 == 0 || Away(c0, z)) && (c1 == 0 || Away(c1, z))
    ensures SameOn(m, Relink(m, r, xp, c0, c1), z + 16, z + 64)
  {
  }

  lemma SlotFrame(m: Memory, y: int, b: bool, v: int, s: Tree, parent: int, idx: int)
    requires TreeAt(m, s, parent, idx) && forall z :: z in Nodes(s) ==> Away(z, y)
    ensures TreeAt(m[y + ChildOffset(b) := v], s, parent, idx)
  {
    forall z | z in Nodes(s)
      ensures SameOn(m, m[y + ChildOffset(b) := v], z + 16, z + 64)
    {
      FieldApart(m, y, ChildOffset(b), v, z);
    }
    TreeFrame(m, m[y + ChildOffset(b) := v], s, parent, idx);
  }

  /** A node ready to take x's place: its own ring is intact and childless,
      and x's subtrees still hang under x. */
  ghost predicate Ready(m: Memory, s: Tree, x: int, parent: int, idx: int) {
    && s.Node? && s.ring != []
    && NodeAt(m, Node(s.ring, Nil, Nil), parent, idx)
    && TreeAt(m, s.left, x, idx) && TreeAt(m, s.right, x, idx)
  }

  lemma ReadyFrame(m: Memory, y: int, b: bool, v: int, s: Tree, x: int, parent: int, idx: int)
    requires Ready(m, s, x, parent, idx) && forall z :: z in Nodes(s) ==> Away(z, y)
    ensures Ready(m[y + ChildOffset(b) := v], s, x, parent, idx)
  {
    hide NodeAt;
    NodesOf(s);
    var m' := m[y + ChildOffset(b) := v];
    SlotFrame(m, y, b, v, s.left, x, idx);
    SlotFrame(m, y, b, v, s.right, x, idx);
    forall z | z in s.ring
      ensures SameOn(m, m', z + 16, z + 64)
    {
      assert z in Elements(s.ring);
      FieldApart(m, y, ChildOffset(b), v, z);
    }
    NodeFrame(m, m', Node(s.ring, Nil, Nil), parent, idx);
  }

  lemma ReadyRelink(m: Memory, s: Tree, x: int, parent: int, xp: int, idx: int)
    requires Ready(m, s, x, parent, idx) && Tries.Distinct(s) && Spread(Nodes(s))
    ensures TreeAt(Relink(m, Root(s), xp, Root(s.left), Root(s.right)), s, xp, idx)
  {
    RelinkAt(m, s.ring, s.left, s.right, parent, x, xp, idx);
  }

  /** Relinking s leaves every node apart from it alone. */
  lemma RelinkOutside(m: Memory, s: Tree, x: int, parent: int, xp: int, idx: int, z: int)
    requires Ready(m, s, x, parent, idx) && forall y :: y in Nodes(s) ==> Away(y, z)
    ensures SameOn(m, Relink(m, Root(s), xp, Root(s.left), Root(s.right)), z + 16, z + 64)
  {
    hide NodeAt;
    NodesOf(s);
    assert s.ring[0] in Elements(s.ring);
    RootIn(m, s.left, x, idx);
    RootIn(m, s.right, x, idx);
    RelinkSame(m, Root(s), xp, Root(s.left), Root(s.right), z);
  }

  lemma SpreadAway(s: set<int>, a: set<int>, y: int)
    requires Spread(s) && a <= s && y in s && y !in a
    ensures forall z :: z in a ==> Away(z, y)
  {
  }

  /** The memory after the two halves of the replacement. */
  lemma SwapMemory(m: Memory, m1: Memory, m2: Memory, m3: Memory, t: Tree, slot: int, idx: nat, p: Path, s: Tree,
                   x: int, parent: int)
    requires TreeAt(m, t, slot, idx) && Tries.Distinct(t) && Spread(Nodes(t)) && Valid(t, p)
    requires Nodes(s) <= Nodes(Sub(t, p)) && Tries.Distinct(s) && Ready(m1, s, x, parent, idx)
    requires forall z :: z in Nodes(t) && z !in Nodes(Sub(t, p)) ==> SameOn(m, m1, z + 16, z + 64)
    requires m2 == (if p == [] then m1 else m1[Slot(t, p) := Root(s)])
    requires m3 == Relink(m2, Root(s), ParentOf(t, slot, p), Root(s.left), Root(s.right))
    ensures TreeAt(m3, s, ParentOf(t, slot, p), idx)
    ensures p != [] ==> Word(m3, Slot(t, p)) == Root(s)
    ensures forall z :: z in Nodes(t) && z !in Nodes(Sub(t, p)) ==> SameBut(m, m3, z, if p == [] then 0 else Slot(t, p))
  {
    hide TreeAt, NodeAt, Relink, Ready, Tries.Distinct, Word;
    var xp := ParentOf(t, slot, p);
    SubNodes(t, p);
    assert Nodes(s) <= Nodes(t);
    assert Spread(Nodes(s));
    if p != [] {
      SlotOutside(m, t, slot, idx, p);
      SpreadAway(Nodes(t), Nodes(s), Owner(t, p));
      ReadyFrame(m1, Owner(t, p), p[|p| - 1], Root(s), s, x, parent, idx);
    }
    ReadyRelink(m2, s, x, parent, xp, idx);
    forall z | z in Nodes(t) && z !in Nodes(Sub(t, p))
      ensures SameBut(m, m3, z, if p == [] then 0 else Slot(t, p)) && SameOn(m2, m3, z + 16, z + 64)
    {
      SpreadAway(Nodes(t), Nodes(s), z);
      RelinkOutside(m2, s, x, parent, xp, idx, z);
      SlotWrite(m, m1, m2, m3, z, if p == [] then 0 else Slot(t, p), Root(s), p == []);
    }
    if p != [] {
      assert SameOn(m2, m3, Owner(t, p) + 16, Owner(t, p) + 64);
      SlotRead(m1, m2, m3, Owner(t, p), p[|p| - 1], Root(s));
    }
  }

  lemma SlotWrite(m: Memory, m1: Memory, m2: Memory, m3: Memory, z: int, w: int, v: int, skip: bool)
    requires SameOn(m, m1, z + 16, z + 64) && SameOn(m2, m3, z + 16, z + 64) && m2 == if skip then m1 else m1[w := v]
    ensures SameBut(m, m3, z, w)
  {
  }

  lemma SlotRead(m1: Memory, m2: Memory, m3: Memory, y: int, b: bool, v: int)
    requires SameOn(m2, m3, y + 16, y + 64) && m2 == m1[y + ChildOffset(b) := v]
    ensures Word(m3, y + ChildOffset(b)) == v
  {
  }

  /** Putting s in the place of the subtree at p. */
  lemma Swapped(m: Memory, m1: Memory, m2: Memory, m3: Memory, h: Layout, t: Tree, slot: int, idx: nat, p: Path,
                s: Tree, x: int, parent: int)
    requires BinAt(m, h, t, slot, idx) && Valid(t, p) && Sub(t, p).Node? && |p| <= BinBits(idx)
    requires Nodes(s) <= Nodes(Sub(t, p)) && Sized(h, s, Low(BinLow(idx), BinBits(idx), p), BinBits(idx) - |p|)
    requires Ready(m1, s, x, parent, idx)
    requires forall z :: z in Nodes(t) && z !in Nodes(Sub(t, p)) ==> SameOn(m, m1, z + 16, z + 64)
    requires m2 == (if p == [] then m1 else m1[Slot(t, p) := Root(s)])
    requires m3 == Relink(m2, Root(s), ParentOf(t, slot, p), Root(s.left), Root(s.right))
    ensures Replaceable(m, m3, h, t, slot, idx, p, s)
  {
    hide TreeAt, Relink, Ready, Sized, Nodes, Spread, HeadsGive, PathSizes, SameOn, SameBut, Word, BinLow, BinBits, Low;
    var lo, k := BinLow(idx), BinBits(idx);
    SizedDistinct(h, t, lo, k);
    SizedDistinct(h, s, Low(lo, k, p), k - |p|);
    SubsetSizes(h, t, lo, k, p, s);
    SwapMemory(m, m1, m2, m3, t, slot, idx, p, s, x, parent);
  }

  lemma SubsetUnion(a: set<int>, b: set<int>)
    requires a <= b
    ensures b + a == b
  {
  }

  /** The bin after the replacement. */
  lemma SwappedBin(m: Memory, m': Memory, h: Layout, t: Tree, slot: int, idx: nat, p: Path, s: Tree, x: int)
    requires BinAt(m, h, t, slot, idx) && Replaceable(m, m', h, t, slot, idx, p, s)
    requires x in Nodes(Sub(t, p)) && Nodes(s) == Nodes(Sub(t, p)) - {x}
    requires OnlyLinks(m, m', Nodes(t))
    ensures BinAt(m', h, Put(t, p, s), slot, idx) && Nodes(Put(t, p, s)) == Nodes(t) - {x}
  {
    assert Valid(t, p);
    SubNodes(t, p);
    OnlyLinksHeads(m, m', h, Nodes(t));
    hide Replaceable, Spread, HeadsGive, Nodes, OnlyLinks, Sized, TreeAt;
    SubsetUnion(Nodes(s), Nodes(t));
    BinReplaced(m, m', h, t, slot, idx, p, s);
  }

  // -------------------------------------------------- case: same-size chain

  ghost function RingWithout(u: Tree, j: nat): seq<int>
    requires u.Node? && j < |u.ring| && |u.ring| > 1
  {
    if j == 0 then [u.ring[|u.ring| - 1]] + u.ring[1..|u.ring| - 1] else Without(u.ring, j)
  }

  lemma RotateElements(s: seq<int>)
    requires s != []
    ensures Elements([s[|s| - 1]] + s[..|s| - 1]) == Elements(s)
  {
    var r := [s[|s| - 1]] + s[..|s| - 1];
    assert s == s[..|s| - 1] + [s[|s| - 1]];
    assert forall z :: z in r <==> z == s[|s| - 1] || z in s[..|s| - 1];
    assert forall z :: z in s <==> z == s[|s| - 1] || z in s[..|s| - 1];
  }

  lemma RingWithoutElements(u: Tree, j: nat)
    requires u.Node? && j < |u.ring| && |u.ring| > 1 && NoDups(u.ring)
    ensures RingWithout(u, j) != [] && Elements(RingWithout(u, j)) == Elements(u.ring) - {u.ring[j]}
  {
    hide Elements;
    WithoutElements(u.ring, j);
    if j == 0 {
      var rest := u.ring[1..];
      assert Without(u.ring, 0) == rest;
      RotateElements(rest);
      assert [rest[|rest| - 1]] + rest[..|rest| - 1] == RingWithout(u, 0);
    }
  }

  ghost function ShorterRing(u: Tree, j: nat): Tree
    requires u.Node? && j < |u.ring| && |u.ring| > 1
  {
    Node(RingWithout(u, j), u.left, u.right)
  }

  lemma ShorterSized(h: Layout, u: Tree, lo: int, k: nat, j: nat)
    requires Sized(h, u, lo, k) && u.Node? && j < |u.ring| && |u.ring| > 1 && NoDups(u.ring)
    ensures Sized(h, ShorterRing(u, j), lo, k)
    ensures Nodes(ShorterRing(u, j)) == Nodes(u) - {u.ring[j]}
  {
    SizedDistinct(h, u, lo, k);
    RingWithoutElements(u, j);
    var r := RingWithout(u, j);
    hide RingWithout;
    assert r[0] in Elements(r) && u.ring[0] in Elements(u.ring) && u.ring[j] in Elements(u.ring);
    assert forall z :: z in r ==> z in Elements(r) && z in u.ring;
  }

  /** Unlinking x from its ring touches only that ring. */
  lemma ChainOutside(m: Memory, ns: set<int>, ring: seq<int>, f: int, b: int, z: int)
    requires Spread(ns) && Elements(ring) <= ns && f in ring && b in ring && z in ns && z !in ring
    ensures SameOn(m, Unlink(m, f, b), z + 16, z + 64)
  {
    assert f in Elements(ring) && b in Elements(ring);
    UnlinkSame(m, f, b, z);
  }

  lemma ChainSubtrees(m: Memory, u: Tree, parent: int, idx: int, f: int, b: int)
    requires TreeAt(m, u, parent, idx) && u.Node? && Tries.Distinct(u) && Spread(Nodes(u)) && f in u.ring && b in u.ring
    ensures TreeAt(Unlink(m, f, b), u.left, u.ring[0], idx) && TreeAt(Unlink(m, f, b), u.right, u.ring[0], idx)
  {
    hide Unlink;
    NodesOf(u);
    forall z | z in Nodes(u.left) || z in Nodes(u.right)
      ensures SameOn(m, Unlink(m, f, b), z + 16, z + 64)
    {
      assert z !in Elements(u.ring);
      ChainOutside(m, Nodes(u), u.ring, f, b, z);
    }
    TreeFrame(m, Unlink(m, f, b), u.left, u.ring[0], idx);
    TreeFrame(m, Unlink(m, f, b), u.right, u.ring[0], idx);
  }

  /** A chained chunk (not the head of its ring) is unlinked. */
  lemma ChainedUnlinked(m: Memory, h: Layout, t: Tree, slot: int, idx: nat, p: Path, j: nat, f: int, b: int)
    requires BinAt(m, h, t, slot, idx) && Valid(t, p) && Sub(t, p).Node? && 1 <= j < |Sub(t, p).ring|
    requires f == Word(m, Sub(t, p).ring[j] + 16) && b == Word(m, Sub(t, p).ring[j] + 24)
    ensures Replaceable(m, Unlink(m, f, b), h, t, slot, idx, p, ShorterRing(Sub(t, p), j))
    ensures Nodes(ShorterRing(Sub(t, p), j)) == Nodes(Sub(t, p)) - {Sub(t, p).ring[j]}
  {
    hide Unlink, Spread, BinAt, Sized, Ring, PathSizes, BinLow, BinBits, Low, NodeAt, Nodes, Tries.Distinct, SameBut,
      SameOn;
    var u, parent := Sub(t, p), ParentOf(t, slot, p);
    var lo, k := BinLow(idx), BinBits(idx);
    AtSub(m, h, t, slot, idx, p);
    ShorterSized(h, u, Low(lo, k, p), k - |p|, j);
    SubsetSizes(h, t, lo, k, p, ShorterRing(u, j));
    Neighbours(m, u, parent, idx, j);
    ChainedOut(m, u, parent, idx, j, f, b);
    ChainSubtrees(m, u, parent, idx, f, b);
    ChainFrame(m, Unlink(m, f, b), t, slot, idx, p, f, b);
  }

  /** What holds of the subtree at p. */
  lemma AtSub(m: Memory, h: Layout, t: Tree, slot: int, idx: nat, p: Path)
    requires BinAt(m, h, t, slot, idx) && Valid(t, p) && Sub(t, p).Node?
    ensures TreeAt(m, t, slot, idx) && Sized(h, t, BinLow(idx), BinBits(idx)) && Tries.Distinct(t) && Spread(Nodes(t))
    ensures var u := Sub(t, p);
            && NodeAt(m, u, ParentOf(t, slot, p), idx) && TreeAt(m, u, ParentOf(t, slot, p), idx)
            && |p| <= BinBits(idx) && Sized(h, u, Low(BinLow(idx), BinBits(idx), p), BinBits(idx) - |p|)
            && Tries.Distinct(u) && Spread(Nodes(u)) && Spread(Elements(u.ring)) && NoDups(u.ring)
            && Nodes(u) <= Nodes(t) && Elements(u.ring) <= Nodes(u)
  {
    hide Sized, PathSizes, Low, BinLow, BinBits, Spread, HeadsGive, Tries.Distinct, Nodes, Ring, NoDups, NodeAt;
    var u := Sub(t, p);
    var lo, k := BinLow(idx), BinBits(idx);
    SubAt(m, t, slot, idx, p);
    SubNodes(t, p);
    SubSized(h, t, lo, k, p);
    SizedDistinct(h, t, lo, k);
    SizedDistinct(h, u, Low(lo, k, p), k - |p|);
    NodesOf(u);
    SpreadSubset(Nodes(t), Nodes(u));
    SpreadSubset(Nodes(t), Elements(u.ring));
    RingNoDups(m, u, ParentOf(t, slot, p), idx);
  }

  lemma SpreadSubset(s: set<int>, a: set<int>)
    requires Spread(s) && a <= s
    ensures Spread(a)
  {
  }

  lemma RingNoDups(m: Memory, u: Tree, parent: int, idx: int)
    requires NodeAt(m, u, parent, idx)
    ensures NoDups(u.ring)
  {
  }

  lemma ChainFrame(m: Memory, m': Memory, t: Tree, slot: int, idx: nat, p: Path, f: int, b: int)
    requires TreeAt(m, t, slot, idx) && Tries.Distinct(t) && Spread(Nodes(t)) && Valid(t, p) && Sub(t, p).Node?
    requires f in Sub(t, p).ring && b in Sub(t, p).ring && m' == Unlink(m, f, b)
    ensures p != [] ==> Word(m', Slot(t, p)) == Root(Sub(t, p))
    ensures forall z :: z in Nodes(t) && z !in Nodes(Sub(t, p)) ==> SameOn(m, m', z + 16, z + 64)
    ensures forall z :: z in Nodes(t) && z !in Nodes(Sub(t, p)) ==> SameBut(m, m', z, if p == [] then 0 else Slot(t, p))
  {
    hide Unlink;
    SubNodes(t, p);
    NodesOf(Sub(t, p));
    forall z | z in Nodes(t) && z !in Nodes(Sub(t, p))
      ensures SameOn(m, m', z + 16, z + 64)
    {
      assert z !in Elements(Sub(t, p).ring);
      ChainOutside(m, Nodes(t), Sub(t, p).ring, f, b, z);
    }
    SubAt(m, t, slot, idx, p);
    if p != [] {
      SlotOutside(m, t, slot, idx, p);
      assert SameOn(m, m', Owner(t, p) + 16, Owner(t, p) + 64);
    }
  }

  /** The head of a chain is unlinked and its ring successor takes its place. */
  lemma HeadUnlinked(m: Memory, m2: Memory, m3: Memory, h: Layout, t: Tree, slot: int, idx: nat, p: Path, f: int,
                     b: int)
    requires BinAt(m, h, t, slot, idx) && Valid(t, p) && Sub(t, p).Node? && |Sub(t, p).ring| > 1
    requires f == Word(m, Root(Sub(t, p)) + 16) && b == Word(m, Root(Sub(t, p)) + 24)
    requires m2 == (if p == [] then Unlink(m, f, b) else Unlink(m, f, b)[Slot(t, p) := b])
    requires m3 == Relink(m2, b, ParentOf(t, slot, p), Root(Sub(t, p).left), Root(Sub(t, p).right))
    ensures Replaceable(m, m3, h, t, slot, idx, p, ShorterRing(Sub(t, p), 0)) && Root(ShorterRing(Sub(t, p), 0)) == b
    ensures Nodes(ShorterRing(Sub(t, p), 0)) == Nodes(Sub(t, p)) - {Root(Sub(t, p))}
  {
    hide Unlink, Spread, BinAt, Sized, Ring, PathSizes, BinLow, BinBits, Low, NodeAt, Nodes, Tries.Distinct, Relink,
      SameOn;
    var u, parent := Sub(t, p), ParentOf(t, slot, p);
    var lo, k := BinLow(idx), BinBits(idx);
    var s := ShorterRing(u, 0);
    AtSub(m, h, t, slot, idx, p);
    ShorterSized(h, u, Low(lo, k, p), k - |p|, 0);
    Neighbours(m, u, parent, idx, 0);
    HeadOut(m, u, parent, idx, f, b);
    ChainSubtrees(m, u, parent, idx, f, b);
    ChainFrame(m, Unlink(m, f, b), t, slot, idx, p, f, b);
    assert Ready(Unlink(m, f, b), s, u.ring[0], 0, idx);
    Swapped(m, Unlink(m, f, b), m2, m3, h, t, slot, idx, p, s, u.ring[0], 0);
  }

  /** A leaf alone in its ring is unlinked. */
  lemma LeafUnlinked(m: Memory, m2: Memory, h: Layout, t: Tree, slot: int, idx: nat, p: Path)
    requires BinAt(m, h, t, slot, idx) && Valid(t, p) && Sub(t, p).Node?
    requires m2 == (if p == [] then m else m[Slot(t, p) := 0])
    ensures Replaceable(m, m2, h, t, slot, idx, p, Nil)
  {
    hide Spread, BinAt, Sized, Ring, PathSizes, BinLow, BinBits, Low, NodeAt, Tries.Distinct;
    AtSub(m, h, t, slot, idx, p);
    NilSized(h, Low(BinLow(idx), BinBits(idx), p), BinBits(idx) - |p|);
  }

  lemma NilSized(h: Layout, lo: int, k: nat)
    ensures Sized(h, Nil, lo, k)
  {
  }

  // --------------------------------------------- case: an interior node

  /** A leaf r below x, taken out of the tree. */
  lemma LeafDetached(m: Memory, u: Tree, parent: int, idx: int, q: Path)
    requires TreeAt(m, u, parent, idx) && Tries.Distinct(u) && Spread(Nodes(u)) && u.Node?
    requires Valid(u, q) && q != [] && Sub(u, q).Node?
    ensures TreeAt(m[Slot(u, q) := 0], Put(u, q, Nil), parent, idx)
    ensures TreeAt(m[Slot(u, q) := 0], Sub(u, q), ParentOf(u, parent, q), idx)
    ensures forall z :: z !in Nodes(u) && (forall y :: y in Nodes(u) ==> Away(z, y)) ==>
              SameOn(m, m[Slot(u, q) := 0], z + 16, z + 64)
  {
    hide NodeAt, Spread, Tries.Distinct;
    var m1 := m[Slot(u, q) := 0];
    SlotOutside(m, u, parent, idx, q);
    SubAt(m, u, parent, idx, q);
    SubNodes(u, q);
    SpreadAway(Nodes(u), Nodes(Sub(u, q)), Owner(u, q));
    SlotFrame(m, Owner(u, q), q[|q| - 1], 0, Sub(u, q), ParentOf(u, parent, q), idx);
    PutAt(m, m1, u, parent, idx, q, Nil);
    forall z | z !in Nodes(u) && forall y :: y in Nodes(u) ==> Away(z, y)
      ensures SameOn(m, m1, z + 16, z + 64)
    {
      FieldApart(m, Owner(u, q), ChildOffset(q[|q| - 1]), 0, z);
    }
  }

  /** The tree in which the ring at q has taken the root's place. */
  ghost function Promoted(u: Tree, q: Path): Tree
    requires u.Node? && Valid(u, q) && q != [] && Sub(u, q).Node?
  {
    Node(Sub(u, q).ring, Put(u, q, Nil).left, Put(u, q, Nil).right)
  }

  /** Nothing else in the tree has the size of the promoted ring. */
  lemma PromotedAvoids(h: Layout, u: Tree, lo: int, k: nat, q: Path, c: Tree)
    requires Sized(h, u, lo, k) && Valid(u, q) && Sub(u, q).Node? && Sub(u, q).ring != []
    requires Root(Sub(u, q)) in h && Nodes(c) <= Nodes(u) && Nodes(c) !! Elements(Sub(u, q).ring)
    ensures Avoids(h, c, h[Root(Sub(u, q))].size)
  {
    hide Sized, Nodes;
    var v := Sub(u, q);
    forall y | y in Nodes(c)
      ensures y in h && h[y].size != h[v.ring[0]].size
    {
      SizedRange(h, u, lo, k, y);
      assert y !in Elements(v.ring);
      if h[y].size == h[v.ring[0]].size {
        SameSizeSameRing(h, u, lo, k, q, v.ring[0], y);
      }
    }
  }

  lemma RingSized(h: Layout, t: Tree, lo: int, k: nat, ring: seq<int>)
    requires Sized(h, t, lo, k) && t.Node? && ring != [] && ring[0] in h && SameSize(h, ring, h[ring[0]].size)
    requires lo <= h[ring[0]].size < lo + Pow2(k)
    requires Avoids(h, t.left, h[ring[0]].size) && Avoids(h, t.right, h[ring[0]].size)
    ensures Sized(h, Node(ring, t.left, t.right), lo, k)
  {
    hide Avoids, SameSize;
  }

  lemma PromotedNodes(h: Layout, u: Tree, lo: int, k: nat, q: Path)
    requires Sized(h, u, lo, k) && u.Node? && |u.ring| == 1 && Valid(u, q) && q != [] && |q| <= k
    requires Sub(u, q).Node? && Sub(u, q).left.Nil? && Sub(u, q).right.Nil?
    ensures Nodes(Promoted(u, q)) == Nodes(u) - {u.ring[0]}
    ensures Put(u, q, Nil).Node? && Put(u, q, Nil).ring == u.ring
    ensures Nodes(Put(u, q, Nil).left) <= Nodes(u) && Nodes(Put(u, q, Nil).left) !! Elements(Sub(u, q).ring)
    ensures Nodes(Put(u, q, Nil).right) <= Nodes(u) && Nodes(Put(u, q, Nil).right) !! Elements(Sub(u, q).ring)
  {
    var v, u1 := Sub(u, q), Put(u, q, Nil);
    SizedDistinct(h, u, lo, k);
    PutNodes(u, q, Nil);
    assert Nodes(v) == Elements(v.ring) && Nodes(Nil) == {};
    PutSized(h, u, lo, k, q, Nil);
    SizedDistinct(h, u1, lo, k);
    var c := Child(u, q[0]);
    SubNodes(c, q[1..]);
    assert Elements(u.ring) == {u.ring[0]};
    assert Elements(u1.ring) == {u.ring[0]};
    assert u1.ring == u.ring;
    hide Sized, Put, Sub;
    assert Nodes(u1) == {u.ring[0]} + Nodes(u1.left) + Nodes(u1.right);
  }

  lemma PromotedSized(h: Layout, u: Tree, lo: int, k: nat, q: Path)
    requires Sized(h, u, lo, k) && u.Node? && |u.ring| == 1 && Valid(u, q) && q != [] && |q| <= k
    requires Sub(u, q).Node? && Sub(u, q).left.Nil? && Sub(u, q).right.Nil?
    ensures Sized(h, Promoted(u, q), lo, k)
  {
    var v, u1 := Sub(u, q), Put(u, q, Nil);
    PromotedNodes(h, u, lo, k, q);
    PutSized(h, u, lo, k, q, Nil);
    SubSized(h, u, lo, k, q);
    SubNodes(u, q);
    assert v.ring[0] in Elements(v.ring);
    SizedRange(h, u, lo, k, v.ring[0]);
    PromotedAvoids(h, u, lo, k, q, u1.left);
    PromotedAvoids(h, u, lo, k, q, u1.right);
    RingSized(h, u1, lo, k, v.ring);
  }

  /** The detached leaf is ready to take x's place. */
  lemma PromotedReady(m: Memory, u: Tree, parent: int, idx: int, q: Path)
    requires TreeAt(m, u, parent, idx) && Tries.Distinct(u) && Spread(Nodes(u)) && u.Node?
    requires Valid(u, q) && q != [] && Sub(u, q).Node? && Sub(u, q).left.Nil? && Sub(u, q).right.Nil?
    ensures Ready(m[Slot(u, q) := 0], Promoted(u, q), u.ring[0], ParentOf(u, parent, q), idx)
  {
    hide Spread, Tries.Distinct, NodeAt;
    LeafDetached(m, u, parent, idx, q);
    assert Put(u, q, Nil).Node? && Put(u, q, Nil).ring == u.ring;
    assert Sub(u, q) == Node(Sub(u, q).ring, Nil, Nil);
    RootIn(m[Slot(u, q) := 0], Sub(u, q), ParentOf(u, parent, q), idx);
  }

  lemma PromotedFrame(m: Memory, t: Tree, slot: int, idx: nat, p: Path, q: Path)
    requires TreeAt(m, t, slot, idx) && Spread(Nodes(t)) && Valid(t, p) && Sub(t, p).Node?
    requires Tries.Distinct(Sub(t, p)) && Spread(Nodes(Sub(t, p)))
    requires Valid(Sub(t, p), q) && q != [] && Sub(Sub(t, p), q).Node?
    ensures forall z ::
              z in Nodes(t) && z !in Nodes(Sub(t, p)) ==> SameOn(m, m[Slot(Sub(t, p), q) := 0], z + 16, z + 64)
  {
    hide TreeAt, Tries.Distinct;
    SubAt(m, t, slot, idx, p);
    SubNodes(t, p);
    LeafDetached(m, Sub(t, p), ParentOf(t, slot, p), idx, q);
  }

  /** An interior node alone in its ring is replaced by a leaf below it. */
  lemma InteriorUnlinked(m: Memory, m1: Memory, m2: Memory, m3: Memory, h: Layout, t: Tree, slot: int, idx: nat,
                         p: Path, q: Path)
    requires BinAt(m, h, t, slot, idx) && Valid(t, p) && Sub(t, p).Node? && |Sub(t, p).ring| == 1
    requires Valid(Sub(t, p), q) && q != [] && Sub(Sub(t, p), q).Node?
    requires Sub(Sub(t, p), q).left.Nil? && Sub(Sub(t, p), q).right.Nil?
    requires m1 == m[Slot(Sub(t, p), q) := 0]
    requires m2 == (if p == [] then m1 else m1[Slot(t, p) := Root(Sub(Sub(t, p), q))])
    requires var s := Promoted(Sub(t, p), q);
             m3 == Relink(m2, Root(s), ParentOf(t, slot, p), Root(s.left), Root(s.right))
    ensures Replaceable(m, m3, h, t, slot, idx, p, Promoted(Sub(t, p), q))
    ensures Nodes(Promoted(Sub(t, p), q)) == Nodes(Sub(t, p)) - {Root(Sub(t, p))}
  {
    hide Spread, BinAt, Sized, Ring, PathSizes, BinLow, BinBits, Low, NodeAt, Nodes, Tries.Distinct, Relink, SameOn,
      TreeAt, Ready;
    var u, parent := Sub(t, p), ParentOf(t, slot, p);
    var lo, k := BinLow(idx), BinBits(idx);
    AtSub(m, h, t, slot, idx, p);
    SubSized(h, u, Low(lo, k, p), k - |p|, q);
    PromotedNodes(h, u, Low(lo, k, p), k - |p|, q);
    PromotedSized(h, u, Low(lo, k, p), k - |p|, q);
    PromotedReady(m, u, parent, idx, q);
    PromotedFrame(m, t, slot, idx, p, q);
    Swapped(m, m1, m2, m3, h, t, slot, idx, p, Promoted(u, q), u.ring[0], ParentOf(u, parent, q));
  }

  // --------------------------------------------------------- the operation

  /** What the second half of unlink_large_chunk relies on: x is the root or
      the b child of xp, r is what replaces it, c0 and c1 are its children. */
  ghost predicate PlaceOk(m1: Memory, root: int, x: int, xp: int, r: int, least: int, top: bool, b: bool, c0: int,
                          c1: int) {
    && (x == root) == top
    && (!top ==> xp >= least && Away(x, xp) && (Word(m1, xp + 32) == x <==> !b))
    && (r != 0 ==> r >= least && Away(x, r))
    && c0 == Word(m1, x + 32) && (c0 != 0 ==> c0 >= least && Away(c0, x))
    && c1 == Word(m1, x + 40) && (c1 != 0 ==> c1 >= least && Away(c1, x))
  }

  ghost function Placed(m1: Memory, xp: int, r: int, top: bool, b: bool, c0: int, c1: int): Memory {
    var m2 := if top then m1 else m1[xp + ChildOffset(b) := r];
    if r == 0 then m2 else Relink(m2, r, xp, c0, c1)
  }

  /** The second half of unlink_large_chunk: r, or nothing, takes the place of
      the tree node x. */
  method TakePlace(m1: Memory, root: int, x: int, xp: int, r: int, least: int,
                   ghost top: bool, ghost b: bool, ghost c0: int, ghost c1: int)
    returns (m: Memory, root': int)
    requires PlaceOk(m1, root, x, xp, r, least, top, b, c0, c1)
    ensures root' == if top then r else root
    ensures m == Placed(m1, xp, r, top, b, c0, c1)
  {
    m, root' := m1, root;
    if x == root {
      root' := r;
    } else if xp >= least {
      if Word(m, xp + 32) == x {
        m := m[xp + 32 := r];
      } else {
        m := m[xp + 40 := r];
      }
    } else {
      assert false;
    }
    if r != 0 {
      if r >= least {
        m := m[r + 48 := xp];
        var d0 := Word(m, x + 32);
        if d0 != 0 {
          if d0 >= least {
            m := m[r + 32 := d0][d0 + 48 := r];
          } else {
            assert false;
          }
        }
        var d1 := Word(m, x + 40);
        if d1 != 0 {
          if d1 >= least {
            m := m[r + 40 := d1][d1 + 48 := r];
          } else {
            assert false;
          }
        }
      } else {
        assert false;
      }
    }
  }

  /** Follow right, else left, children from x down to a leaf; q is the path
      from x to it and rp the field that points to it. */
  method RightmostLeaf(m: Memory, x: int, ghost u: Tree, ghost parent: int, ghost idx: int)
    returns (r: int, rp: int, ghost q: Path)
    requires TreeAt(m, u, parent, idx) && u.Node? && Root(u) == x
    ensures r == 0 <==> u.left.Nil? && u.right.Nil?
    ensures r != 0 ==> q != [] && Valid(u, q) && Sub(u, q).Node? && r == Root(Sub(u, q)) && rp == Slot(u, q)
    ensures r != 0 ==> Sub(u, q).left.Nil? && Sub(u, q).right.Nil?
  {
    q := [];
    ReadChildren(m, u, parent, idx, []);
    rp := x + 40;
    r := Word(m, rp);
    if r == 0 {
      rp := x + 32;
      r := Word(m, rp);
    }
    if r != 0 {
      q := [rp == x + 40];
      Snoc(map[], u, parent, 0, 1, [], rp == x + 40);
      assert [] + q == q;
      ReadChildren(m, u, parent, idx, q);
      var cp := if Word(m, r + 40) != 0 then r + 40 else r + 32;
      while Word(m, cp) != 0
        invariant r != 0 && q != [] && Valid(u, q) && Sub(u, q).Node? && r == Root(Sub(u, q)) && rp == Slot(u, q)
        invariant Word(m, r + 40) == Root(Sub(u, q).right) && Word(m, r + 32) == Root(Sub(u, q).left)
        invariant Root(Sub(u, q).right) != 0 <==> Sub(u, q).right.Node?
        invariant Root(Sub(u, q).left) != 0 <==> Sub(u, q).left.Node?
        invariant cp == if Word(m, r + 40) != 0 then r + 40 else r + 32
        decreases Sub(u, q)
      {
        Snoc(map[], u, parent, 0, |q| + 1, q, cp == r + 40);
        q := q + [cp == r + 40];
        rp := cp;
        r := Word(m, rp);
        ReadChildren(m, u, parent, idx, q);
        cp := if Word(m, r + 40) != 0 then r + 40 else r + 32;
      }
    }
  }

  lemma ReadChildren(m: Memory, u: Tree, parent: int, idx: int, q: Path)
    requires TreeAt(m, u, parent, idx) && Valid(u, q) && Sub(u, q).Node?
    ensures var v := Sub(u, q);
            && Root(v) != 0
            && Word(m, Root(v) + 40) == Root(v.right) && Word(m, Root(v) + 32) == Root(v.left)
            && (Root(v.right) != 0 <==> v.right.Node?) && (Root(v.left) != 0 <==> v.left.Node?)
  {
    SubAt(m, u, parent, idx, q);
    var v := Sub(u, q);
    RootIn(m, v, ParentOf(u, parent, q), idx);
    RootIn(m, v.left, Root(v), idx);
    RootIn(m, v.right, Root(v), idx);
  }

  lemma RingIndex(ring: seq<int>, x: int) returns (j: nat)
    requires x in ring
    ensures j < |ring| && ring[j] == x
  {
    j :| 0 <= j < |ring| && ring[j] == x;
  }

  /** The node above a child, and how the code tells which child it is. */
  lemma AboveChild(m: Memory, y: Tree, parent: int, idx: int, b: bool)
    requires TreeAt(m, y, parent, idx) && y.Node? && Tries.Distinct(y) && Child(y, b).Node?
    ensures Root(y) in Nodes(y) && Root(y) != Root(Child(y, b)) && Root(y) > 0
    ensures Word(m, Root(y) + 32) == Root(Child(y, b)) <==> !b
  {
    RootIn(m, y, parent, idx);
    RootIn(m, y.left, Root(y), idx);
    RootIn(m, y.right, Root(y), idx);
    SiblingsDiffer(y);
  }

  lemma ParentFacts(m: Memory, h: Layout, t: Tree, slot: int, idx: nat, p0: Path, b: bool)
    requires BinAt(m, h, t, slot, idx) && Valid(t, p0 + [b]) && Sub(t, p0 + [b]).Node?
    ensures var x, xp := Root(Sub(t, p0 + [b])), ParentOf(t, slot, p0 + [b]);
            && xp == Owner(t, p0 + [b]) && xp in Nodes(t) && xp != x && xp > 0
            && Slot(t, p0 + [b]) == xp + ChildOffset(b)
            && (Word(m, xp + 32) == x <==> !b)
  {
    hide BinAt, Sized, Spread, Tries.Distinct, Ring, NodeAt, Nodes, TreeAt, Word, BinLow, BinBits;
    ValidPrefix(t, p0, b);
    Snoc(h, t, slot, 0, |p0| + 1, p0, b);
    OwnerOf(t, p0, b);
    AtSub(m, h, t, slot, idx, p0);
    AboveChild(m, Sub(t, p0), ParentOf(t, slot, p0), idx, b);
  }

  lemma NotRoot(m: Memory, h: Layout, t: Tree, slot: int, idx: nat, p: Path)
    requires BinAt(m, h, t, slot, idx) && Valid(t, p) && Sub(t, p).Node? && p != []
    ensures Root(t) !in Nodes(Sub(t, p))
  {
    hide Sized, Spread, Tries.Distinct, Ring, Nodes, BinLow, BinBits, HeadsGive;
    SizedDistinct(h, t, BinLow(idx), BinBits(idx));
    RootAbove(t, p);
  }

  /** How the code tells the root from other nodes, and which child field
      points to x. */
  lemma WhichSlot(m: Memory, h: Layout, t: Tree, slot: int, idx: nat, p: Path)
    requires BinAt(m, h, t, slot, idx) && Valid(t, p) && Sub(t, p).Node?
    ensures var x, xp := Root(Sub(t, p)), ParentOf(t, slot, p);
            && xp != 0 && x in Nodes(Sub(t, p)) && (x == Root(t) <==> p == [])
            && (p != [] ==> xp in Nodes(t) && xp != x
                            && Slot(t, p) == xp + ChildOffset(p[|p| - 1])
                            && (Word(m, xp + 32) == x <==> !p[|p| - 1]))
  {
    hide Sized, Spread, Tries.Distinct, Ring, NodeAt, Nodes, TreeAt, Word, HeadsGive, BinLow, BinBits;
    AtSub(m, h, t, slot, idx, p);
    RootIn(m, Sub(t, p), ParentOf(t, slot, p), idx);
    if p != [] {
      var p0, b := p[..|p| - 1], p[|p| - 1];
      assert p == p0 + [b];
      ParentFacts(m, h, t, slot, idx, p0, b);
      NotRoot(m, h, t, slot, idx, p);
    }
  }

  lemma {:induction false} ValidPrefix(t: Tree, p: Path, b: bool)
    requires Valid(t, p + [b])
    ensures Valid(t, p) && Sub(t, p).Node?
    decreases |p|
  {
    if p != [] {
      assert (p + [b])[1..] == p[1..] + [b];
      ValidPrefix(Child(t, p[0]), p[1..], b);
    } else {
      assert ([] + [b]) == [b];
    }
  }

  lemma {:induction false} OwnerOf(t: Tree, p: Path, b: bool)
    requires Valid(t, p) && Sub(t, p).Node? && Valid(t, p + [b])
    ensures Owner(t, p + [b]) == Root(Sub(t, p))
    decreases |p|
  {
    if p != [] {
      assert (p + [b])[1..] == p[1..] + [b];
      OwnerOf(Child(t, p[0]), p[1..], b);
    } else {
      assert ([] + [b]) == [b];
    }
  }

  lemma SiblingsDiffer(y: Tree)
    requires y.Node? && Tries.Distinct(y) && y.ring != []
    requires y.left.Node? ==> Root(y.left) in Nodes(y.left)
    requires y.right.Node? ==> Root(y.right) in Nodes(y.right)
    ensures y.left.Node? && y.right.Node? ==> Root(y.left) != Root(y.right)
    ensures y.left.Node? ==> Root(y.left) != y.ring[0]
    ensures y.right.Node? ==> Root(y.right) != y.ring[0]
  {
    assert y.ring[0] in Elements(y.ring);
  }

  lemma RootAbove(t: Tree, p: Path)
    requires Tries.Distinct(t) && Valid(t, p) && p != [] && t.ring != []
    ensures Root(t) !in Nodes(Sub(t, p))
  {
    SubNodes(Child(t, p[0]), p[1..]);
    assert t.ring[0] in Elements(t.ring);
  }

  // ------------------------------------------------- the four cases, joined

  lemma UnlinkLinks(m0: Memory, s: set<int>, f: int, b: int)
    requires f in s && b in s
    ensures OnlyLinks(m0, Unlink(m0, f, b), s)
  {
    hide OnlyLinks;
    OnlyLinksRefl(m0, s);
    WriteLink(m0, m0, s, f, 24, b);
    WriteLink(m0, m0[f + 24 := b], s, b, 16, f);
  }

  lemma PlacedLinks(m0: Memory, m1: Memory, s: set<int>, xp: int, r: int, top: bool, b: bool, c0: int, c1: int)
    requires OnlyLinks(m0, m1, s) && (!top ==> xp in s) && (r != 0 ==> r in s) && (c0 != 0 ==> c0 in s)
             && (c1 != 0 ==> c1 in s)
    ensures OnlyLinks(m0, Placed(m1, xp, r, top, b, c0, c1), s)
  {
    hide OnlyLinks;
    if !top { WriteLink(m0, m1, s, xp, ChildOffset(b), r); }
    var m2 := if top then m1 else m1[xp + ChildOffset(b) := r];
    if r != 0 {
      WriteLink(m0, m2, s, r, 48, xp);
      var m3 := m2[r + 48 := xp];
      if c0 != 0 {
        WriteLink(m0, m3, s, r, 32, c0);
        WriteLink(m0, m3[r + 32 := c0], s, c0, 48, r);
      }
      var m4 := Attach(m3, r, false, c0);
      if c1 != 0 {
        WriteLink(m0, m4, s, r, 40, c1);
        WriteLink(m0, m4[r + 40 := c1], s, c1, 48, r);
      }
    }
  }

  /** A child root of the subtree at p: a node of the tree other than x, and
      away from it. */
  lemma ChildAway(m: Memory, s: set<int>, least: int, x: int, c: Tree, parent: int, idx: int)
    requires TreeAt(m, c, parent, idx) && Nodes(c) <= s && x in s && x !in Nodes(c) && Spread(s) && AtLeast(s, least)
    ensures Root(c) != 0 ==> Root(c) >= least && Away(Root(c), x) && Root(c) in s
  {
    RootIn(m, c, parent, idx);
  }

  lemma AwayFrom(s: set<int>, least: int, x: int, y: int)
    requires Spread(s) && AtLeast(s, least) && x in s && y in s && x != y
    ensures Away(x, y) && y >= least
  {
  }

  /** The last step of a path, false for the empty one. */
  ghost function LastOf(p: Path): bool {
    p != [] && p[|p| - 1]
  }

  lemma PlaceIntro(m: Memory, m1: Memory, h: Layout, t: Tree, slot: int, idx: nat, p: Path, c0: Tree, c1: Tree, r: int,
                   least: int)
    requires BinAt(m, h, t, slot, idx) && Valid(t, p) && Sub(t, p).Node? && AtLeast(Nodes(t), least)
             && OnlyLinks(m, m1, Nodes(t))
    requires var x := Root(Sub(t, p));
             && TreeAt(m1, c0, x, idx) && Nodes(c0) <= Nodes(t) && x !in Nodes(c0) && Word(m1, x + 32) == Root(c0)
             && TreeAt(m1, c1, x, idx) && Nodes(c1) <= Nodes(t) && x !in Nodes(c1) && Word(m1, x + 40) == Root(c1)
             && (r != 0 ==> r in Nodes(t) && r != x)
    requires p != [] ==> Word(m1, ParentOf(t, slot, p) + 32) == Word(m, ParentOf(t, slot, p) + 32)
    ensures var x, xp := Root(Sub(t, p)), ParentOf(t, slot, p);
            && xp != 0
            && PlaceOk(m1, Root(t), x, xp, r, least, p == [], LastOf(p), Root(c0), Root(c1))
            && OnlyLinks(m, Placed(m1, xp, r, p == [], LastOf(p), Root(c0), Root(c1)), Nodes(t))
            && (p != [] ==> Slot(t, p) == xp + ChildOffset(LastOf(p)))
  {
    hide Sized, Tries.Distinct, Ring, BinLow, BinBits, OnlyLinks, Placed, Spread, AtLeast, TreeAt, NodeAt, HeadsGive,
      Nodes;
    var x, xp := Root(Sub(t, p)), ParentOf(t, slot, p);
    WhichSlot(m, h, t, slot, idx, p);
    SubNodes(t, p);
    ChildAway(m1, Nodes(t), least, x, c0, x, idx);
    ChildAway(m1, Nodes(t), least, x, c1, x, idx);
    if r != 0 { AwayFrom(Nodes(t), least, x, r); }
    if p != [] { AwayFrom(Nodes(t), least, x, xp); }
    PlacedLinks(m, m1, Nodes(t), xp, r, p == [], LastOf(p), Root(c0), Root(c1));
  }

  lemma HeadPlace(m: Memory, h: Layout, t: Tree, slot: int, idx: nat, p: Path, f: int, b: int, least: int)
    requires BinAt(m, h, t, slot, idx) && Valid(t, p) && Sub(t, p).Node? && |Sub(t, p).ring| > 1
             && AtLeast(Nodes(t), least)
    requires f == Word(m, Root(Sub(t, p)) + 16) && b == Word(m, Root(Sub(t, p)) + 24)
    ensures var u, xp := Sub(t, p), ParentOf(t, slot, p);
            && xp != 0 && b != 0
            && PlaceOk(Unlink(m, f, b), Root(t), Root(u), xp, b, least, p == [], LastOf(p), Root(u.left), Root(u.right))
            && OnlyLinks(m, Placed(Unlink(m, f, b), xp, b, p == [], LastOf(p), Root(u.left), Root(u.right)), Nodes(t))
            && (p != [] ==> Slot(t, p) == xp + ChildOffset(LastOf(p)))
  {
    hide BinAt, Sized, Ring, BinLow, BinBits, Unlink, OnlyLinks, Placed, AtLeast, Low, PlaceOk, Tries.Distinct, Spread,
      Nodes;
    var u, xp := Sub(t, p), ParentOf(t, slot, p);
    var x := Root(u);
    AtSub(m, h, t, slot, idx, p);
    Neighbours(m, u, xp, idx, 0);
    HeadNotSelf(m, u, xp, idx, f, b);
    assert f in Elements(u.ring) && b in Elements(u.ring) && x in Elements(u.ring);
    RingAway(u.ring, f, x);
    RingAway(u.ring, b, x);
    UnlinkSame(m, f, b, x);
    NodesOf(u);
    DistinctParts(u);
    ChainSubtrees(m, u, xp, idx, f, b);
    UnlinkLinks(m, Nodes(t), f, b);
    if p != [] {
      WhichSlot(m, h, t, slot, idx, p);
      ParentOutside(m, t, slot, idx, p);
      ChainFrame(m, Unlink(m, f, b), t, slot, idx, p, f, b);
    }
    PlaceIntro(m, Unlink(m, f, b), h, t, slot, idx, p, u.left, u.right, b, least);
  }

  lemma ParentOutside(m: Memory, t: Tree, slot: int, idx: nat, p: Path)
    requires TreeAt(m, t, slot, idx) && Tries.Distinct(t) && Valid(t, p) && p != []
    ensures ParentOf(t, slot, p) in Nodes(t) && ParentOf(t, slot, p) !in Nodes(Sub(t, p))
    decreases |p|
  {
    SlotOutside(m, t, slot, idx, p);
    ParentIsOwner(t, slot, p);
  }

  lemma {:induction false} ParentIsOwner(t: Tree, slot: int, p: Path)
    requires Valid(t, p) && p != []
    ensures ParentOf(t, slot, p) == Owner(t, p)
    decreases |p|
  {
    if |p| > 1 {
      ParentIsOwner(Child(t, p[0]), Root(t), p[1..]);
    }
  }

  lemma DistinctParts(u: Tree)
    requires Tries.Distinct(u) && u.Node? && u.ring != []
    ensures u.ring[0] !in Nodes(u.left) && u.ring[0] !in Nodes(u.right)
  {
    assert u.ring[0] in Elements(u.ring);
  }

  lemma HeadNotSelf(m: Memory, u: Tree, parent: int, idx: int, f: int, b: int)
    requires NodeAt(m, u, parent, idx) && |u.ring| > 1
    requires f == Word(m, u.ring[0] + 16) && b == Word(m, u.ring[0] + 24)
    ensures f != u.ring[0] && b != u.ring[0]
  {
    assert Linked(m, u.ring, 0);
  }

  lemma LeafPlace(m: Memory, h: Layout, t: Tree, slot: int, idx: nat, p: Path, least: int)
    requires BinAt(m, h, t, slot, idx) && Valid(t, p) && Sub(t, p).Node? && AtLeast(Nodes(t), least)
    requires Sub(t, p).left.Nil? && Sub(t, p).right.Nil?
    ensures var xp := ParentOf(t, slot, p);
            && xp != 0
            && PlaceOk(m, Root(t), Root(Sub(t, p)), xp, 0, least, p == [], LastOf(p), 0, 0)
            && OnlyLinks(m, Placed(m, xp, 0, p == [], LastOf(p), 0, 0), Nodes(t))
            && (p != [] ==> Slot(t, p) == xp + ChildOffset(LastOf(p)))
  {
    hide BinAt, Sized, Ring, BinLow, BinBits, OnlyLinks, Placed, AtLeast, Low, PlaceOk, Tries.Distinct, Spread;
    AtSub(m, h, t, slot, idx, p);
    OnlyLinksRefl(m, Nodes(t));
    PlaceIntro(m, m, h, t, slot, idx, p, Nil, Nil, 0, least);
  }

  /** What holds once the leaf at q has been cut off below x. */
  lemma InteriorCut(m: Memory, m1: Memory, h: Layout, u: Tree, parent: int, idx: int, lo: int, k: nat, q: Path)
    requires TreeAt(m, u, parent, idx) && Tries.Distinct(u) && Spread(Nodes(u)) && Sized(h, u, lo, k)
    requires u.Node? && |u.ring| == 1 && Valid(u, q) && q != [] && Sub(u, q).Node?
    requires Sub(u, q).left.Nil? && Sub(u, q).right.Nil?
    requires m1 == m[Slot(u, q) := 0]
    ensures var s, x := Promoted(u, q), Root(u);
            && s.ring != [] && Nodes(s) == Nodes(u) - {x} && x !in Nodes(s) && Root(s) in Nodes(u) && Root(s) != x
            && TreeAt(m1, s.left, x, idx) && Word(m1, x + 32) == Root(s.left) && Nodes(s.left) <= Nodes(s)
            && TreeAt(m1, s.right, x, idx) && Word(m1, x + 40) == Root(s.right) && Nodes(s.right) <= Nodes(s)
            && Slot(u, q) == Owner(u, q) + ChildOffset(q[|q| - 1]) && Owner(u, q) in Nodes(u)
  {
    hide Tries.Distinct, Spread, Sized;
    var s := Promoted(u, q);
    SubSized(h, u, lo, k, q);
    PromotedNodes(h, u, lo, k, q);
    PromotedReady(m, u, parent, idx, q);
    LeafDetached(m, u, parent, idx, q);
    SlotOutside(m, u, parent, idx, q);
    NodesOf(s);
    assert s.ring[0] in Elements(s.ring);
  }

  lemma InteriorPlace(m: Memory, m1: Memory, h: Layout, t: Tree, slot: int, idx: nat, p: Path, q: Path, least: int)
    requires BinAt(m, h, t, slot, idx) && Valid(t, p) && Sub(t, p).Node? && |Sub(t, p).ring| == 1
             && AtLeast(Nodes(t), least)
    requires Valid(Sub(t, p), q) && q != [] && Sub(Sub(t, p), q).Node?
    requires Sub(Sub(t, p), q).left.Nil? && Sub(Sub(t, p), q).right.Nil?
    requires m1 == m[Slot(Sub(t, p), q) := 0]
    ensures var s, xp := Promoted(Sub(t, p), q), ParentOf(t, slot, p);
            && xp != 0 && Slot(Sub(t, p), q) >= least
            && PlaceOk(m1, Root(t), Root(Sub(t, p)), xp, Root(s), least, p == [], LastOf(p), Root(s.left),
            Root(s.right))
            && OnlyLinks(m, Placed(m1, xp, Root(s), p == [], LastOf(p), Root(s.left), Root(s.right)), Nodes(t))
            && (p != [] ==> Slot(t, p) == xp + ChildOffset(LastOf(p)))
  {
    hide BinAt, Sized, Ring, BinLow, BinBits, OnlyLinks, Placed, Low, PlaceOk, Tries.Distinct, Spread, TreeAt, NodeAt,
      Nodes;
    var u, xp := Sub(t, p), ParentOf(t, slot, p);
    var lo, k := BinLow(idx), BinBits(idx);
    var s := Promoted(u, q);
    AtSub(m, h, t, slot, idx, p);
    InteriorCut(m, m1, h, u, xp, idx, Low(lo, k, p), k - |p|, q);
    OnlyLinksRefl(m, Nodes(t));
    WriteLink(m, m, Nodes(t), Owner(u, q), ChildOffset(q[|q| - 1]), 0);
    if p != [] {
      ParentOutside(m, t, slot, idx, p);
      PromotedFrame(m, t, slot, idx, p, q);
    }
    PlaceIntro(m, m1, h, t, slot, idx, p, s.left, s.right, Root(s), least);
  }

  // ---------------------------------------------------- what the cases have in common

  /** The subtree at p may be replaced by s, which lacks just x. */
  ghost predicate Taken(m0: Memory, m: Memory, h: Layout, t: Tree, slot: int, idx: nat, p: Path, s: Tree, x: int) {
    && Replaceable(m0, m, h, t, slot, idx, p, s) && OnlyLinks(m0, m, Nodes(t))
    && Valid(t, p) && x in Nodes(Sub(t, p)) && Nodes(s) == Nodes(Sub(t, p)) - {x}
  }

  ghost function Kid(s: Tree, b: bool): int {
    if s.Nil? then 0 else Root(Child(s, b))
  }

  /** What the first half of unlink_large_chunk leaves to the second: with no
      parent x is gone already, and with one r is to take its place. */
  ghost predicate Cut(m0: Memory, m1: Memory, h: Layout, t: Tree, slot: int, idx: nat, p: Path, s: Tree, x: int,
                      xp: int, r: int, least: int) {
    Valid(t, p) &&
    if xp == 0 then Taken(m0, m1, h, t, slot, idx, p, s, x) && Root(s) == Root(Sub(t, p))
    else
      && r == Root(s) && PlaceOk(m1, Root(t), x, xp, r, least, p == [], LastOf(p), Kid(s, false), Kid(s, true))
      && Taken(m0, Placed(m1, xp, r, p == [], LastOf(p), Kid(s, false), Kid(s, true)), h, t, slot, idx, p, s, x)
  }

  /** x is a member of a ring behind its head. */
  lemma CutChain(m0: Memory, h: Layout, t: Tree, slot: int, idx: nat, p: Path, j: nat, f: int, b: int, least: int)
    requires BinAt(m0, h, t, slot, idx) && Valid(t, p) && Sub(t, p).Node? && 1 <= j < |Sub(t, p).ring|
    requires f == Word(m0, Sub(t, p).ring[j] + 16) && b == Word(m0, Sub(t, p).ring[j] + 24)
    ensures Cut(m0, Unlink(m0, f, b), h, t, slot, idx, p, ShorterRing(Sub(t, p), j), Sub(t, p).ring[j], 0, b, least)
  {
    hide BinAt, Unlink, Replaceable, Nodes, OnlyLinks, TreeAt, NodeAt, Sized, Spread, Tries.Distinct, Sub, Valid;
    ChainedUnlinked(m0, h, t, slot, idx, p, j, f, b);
    AtSub(m0, h, t, slot, idx, p);
    Neighbours(m0, Sub(t, p), ParentOf(t, slot, p), idx, j);
    RingNodes(Sub(t, p), f);
    RingNodes(Sub(t, p), b);
    RingNodes(Sub(t, p), Sub(t, p).ring[j]);
    UnlinkLinks(m0, Nodes(t), f, b);
  }

  lemma RingNodes(u: Tree, f: int)
    requires u.Node? && f in u.ring
    ensures f in Nodes(u)
  {
  }

  /** x is the head of a ring with more members. */
  lemma CutHead(m0: Memory, h: Layout, t: Tree, slot: int, idx: nat, p: Path, f: int, b: int, least: int)
    requires BinAt(m0, h, t, slot, idx) && Valid(t, p) && Sub(t, p).Node? && |Sub(t, p).ring| > 1
             && AtLeast(Nodes(t), least)
    requires f == Word(m0, Root(Sub(t, p)) + 16) && b == Word(m0, Root(Sub(t, p)) + 24)
    ensures Cut(m0, Unlink(m0, f, b), h, t, slot, idx, p, ShorterRing(Sub(t, p), 0), Root(Sub(t, p)),
            ParentOf(t, slot, p), b, least)
  {
    hide BinAt, Unlink, Relink, Replaceable, Nodes, OnlyLinks, AtLeast, PlaceOk, Sub, Valid;
    var u, xp := Sub(t, p), ParentOf(t, slot, p);
    HeadPlace(m0, h, t, slot, idx, p, f, b, least);
    var m1 := Unlink(m0, f, b);
    var m := Placed(m1, xp, b, p == [], LastOf(p), Root(u.left), Root(u.right));
    HeadUnlinked(m0, if p == [] then m1 else m1[Slot(t, p) := b], m, h, t, slot, idx, p, f, b);
    RingNodes(u, Root(u));
  }

  /** x is an interior node, and its rightmost leaf at q takes its place. */
  lemma CutInterior(m0: Memory, h: Layout, t: Tree, slot: int, idx: nat, p: Path, q: Path, least: int)
    requires BinAt(m0, h, t, slot, idx) && Valid(t, p) && Sub(t, p).Node? && |Sub(t, p).ring| == 1
             && AtLeast(Nodes(t), least)
    requires Valid(Sub(t, p), q) && q != [] && Sub(Sub(t, p), q).Node? && Root(Sub(Sub(t, p), q)) != 0
    requires Sub(Sub(t, p), q).left.Nil? && Sub(Sub(t, p), q).right.Nil?
    ensures Slot(Sub(t, p), q) >= least
    ensures var r := Root(Sub(Sub(t, p), q));
            Cut(m0, m0[Slot(Sub(t, p), q) := 0], h, t, slot, idx, p, Promoted(Sub(t, p), q), Root(Sub(t, p)),
              ParentOf(t, slot, p), r, least)
  {
    hide BinAt, Relink, Replaceable, Nodes, OnlyLinks, AtLeast, PlaceOk, Sub, Valid, Put;
    var u, xp := Sub(t, p), ParentOf(t, slot, p);
    var r, m1, s := Root(Sub(u, q)), m0[Slot(u, q) := 0], Promoted(u, q);
    InteriorPlace(m0, m1, h, t, slot, idx, p, q, least);
    var m := Placed(m1, xp, r, p == [], LastOf(p), Root(s.left), Root(s.right));
    InteriorUnlinked(m0, m1, if p == [] then m1 else m1[Slot(t, p) := r], m, h, t, slot, idx, p, q);
    RingNodes(u, Root(u));
  }

  /** x is a leaf. */
  lemma CutLeaf(m0: Memory, h: Layout, t: Tree, slot: int, idx: nat, p: Path, least: int)
    requires BinAt(m0, h, t, slot, idx) && Valid(t, p) && Sub(t, p).Node? && |Sub(t, p).ring| == 1
             && AtLeast(Nodes(t), least)
    requires Sub(t, p).left.Nil? && Sub(t, p).right.Nil?
    ensures Cut(m0, m0, h, t, slot, idx, p, Nil, Root(Sub(t, p)), ParentOf(t, slot, p), 0, least)
  {
    hide BinAt, Replaceable, OnlyLinks, AtLeast, PlaceOk, Sub, Valid, Nodes;
    LeafPlace(m0, h, t, slot, idx, p, least);
    var m := Placed(m0, ParentOf(t, slot, p), 0, p == [], LastOf(p), 0, 0);
    LeafUnlinked(m0, m, h, t, slot, idx, p);
    SingleLeaf(Sub(t, p));
  }

  /** The first half of unlink_large_chunk. */
  method Detach(m0: Memory, x: int, least: int, ghost h: Layout, ghost t: Tree, ghost slot: int, ghost idx: nat,
                ghost p: Path, ghost j: nat)
    returns (m: Memory, r: int, ghost s: Tree)
    requires BinAt(m0, h, t, slot, idx) && Valid(t, p) && Sub(t, p).Node? && j < |Sub(t, p).ring|
             && x == Sub(t, p).ring[j]
    requires 0 < least && AtLeast(Nodes(t), least)
    ensures Cut(m0, m, h, t, slot, idx, p, s, x, Word(m0, x + 48), r, least)
  {
    hide BinAt, Cut, Sub, Valid, Nodes, TreeAt, NodeAt, AtLeast, Sized, Spread, Tries.Distinct, Promoted, ShorterRing;
    ghost var u, parent := Sub(t, p), ParentOf(t, slot, p);
    AtSub(m0, h, t, slot, idx, p);
    Neighbours(m0, u, parent, idx, j);
    HeadOnly(m0, u, parent, idx, j);
    m := m0;
    var f;
    f, r := Word(m, x + 16), Word(m, x + 24);
    InTree(u, Nodes(t), least, f);
    InTree(u, Nodes(t), least, r);
    if r != x {
      if j == 0 { CutHead(m0, h, t, slot, idx, p, f, r, least);
        } else { CutChain(m0, h, t, slot, idx, p, j, f, r, least); }
      if f >= least && Word(m, f + 24) == x && Word(m, r + 16) == x {
        m := m[f + 24 := r][r + 16 := f];
      } else {
        assert false;
      }
      s := ShorterRing(u, j);
    } else {
      var rp;
      ghost var q;
      r, rp, q := RightmostLeaf(m, x, u, parent, idx);
      if r != 0 {
        CutInterior(m0, h, t, slot, idx, p, q, least);
        if rp >= least {
          m := m[rp := 0];
        } else {
          assert false;
        }
        s := Promoted(u, q);
      } else {
        CutLeaf(m0, h, t, slot, idx, p, least);
        s := Nil;
      }
    }
  }

  /** unlink_large_chunk: the bin loses exactly the chunk x, whatever its place
      in the trie. */
  method UnlinkLarge(m0: Memory, root: int, slot: int, idx: nat, x: int, least: int, ghost h: Layout, ghost t: Tree)
    returns (m: Memory, root': int, ghost t': Tree)
    requires BinAt(m0, h, t, slot, idx) && root == Root(t) && x in Nodes(t)
    requires 0 < least && AtLeast(Nodes(t), least)
    ensures BinAt(m, h, t', slot, idx)
    ensures root' == Root(t') && Nodes(t') == Nodes(t) - {x}
    ensures OnlyLinks(m0, m, Nodes(t))
  {
    hide BinAt, Nodes, AtLeast, PlaceOk, Placed, Put, Sub, Valid, OnlyLinks, Replaceable;
    ghost var p := Find(t, x);
    ghost var j := RingIndex(Sub(t, p).ring, x);
    var xp := Word(m0, x + 48);
    var r;
    ghost var s;
    m, r, s := Detach(m0, x, least, h, t, slot, idx, p, j);
    root' := root;
    if xp != 0 {
      m, root' := TakePlace(m, root, x, xp, r, least, p == [], LastOf(p), Kid(s, false), Kid(s, true));
    }
    t' := Put(t, p, s);
    SwappedBin(m0, m, h, t, slot, idx, p, s, x);
    PutRoot(t, p, s);
    WholeSub(t, p);
  }

  lemma WholeSub(t: Tree, p: Path)
    ensures p == [] ==> Sub(t, p) == t
  {
  }

  lemma SingleLeaf(u: Tree)
    requires u.Node? && |u.ring| == 1 && u.left.Nil? && u.right.Nil?
    ensures Nodes(u) == {u.ring[0]} && Nodes(Nil) == {}
  {
    assert Elements(u.ring) == {u.ring[0]};
  }

  lemma InTree(u: Tree, s: set<int>, least: int, f: int)
    requires u.Node? && f in u.ring && Elements(u.ring) <= s && AtLeast(s, least)
    ensures f >= least && f in s
  {
    assert f in Elements(u.ring);
  }

  /** Only the head of a ring has a parent. */
  lemma HeadOnly(m: Memory, u: Tree, parent: int, idx: int, j: nat)
    requires NodeAt(m, u, parent, idx) && j < |u.ring|
    ensures j == 0 ==> Word(m, u.ring[j] + 48) == parent
    ensures j > 0 ==> Word(m, u.ring[j] + 48) == 0
  {
  }
}
