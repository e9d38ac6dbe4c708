/** Operations on one tree bin: inserting and unlinking a large chunk
    (components/common/dlmalloc/malloc.c, lines 3651 to 3791). */
module TreeBins {
  import opened Words
  import opened Bits
  import opened Rings
  import opened Tiling
  import opened Tags
  import opened Tries
  import opened BinIndex
  import opened TrieBits

  /** Tree t is the content of bin idx: laid out in memory under the bin's
      slot, a trie over the bin's range of sizes, with heads that give the
      sizes. */
  ghost predicate BinAt(m: Memory, h: Layout, t: Tree, slot: int, idx: nat) {
    && slot != 0 && idx < NTREEBINS
    && TreeAt(m, t, slot, idx)
    && Sized(h, t, BinLow(idx), BinBits(idx))
    && Spread(Nodes(t))
    && HeadsGive(m, h, Nodes(t))
  }

  ghost predicate HeadsGive(m: Memory, h: Layout, s: set<int>) {
    forall y :: y in s ==> y in h && ChunkSize(Word(m, y + 8)) == h[y].size
  }

  /** Address a is a link field of one of the chunks in s. */
  ghost predicate Within(s: set<int>, a: int) {
    exists y :: y in s && y + 16 <= a < y + 64
  }

  /** Only link fields of the chunks in s have changed. */
  ghost predicate OnlyLinks(m: Memory, m': Memory, s: set<int>) {
    forall a {:trigger Word(m', a)} :: Word(m', a) == Word(m, a) || Within(s, a)
  }

  lemma OnlyLinksHeads(m: Memory, m': Memory, h: Layout, s: set<int>)
    requires OnlyLinks(m, m', s) && Spread(s) && HeadsGive(m, h, s)
    ensures HeadsGive(m', h, s)
  {
    forall y | y in s
      ensures Word(m', y + 8) == Word(m, y + 8)
    {
      assert !Within(s, y + 8);
    }
  }

  lemma WriteLink(m: Memory, m': Memory, s: set<int>, y: int, o: int, v: int)
    requires OnlyLinks(m, m', s) && y in s && 16 <= o < 64
    ensures OnlyLinks(m, m'[y + o := v], s)
  {
    forall a
      ensures Word(m'[y + o := v], a) == Word(m, a) || Within(s, a)
    {
      assert Word(m', a) == Word(m, a) || Within(s, a);
    }
  }

  lemma OnlyLinksRefl(m: Memory, s: set<int>)
    ensures OnlyLinks(m, m, s)
  {
  }

  // ----------------------------------------------------------- insertion

  /** A chunk alone in its ring, without children, is a tree by itself. */
  lemma SingleAt(m: Memory, x: int, parent: int, idx: int)
    requires x > 0
    requires Word(m, x + 16) == x && Word(m, x + 24) == x
    requires Word(m, x + 32) == 0 && Word(m, x + 40) == 0 && Word(m, x + 48) == parent && Word(m, x + 56) == idx
    ensures TreeAt(m, Node([x], Nil, Nil), parent, idx)
  {
    var t := Node([x], Nil, Nil);
    assert Linked(m, [x], 0);
    assert Ring(m, [x]);
    assert NodeAt(m, t, parent, idx);
  }

  lemma SingleSized(h: Layout, x: int, lo: int, k: nat)
    requires x in h && lo <= h[x].size < lo + Pow2(k)
    ensures Sized(h, Node([x], Nil, Nil), lo, k)
    ensures Nodes(Node([x], Nil, Nil)) == {x}
  {
    var t := Node([x], Nil, Nil);
    assert Nodes(Nil) == {};
    assert t.ring == [x] && SameSize(h, t.ring, h[x].size);
    assert Avoids(h, Nil, h[x].size);
    assert Elements([x]) == {x};
    if k > 0 {
      assert Sized(h, Nil, lo, k - 1) && Sized(h, Nil, lo + Pow2(k - 1), k - 1);
    }
  }

  /** The subtree at p may be replaced by s: sizes, and layout in m'. */
  ghost predicate Replaceable(m: Memory, m': Memory, h: Layout, t: Tree, slot: int, idx: nat, p: Path, s: Tree) {
    && Valid(t, p) && |p| <= BinBits(idx)
    && Sized(h, s, Low(BinLow(idx), BinBits(idx), p), BinBits(idx) - |p|)
    && (forall x :: x in Nodes(s) ==> x in h && h[x].size !in PathSizes(h, t, p))
    && TreeAt(m', s, ParentOf(t, slot, p), idx)
    && (p != [] ==> Word(m', Slot(t, p)) == Root(s))
    && (forall y :: y in Nodes(t) && y !in Nodes(Sub(t, p)) ==> SameBut(m, m', y, if p == [] then 0 else Slot(t, p)))
  }

  /** Replacing the subtree at p by s. */
  lemma BinReplaced(m: Memory, m': Memory, h: Layout, t: Tree, slot: int, idx: nat, p: Path, s: Tree)
    requires BinAt(m, h, t, slot, idx) && Replaceable(m, m', h, t, slot, idx, p, s)
    requires Spread(Nodes(t) + Nodes(s)) && HeadsGive(m', h, Nodes(t) + Nodes(s))
    ensures BinAt(m', h, Put(t, p, s), slot, idx)
    ensures Nodes(Put(t, p, s)) == Nodes(t) - Nodes(Sub(t, p)) + Nodes(s)
  {
    var lo, k := BinLow(idx), BinBits(idx);
    SizedDistinct(h, t, lo, k);
    PutNodes(t, p, s);
    Subsets(m', h, Nodes(Put(t, p, s)), Nodes(t) + Nodes(s));
    Subsets(m', h, Nodes(t), Nodes(t) + Nodes(s));
    hide BinLow, BinBits, NodeAt, SameBut, Word, TreeAt, Sized, Nodes, Spread, HeadsGive;
    PutSized(h, t, lo, k, p, s);
    PutAt(m, m', t, slot, idx, p, s);
  }

  lemma Subsets(m: Memory, h: Layout, a: set<int>, b: set<int>)
    requires a <= b && Spread(b) && HeadsGive(m, h, b)
    ensures Spread(a) && HeadsGive(m, h, a)
  {
  }

  /** A chunk of the same size joins the ring of a node. */
  lemma JoinSized(h: Layout, u: Tree, lo: int, k: nat, x: int)
    requires Sized(h, u, lo, k) && u.Node? && x in h && h[x].size == h[u.ring[0]].size
    ensures Sized(h, Node([u.ring[0], x] + u.ring[1..], u.left, u.right), lo, k)
    ensures Nodes(Node([u.ring[0], x] + u.ring[1..], u.left, u.right)) == Nodes(u) + {x}
  {
    var r := [u.ring[0], x] + u.ring[1..];
    assert forall y :: y in r <==> y == x || y in u.ring;
    assert Elements(r) == Elements(u.ring) + {x};
  }

  ghost predicate Away(a: int, b: int) {
    a + 64 <= b || b + 64 <= a
  }

  /** Linking x in touches only the links of the three nodes involved. */
  lemma LinkSame(m: Memory, y: int, x: int, f: int, z: int)
    requires (y == z || Away(y, z)) && (f == z || Away(f, z)) && (x == z || Away(x, z))
    ensures SameOn(m, Link(m, y, x, f), z + 32, z + 64)
    ensures y != z && f != z && x != z ==> SameOn(m, Link(m, y, x, f), z + 16, z + 64)
  {
  }

  /** What linking x in leaves in the other fields of a ring member. */
  lemma JoinField(m: Memory, u: Tree, parent: int, idx: int, x: int, f: int, z: int)
    requires NodeAt(m, u, parent, idx) && Spread(Elements(u.ring) + {x}) && f in u.ring && (z in u.ring || z == x)
    ensures var m1 := Link(m, u.ring[0], x, f);
            && SameOn(m1, m1[x + 48 := 0], z + 16, z + 32)
            && (z != x ==> SameOn(m, m1[x + 48 := 0], z + 32, z + 64))
            && (z == x ==> SameOn(m, m1[x + 48 := 0], x + 32, x + 48) && SameOn(m, m1[x + 48 := 0], x + 56, x + 64))
  {
    JoinAway(u, x, u.ring[0], z);
    JoinAway(u, x, f, z);
    JoinAway(u, x, x, z);
    LinkSame(m, u.ring[0], x, f, z);
  }

  lemma JoinRing(m: Memory, u: Tree, parent: int, idx: int, x: int, f: int)
    requires NodeAt(m, u, parent, idx) && x !in u.ring && Spread(Elements(u.ring) + {x})
    requires f == Word(m, u.ring[0] + 16)
    ensures f in u.ring
    ensures Ring(Link(m, u.ring[0], x, f)[x + 48 := 0], [u.ring[0], x] + u.ring[1..])
  {
    var m1 := Link(m, u.ring[0], x, f);
    var ring := [u.ring[0], x] + u.ring[1..];
    forall k | 0 <= k < |u.ring|
      ensures x + 8 != u.ring[k] && u.ring[k] + 8 != x
    {
      JoinAway(u, x, u.ring[k], x);
    }
    RingInsert(m, u.ring, x);
    assert Linked(m, u.ring, 0);
    assert f in u.ring;
    hide Link, Ring, Spread;
    forall k | 0 <= k < |ring|
      ensures SameOn(m1, m1[x + 48 := 0], ring[k] + 16, ring[k] + 32)
    {
      JoinField(m, u, parent, idx, x, f, ring[k]);
    }
    RingFrame(m1, m1[x + 48 := 0], ring);
  }

  lemma JoinNode(m: Memory, u: Tree, parent: int, idx: int, x: int, f: int)
    requires NodeAt(m, u, parent, idx) && x !in u.ring && Spread(Elements(u.ring) + {x}) && x > 0
    requires Word(m, x + 32) == 0 && Word(m, x + 40) == 0 && Word(m, x + 56) == idx
    requires f == Word(m, u.ring[0] + 16)
    ensures f in u.ring
    ensures NodeAt(Link(m, Root(u), x, f)[x + 48 := 0], Node([u.ring[0], x] + u.ring[1..], u.left, u.right), parent,
            idx)
  {
    var y := u.ring[0];
    var m2 := Link(m, y, x, f)[x + 48 := 0];
    var ring := [y, x] + u.ring[1..];
    JoinRing(m, u, parent, idx, x, f);
    hide Link, Ring, Spread;
    JoinField(m, u, parent, idx, x, f, y);
    JoinField(m, u, parent, idx, x, f, x);
    assert Word(m2, x + 48) == 0 && Chained(m2, x);
    forall k | 2 <= k < |ring|
      ensures ring[k] > 0 && Chained(m2, ring[k]) && Word(m2, ring[k] + 56) == idx
    {
      assert ring[k] == u.ring[k - 1];
      JoinField(m, u, parent, idx, x, f, ring[k]);
    }
  }

  lemma JoinAway(u: Tree, x: int, a: int, z: int)
    requires u.Node? && Spread(Elements(u.ring) + {x})
    requires (a in u.ring || a == x) && (z in u.ring || z == x)
    ensures a == z || Away(a, z)
  {
    var s := Elements(u.ring) + {x};
    assert a in s && z in s;
  }

  /** The links of the ring, written. */
  lemma JoinAt(m: Memory, u: Tree, parent: int, idx: int, x: int)
    requires TreeAt(m, u, parent, idx) && u.Node? && Tries.Distinct(u)
    requires x !in Nodes(u) && Spread(Nodes(u) + {x}) && x > 0
    requires Word(m, x + 32) == 0 && Word(m, x + 40) == 0 && Word(m, x + 56) == idx
    ensures TreeAt(Link(m, Root(u), x, Word(m, Root(u) + 16))[x + 48 := 0],
                   Node([u.ring[0], x] + u.ring[1..], u.left, u.right), parent, idx)
  {
    var y, f := Root(u), Word(m, Root(u) + 16);
    var m1 := Link(m, y, x, f);
    var m2 := m1[x + 48 := 0];
    NodesOf(u);
    assert x !in Elements(u.ring);
    assert Spread(Elements(u.ring) + {x}) by { assert Elements(u.ring) + {x} <= Nodes(u) + {x}; }
    JoinNode(m, u, parent, idx, x, f);
    var s := Nodes(u) + {x};
    assert y in Elements(u.ring) && f in Elements(u.ring);
    hide Link, NodeAt;
    forall z | z in Nodes(u.left) || z in Nodes(u.right)
      ensures SameOn(m, m2, z + 16, z + 64)
    {
      assert z in s && y in s && f in s && x in s;
      assert y != z && f != z && x != z;
      LinkSame(m, y, x, f, z);
      FieldApart(m1, x, 48, 0, z);
    }
    TreeFrame(m, m2, u.left, y, idx);
    TreeFrame(m, m2, u.right, y, idx);
  }

  /** Every chunk of s is at or above the least address. */
  ghost predicate AtLeast(s: set<int>, least: int) {
    forall y :: y in s ==> y >= least
  }

  /** The writes that make x a leaf below y. */
  function AddLeaf(m: Memory, y: int, b: bool, x: int): Memory {
    m[y + ChildOffset(b) := x][x + 48 := y][x + 16 := x][x + 24 := x]
  }

  lemma LeafWords(m: Memory, y: int, b: bool, x: int)
    requires Away(x, y)
    ensures var m' := AddLeaf(m, y, b, x);
            && Word(m', x + 16) == x && Word(m', x + 24) == x && Word(m', x + 48) == y
            && Word(m', x + 32) == Word(m, x + 32) && Word(m', x + 40) == Word(m, x + 40)
            && Word(m', x + 56) == Word(m, x + 56)
            && Word(m', y + ChildOffset(b)) == x
    ensures forall z :: (z == y || Away(z, y)) && Away(z, x) ==> SameBut(m, AddLeaf(m, y, b, x), z, y + ChildOffset(b))
  {
  }

  lemma LeafMemory(m: Memory, m': Memory, ns: set<int>, idx: nat, y: int, b: bool, x: int)
    requires y in ns && x !in ns && Spread(ns + {x}) && x > 0
    requires Word(m, x + 32) == 0 && Word(m, x + 40) == 0 && Word(m, x + 56) == idx
    requires m' == AddLeaf(m, y, b, x)
    ensures TreeAt(m', Node([x], Nil, Nil), y, idx) && Word(m', y + ChildOffset(b)) == x
    ensures forall z :: z in ns ==> SameBut(m, m', z, y + ChildOffset(b))
  {
    var s := ns + {x};
    assert x in s && y in s;
    LeafWords(m, y, b, x);
    SingleAt(m', x, y, idx);
    forall z | z in ns
      ensures SameBut(m, m', z, y + ChildOffset(b))
    {
      assert z in s;
    }
  }

  lemma LeafInserted(m: Memory, m': Memory, h: Layout, t: Tree, slot: int, idx: nat, p: Path, b: bool, x: int)
    requires BinAt(m, h, t, slot, idx) && Valid(t, p) && Sub(t, p).Node? && Child(Sub(t, p), b).Nil?
             && |p| < BinBits(idx)
    requires x !in Nodes(t) && Spread(Nodes(t) + {x}) && HeadsGive(m', h, Nodes(t) + {x}) && x > 0
    requires Word(m, x + 32) == 0 && Word(m, x + 40) == 0 && Word(m, x + 56) == idx
    requires x in h
    requires var lo := Low(BinLow(idx), BinBits(idx), p + [b]); lo <= h[x].size < lo + Pow2(BinBits(idx) - |p| - 1)
    requires h[x].size !in PathSizes(h, t, p) && Root(Sub(t, p)) in h && h[x].size != h[Root(Sub(t, p))].size
    requires m' == AddLeaf(m, Root(Sub(t, p)), b, x)
    ensures Valid(t, p + [b])
    ensures BinAt(m', h, Put(t, p + [b], Node([x], Nil, Nil)), slot, idx)
    ensures Nodes(Put(t, p + [b], Node([x], Nil, Nil))) == Nodes(t) + {x}
  {
    hide AddLeaf, BinLow, BinBits, Word, SameBut, Spread, TreeAt, HeadsGive, Sized, Pow2, Low;
    var q, y := p + [b], Root(Sub(t, p));
    var lo, k := BinLow(idx), BinBits(idx);
    var n := Node([x], Nil, Nil);
    Snoc(h, t, slot, lo, k, p, b);
    assert Nodes(Sub(t, q)) == {};
    SubAt(m, t, slot, idx, p);
    RootIn(m, Sub(t, p), ParentOf(t, slot, p), idx);
    SubNodes(t, p);
    LeafMemory(m, m', Nodes(t), idx, y, b, x);
    SingleSized(h, x, Low(lo, k, q), k - |q|);
    assert Replaceable(m, m', h, t, slot, idx, q, n);
    BinReplaced(m, m', h, t, slot, idx, q, n);
  }

  function Joined(u: Tree, x: int): Tree
    requires u.Node? && u.ring != []
  {
    Node([u.ring[0], x] + u.ring[1..], u.left, u.right)
  }

  /** Linking x into the ring of u leaves every other node of the tree alone. */
  lemma JoinOutside(m: Memory, t: Tree, slot: int, idx: int, p: Path, x: int, f: int, z: int)
    requires TreeAt(m, t, slot, idx) && Valid(t, p) && Sub(t, p).Node? && Spread(Nodes(t) + {x})
    requires z in Nodes(t) && z !in Nodes(Sub(t, p)) && x !in Nodes(t) && f in Nodes(Sub(t, p))
             && Root(Sub(t, p)) in Nodes(Sub(t, p))
    ensures SameOn(m, Link(m, Root(Sub(t, p)), x, f)[x + 48 := 0], z + 16, z + 64)
  {
    var s, y := Nodes(t) + {x}, Root(Sub(t, p));
    SubNodes(t, p);
    assert z in s && y in s && f in s && x in s;
    LinkSame(m, y, x, f, z);
    FieldApart(Link(m, y, x, f), x, 48, 0, z);
  }

  lemma RingMember(m: Memory, u: Tree, parent: int, idx: int)
    requires TreeAt(m, u, parent, idx) && u.Node?
    ensures u.ring != [] && Root(u) in Nodes(u) && Word(m, Root(u) + 16) in Nodes(u)
  {
    assert Linked(m, u.ring, 0);
    assert u.ring[0] in Elements(u.ring) && Word(m, u.ring[0] + 16) in Elements(u.ring);
  }

  /** The field that points to p is a child field of a node outside the
      subtree at p. */
  lemma SlotOutside(m: Memory, t: Tree, slot: int, idx: int, p: Path)
    requires TreeAt(m, t, slot, idx) && Tries.Distinct(t) && Valid(t, p) && p != []
    ensures Owner(t, p) in Nodes(t) && Owner(t, p) !in Nodes(Sub(t, p))
    ensures Slot(t, p) == Owner(t, p) + ChildOffset(p[|p| - 1])
    decreases |p|
  {
    SlotOwner(m, t, slot, idx, p);
    var c := Child(t, p[0]);
    SubNodes(c, p[1..]);
    if |p| == 1 {
      assert t.ring[0] in Elements(t.ring);
    } else {
      SlotOutside(m, c, t.ring[0], idx, p[1..]);
    }
  }

  lemma RingMemory(m: Memory, m': Memory, t: Tree, slot: int, idx: nat, p: Path, x: int, f: int)
    requires TreeAt(m, t, slot, idx) && Tries.Distinct(t) && Valid(t, p) && Sub(t, p).Node? && Sub(t, p).ring != []
    requires Tries.Distinct(Sub(t, p))
    requires x !in Nodes(t) && Spread(Nodes(t) + {x}) && x > 0
    requires Word(m, x + 32) == 0 && Word(m, x + 40) == 0 && Word(m, x + 56) == idx
    requires f == Word(m, Root(Sub(t, p)) + 16) && m' == Link(m, Root(Sub(t, p)), x, f)[x + 48 := 0]
    ensures TreeAt(m', Joined(Sub(t, p), x), ParentOf(t, slot, p), idx)
    ensures p != [] ==> Word(m', Slot(t, p)) == Root(Sub(t, p))
    ensures forall z :: z in Nodes(t) && z !in Nodes(Sub(t, p)) ==> SameBut(m, m', z, if p == [] then 0 else Slot(t, p))
  {
    var u := Sub(t, p);
    SubAt(m, t, slot, idx, p);
    SubNodes(t, p);
    RingMember(m, u, ParentOf(t, slot, p), idx);
    assert Spread(Nodes(u) + {x}) by { assert Nodes(u) + {x} <= Nodes(t) + {x}; }
    hide Link, NodeAt, Spread;
    JoinAt(m, u, ParentOf(t, slot, p), idx, x);
    forall z | z in Nodes(t) && z !in Nodes(u)
      ensures SameOn(m, m', z + 16, z + 64)
    {
      JoinOutside(m, t, slot, idx, p, x, f, z);
    }
    if p != [] {
      SlotOutside(m, t, slot, idx, p);
      assert SameOn(m, m', Owner(t, p) + 16, Owner(t, p) + 64);
    }
  }

  lemma RingSizes(h: Layout, t: Tree, lo: int, k: nat, p: Path, x: int)
    requires Sized(h, t, lo, k) && Valid(t, p) && Sub(t, p).Node? && x in h
    requires Sub(t, p).ring != [] && Root(Sub(t, p)) in h && h[x].size == h[Root(Sub(t, p))].size
    ensures |p| <= k && Tries.Distinct(Sub(t, p)) && Tries.Distinct(t)
    ensures Sized(h, Joined(Sub(t, p), x), Low(lo, k, p), k - |p|)
    ensures Nodes(Joined(Sub(t, p), x)) == Nodes(Sub(t, p)) + {x} && Nodes(Sub(t, p)) <= Nodes(t)
    ensures forall z :: z in Nodes(Joined(Sub(t, p), x)) ==> z in h && h[z].size !in PathSizes(h, t, p)
  {
    hide Sized, PathSizes, Low;
    var u := Sub(t, p);
    SubSized(h, t, lo, k, p);
    SubNodes(t, p);
    SizedDistinct(h, t, lo, k);
    SizedDistinct(h, u, Low(lo, k, p), k - |p|);
    JoinSized(h, u, Low(lo, k, p), k - |p|, x);
    assert u.ring[0] in Elements(u.ring);
  }

  lemma RingReady(m: Memory, m': Memory, h: Layout, t: Tree, slot: int, idx: nat, p: Path, x: int, f: int)
    requires BinAt(m, h, t, slot, idx) && Valid(t, p) && Sub(t, p).Node? && Root(Sub(t, p)) in h && Sub(t, p).ring != []
    requires x !in Nodes(t) && Spread(Nodes(t) + {x}) && x > 0
    requires Word(m, x + 32) == 0 && Word(m, x + 40) == 0 && Word(m, x + 56) == idx
    requires x in h && h[x].size == h[Root(Sub(t, p))].size
    requires f == Word(m, Root(Sub(t, p)) + 16) && m' == Link(m, Root(Sub(t, p)), x, f)[x + 48 := 0]
    ensures Replaceable(m, m', h, t, slot, idx, p, Joined(Sub(t, p), x))
    ensures Nodes(Joined(Sub(t, p), x)) == Nodes(Sub(t, p)) + {x} && Nodes(Sub(t, p)) <= Nodes(t)
  {
    hide Link, Sized, Nodes, TreeAt, Spread, HeadsGive, PathSizes, SameBut, Word;
    RingSizes(h, t, BinLow(idx), BinBits(idx), p, x);
    RingMemory(m, m', t, slot, idx, p, x, f);
  }

  /** The chunk joins the ring of the node at path p, right after its head. */
  lemma RingInserted(m: Memory, m': Memory, h: Layout, t: Tree, slot: int, idx: nat, p: Path, x: int, f: int)
    requires BinAt(m, h, t, slot, idx) && Valid(t, p) && Sub(t, p).Node? && Root(Sub(t, p)) in h && Sub(t, p).ring != []
    requires x !in Nodes(t) && Spread(Nodes(t) + {x}) && HeadsGive(m', h, Nodes(t) + {x}) && x > 0
    requires Word(m, x + 32) == 0 && Word(m, x + 40) == 0 && Word(m, x + 56) == idx
    requires x in h && h[x].size == h[Root(Sub(t, p))].size
    requires f == Word(m, Root(Sub(t, p)) + 16) && m' == Link(m, Root(Sub(t, p)), x, f)[x + 48 := 0]
    ensures BinAt(m', h, Put(t, p, Joined(Sub(t, p), x)), slot, idx)
    ensures Nodes(Put(t, p, Joined(Sub(t, p), x))) == Nodes(t) + {x}
  {
    hide Link, Spread, HeadsGive, Replaceable, Nodes, BinAt;
    RingReady(m, m', h, t, slot, idx, p, x, f);
    assert Nodes(t) + Nodes(Joined(Sub(t, p), x)) == Nodes(t) + {x};
    BinReplaced(m, m', h, t, slot, idx, p, Joined(Sub(t, p), x));
  }

  /** Writes to the links of other chunks do not disturb a bin. */
  lemma BinFrame(m: Memory, m': Memory, h: Layout, t: Tree, slot: int, idx: nat, s: set<int>)
    requires BinAt(m, h, t, slot, idx) && OnlyLinks(m, m', s)
    requires forall y, z :: y in Nodes(t) && z in s ==> Away(y, z)
    ensures BinAt(m', h, t, slot, idx)
  {
    hide Sized, TreeAt, Nodes, Spread;
    forall y | y in Nodes(t)
      ensures SameOn(m, m', y + 8, y + 64)
    {
      forall a | y + 8 <= a < y + 64
        ensures Word(m', a) == Word(m, a)
      {
        assert !Within(s, a);
      }
    }
    forall y | y in Nodes(t)
      ensures SameOn(m, m', y + 16, y + 64)
    {
      assert SameOn(m, m', y + 8, y + 64);
    }
    TreeFrame(m, m', t, slot, idx);
  }

  /** insert_large_chunk: the bin gains exactly the chunk x. */
  method InsertLarge(m0: Memory, marked: bool, root: int, slot: int, idx: nat, x: int, size: uint64, least: int,
                     ghost h: Layout, ghost t: Tree)
    returns (m: Memory, root': int, ghost t': Tree)
    requires BinAt(m0, h, t, slot, idx) && marked == t.Node? && (marked ==> root == Root(t))
    requires x !in Nodes(t) && Spread(Nodes(t) + {x}) && HeadsGive(m0, h, Nodes(t) + {x})
    requires 0 < least && AtLeast(Nodes(t) + {x}, least)
    requires h[x].size == size && size >= 0x100 && TreeIndex(size) == idx
    ensures BinAt(m, h, t', slot, idx)
    ensures t'.Node? && root' == Root(t') && Nodes(t') == Nodes(t) + {x}
    ensures OnlyLinks(m0, m, Nodes(t) + {x})
  {
    hide TreeIndex, BinAt, Nodes, Spread, HeadsGive, OnlyLinks, AtLeast, Put, ChunkSize, Walking, Walks, Joined, Sub;
    ghost var s := Nodes(t) + {x};
    Positive(s, least, x);
    m := m0[x + 56 := idx][x + 32 := 0][x + 40 := 0];
    InsertStart(m0, m, h, t, slot, idx, x);
    if !marked {
      root' := x;
      m := m[x + 48 := slot][x + 16 := x][x + 24 := x];
      t' := Node([x], Nil, Nil);
      InsertOnly(m0, m, h, t, slot, idx, x);
    } else {
      root' := root;
      var cur := root;
      WalkBegins(h, t, idx, size);
      var bits: uint64 := FirstBits(size, idx);
      ghost var p: Path := [];
      while true
        invariant Walks(h, t, idx, p, bits, size, cur)
        decreases BinBits(idx) - |p|
      {
        ReadAt(m0, m, h, t, slot, idx, x, p, bits, size, cur);
        Positive(s, least, cur);
        if ChunkSize(Word(m, cur + 8)) != size {
          var b := bits >= TWO63;
          var c := cur + ChildOffset(b);
          GoDeeper(m0, m, h, t, slot, idx, x, p, bits, size, cur);
          if Word(m, c) != 0 {
            cur := Word(m, c);
            bits := Shl1(bits);
            p := p + [b];
          } else if c >= least {
            ghost var m1 := m;
            m := m[c := x][x + 48 := cur][x + 16 := x][x + 24 := x];
            t' := Put(t, p + [b], Node([x], Nil, Nil));
            LeafEnd(m0, m1, m, h, t, slot, idx, p, x, bits, size, cur);
            break;
          } else {
            assert false;
          }
        } else {
          var f := Word(m, cur + 16);
          Positive(s, least, f);
          if cur >= least && f >= least {
            ghost var m1 := m;
            m := m[cur + 16 := x][f + 24 := x][x + 16 := f][x + 24 := cur][x + 48 := 0];
            t' := Put(t, p, Joined(Sub(t, p), x));
            RingEnd(m0, m1, m, h, t, slot, idx, p, x, f, bits, size, cur);
            break;
          } else {
            assert false;
          }
        }
      }
    }
  }

  /** The walk for a size is at cur, the root of the subtree at p. */
  ghost predicate Walks(h: Layout, t: Tree, idx: nat, p: Path, bits: int, size: int, cur: int) {
    && |p| <= BinBits(idx) && Valid(t, p) && Sub(t, p).Node? && cur == Root(Sub(t, p))
    && Steers(bits, size, Low(BinLow(idx), BinBits(idx), p), BinBits(idx) - |p|) && size !in PathSizes(h, t, p)
  }

  lemma WalkBegins(h: Layout, t: Tree, idx: nat, size: uint64)
    requires t.Node? && size >= 0x100 && idx == TreeIndex(size)
    ensures idx < NTREEBINS && Walks(h, t, idx, [], FirstBits(size, idx), size, Root(t))
  {
    hide TreeIndex, FirstBits, BinLow, BinBits, Steers;
    FirstSteers(size);
  }

  /** The bin was empty. */
  lemma InsertOnly(m0: Memory, m: Memory, h: Layout, t: Tree, slot: int, idx: nat, x: int)
    requires BinAt(m0, h, t, slot, idx) && t.Nil? && HeadsGive(m0, h, Nodes(t) + {x}) && x > 0 && x in h
    requires 0x100 <= h[x].size < TWO64 && TreeIndex(h[x].size) == idx
    requires m == m0[x + 56 := idx][x + 32 := 0][x + 40 := 0][x + 48 := slot][x + 16 := x][x + 24 := x]
    ensures BinAt(m, h, Node([x], Nil, Nil), slot, idx) && Nodes(Node([x], Nil, Nil)) == Nodes(t) + {x}
    ensures OnlyLinks(m0, m, Nodes(t) + {x})
  {
    hide TreeIndex, BinLow, BinBits, Pow2, Sized, TreeAt, Spread;
    assert Nodes(t) + {x} == {x};
    BinRange(h[x].size);
    InsertFirst(m0, m, h, slot, idx, x);
  }

  lemma ReadAt(m0: Memory, m: Memory, h: Layout, t: Tree, slot: int, idx: nat, x: int, p: Path, bits: int, size: int,
               cur: int)
    requires Walking(m0, m, h, t, slot, idx, x) && Walks(h, t, idx, p, bits, size, cur)
    ensures Valid(t, p) && Sub(t, p).Node? && Sub(t, p).ring != [] && |p| <= BinBits(idx)
    ensures cur in Nodes(t) + {x} && cur in h && ChunkSize(Word(m, cur + 8)) == h[cur].size
            && Word(m, cur + 16) in Nodes(t) + {x}
  {
    hide BinAt, Nodes, Steers, Low, PathSizes, ChunkSize, Spread, HeadsGive, OnlyLinks;
    AtNode(m, h, t, slot, idx, p);
  }

  /** A node of another size: there is a child to look at. */
  lemma GoDeeper(m0: Memory, m: Memory, h: Layout, t: Tree, slot: int, idx: nat, x: int, p: Path, bits: uint64,
                 size: int, cur: int)
    requires Walking(m0, m, h, t, slot, idx, x) && Walks(h, t, idx, p, bits, size, cur) && cur in h
             && h[cur].size != size
    ensures var b := bits >= TWO63; var c := Word(m, cur + ChildOffset(b));
            && |p| < BinBits(idx) && Valid(t, p + [b]) && Sub(t, p + [b]) == Child(Sub(t, p), b)
            && Steers(Shl1(bits), size, Low(BinLow(idx), BinBits(idx), p + [b]), BinBits(idx) - |p| - 1)
            && (c == 0 ==> Sub(t, p + [b]).Nil?)
            && (c != 0 ==> Walks(h, t, idx, p + [b], Shl1(bits), size, c))
  {
    hide BinAt, Nodes, Steers, Spread, HeadsGive, OnlyLinks, ChunkSize, BinLow, BinBits, Pow2, Shl1, Sized;
    var lo, k := BinLow(idx), BinBits(idx);
    var b := bits >= TWO63;
    AtNode(m, h, t, slot, idx, p);
    BinSized(m, h, t, slot, idx);
    Deeper(h, t, lo, k, p, bits, size);
    SteerStep(bits, size, Low(lo, k, p), k - |p|);
    Snoc(h, t, slot, lo, k, p, b);
    assert Word(m, cur + ChildOffset(b)) == Root(Child(Sub(t, p), b));
  }

  lemma BinSized(m: Memory, h: Layout, t: Tree, slot: int, idx: nat)
    requires BinAt(m, h, t, slot, idx)
    ensures Sized(h, t, BinLow(idx), BinBits(idx))
  {
  }

  lemma LeafEnd(m0: Memory, m: Memory, m': Memory, h: Layout, t: Tree, slot: int, idx: nat, p: Path, x: int,
                bits: uint64, size: int, cur: int)
    requires Walking(m0, m, h, t, slot, idx, x) && Walks(h, t, idx, p, bits, size, cur) && x in h && h[x].size == size
    requires cur in h && h[cur].size != size && Word(m, cur + ChildOffset(bits >= TWO63)) == 0
    requires m' == AddLeaf(m, cur, bits >= TWO63, x) && Valid(t, p + [bits >= TWO63])
    ensures var b := bits >= TWO63; var t' := Put(t, p + [b], Node([x], Nil, Nil));
            && BinAt(m', h, t', slot, idx) && Nodes(t') == Nodes(t) + {x} && t'.Node? && Root(t') == Root(t)
            && OnlyLinks(m0, m', Nodes(t) + {x})
  {
    hide Walking, BinAt, Nodes, Steers, PathSizes, OnlyLinks, AddLeaf, Low, BinLow, BinBits, Shl1, Put;
    GoDeeper(m0, m, h, t, slot, idx, x, p, bits, size, cur);
    LeafDone(m0, m, m', h, t, slot, idx, p, bits >= TWO63, x, Shl1(bits));
  }

  lemma RingEnd(m0: Memory, m: Memory, m': Memory, h: Layout, t: Tree, slot: int, idx: nat, p: Path, x: int, f: int,
                bits: int, size: int, cur: int)
    requires Walking(m0, m, h, t, slot, idx, x) && Walks(h, t, idx, p, bits, size, cur) && x in h && h[x].size == size
    requires Valid(t, p) && Sub(t, p).Node? && Sub(t, p).ring != []
    requires cur in h && h[cur].size == size && f == Word(m, cur + 16) && m' == Link(m, cur, x, f)[x + 48 := 0]
    ensures var t' := Put(t, p, Joined(Sub(t, p), x));
            && BinAt(m', h, t', slot, idx) && Nodes(t') == Nodes(t) + {x} && t'.Node? && Root(t') == Root(t)
            && OnlyLinks(m0, m', Nodes(t) + {x})
  {
    hide BinAt, Nodes, Steers, PathSizes, OnlyLinks, Link, Low, BinLow, BinBits, Put, Joined, HeadsGive, Spread;
    AtNode(m, h, t, slot, idx, p);
    RingDone(m0, m, m', h, t, slot, idx, p, x, f);
  }

  lemma Positive(s: set<int>, least: int, y: int)
    requires AtLeast(s, least) && y in s
    ensures y >= least
  {
  }

  /** The bin in the state in which the walk for x begins. */
  ghost predicate Walking(m0: Memory, m: Memory, h: Layout, t: Tree, slot: int, idx: nat, x: int) {
    && BinAt(m, h, t, slot, idx) && OnlyLinks(m0, m, Nodes(t) + {x})
    && x !in Nodes(t) && Spread(Nodes(t) + {x}) && HeadsGive(m0, h, Nodes(t) + {x}) && x > 0
    && Word(m, x + 32) == 0 && Word(m, x + 40) == 0 && Word(m, x + 56) == idx
  }

  lemma LeafDone(m0: Memory, m: Memory, m': Memory, h: Layout, t: Tree, slot: int, idx: nat, p: Path, b: bool, x: int,
                 bits: int)
    requires Walking(m0, m, h, t, slot, idx, x) && x in h
    requires Valid(t, p) && Sub(t, p).Node? && Child(Sub(t, p), b).Nil? && |p| < BinBits(idx)
    requires Steers(bits, h[x].size, Low(BinLow(idx), BinBits(idx), p + [b]), BinBits(idx) - |p| - 1)
    requires h[x].size !in PathSizes(h, t, p) && Root(Sub(t, p)) in h && h[x].size != h[Root(Sub(t, p))].size
    requires m' == AddLeaf(m, Root(Sub(t, p)), b, x)
    ensures Valid(t, p + [b])
    ensures var t' := Put(t, p + [b], Node([x], Nil, Nil));
            BinAt(m', h, t', slot, idx) && Nodes(t') == Nodes(t) + {x} && t'.Node? && Root(t') == Root(t)
    ensures OnlyLinks(m0, m', Nodes(t) + {x})
  {
    hide AddLeaf, OnlyLinks, BinAt, Spread, HeadsGive, BinLow, BinBits, Pow2, Low, Nodes;
    AtNode(m, h, t, slot, idx, p);
    var s := Nodes(t) + {x};
    LeafLinks(m0, m, s, Root(Sub(t, p)), b, x);
    OnlyLinksHeads(m0, m', h, s);
    LeafInserted(m, m', h, t, slot, idx, p, b, x);
    PutRoot(t, p + [b], Node([x], Nil, Nil));
  }

  lemma RingDone(m0: Memory, m: Memory, m': Memory, h: Layout, t: Tree, slot: int, idx: nat, p: Path, x: int, f: int)
    requires Walking(m0, m, h, t, slot, idx, x) && x in h
    requires Valid(t, p) && Sub(t, p).Node? && Root(Sub(t, p)) in h && Sub(t, p).ring != []
    requires h[x].size == h[Root(Sub(t, p))].size
    requires f == Word(m, Root(Sub(t, p)) + 16) && m' == Link(m, Root(Sub(t, p)), x, f)[x + 48 := 0]
    ensures var t' := Put(t, p, Joined(Sub(t, p), x));
            BinAt(m', h, t', slot, idx) && Nodes(t') == Nodes(t) + {x} && t'.Node? && Root(t') == Root(t)
    ensures OnlyLinks(m0, m', Nodes(t) + {x})
  {
    hide Link, OnlyLinks, BinAt, Spread, HeadsGive, Nodes;
    AtNode(m, h, t, slot, idx, p);
    var s := Nodes(t) + {x};
    RingLinks(m0, m, s, Root(Sub(t, p)), f, x);
    OnlyLinksHeads(m0, m', h, s);
    RingInserted(m, m', h, t, slot, idx, p, x, f);
    PutRoot(t, p, Joined(Sub(t, p), x));
    assert p == [] ==> t == Sub(t, p);
  }

  lemma InsertFirst(m0: Memory, m: Memory, h: Layout, slot: int, idx: nat, x: int)
    requires slot != 0 && idx < NTREEBINS && x > 0 && HeadsGive(m0, h, {x})
    requires BinLow(idx) <= h[x].size < BinLow(idx) + Pow2(BinBits(idx))
    requires m == m0[x + 56 := idx][x + 32 := 0][x + 40 := 0][x + 48 := slot][x + 16 := x][x + 24 := x]
    ensures BinAt(m, h, Node([x], Nil, Nil), slot, idx) && Nodes(Node([x], Nil, Nil)) == {x}
    ensures OnlyLinks(m0, m, {x})
  {
    hide BinLow, BinBits, Pow2, TreeAt, Sized, Nodes, OnlyLinks;
    SingleAt(m, x, slot, idx);
    SingleSized(h, x, BinLow(idx), BinBits(idx));
    OnlyLinksRefl(m0, {x});
    WriteLink(m0, m0, {x}, x, 56, idx);
    var m1 := m0[x + 56 := idx];
    WriteLink(m0, m1, {x}, x, 32, 0);
    WriteLink(m0, m1[x + 32 := 0], {x}, x, 40, 0);
    var m2 := m1[x + 32 := 0][x + 40 := 0];
    WriteLink(m0, m2, {x}, x, 48, slot);
    WriteLink(m0, m2[x + 48 := slot], {x}, x, 16, x);
    WriteLink(m0, m2[x + 48 := slot][x + 16 := x], {x}, x, 24, x);
  }

  /** What the code reads at a tree node. */
  lemma AtNode(m: Memory, h: Layout, t: Tree, slot: int, idx: nat, p: Path)
    requires BinAt(m, h, t, slot, idx) && Valid(t, p) && Sub(t, p).Node?
    ensures var u := Sub(t, p);
            && u.ring != [] && Root(u) in h && Root(u) in Nodes(t) && Root(u) != 0
            && ChunkSize(Word(m, Root(u) + 8)) == h[Root(u)].size
            && Word(m, Root(u) + 16) in Nodes(t)
            && (forall b :: Word(m, Root(u) + ChildOffset(b)) == Root(Child(u, b)))
            && (forall b :: Root(Child(u, b)) != 0 <==> Child(u, b).Node?)
  {
    var u, parent := Sub(t, p), ParentOf(t, slot, p);
    SubAt(m, t, slot, idx, p);
    SubNodes(t, p);
    RootIn(m, u, parent, idx);
    RingMember(m, u, parent, idx);
    RootIn(m, u.left, Root(u), idx);
    RootIn(m, u.right, Root(u), idx);
  }

  /** A node of another size than the one looked for leaves a bit to test. */
  lemma Deeper(h: Layout, t: Tree, lo: int, k: nat, p: Path, bits: int, size: int)
    requires Sized(h, t, lo, k) && Valid(t, p) && Sub(t, p).Node? && |p| <= k
    requires Steers(bits, size, Low(lo, k, p), k - |p|)
    requires Root(Sub(t, p)) in h && h[Root(Sub(t, p))].size != size
    ensures |p| < k
  {
    SubSized(h, t, lo, k, p);
    assert Pow2(0) == 1;
  }

  lemma LeafLinks(m0: Memory, m: Memory, s: set<int>, y: int, b: bool, x: int)
    requires OnlyLinks(m0, m, s) && y in s && x in s
    ensures OnlyLinks(m0, AddLeaf(m, y, b, x), s)
  {
    hide OnlyLinks;
    WriteLink(m0, m, s, y, ChildOffset(b), x);
    var m1 := m[y + ChildOffset(b) := x];
    WriteLink(m0, m1, s, x, 48, y);
    WriteLink(m0, m1[x + 48 := y], s, x, 16, x);
    WriteLink(m0, m1[x + 48 := y][x + 16 := x], s, x, 24, x);
  }

  lemma RingLinks(m0: Memory, m: Memory, s: set<int>, y: int, f: int, x: int)
    requires OnlyLinks(m0, m, s) && y in s && x in s && f in s
    ensures OnlyLinks(m0, Link(m, y, x, f)[x + 48 := 0], s)
  {
    hide OnlyLinks;
    WriteLink(m0, m, s, y, 16, x);
    var m1 := m[y + 16 := x];
    WriteLink(m0, m1, s, f, 24, x);
    WriteLink(m0, m1[f + 24 := x], s, x, 16, f);
    WriteLink(m0, m1[f + 24 := x][x + 16 := f], s, x, 24, y);
    WriteLink(m0, Link(m, y, x, f), s, x, 48, 0);
  }

  lemma InsertStart(m0: Memory, m: Memory, h: Layout, t: Tree, slot: int, idx: nat, x: int)
    requires BinAt(m0, h, t, slot, idx) && x !in Nodes(t) && Spread(Nodes(t) + {x}) && HeadsGive(m0, h, Nodes(t) + {x})
             && x > 0
    requires m == m0[x + 56 := idx][x + 32 := 0][x + 40 := 0]
    ensures x in h && Walking(m0, m, h, t, slot, idx, x)
  {
    hide BinAt, Nodes;
    var s := Nodes(t) + {x};
    OnlyLinksRefl(m0, {x});
    WriteLink(m0, m0, {x}, x, 56, idx);
    WriteLink(m0, m0[x + 56 := idx], {x}, x, 32, 0);
    WriteLink(m0, m0[x + 56 := idx][x + 32 := 0], {x}, x, 40, 0);
    forall y, z | y in Nodes(t) && z in {x} ensures Away(y, z) { assert y in s && z in s; }
    BinFrame(m0, m, h, t, slot, idx, {x});
    LinksGrow(m0, m, {x}, s);
  }

  lemma LinksGrow(m: Memory, m': Memory, a: set<int>, b: set<int>)
    requires OnlyLinks(m, m', a) && a <= b
    ensures OnlyLinks(m, m', b)
  {
    forall w ensures Word(m', w) == Word(m, w) || Within(b, w) {
      if Word(m', w) != Word(m, w) {
        var y :| y in a && y + 16 <= w < y + 64;
        assert y in b;
      }
    }
  }
}
