/** The bitwise tries dlmalloc keeps its large free chunks in
    (components/common/dlmalloc/malloc.c, lines 2336 to 2400 and 3307 to 3355).
    A tree node carries its two children at offsets 32 and 40, its parent at 48
    and its bin index at 56; chunks of one size form a ring, of which only the
    first is in the tree. */
module Tries {
  import opened Bits
  import opened Rings
  import opened Tiling

  datatype Tree = Nil | Node(ring: seq<int>, left: Tree, right: Tree)

  /** The pointer that stands for a tree. */
  function Root(t: Tree): int {
    if t.Node? && t.ring != [] then t.ring[0] else 0
  }

  ghost function Elements(s: seq<int>): set<int> {
    set x | x in s
  }

  ghost function Nodes(t: Tree): set<int> {
    if t.Nil? then {} else Elements(t.ring) + Nodes(t.left) + Nodes(t.right)
  }

  /** A chunk that is in a ring but not in the tree. */
  ghost predicate Chained(m: Memory, x: int) {
    Word(m, x + 32) == 0 && Word(m, x + 40) == 0 && Word(m, x + 48) == 0
  }

  ghost predicate NodeAt(m: Memory, t: Tree, parent: int, idx: int) {
    && t.Node? && t.ring != []
    && Ring(m, t.ring)
    && Word(m, t.ring[0] + 32) == Root(t.left)
    && Word(m, t.ring[0] + 40) == Root(t.right)
    && Word(m, t.ring[0] + 48) == parent
    && (forall k {:trigger t.ring[k]} :: 1 <= k < |t.ring| ==> Chained(m, t.ring[k]))
    && (forall k {:trigger t.ring[k]} :: 0 <= k < |t.ring| ==> t.ring[k] > 0 && Word(m, t.ring[k] + 56) == idx)
  }

  /** Tree t is laid out in memory under the given parent. */
  ghost predicate TreeAt(m: Memory, t: Tree, parent: int, idx: int) {
    t.Nil? ||
    (NodeAt(m, t, parent, idx) && TreeAt(m, t.left, t.ring[0], idx) && TreeAt(m, t.right, t.ring[0], idx))
  }

  ghost predicate SameSize(h: Layout, ring: seq<int>, size: int) {
    forall x :: x in ring ==> x in h && h[x].size == size
  }

  ghost predicate Avoids(h: Layout, t: Tree, size: int) {
    forall x :: x in Nodes(t) ==> x in h && h[x].size != size
  }

  /** The sizes of t lie in [lo, lo + 2^k), each node halves the range of its
      subtrees, and no two nodes have the same size. */
  ghost predicate Sized(h: Layout, t: Tree, lo: int, k: nat) {
    t.Nil? ||
    (&& t.ring != [] && t.ring[0] in h
     && SameSize(h, t.ring, h[t.ring[0]].size)
     && lo <= h[t.ring[0]].size < lo + Pow2(k)
     && Avoids(h, t.left, h[t.ring[0]].size) && Avoids(h, t.right, h[t.ring[0]].size)
     && (if k == 0 then t.left.Nil? && t.right.Nil?
         else Sized(h, t.left, lo, k - 1) && Sized(h, t.right, lo + Pow2(k - 1), k - 1)))
  }

  ghost predicate Distinct(t: Tree) {
    t.Nil? ||
    (&& Elements(t.ring) !! Nodes(t.left) && Elements(t.ring) !! Nodes(t.right) && Nodes(t.left) !! Nodes(t.right)
     && Distinct(t.left) && Distinct(t.right))
  }

  /** Tree chunks are at least 64 bytes apart, so their fields do not overlap. */
  ghost predicate Spread(s: set<int>) {
    forall x, y :: x in s && y in s && x != y ==> x + 64 <= y || y + 64 <= x
  }

  lemma NodesOf(t: Tree)
    requires t.Node?
    ensures Elements(t.ring) <= Nodes(t) && Nodes(t.left) <= Nodes(t) && Nodes(t.right) <= Nodes(t)
  {
  }

  lemma {:induction false} SizedRange(h: Layout, t: Tree, lo: int, k: nat, x: int)
    requires Sized(h, t, lo, k) && x in Nodes(t)
    ensures x in h && lo <= h[x].size < lo + Pow2(k)
    decreases t
  {
    if x in t.ring {
    } else if x in Nodes(t.left) {
      SizedRange(h, t.left, lo, k - 1, x);
    } else {
      SizedRange(h, t.right, lo + Pow2(k - 1), k - 1, x);
    }
  }

  lemma {:induction false} SizedDistinct(h: Layout, t: Tree, lo: int, k: nat)
    requires Sized(h, t, lo, k)
    ensures Distinct(t)
    decreases t
  {
    if t.Node? && k == 0 {
      assert Nodes(t.left) == {} && Nodes(t.right) == {};
      assert Distinct(t.left) && Distinct(t.right);
    } else if t.Node? {
      SizedDistinct(h, t.left, lo, k - 1);
      SizedDistinct(h, t.right, lo + Pow2(k - 1), k - 1);
      forall x | x in Nodes(t.left) && x in Nodes(t.right)
        ensures false
      {
        SizedRange(h, t.left, lo, k - 1, x);
        SizedRange(h, t.right, lo + Pow2(k - 1), k - 1, x);
      }
      forall x | x in Elements(t.ring)
        ensures x !in Nodes(t.left) && x !in Nodes(t.right)
      {
        assert x in t.ring;
      }
    }
  }

  /** Sized depends only on the chunks of the tree. */
  lemma {:induction false} SizedFrame(h: Layout, h': Layout, t: Tree, lo: int, k: nat)
    requires Sized(h, t, lo, k)
    requires forall x :: x in Nodes(t) ==> x in h' && x in h && h'[x].size == h[x].size
    ensures Sized(h', t, lo, k)
    decreases t
  {
    if t.Node? {
      NodesOf(t);
      hide Pow2, Nodes, Avoids, SameSize;
      SameSizeFrame(h, h', t.ring);
      AvoidsFrame(h, h', t.left, h[t.ring[0]].size);
      AvoidsFrame(h, h', t.right, h[t.ring[0]].size);
      if k > 0 {
        SizedFrame(h, h', t.left, lo, k - 1);
        SizedFrame(h, h', t.right, lo + Pow2(k - 1), k - 1);
      }
    }
  }

  lemma AvoidsFrame(h: Layout, h': Layout, t: Tree, r: int)
    requires Avoids(h, t, r) && forall x :: x in Nodes(t) ==> x in h' && x in h && h'[x].size == h[x].size
    ensures Avoids(h', t, r)
  {
  }

  lemma SameSizeFrame(h: Layout, h': Layout, ring: seq<int>)
    requires ring != [] && forall x :: x in Elements(ring) ==> x in h' && x in h && h'[x].size == h[x].size
    ensures ring[0] in h && ring[0] in h' && h'[ring[0]].size == h[ring[0]].size
    ensures forall r :: SameSize(h, ring, r) ==> SameSize(h', ring, r)
  {
    forall x | x in ring ensures x in h && x in h' && h'[x].size == h[x].size {
      assert x in Elements(ring);
    }
  }

  lemma NodeFrame(m: Memory, m': Memory, t: Tree, parent: int, idx: int)
    requires NodeAt(m, t, parent, idx)
    requires forall x :: x in t.ring ==> SameOn(m, m', x + 16, x + 64)
    ensures NodeAt(m', t, parent, idx)
  {
    forall k | 0 <= k < |t.ring|
      ensures SameOn(m, m', t.ring[k] + 16, t.ring[k] + 32)
      ensures t.ring[k] > 0 && Word(m', t.ring[k] + 56) == idx && (k >= 1 ==> Chained(m', t.ring[k]))
    {
      assert t.ring[k] in t.ring;
      assert SameOn(m, m', t.ring[k] + 16, t.ring[k] + 64);
    }
    RingFrame(m, m', t.ring);
    assert t.ring[0] in t.ring;
  }

  lemma {:induction false} TreeFrame(m: Memory, m': Memory, t: Tree, parent: int, idx: int)
    requires TreeAt(m, t, parent, idx)
    requires forall x :: x in Nodes(t) ==> SameOn(m, m', x + 16, x + 64)
    ensures TreeAt(m', t, parent, idx)
    decreases t
  {
    if t.Node? {
      NodesOf(t);
      assert forall x :: x in t.ring ==> x in Elements(t.ring);
      NodeFrame(m, m', t, parent, idx);
      TreeFrame(m, m', t.left, t.ring[0], idx);
      TreeFrame(m, m', t.right, t.ring[0], idx);
    }
  }

  /** A write to one field of y leaves the fields of a chunk apart from it. */
  lemma FieldApart(m: Memory, y: int, o: int, v: int, x: int)
    requires 16 <= o < 64 && (x + 64 <= y || y + 64 <= x)
    ensures SameOn(m, m[y + o := v], x + 16, x + 64)
  {
  }

  lemma NewParent(m: Memory, t: Tree, parent: int, parent': int, idx: int)
    requires NodeAt(m, t, parent, idx) && Spread(Elements(t.ring))
    ensures NodeAt(m[Root(t) + 48 := parent'], t, parent', idx)
  {
    var y := Root(t);
    var m' := m[y + 48 := parent'];
    assert y in Elements(t.ring);
    forall k | 0 <= k < |t.ring|
      ensures SameOn(m, m', t.ring[k] + 16, t.ring[k] + 32)
      ensures Word(m', t.ring[k] + 56) == idx && (k >= 1 ==> Chained(m', t.ring[k]))
    {
      assert t.ring[k] in Elements(t.ring);
    }
    RingFrame(m, m', t.ring);
  }

  /** Moving a tree under another parent writes one word. */
  lemma Reparent(m: Memory, t: Tree, parent: int, parent': int, idx: int)
    requires TreeAt(m, t, parent, idx) && t.Node? && Distinct(t) && Spread(Nodes(t))
    ensures TreeAt(m[Root(t) + 48 := parent'], t, parent', idx)
  {
    var a := Root(t);
    var m' := m[a + 48 := parent'];
    NodesOf(t);
    assert a in Elements(t.ring);
    NewParent(m, t, parent, parent', idx);
    forall x | x in Nodes(t.left) || x in Nodes(t.right)
      ensures SameOn(m, m', x + 16, x + 64)
    {
      assert x in Nodes(t) && a in Nodes(t);
      FieldApart(m, a, 48, parent', x);
    }
    TreeFrame(m, m', t.left, a, idx);
    TreeFrame(m, m', t.right, a, idx);
  }

  // ------------------------------------------------------------------ paths

  type Path = seq<bool>

  function Child(t: Tree, b: bool): Tree
    requires t.Node?
  {
    if b then t.right else t.left
  }

  function ChildOffset(b: bool): int {
    if b then 40 else 32
  }

  ghost predicate Valid(t: Tree, p: Path) {
    p == [] || (t.Node? && Valid(Child(t, p[0]), p[1..]))
  }

  ghost function Sub(t: Tree, p: Path): Tree
    requires Valid(t, p)
  {
    if p == [] then t else Sub(Child(t, p[0]), p[1..])
  }

  ghost function Put(t: Tree, p: Path, s: Tree): Tree
    requires Valid(t, p)
  {
    if p == [] then s
    else if p[0] then Node(t.ring, t.left, Put(t.right, p[1..], s))
    else Node(t.ring, Put(t.left, p[1..], s), t.right)
  }

  /** The pointer to the node above the one at p. */
  ghost function ParentOf(t: Tree, parent: int, p: Path): int
    requires Valid(t, p)
  {
    if p == [] then parent else ParentOf(Child(t, p[0]), Root(t), p[1..])
  }

  /** The address of the child field that points to the node at p. */
  ghost function Slot(t: Tree, p: Path): int
    requires Valid(t, p) && p != []
  {
    if |p| == 1 then Root(t) + ChildOffset(p[0]) else Slot(Child(t, p[0]), p[1..])
  }

  /** The sizes of the nodes above p. */
  ghost function PathSizes(h: Layout, t: Tree, p: Path): set<int>
    requires Valid(t, p)
  {
    if p == [] then {}
    else (if Root(t) in h then {h[Root(t)].size} else {}) + PathSizes(h, Child(t, p[0]), p[1..])
  }

  ghost function Low(lo: int, k: nat, p: Path): int
    requires |p| <= k
    decreases |p|
  {
    if p == [] then lo
    else Low(if p[0] then lo + Pow2(k - 1) else lo, k - 1, p[1..])
  }

  lemma {:induction false} Snoc(h: Layout, t: Tree, parent: int, lo: int, k: nat, p: Path, b: bool)
    requires Valid(t, p) && Sub(t, p).Node? && |p| < k
    ensures Valid(t, p + [b])
    ensures Sub(t, p + [b]) == Child(Sub(t, p), b)
    ensures ParentOf(t, parent, p + [b]) == Root(Sub(t, p))
    ensures Slot(t, p + [b]) == Root(Sub(t, p)) + ChildOffset(b)
    ensures PathSizes(h, t, p + [b]) == PathSizes(h, t,
            p) + (if Root(Sub(t, p)) in h then {h[Root(Sub(t, p))].size} else {})
    ensures Low(lo, k, p + [b]) == Low(lo, k, p) + (if b then Pow2(k - |p| - 1) else 0)
    decreases |p|
  {
    if p == [] {
      assert [b][1..] == [];
      assert PathSizes(h, Child(t, b), []) == {};
    } else {
      assert (p + [b])[1..] == p[1..] + [b];
      Snoc(h, Child(t, p[0]), Root(t), if p[0] then lo + Pow2(k - 1) else lo, k - 1, p[1..], b);
    }
  }

  lemma {:induction false} SubNodes(t: Tree, p: Path)
    requires Valid(t, p)
    ensures Nodes(Sub(t, p)) <= Nodes(t)
  {
    if p != [] { SubNodes(Child(t, p[0]), p[1..]); }
  }

  lemma {:induction false} SubAt(m: Memory, t: Tree, parent: int, idx: int, p: Path)
    requires TreeAt(m, t, parent, idx) && Valid(t, p)
    ensures TreeAt(m, Sub(t, p), ParentOf(t, parent, p), idx)
    ensures p != [] ==> Word(m, Slot(t, p)) == Root(Sub(t, p))
    decreases |p|
  {
    if p != [] { SubAt(m, Child(t, p[0]), Root(t), idx, p[1..]); }
  }

  lemma {:induction false} SubSized(h: Layout, t: Tree, lo: int, k: nat, p: Path)
    requires Sized(h, t, lo, k) && Valid(t, p) && (|p| <= k || Sub(t, p).Node?)
    ensures |p| <= k && Sized(h, Sub(t, p), Low(lo, k, p), k - |p|)
    ensures forall x :: x in Nodes(Sub(t, p)) ==> x in h && h[x].size !in PathSizes(h, t, p)
    decreases |p|
  {
    if p == [] {
      forall x | x in Nodes(t) ensures x in h { SizedRange(h, t, lo, k, x); }
    } else {
      var c := Child(t, p[0]);
      SubSized(h, c, if p[0] then lo + Pow2(k - 1) else lo, k - 1, p[1..]);
      SubNodes(c, p[1..]);
    }
  }

  lemma {:induction false} PutNodes(t: Tree, p: Path, s: Tree)
    requires Valid(t, p) && Distinct(t)
    ensures Nodes(Put(t, p, s)) == Nodes(t) - Nodes(Sub(t, p)) + Nodes(s)
    decreases |p|
  {
    if p != [] {
      SubNodes(Child(t, p[0]), p[1..]);
      PutNodes(Child(t, p[0]), p[1..], s);
    }
  }

  lemma {:induction false} PutSized(h: Layout, t: Tree, lo: int, k: nat, p: Path, s: Tree)
    requires Sized(h, t, lo, k) && Valid(t, p) && |p| <= k
    requires Sized(h, s, Low(lo, k, p), k - |p|)
    requires forall x :: x in Nodes(s) ==> x in h && h[x].size !in PathSizes(h, t, p)
    ensures Sized(h, Put(t, p, s), lo, k)
    decreases |p|
  {
    hide Avoids, SameSize, Sized, Nodes, Pow2, Put, PathSizes, Low, Valid;
    if p != [] {
      var lo' := if p[0] then lo + Pow2(k - 1) else lo;
      PathUnfold(h, t, lo, k, p);
      SizedParts(h, t, lo, k, p[0]);
      PutSized(h, Child(t, p[0]), lo', k - 1, p[1..], s);
      PutSizedStep(h, t, lo, k, p, s);
    } else {
      PutWhole(h, t, lo, k, s);
    }
  }

  lemma PutWhole(h: Layout, t: Tree, lo: int, k: nat, s: Tree)
    ensures Put(t, [], s) == s && Low(lo, k, []) == lo
  {
  }

  /** One step down the path. */
  lemma PathUnfold(h: Layout, t: Tree, lo: int, k: nat, p: Path)
    requires Valid(t, p) && p != [] && |p| <= k
    ensures t.Node? && Valid(Child(t, p[0]), p[1..]) && PathSizes(h, Child(t, p[0]), p[1..]) <= PathSizes(h, t, p)
    ensures Low(if p[0] then lo + Pow2(k - 1) else lo, k - 1, p[1..]) == Low(lo, k, p)
  {
  }

  lemma PutSizedStep(h: Layout, t: Tree, lo: int, k: nat, p: Path, s: Tree)
    requires Sized(h, t, lo, k) && Valid(t, p) && p != [] && k > 0
    requires Sized(h, Put(Child(t, p[0]), p[1..], s), if p[0] then lo + Pow2(k - 1) else lo, k - 1)
    requires forall x :: x in Nodes(s) ==> x in h && h[x].size !in PathSizes(h, t, p)
    ensures Sized(h, Put(t, p, s), lo, k)
  {
    var c := Child(t, p[0]);
    SizedParts(h, t, lo, k, p[0]);
    RootOnPath(h, t, p);
    hide Avoids, SameSize, Sized, Nodes, Pow2, PathSizes;
    AvoidsPath(h, t, p, s, h[Root(t)].size);
    PutAvoids(h, c, if p[0] then lo + Pow2(k - 1) else lo, k - 1, p[1..], s, h[Root(t)].size);
    SizedChild(h, t, lo, k, p[0], Put(c, p[1..], s));
  }

  lemma RootOnPath(h: Layout, t: Tree, p: Path)
    requires Valid(t, p) && p != [] && Root(t) in h
    ensures h[Root(t)].size in PathSizes(h, t, p)
  {
  }

  lemma AvoidsPath(h: Layout, t: Tree, p: Path, s: Tree, r: int)
    requires Valid(t, p) && r in PathSizes(h, t, p)
    requires forall x :: x in Nodes(s) ==> x in h && h[x].size !in PathSizes(h, t, p)
    ensures Avoids(h, s, r)
  {
  }

  lemma PutAvoids(h: Layout, c: Tree, lo: int, k: nat, p: Path, s: Tree, r: int)
    requires Sized(h, c, lo, k) && Valid(c, p) && Avoids(h, c, r) && Avoids(h, s, r)
    ensures Avoids(h, Put(c, p, s), r)
  {
    SizedDistinct(h, c, lo, k);
    PutNodes(c, p, s);
  }

  lemma SizedParts(h: Layout, t: Tree, lo: int, k: nat, b: bool)
    requires Sized(h, t, lo, k) && t.Node? && k > 0
    ensures Sized(h, Child(t, b), if b then lo + Pow2(k - 1) else lo, k - 1)
    ensures t.ring != [] && Root(t) in h && Avoids(h, Child(t, b), h[Root(t)].size)
  {
  }

  lemma SizedChild(h: Layout, t: Tree, lo: int, k: nat, b: bool, c: Tree)
    requires Sized(h, t, lo, k) && t.Node? && k > 0
    requires Sized(h, c, if b then lo + Pow2(k - 1) else lo, k - 1) && Avoids(h, c, h[t.ring[0]].size)
    ensures Sized(h, if b then Node(t.ring, t.left, c) else Node(t.ring, c, t.right), lo, k)
  {
    hide Avoids, SameSize;
  }

  lemma {:induction false} PutRoot(t: Tree, p: Path, s: Tree)
    requires Valid(t, p)
    ensures Root(Put(t, p, s)) == if p == [] then Root(s) else Root(t)
  {
  }

  /** Where a member of the tree is. */
  lemma {:induction false} Find(t: Tree, x: int) returns (p: Path)
    requires x in Nodes(t)
    ensures Valid(t, p) && Sub(t, p).Node? && x in Sub(t, p).ring
  {
    if x in t.ring {
      p := [];
    } else {
      var b := x in Nodes(t.right);
      var q := Find(Child(t, b), x);
      p := [b] + q;
      assert p[1..] == q;
    }
  }

  /** The fields of x are the same, the word at slot aside. */
  ghost predicate SameBut(m: Memory, m': Memory, x: int, slot: int) {
    forall a :: x + 16 <= a < x + 64 && a != slot ==> Word(m', a) == Word(m, a)
  }

  ghost function Owner(t: Tree, p: Path): int
    requires Valid(t, p) && p != []
  {
    if |p| == 1 then Root(t) else Owner(Child(t, p[0]), p[1..])
  }

  /** The child field that points to p belongs to a node above p. */
  lemma {:induction false} SlotOwner(m: Memory, t: Tree, parent: int, idx: int, p: Path)
    requires TreeAt(m, t, parent, idx) && Valid(t, p) && p != []
    ensures Slot(t, p) == Owner(t, p) + ChildOffset(p[|p| - 1])
    ensures Owner(t, p) in Nodes(if |p| == 1 then t else Child(t, p[0]))
  {
    if |p| == 1 {
      assert t.ring[0] in t.ring;
    } else {
      SlotOwner(m, Child(t, p[0]), Root(t), idx, p[1..]);
    }
  }

  lemma OffSlot(m: Memory, m': Memory, x: int, y: int, b: bool)
    requires SameBut(m, m', x, y + ChildOffset(b)) && (x + 64 <= y || y + 64 <= x)
    ensures SameOn(m, m', x + 16, x + 64)
  {
  }

  /** The node right above a replaced child. */
  lemma PutChild(m: Memory, m': Memory, t: Tree, parent: int, idx: int, b: bool, s: Tree)
    requires NodeAt(m, t, parent, idx) && Spread(Elements(t.ring))
    requires Word(m', Root(t) + ChildOffset(b)) == Root(s)
    requires forall x :: x in t.ring ==> SameBut(m, m', x, Root(t) + ChildOffset(b))
    ensures NodeAt(m', if b then Node(t.ring, t.left, s) else Node(t.ring, s, t.right), parent, idx)
  {
    var y := t.ring[0];
    assert y in t.ring;
    forall k | 0 <= k < |t.ring|
      ensures SameOn(m, m', t.ring[k] + 16, t.ring[k] + 32)
      ensures Word(m', t.ring[k] + 56) == idx && (k >= 1 ==> Chained(m', t.ring[k]))
    {
      assert t.ring[k] in Elements(t.ring) && y in Elements(t.ring);
      assert SameBut(m, m', t.ring[k], y + ChildOffset(b));
      if k >= 1 {
        assert t.ring[k] != y;
        OffSlot(m, m', t.ring[k], y, b);
      }
    }
    RingFrame(m, m', t.ring);
  }

  /** Replacing the subtree at p: the new subtree is laid out under the old
      one's parent, the parent's child field points to it, and no other node
      has changed. */
  lemma {:induction false} PutAt(m: Memory, m': Memory, t: Tree, parent: int, idx: int, p: Path, s: Tree)
    requires TreeAt(m, t, parent, idx) && Valid(t, p) && Distinct(t) && Spread(Nodes(t))
    requires TreeAt(m', s, ParentOf(t, parent, p), idx)
    requires p != [] ==> Word(m', Slot(t, p)) == Root(s)
    requires forall x ::
               x in Nodes(t) && x !in Nodes(Sub(t, p)) ==> SameBut(m, m', x, if p == [] then 0 else Slot(t, p))
    ensures TreeAt(m', Put(t, p, s), parent, idx)
    decreases |p|
  {
    if p != [] {
      var b := p[0];
      var c, o := Child(t, b), Child(t, !b);
      var slot, y := Slot(t, p), Owner(t, p);
      SlotOwner(m, t, parent, idx, p);
      SubNodes(c, p[1..]);
      forall x | x in Nodes(o)
        ensures SameOn(m, m', x + 16, x + 64)
      {
        assert x in Nodes(t) && x !in Nodes(c);
        assert t.ring[0] in t.ring;
        assert x != y && y in Nodes(t);
        assert SameBut(m, m', x, slot);
        OffSlot(m, m', x, y, p[|p| - 1]);
      }
      TreeFrame(m, m', o, t.ring[0], idx);
      PutNode(m, m', t, parent, idx, p, s);
      var c' := Put(c, p[1..], s);
      if |p| == 1 {
        assert p[1..] == [];
        assert ParentOf(c, t.ring[0], []) == t.ring[0];
      } else {
        PutAt(m, m', c, t.ring[0], idx, p[1..], s);
      }
      assert TreeAt(m', c', t.ring[0], idx);
      assert Put(t, p, s) == if b then Node(t.ring, t.left, c') else Node(t.ring, c', t.right);
    }
  }

  lemma PutNode(m: Memory, m': Memory, t: Tree, parent: int, idx: int, p: Path, s: Tree)
    requires TreeAt(m, t, parent, idx) && Valid(t, p) && p != [] && Distinct(t) && Spread(Nodes(t))
    requires Word(m', Slot(t, p)) == Root(s)
    requires forall x :: x in Nodes(t) && x !in Nodes(Sub(t, p)) ==> SameBut(m, m', x, Slot(t, p))
    ensures NodeAt(m', Put(t, p, s), parent, idx)
  {
    var c := Child(t, p[0]);
    SubNodes(c, p[1..]);
    assert NodeAt(m, t, parent, idx);
    hide NodeAt, SameBut, Word;
    forall x | x in t.ring
      ensures SameBut(m, m', x, Slot(t, p))
    {
      assert x in Elements(t.ring) && x in Nodes(t) && x !in Nodes(c);
    }
    if |p| == 1 {
      assert p[1..] == [] && Put(c, [], s) == s;
      NodesOf(t);
      PutChild(m, m', t, parent, idx, p[0], s);
    } else {
      PutNodeDeep(m, m', t, parent, idx, p);
      PutRoot(c, p[1..], s);
      SameNode(m', t, Put(t, p, s), parent, idx);
    }
  }

  lemma SameNode(m: Memory, t: Tree, t': Tree, parent: int, idx: int)
    requires NodeAt(m, t, parent, idx)
    requires t'.Node? && t'.ring == t.ring && Root(t'.left) == Root(t.left) && Root(t'.right) == Root(t.right)
    ensures NodeAt(m, t', parent, idx)
  {
  }

  lemma PutNodeDeep(m: Memory, m': Memory, t: Tree, parent: int, idx: int, p: Path)
    requires TreeAt(m, t, parent, idx) && Valid(t, p) && |p| > 1 && Distinct(t) && Spread(Nodes(t))
    requires forall x :: x in t.ring ==> SameBut(m, m', x, Slot(t, p))
    ensures NodeAt(m', t, parent, idx)
  {
    hide SameOn, SameBut, Ring, Chained, Word;
    SlotOwner(m, t, parent, idx, p);
    var y := Owner(t, p);
    assert y in Nodes(t);
    forall x | x in t.ring
      ensures SameOn(m, m', x + 16, x + 64)
    {
      assert x in Elements(t.ring) && x in Nodes(t);
      OffSlot(m, m', x, y, p[|p| - 1]);
    }
    NodeFrame(m, m', t, parent, idx);
  }

  // ----------------------------------------------------- relinking a node

  ghost function WithChild(t: Tree, b: bool, c: Tree): Tree
    requires t.Node?
  {
    if b then Node(t.ring, t.left, c) else Node(t.ring, c, t.right)
  }

  function Attach(m: Memory, y: int, b: bool, c: int): Memory {
    if c != 0 then m[y + ChildOffset(b) := c][c + 48 := y] else m
  }

  lemma AttachFrame(m: Memory, y: int, b: bool, c: int, o: Tree, parent: int, idx: int)
    requires TreeAt(m, o, parent, idx)
    requires forall x :: x in Nodes(o) ==> x + 64 <= y || y + 64 <= x
    requires c != 0 ==> forall x :: x in Nodes(o) ==> x + 64 <= c || c + 64 <= x
    ensures TreeAt(Attach(m, y, b, c), o, parent, idx)
  {
    if c != 0 {
      var m1 := m[y + ChildOffset(b) := c];
      forall x | x in Nodes(o) ensures SameOn(m, m1, x + 16, x + 64) { FieldApart(m, y, ChildOffset(b), c, x); }
      TreeFrame(m, m1, o, parent, idx);
      forall x | x in Nodes(o) ensures SameOn(m1, m1[c + 48 := y], x + 16, x + 64) { FieldApart(m1, c, 48, y, x); }
      TreeFrame(m1, m1[c + 48 := y], o, parent, idx);
    }
  }

  lemma AttachTree(m: Memory, y: int, b: bool, c: Tree, x: int, idx: int)
    requires TreeAt(m, c, x, idx) && c.Node? && Distinct(c) && Spread(Nodes(c))
    requires forall z :: z in Nodes(c) ==> z + 64 <= y || y + 64 <= z
    ensures TreeAt(m[y + ChildOffset(b) := Root(c)][Root(c) + 48 := y], c, y, idx)
  {
    var m1 := m[y + ChildOffset(b) := Root(c)];
    forall z | z in Nodes(c) ensures SameOn(m, m1, z + 16, z + 64) {
      FieldApart(m, y, ChildOffset(b), Root(c), z);
    }
    TreeFrame(m, m1, c, x, idx);
    Reparent(m1, c, x, y, idx);
  }

  lemma AttachNode(m: Memory, t: Tree, parent: int, idx: int, b: bool, c: Tree)
    requires NodeAt(m, t, parent, idx) && Spread(Elements(t.ring))
    requires forall z :: z in t.ring ==> z + 64 <= Root(c) || Root(c) + 64 <= z
    ensures NodeAt(m[Root(t) + ChildOffset(b) := Root(c)][Root(c) + 48 := Root(t)], WithChild(t, b, c), parent, idx)
  {
    var y, a := Root(t), Root(c);
    var m1 := m[y + ChildOffset(b) := a];
    PutChild(m, m1, t, parent, idx, b, c);
    var m2 := m1[a + 48 := y];
    forall z | z in t.ring ensures SameOn(m1, m2, z + 16, z + 64) {
      FieldApart(m1, a, 48, y, z);
    }
    NodeFrame(m1, m2, WithChild(t, b, c), parent, idx);
  }

  /** Hanging the tree c, until now under x, below the childless side b of t. */
  lemma AttachAt(m: Memory, t: Tree, parent: int, idx: int, b: bool, c: Tree, x: int)
    requires NodeAt(m, t, parent, idx) && Child(t, b).Nil? && TreeAt(m, c, x, idx)
    requires Elements(t.ring) !! Nodes(c) && Distinct(c) && Spread(Elements(t.ring) + Nodes(c))
    ensures NodeAt(Attach(m, Root(t), b, Root(c)), WithChild(t, b, c), parent, idx)
    ensures TreeAt(Attach(m, Root(t), b, Root(c)), c, Root(t), idx)
  {
    RootIn(m, c, x, idx);
    if c.Node? {
      AttachSpread(t, c);
      hide NodeAt, Spread, Nodes;
      AttachTree(m, Root(t), b, c, x, idx);
      AttachNode(m, t, parent, idx, b, c);
    }
  }

  lemma AttachSpread(t: Tree, c: Tree)
    requires t.Node? && t.ring != [] && c.Node? && Root(c) in Nodes(c)
    requires Elements(t.ring) !! Nodes(c) && Spread(Elements(t.ring) + Nodes(c))
    ensures Spread(Nodes(c)) && Spread(Elements(t.ring))
    ensures forall z :: z in Nodes(c) ==> z + 64 <= Root(t) || Root(t) + 64 <= z
    ensures forall z :: z in t.ring ==> z + 64 <= Root(c) || Root(c) + 64 <= z
  {
    var s := Elements(t.ring) + Nodes(c);
    assert Root(t) in Elements(t.ring);
    forall z | z in t.ring ensures z + 64 <= Root(c) || Root(c) + 64 <= z { assert z in Elements(t.ring) && z in s; }
  }

  /** The writes that put r, a node without children, in the place of a node
      with parent xp and children c0 and c1. */
  function Relink(m: Memory, r: int, xp: int, c0: int, c1: int): Memory {
    Attach(Attach(m[r + 48 := xp], r, false, c0), r, true, c1)
  }

  lemma RelinkAt(m: Memory, ring: seq<int>, l: Tree, r: Tree, parent: int, x: int, xp: int, idx: int)
    requires NodeAt(m, Node(ring, Nil, Nil), parent, idx)
    requires TreeAt(m, l, x, idx) && TreeAt(m, r, x, idx)
    requires Distinct(Node(ring, l, r)) && Spread(Nodes(Node(ring, l, r)))
    ensures TreeAt(Relink(m, ring[0], xp, Root(l), Root(r)), Node(ring, l, r), xp, idx)
  {
    hide SameOn, Ring, Chained, Word, Attach;
    var y := ring[0];
    var t0, t1, t2 := Node(ring, Nil, Nil), Node(ring, l, Nil), Node(ring, l, r);
    var s := Nodes(t2);
    NodesOf(t2);
    assert y in Elements(ring);
    var m0 := m[y + 48 := xp];
    NewParent(m, t0, parent, xp, idx);
    assert forall z :: z in Nodes(l) || z in Nodes(r) ==> z in s && z != y;
    forall z | z in Nodes(l) || z in Nodes(r) ensures SameOn(m, m0, z + 16, z + 64) { FieldApart(m, y, 48, xp, z); }
    TreeFrame(m, m0, l, x, idx);
    TreeFrame(m, m0, r, x, idx);
    hide NodeAt;
    var m1 := Attach(m0, y, false, Root(l));
    AttachAt(m0, t0, xp, idx, false, l, x);
    RootIn(m0, l, x, idx);
    RootIn(m0, r, x, idx);
    AttachFrame(m0, y, false, Root(l), r, x, idx);
    AttachAt(m1, t1, xp, idx, true, r, x);
    AttachFrame(m1, y, true, Root(r), l, y, idx);
  }

  lemma RootIn(m: Memory, t: Tree, parent: int, idx: int)
    requires TreeAt(m, t, parent, idx)
    ensures Root(t) != 0 <==> t.Node?
    ensures t.Node? ==> Root(t) in Nodes(t) && Root(t) > 0
  {
    if t.Node? { assert t.ring[0] in Elements(t.ring); }
  }
}
