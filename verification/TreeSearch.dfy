/** Best-fit search over the tree bins: the walks of tmalloc_large and
    tmalloc_small (components/common/dlmalloc/malloc.c, lines 4440 to 4526). */
module TreeSearch {
  import opened Words
  import opened Bits
  import opened Rings
  import opened Tiling
  import opened Tags
  import opened Tries
  import opened BinIndex
  import opened TrieBits
  import opened TreeBins
  import opened TreeUnlink

  /** Unsigned 64-bit subtraction. */
  function Sub64(x: uint64, y: uint64): uint64 {
    if y <= x then x - y else x - y + TWO64
  }

  /** leftmost_child */
  function LeftmostChild(m: Memory, t: int): int {
    if Word(m, t + 32) != 0 then Word(m, t + 32) else Word(m, t + 40)
  }

  /** Every size in t is at most s. */
  ghost predicate Below(h: Layout, t: Tree, s: int) {
    forall z :: z in Nodes(t) ==> z in h && h[z].size <= s
  }

  /** Every size in t is at least s. */
  ghost predicate Above(h: Layout, t: Tree, s: int) {
    forall z :: z in Nodes(t) ==> z in h && h[z].size >= s
  }

  /** A tree chunk that can hold nb bytes and its excess. */
  ghost predicate Holds(h: Layout, v: int, rsize: int, nb: int) {
    v in h && nb <= h[v].size < TWO64 && rsize == h[v].size - nb
  }

  /** The best chunk so far: v with excess rsize, or none. */
  ghost predicate Best(h: Layout, v: int, rsize: int, nb: int) {
    if v == 0 then rsize == TWO64 - nb else Holds(h, v, rsize, nb)
  }

  /** Chunk y is no better than the best so far, or still ahead in t. */
  ghost predicate Covered(h: Layout, y: int, nb: int, rsize: int, t: Tree) {
    y in h && (h[y].size < nb || h[y].size - nb >= rsize || (t.Node? && (y in Nodes(t) || Below(h, t, h[y].size))))
  }

  lemma ReadNode(m: Memory, h: Layout, t: Tree, parent: int, idx: int)
    requires TreeAt(m, t, parent, idx) && HeadsGive(m, h, Nodes(t)) && t.Node?
    ensures Root(t) in Nodes(t) && Root(t) in h && ChunkSize(Word(m, Root(t) + 8)) == h[Root(t)].size && Root(t) != 0
    ensures Word(m, Root(t) + 32) == Root(t.left) && Word(m, Root(t) + 40) == Root(t.right)
    ensures TreeAt(m, t.left, Root(t), idx) && TreeAt(m, t.right, Root(t), idx)
    ensures HeadsGive(m, h, Nodes(t.left)) && HeadsGive(m, h, Nodes(t.right))
    ensures (Root(t.left) != 0 <==> t.left.Node?) && (Root(t.right) != 0 <==> t.right.Node?)
  {
    RootIn(m, t, parent, idx);
    RootIn(m, t.left, Root(t), idx);
    RootIn(m, t.right, Root(t), idx);
    NodesOf(t);
  }

  lemma SplitSizes(h: Layout, t: Tree, lo: int, k: nat, y: int)
    requires Sized(h, t, lo, k) && t.Node? && y in Nodes(t)
    ensures y in h
    ensures y in t.ring ==> h[y].size == h[Root(t)].size
    ensures y in t.ring || y in Nodes(t.left) || y in Nodes(t.right)
    ensures t.left.Node? && y in Nodes(t.right) ==> k > 0 && Below(h, t.left, h[y].size)
  {
    SizedRange(h, t, lo, k, y);
    assert y in Elements(t.ring) ==> y in t.ring;
    if t.left.Node? && y in Nodes(t.right) {
      SizedRange(h, t.right, lo + Pow2(k - 1), k - 1, y);
      forall z | z in Nodes(t.left)
        ensures z in h && h[z].size <= h[y].size
      {
        SizedRange(h, t.left, lo, k - 1, z);
      }
    }
  }

  /** One step down the leftmost path keeps every chunk covered. */
  lemma LeftmostStep(h: Layout, t: Tree, lo: int, k: nat, nb: int, r0: int, r1: int, y: int)
    requires Sized(h, t, lo, k) && t.Node? && t.ring != [] && Root(t) in h && Root(t) in Nodes(t)
    requires Covered(h, y, nb, r0, t) && r1 <= r0 && (nb <= h[Root(t)].size ==> r1 <= h[Root(t)].size - nb)
    requires Above(h, t, nb) || r1 == 0
    ensures Covered(h, y, nb, r1, if t.left.Node? then t.left else t.right)
  {
    if y in Nodes(t) {
      SplitSizes(h, t, lo, k, y);
    }
  }

  lemma ChildSized(h: Layout, t: Tree, lo: int, k: nat, b: bool)
    requires Sized(h, t, lo, k) && t.Node?
    ensures k > 0 ==> Sized(h, Child(t, b), if b then lo + Pow2(k - 1) else lo, k - 1)
    ensures k > 0 ==> Pow2(k) == 2 * Pow2(k - 1)
    ensures k == 0 ==> Child(t, b).Nil? && Sized(h, Child(t, b), lo, 0)
  {
  }

  lemma ChildAbove(h: Layout, t: Tree, s: int, b: bool)
    requires t.Node?
    ensures Above(h, t, s) ==> Above(h, Child(t, b), s)
  {
    NodesOf(t);
  }

  /** Chunk y is no better than the best so far, or ahead in cur or rst. */
  ghost predicate Pending(h: Layout, y: int, nb: int, rsize: int, cur: Tree, rst: Tree) {
    y in h && (h[y].size < nb || h[y].size - nb >= rsize || y in Nodes(cur)
               || (rst.Node? && (y in Nodes(rst) || Below(h, rst, h[y].size))))
  }

  /** One step towards nb: the left half is too small when the bit of nb is
      set; otherwise the right half, if any, is the new deepest right subtree. */
  lemma WalkStep(h: Layout, t: Tree, lo: int, k: nat, nb: int, r0: int, r1: int, rst: Tree, b: bool, y: int)
    requires Sized(h, t, lo, k) && t.Node? && k > 0 && t.ring != [] && Root(t) in h
    requires b <==> nb >= lo + Pow2(k - 1)
    requires rst.Node? ==> Above(h, rst, lo + Pow2(k)) && Root(rst) in Nodes(rst)
    requires Pending(h, y, nb, r0, t, rst) && r1 <= r0 && (nb <= h[Root(t)].size ==> r1 <= h[Root(t)].size - nb)
    ensures Pending(h, y, nb, r1, Child(t, b), if !b && t.right.Node? then t.right else rst)
  {
    hide Sized, Above, Below, Nodes;
    if y in Nodes(t) {
      WalkStepInside(h, t, lo, k, nb, r1, rst, b, y);
    } else if !b && t.right.Node? && rst.Node? && (y in Nodes(rst) || Below(h, rst, h[y].size)) {
      AboveReach(h, rst, lo + Pow2(k), y);
      RightBelow(h, t, lo, k, y);
    }
  }

  lemma AboveReach(h: Layout, rst: Tree, s: int, y: int)
    requires Above(h, rst, s) && Root(rst) in Nodes(rst) && y in h && (y in Nodes(rst) || Below(h, rst, h[y].size))
    ensures h[y].size >= s
  {
  }

  lemma RightBelow(h: Layout, t: Tree, lo: int, k: nat, y: int)
    requires Sized(h, t, lo, k) && t.Node? && k > 0 && y in h && h[y].size >= lo + Pow2(k)
    ensures Below(h, t.right, h[y].size)
  {
    forall z | z in Nodes(t.right)
      ensures z in h && h[z].size <= h[y].size
    {
      SizedRange(h, t.right, lo + Pow2(k - 1), k - 1, z);
    }
  }

  lemma WalkStepInside(h: Layout, t: Tree, lo: int, k: nat, nb: int, r1: int, rst: Tree, b: bool, y: int)
    requires Sized(h, t, lo, k) && t.Node? && k > 0 && t.ring != [] && Root(t) in h
    requires b <==> nb >= lo + Pow2(k - 1)
    requires y in Nodes(t) && (nb <= h[Root(t)].size ==> r1 <= h[Root(t)].size - nb)
    ensures Pending(h, y, nb, r1, Child(t, b), if !b && t.right.Node? then t.right else rst)
  {
    SplitSizes(h, t, lo, k, y);
    if y in Nodes(t.left) {
      SizedRange(h, t.left, lo, k - 1, y);
    }
  }

  lemma RightAbove(h: Layout, t: Tree, lo: int, k: nat)
    requires Sized(h, t, lo, k) && t.Node? && k > 0
    ensures Above(h, t.right, lo + Pow2(k - 1))
  {
    forall z | z in Nodes(t.right)
      ensures z in h && h[z].size >= lo + Pow2(k - 1)
    {
      SizedRange(h, t.right, lo + Pow2(k - 1), k - 1, z);
    }
  }

  /** A subtree handed over by the walk: where it is and what range it has. */
  datatype Place = Place(tree: Tree, parent: int, lo: int, k: nat)

  ghost predicate At(m: Memory, h: Layout, idx: int, p: Place, all: set<int>) {
    && TreeAt(m, p.tree, p.parent, idx) && HeadsGive(m, h, Nodes(p.tree)) && Sized(h, p.tree, p.lo, p.k)
    && 0 <= p.lo && p.lo + Pow2(p.k) <= TWO64 && Nodes(p.tree) <= all
  }

  lemma AtChild(m: Memory, h: Layout, idx: int, p: Place, all: set<int>, b: bool)
    requires At(m, h, idx, p, all) && p.tree.Node? && p.k > 0
    ensures At(m, h, idx, Place(Child(p.tree, b), Root(p.tree), if b then p.lo + Pow2(p.k - 1) else p.lo, p.k - 1), all)
  {
    ReadNode(m, h, p.tree, p.parent, idx);
    ChildSized(h, p.tree, p.lo, p.k, b);
    NodesOf(p.tree);
  }

  // ------------------------------------------------- the leftmost path

  ghost predicate PathInv(m: Memory, h: Layout, idx: int, cur: Place, nodes: set<int>, nb: int, rsize: int,
                          all: set<int>) {
    && At(m, h, idx, cur, nodes)
    && (Above(h, cur.tree, nb) || rsize == 0)
    && (forall y :: y in all ==> Covered(h, y, nb, rsize, cur.tree))
  }

  lemma PathRead(m: Memory, h: Layout, idx: int, cur: Place, nodes: set<int>, nb: int, rsize: int, all: set<int>)
    requires PathInv(m, h, idx, cur, nodes, nb, rsize, all) && cur.tree.Node?
    ensures var t := Root(cur.tree); var b := !cur.tree.left.Node?;
            && t in nodes && t in h && ChunkSize(Word(m, t + 8)) == h[t].size && 0 <= h[t].size < TWO64
            && (nb <= h[t].size || rsize == 0)
            && LeftmostChild(m, t) == Root(Child(cur.tree, b))
            && (Root(Child(cur.tree, b)) != 0 <==> Child(cur.tree, b).Node?)
  {
    ReadNode(m, h, cur.tree, cur.parent, idx);
    SizedRange(h, cur.tree, cur.lo, cur.k, Root(cur.tree));
  }

  ghost function LeftmostPlace(p: Place): Place
    requires p.tree.Node?
  {
    if p.k > 0 then Half(p, !p.tree.left.Node?) else Place(Nil, 0, p.lo, p.k)
  }

  lemma PathNext(m: Memory, h: Layout, idx: int, cur: Place, nodes: set<int>, nb: int, r0: int, r1: int, all: set<int>)
    requires PathInv(m, h, idx, cur, nodes, nb, r0, all) && cur.tree.Node? && Root(cur.tree) in h
    requires 0 <= r1 <= r0 && (nb <= h[Root(cur.tree)].size ==> r1 <= h[Root(cur.tree)].size - nb)
    ensures PathInv(m, h, idx, LeftmostPlace(cur), nodes, nb, r1, all)
    ensures LeftmostPlace(cur).tree == Child(cur.tree, !cur.tree.left.Node?)
  {
    hide TreeAt, Sized, HeadsGive, Nodes, Above, Covered;
    var t, b := cur.tree, !cur.tree.left.Node?;
    ReadNode(m, h, t, cur.parent, idx);
    ChildSized(h, t, cur.lo, cur.k, b);
    ChildSized(h, t, cur.lo, cur.k, !b);
    ChildAbove(h, t, nb, b);
    if cur.k > 0 {
      AtChild(m, h, idx, cur, nodes, b);
    } else {
      NilAt(m, h, idx, cur, nodes);
    }
    forall y | y in all
      ensures Covered(h, y, nb, r1, Child(t, b))
    {
      LeftmostStep(h, t, cur.lo, cur.k, nb, r0, r1, y);
    }
  }

  lemma NilAt(m: Memory, h: Layout, idx: int, p: Place, nodes: set<int>)
    requires At(m, h, idx, p, nodes)
    ensures At(m, h, idx, Place(Nil, 0, p.lo, p.k), nodes)
  {
    assert Nodes(Nil) == {};
  }

  lemma PathDone(m: Memory, h: Layout, idx: int, cur: Place, nodes: set<int>, nb: int, rsize: int, all: set<int>)
    requires PathInv(m, h, idx, cur, nodes, nb, rsize, all) && cur.tree.Nil?
    ensures forall y :: y in all ==> Covered(h, y, nb, rsize, Nil)
  {
  }

  /** Follow leftmost children from t, keeping the chunk of least excess: at
      the end nothing anywhere fits better than v. */
  method LeastOnPath(m: Memory, t0: int, nb: uint64, v0: int, r0: uint64,
                     ghost h: Layout, ghost idx: int, ghost start: Place, ghost nodes: set<int>, ghost all: set<int>)
    returns (v: int, rsize: uint64)
    requires PathInv(m, h, idx, start, nodes, nb, r0, all) && t0 == Root(start.tree) && (t0 != 0 <==> start.tree.Node?)
    ensures forall y :: y in all ==> Covered(h, y, nb, rsize, Nil)
    ensures (v == v0 && rsize == r0) || (v != 0 && v in nodes && Holds(h, v, rsize, nb) && rsize < r0)
  {
    hide PathInv, ChunkSize, Word, LeftmostChild;
    var t := t0;
    v, rsize := v0, r0;
    ghost var cur := start;
    while t != 0
      invariant PathInv(m, h, idx, cur, nodes, nb, rsize, all) && t == Root(cur.tree) && (t != 0 <==> cur.tree.Node?)
      invariant (v == v0 && rsize == r0) || (v != 0 && v in nodes && Holds(h, v, rsize, nb) && rsize < r0)
      decreases cur.tree
    {
      PathRead(m, h, idx, cur, nodes, nb, rsize, all);
      var trem := Sub64(ChunkSize(Word(m, t + 8)), nb);
      ghost var r := rsize;
      if trem < rsize {
        rsize, v := trem, t;
      }
      PathNext(m, h, idx, cur, nodes, nb, r, rsize, all);
      t := LeftmostChild(m, t);
      cur := LeftmostPlace(cur);
    }
    PathDone(m, h, idx, cur, nodes, nb, rsize, all);
  }

  /** What holds at every step of the walk: the current subtree, the deepest
      right subtree not taken, and no chunk lost. */
  ghost predicate WalkInv(m: Memory, h: Layout, idx: int, cur: Place, right: Place, all: set<int>, nb: int,
                          rsize: int) {
    && At(m, h, idx, cur, all) && At(m, h, idx, right, all)
    && (right.tree.Node? ==> Above(h, right.tree, cur.lo + Pow2(cur.k)) && Root(right.tree) in Nodes(right.tree))
    && (forall y :: y in all ==> Pending(h, y, nb, rsize, cur.tree, right.tree))
  }

  /** The walk of tmalloc_large down the bin of nb: the best chunk met, and the
      deepest right subtree not taken, which holds everything that could still
      be better. */
  method WalkForFit(m: Memory, root: int, nb: uint64, idx: nat, ghost h: Layout, ghost bin: Place)
    returns (v: int, rsize: uint64, t: int, ghost rest: Place)
    requires nb >= 0x100 && idx == TreeIndex(nb) && idx < NTREEBINS
    requires bin.lo == BinLow(idx) && bin.k == BinBits(idx)
    requires At(m, h, idx, bin, Nodes(bin.tree)) && bin.tree.Node? && root == Root(bin.tree)
    ensures t == Root(rest.tree) && At(m, h, idx, rest, Nodes(bin.tree))
    ensures Above(h, rest.tree, nb) || rsize == 0
    ensures v != 0 ==> v in Nodes(bin.tree)
    ensures Best(h, v, rsize, nb)
    ensures forall y :: y in Nodes(bin.tree) ==> Covered(h, y, nb, rsize, rest.tree)
  {
    hide TreeIndex, BinLow, BinBits, Steers, FirstBits, At, WalkInv, Nodes, Covered, Above, ChunkSize, Pow2, Best,
      Sub64, Shl1;
    ghost var all := Nodes(bin.tree);
    FirstSteers(nb);
    BestStart(h, nb);
    v, rsize, t := 0, Sub64(0, nb), root;
    var bits: uint64 := FirstBits(nb, idx);
    var rst := 0;
    ghost var cur, right := bin, Place(Nil, 0, 0, 0);
    WalkStart(m, h, idx, all, bin, nb, rsize);
    while true
      invariant rsize > 0
      invariant WalkInv(m, h, idx, cur, right, all, nb, rsize)
      invariant cur.tree.Node? && t == Root(cur.tree) && rst == Root(right.tree)
      invariant Steers(bits, nb, cur.lo, cur.k)
      invariant v != 0 ==> v in all
      invariant Best(h, v, rsize, nb)
      decreases cur.tree
    {
      WalkRead(m, h, idx, cur, right, all, nb, rsize);
      Consider(h, t, v, rsize, nb);
      var trem := Sub64(ChunkSize(Word(m, t + 8)), nb);
      ghost var r := rsize;
      if trem < rsize {
        v := t;
        rsize := trem;
        if rsize == 0 {
          rest := cur;
          WalkExact(m, h, idx, cur, right, all, nb, r);
          break;
        }
      }
      NotExact(m, h, idx, cur, right, all, nb, r, bits);
      SteerStep(bits, nb, cur.lo, cur.k);
      var rt := Word(m, t + ChildOffset(true));
      var b := bits >= TWO63;
      WalkNext(m, h, idx, cur, right, all, nb, r, rsize, b);
      ghost var next := Half(cur, b);
      t := Word(m, t + ChildOffset(b));
      RightKept(cur, right, b, rt, t, rst);
      right := if !b && cur.tree.right.Node? then Half(cur, true) else right;
      if rt != 0 && rt != t {
        rst := rt;
      }
      if t == 0 {
        t := rst;
        rest := right;
        WalkEnd(m, h, idx, next, right, all, nb, rsize, bits, cur, b);
        break;
      }
      bits := Shl1(bits);
      cur := next;
    }
  }

  lemma BestStart(h: Layout, nb: uint64)
    requires nb > 0
    ensures Best(h, 0, Sub64(0, nb), nb) && Sub64(0, nb) > 0
  {
  }

  /** The unsigned difference is below the excess so far only for a chunk that
      is large enough and fits better. */
  lemma Consider(h: Layout, t: int, v: int, rsize: uint64, nb: uint64)
    requires Best(h, v, rsize, nb) && t in h && 0 <= h[t].size < TWO64 && t != 0 && nb > 0
    ensures var trem := Sub64(h[t].size, nb);
            && (trem < rsize ==> Best(h, t, trem, nb) && trem == h[t].size - nb >= 0)
            && (trem >= rsize && nb <= h[t].size ==> rsize <= h[t].size - nb)
  {
  }

  lemma WalkStart(m: Memory, h: Layout, idx: int, all: set<int>, bin: Place, nb: int, rsize: int)
    requires At(m, h, idx, bin, all) && all == Nodes(bin.tree)
    ensures WalkInv(m, h, idx, bin, Place(Nil, 0, 0, 0), all, nb, rsize)
  {
    assert Nodes(Nil) == {} && Pow2(0) == 1;
  }

  lemma WalkRead(m: Memory, h: Layout, idx: int, cur: Place, right: Place, all: set<int>, nb: int, rsize: int)
    requires WalkInv(m, h, idx, cur, right, all, nb, rsize) && cur.tree.Node?
    ensures var t := Root(cur.tree);
            && t in all && t in h && t != 0 && ChunkSize(Word(m, t + 8)) == h[t].size && 0 <= h[t].size < TWO64
            && Word(m, t + ChildOffset(false)) == Root(cur.tree.left)
            && Word(m, t + ChildOffset(true)) == Root(cur.tree.right)
            && (Root(cur.tree.left) != 0 <==> cur.tree.left.Node?)
            && (Root(cur.tree.right) != 0 <==> cur.tree.right.Node?)
  {
    ReadNode(m, h, cur.tree, cur.parent, idx);
    SizedRange(h, cur.tree, cur.lo, cur.k, Root(cur.tree));
  }

  /** rst is the deepest right subtree not taken, also after this step. */
  lemma RightKept(cur: Place, right: Place, b: bool, rt: int, t: int, rst: int)
    requires cur.tree.Node? && cur.k > 0 && rt == Root(cur.tree.right) && t == Root(Child(cur.tree, b))
             && rst == Root(right.tree)
    requires (rt != 0 <==> cur.tree.right.Node?) && (cur.tree.right.Node? ==> (rt != t <==> !b))
    ensures (if rt != 0 && rt != t then rt else rst) == Root((if !b
            && cur.tree.right.Node? then Half(cur, true) else right).tree)
  {
  }

  lemma WalkExact(m: Memory, h: Layout, idx: int, cur: Place, right: Place, all: set<int>, nb: int, r: int)
    requires WalkInv(m, h, idx, cur, right, all, nb, r)
    ensures At(m, h, idx, cur, all)
    ensures forall y :: y in all ==> Covered(h, y, nb, 0, cur.tree)
  {
  }

  /** The walk ends where the child is missing: nothing is left but rst. */
  lemma WalkEnd(m: Memory, h: Layout, idx: int, next: Place, right: Place, all: set<int>, nb: int, r: int, bits: int,
                cur: Place, b: bool)
    requires WalkInv(m, h, idx, next, right, all, nb, r) && next.tree.Nil?
    requires cur.tree.Node? && cur.k > 0 && next == Half(cur, b) && Steers(bits, nb, cur.lo, cur.k)
    requires b <==> nb >= cur.lo + Pow2(cur.k - 1)
    ensures At(m, h, idx, right, all) && Above(h, right.tree, nb)
    ensures forall y :: y in all ==> Covered(h, y, nb, r, right.tree)
  {
    assert Nodes(Nil) == {};
    assert Pow2(cur.k) == 2 * Pow2(cur.k - 1);
  }

  /** The range of the next subtree. */
  ghost function Half(p: Place, b: bool): Place
    requires p.tree.Node? && p.k > 0
  {
    Place(Child(p.tree, b), Root(p.tree), if b then p.lo + Pow2(p.k - 1) else p.lo, p.k - 1)
  }

  lemma NotExact(m: Memory, h: Layout, idx: int, cur: Place, right: Place, all: set<int>, nb: int, r: int, bits: int)
    requires WalkInv(m, h, idx, cur, right, all, nb, r) && cur.tree.Node? && Root(cur.tree) in h
    requires Steers(bits, nb, cur.lo, cur.k) && h[Root(cur.tree)].size != nb
    ensures cur.k > 0
  {
    ReadNode(m, h, cur.tree, cur.parent, idx);
    SizedRange(h, cur.tree, cur.lo, cur.k, Root(cur.tree));
    assert Pow2(0) == 1;
  }

  lemma AboveMono(h: Layout, t: Tree, s: int, s': int)
    requires Above(h, t, s) && s' <= s
    ensures Above(h, t, s')
  {
  }

  /** Everything one iteration of the walk keeps. */
  lemma WalkNext(m: Memory, h: Layout, idx: int, cur: Place, right: Place, all: set<int>, nb: int, r0: int, r1: int,
                 b: bool)
    requires WalkInv(m, h, idx, cur, right, all, nb, r0) && cur.tree.Node? && cur.k > 0
    requires b <==> nb >= cur.lo + Pow2(cur.k - 1)
    requires Root(cur.tree) in h && r1 <= r0 && (nb <= h[Root(cur.tree)].size ==> r1 <= h[Root(cur.tree)].size - nb)
    ensures WalkInv(m, h, idx, Half(cur, b), if !b && cur.tree.right.Node? then Half(cur, true) else right, all, nb, r1)
    ensures cur.tree.right.Node? ==> (Root(cur.tree.right) != Root(Child(cur.tree, b)) <==> !b)
  {
    hide TreeAt, Sized, HeadsGive, Nodes, Pending, Above, Below;
    var t := cur.tree;
    AtChild(m, h, idx, cur, all, b);
    AtChild(m, h, idx, cur, all, true);
    RightAbove(h, t, cur.lo, cur.k);
    ReadNode(m, h, t, cur.parent, idx);
    RootIn(m, t.left, Root(t), idx);
    RootIn(m, t.right, Root(t), idx);
    SizedDistinct(h, t, cur.lo, cur.k);
    SiblingsDiffer(t);
    ChildSized(h, t, cur.lo, cur.k, b);
    if right.tree.Node? { AboveMono(h, right.tree, cur.lo + Pow2(cur.k), Half(cur, b).lo + Pow2(cur.k - 1)); }
    forall y | y in all
      ensures Pending(h, y, nb, r1, Child(t, b), if !b && t.right.Node? then t.right else right.tree)
    {
      WalkStep(h, t, cur.lo, cur.k, nb, r0, r1, right.tree, b, y);
    }
  }
}
