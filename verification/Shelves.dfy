/** Moving a free chunk into or out of its bin keeps the bookkeeping: what the
    relays insert_chunk and unlink_chunk do to the whole state
    (components/common/dlmalloc/malloc.c, lines 3575 to 3802). */
module Shelves {
  import opened Words
  import opened Rings
  import opened Tiling
  import opened Tags
  import opened Tries
  import opened BinMaps
  import opened BinIndex
  import opened TreeBins
  import opened TreeUnlink
  import opened Bins
  import opened SmallBins
  import opened HeapState

  /** s is a set of free chunks, and headers of small bins. */
  ghost predicate SmallNodes(s: State, ns: set<int>) {
    forall y :: y in ns ==>
      (exists i: nat :: i < NSMALLBINS && y == SmallHeader(s.gm, i)) || (y in s.h && !s.h[y].used && y != s.top)
  }

  lemma RingQuiet(s: State, m': Memory, ns: set<int>)
    requires Ground(s) && SmallNodes(s, ns) && OnlyRing(s.mem, m', ns)
    ensures Quiet(s.mem, m', s.h, s.gm)
  {
    forall w
      ensures QuietAt(s.mem, m', s.h, s.gm, w)
    {
      if Word(m', w) != Word(s.mem, w) {
        var y :| y in ns && y + 16 <= w < y + 32;
        if y in s.h && !s.h[y].used && y != s.top {
          assert w < y + s.h[y].size;
        }
      }
    }
  }

  /** Changes to small bins do not reach a tree chunk. */
  lemma RingKeepsNode(s: State, m': Memory, ns: set<int>, z: int)
    requires Ground(s) && Tagged(s.mem, s.h, s.top) && SmallNodes(s, ns) && OnlyRing(s.mem, m', ns)
    requires z in s.h && z !in ns && s.h[z].size >= 0x100
    ensures NodeKept(s.mem, m', s.h, s.h, z)
  {
    hide Tagged;
    assert Fits(s.h, s.base, s.end, z);
    forall w | z + 8 <= w < z + 64
      ensures Word(m', w) == Word(s.mem, w)
    {
      if Word(m', w) != Word(s.mem, w) {
        var y :| y in ns && y + 16 <= w < y + 32;
        if y in s.h && !s.h[y].used && y != s.top {
          assert Fits(s.h, s.base, s.end, y);
          Separate(s.h, s.base, s.end, y, z);
        }
      }
    }
    HeadSize(s, z);
  }

  lemma HeadSize(s: State, z: int)
    requires Ground(s) && Tagged(s.mem, s.h, s.top) && z in s.h
    ensures ChunkSize(Word(s.mem, z + 8)) == s.h[z].size
  {
    assert Fits(s.h, s.base, s.end, z) && HeadOk(s.mem, s.h, z);
    Decode(s.h[z]);
  }

  lemma RingKeepsTrees(s: State, m': Memory, ns: set<int>)
    requires Books(s) && SmallNodes(s, ns) && OnlyRing(s.mem, m', ns)
    requires forall y :: y in ns ==> y !in LargeChunks(s.trees)
    ensures TreesOk(m', s.h, s.gm, s.treebins, s.treemap, s.trees)
  {
    hide LargeChunks, Ground, Tagged, NodeKept, OnlyRing, SmallNodes, TreesOk;
    forall z | z in LargeChunks(s.trees)
      ensures NodeKept(s.mem, m', s.h, s.h, z)
    {
      LargeMember(s, z);
      RingKeepsNode(s, m', ns, z);
    }
    TreesFrame(s.mem, m', s.h, s.h, s.gm, s.treebins, s.treemap, s.trees);
  }

  /** The nodes of small bin i, and loose chunks, in the sense above. */
  lemma RingNodes(s: State, i: nat, extra: set<int>)
    requires Books(s) && |s.rings| == NSMALLBINS && i < NSMALLBINS && extra <= s.loose
    ensures SmallNodes(s, Elements(RingOf(s.gm, s.rings, i)) + extra)
    ensures forall y :: y in Elements(RingOf(s.gm, s.rings, i)) + extra ==> y !in LargeChunks(s.trees)
  {
    hide Shelved, Ground, Tagged, LargeChunks, RingOf, SmallHeader;
    forall y | y in Elements(RingOf(s.gm, s.rings, i)) + extra
      ensures y == SmallHeader(s.gm, i) || (y in s.h && !s.h[y].used && y != s.top)
      ensures y !in LargeChunks(s.trees)
    {
      if y in extra {
        if y in LargeChunks(s.trees) { LargeMember(s, y); }
      } else {
        RingNode(s, i, y);
        if y in LargeChunks(s.trees) { LargeMember(s, y); HeaderClear(s, i, y); }
      }
    }
  }

  /** A free chunk with a place of its own can go into its small bin. */
  ghost predicate CanShelve(s: State, p: int) {
    p in s.loose && p in s.h
  }

  lemma LooseFacts(s: State, p: int)
    requires Books(s) && CanShelve(s, p)
    ensures p > 0 && p != s.top && p != s.dv && !s.h[p].used && s.h[p].size >= 32 && s.h[p].size % 16 == 0
            && s.h[p].size < TWO64
  {
    hide Shelved, Tagged;
    assert Fits(s.h, s.base, s.end, p);
  }

  lemma InsertSmallBooks(s: State, s': State, p: int)
    requires Books(s) && CanShelve(s, p) && s.h[p].size < 0x100 && |s.rings| == NSMALLBINS
    requires var i := s.h[p].size / 8;
             && s' == s.(mem := s'.mem, smallmap := s'.smallmap, rings := s.rings[i := [p] + s.rings[i]],
             loose := s.loose - {p})
             && SmallsOk(s'.mem, s.gm, s'.smallmap, s'.rings)
             && OnlyRing(s.mem, s'.mem, Elements(RingOf(s.gm, s.rings, i)) + {p})
    ensures Books(s') && Quiet(s.mem, s'.mem, s.h, s.gm)
  {
    hide OnlyRing, Tagged, SmallsOk, TreesOk, Quiet, Tiled, MinSized, LargeChunks, SmallChunks, RingOf, SmallNodes;
    var i := s.h[p].size / 8;
    var ns := Elements(RingOf(s.gm, s.rings, i)) + {p};
    LooseFacts(s, p);
    RingNodes(s, i, {p});
    RingQuiet(s, s'.mem, ns);
    QuietTagged(s, s'.mem);
    RingKeepsTrees(s, s'.mem, ns);
    SmallAdded(s.rings, i, p);
    assert Roles(s');
    assert RingsSized(s'.h, s'.rings);
    assert FreeSet(s.h) == FreeSet(s'.h);
    assert Binned(s') == Binned(s) + {p};
  }

  lemma UnlinkSmallBooks(s: State, s': State, i: nat, k: nat)
    requires Books(s) && |s.rings| == NSMALLBINS && i < NSMALLBINS && k < |s.rings[i]|
    requires && s' == s.(mem := s'.mem, smallmap := s'.smallmap, rings := Dropped(s.rings, i, k),
             loose := s.loose + {s.rings[i][k]})
             && SmallsOk(s'.mem, s.gm, s'.smallmap, s'.rings)
             && OnlyRing(s.mem, s'.mem, Elements(RingOf(s.gm, s.rings, i)))
    ensures Books(s') && Quiet(s.mem, s'.mem, s.h, s.gm)
  {
    hide OnlyRing, Tagged, SmallsOk, TreesOk, Quiet, Tiled, MinSized, LargeChunks, SmallChunks, RingOf, SmallNodes;
    var p := s.rings[i][k];
    var ns := Elements(RingOf(s.gm, s.rings, i));
    RingNodes(s, i, {});
    assert ns + {} == ns;
    RingQuiet(s, s'.mem, ns);
    QuietTagged(s, s'.mem);
    RingKeepsTrees(s, s'.mem, ns);
    assert p in s.rings[i];
    SmallMember(s, i, p);
    OneRing(s, i, k);
    SmallDropped(s.rings, i, k);
    assert p !in LargeChunks(s.trees) by { if p in LargeChunks(s.trees) { LargeMember(s, p); } }
    assert Roles(s');
    assert RingsSized(s'.h, s'.rings);
    assert FreeSet(s.h) == FreeSet(s'.h);
    assert Binned(s') == Binned(s) - {p};
  }

  lemma OneRing(s: State, i: nat, k: nat)
    requires Shelved(s) && |s.rings| == NSMALLBINS && i < NSMALLBINS && k < |s.rings[i]|
    ensures NoDups(s.rings[i]) && forall j :: 0 <= j < NSMALLBINS && j != i ==> s.rings[i][k] !in s.rings[j]
  {
    hide TreesOk, Marked, LargeChunks, SmallChunks;
    assert SmallBinOk(s.mem, s.gm, s.smallmap, s.rings, i);
    var r := RingOf(s.gm, s.rings, i);
    assert NoDups(r);
    assert forall j :: 0 <= j < |s.rings[i]| ==> s.rings[i][j] == r[j + 1];
    assert NoDups(s.rings[i]);
    assert s.rings[i][k] in s.rings[i];
    forall j | 0 <= j < NSMALLBINS && s.rings[i][k] in s.rings[j]
      ensures j == i
    {
      SmallMember(s, i, s.rings[i][k]);
      SmallMember(s, j, s.rings[i][k]);
    }
  }

  // --------------------------------------------------------------- trees

  ghost predicate LargeNodes(s: State, ns: set<int>) {
    forall y :: y in ns ==> y in s.h && !s.h[y].used && s.h[y].size >= 0x100
  }

  lemma LinksQuiet(s: State, m': Memory, ns: set<int>)
    requires Ground(s) && LargeNodes(s, ns) && OnlyLinks(s.mem, m', ns)
    ensures Quiet(s.mem, m', s.h, s.gm)
  {
    forall w
      ensures QuietAt(s.mem, m', s.h, s.gm, w)
    {
      if Word(m', w) != Word(s.mem, w) {
        var y :| y in ns && y + 16 <= w < y + 64;
        assert w < y + s.h[y].size;
      }
    }
  }

  lemma LinksKeepSmalls(s: State, m': Memory, ns: set<int>)
    requires Ground(s) && Shelved(s) && LargeNodes(s, ns) && OnlyLinks(s.mem, m', ns)
    ensures SmallsOk(m', s.gm, s.smallmap, s.rings)
  {
    hide Shelved, OnlyLinks, LargeNodes, SmallChunks, SmallsOk;
    assert SmallsOk(s.mem, s.gm, s.smallmap, s.rings) by { ShelvedSmalls(s); }
    forall x | x in SmallChunks(s.rings)
      ensures SameOn(s.mem, m', x + 16, x + 32)
    {
      var i, k := WhichRing(s.rings, x);
      SmallLength(s.mem, s.gm, s.smallmap, s.rings);
      SmallMember(s, i, x);
      LinksKeepWords(s, m', ns, x);
    }
    forall w | s.gm + 88 <= w < s.gm + 600
      ensures Word(m', w) == Word(s.mem, w)
    {
      LinksKeepHeader(s, m', ns, w);
    }
    SmallsFrame(s.mem, m', s.gm, s.smallmap, s.rings);
  }

  lemma ShelvedSmalls(s: State)
    requires Shelved(s)
    ensures SmallsOk(s.mem, s.gm, s.smallmap, s.rings) && |s.rings| == NSMALLBINS
    ensures TreesOk(s.mem, s.h, s.gm, s.treebins, s.treemap, s.trees) && Shapes(s.treebins, s.trees)
  {
  }

  lemma LinksKeepWords(s: State, m': Memory, ns: set<int>, x: int)
    requires Ground(s) && LargeNodes(s, ns) && OnlyLinks(s.mem, m', ns) && x in s.h && s.h[x].size < 0x100
    ensures SameOn(s.mem, m', x + 16, x + 32)
  {
    assert Fits(s.h, s.base, s.end, x);
    forall w | x + 16 <= w < x + 32
      ensures Word(m', w) == Word(s.mem, w)
    {
      if Word(m', w) != Word(s.mem, w) {
        var y :| y in ns && y + 16 <= w < y + 64;
        Separate(s.h, s.base, s.end, y, x);
      }
    }
  }

  lemma LinksKeepHeader(s: State, m': Memory, ns: set<int>, w: int)
    requires Ground(s) && LargeNodes(s, ns) && OnlyLinks(s.mem, m', ns) && s.gm <= w < s.gm + 600
    ensures Word(m', w) == Word(s.mem, w)
  {
    forall y | y in ns
      ensures !(y + 16 <= w < y + 64)
    {
      assert Fits(s.h, s.base, s.end, y);
    }
    assert !Within(ns, w);
  }

  /** The state after the tree of bin i has changed. */
  ghost predicate TreeChanged(s: State, s': State, i: nat, t': Tree, root': int, treemap': uint32)
    requires Shapes(s.treebins, s.trees) && i < NTREEBINS
  {
    s' == s.(mem := s'.mem, treemap := treemap', treebins := s.treebins[i := root'], trees := s.trees[i := t'],
      loose := s'.loose)
  }

  lemma OtherTrees(s: State, s': State, i: nat, t': Tree, root': int, treemap': uint32, x: int, j: nat)
    requires Books(s) && Shapes(s.treebins, s.trees) && i < NTREEBINS && TreeChanged(s, s', i, t', root', treemap')
    requires OnlyLinks(s.mem, s'.mem, Nodes(s.trees[i]) + {x}) && x in s.h && s.h[x].size >= 0x100
    requires j < NTREEBINS && j != i && (Marked(treemap', j) <==> Marked(s.treemap, j)) && x !in Nodes(s.trees[j])
    ensures TreeBinOk(s'.mem, s'.h, s'.gm, s'.treebins, s'.treemap, s'.trees, j)
  {
    hide Nodes, Marked, OnlyLinks, Ground, Roles, Tagged, BinAt, LargeChunks, Spread;
    assert TreeBinOk(s.mem, s.h, s.gm, s.treebins, s.treemap, s.trees, j);
    assert TreeBinOk(s.mem, s.h, s.gm, s.treebins, s.treemap, s.trees, i);
    LargeSpread(s, {x});
    forall y, z | y in Nodes(s.trees[j]) && z in Nodes(s.trees[i]) + {x}
      ensures Away(y, z)
    {
      InLarge(s.trees, j, y);
      if z != x { InLarge(s.trees, i, z); }
      assert y != z;
      SpreadAway(LargeChunks(s.trees) + {x}, {y}, z);
    }
    BinFrame(s.mem, s'.mem, s.h, s.trees[j], TreeSlot(s.gm, j), j, Nodes(s.trees[i]) + {x});
  }

  lemma TreeNode(s: State, i: nat, y: int)
    requires Shelved(s) && Shapes(s.treebins, s.trees) && i < NTREEBINS && y in Nodes(s.trees[i])
    ensures y in LargeChunks(s.trees) && y in s.h && !s.h[y].used && 0x100 <= s.h[y].size < TWO64
            && TreeIndex(s.h[y].size) == i
    ensures y !in Special(s)
  {
    hide Nodes, TreeIndex, BinAt, LargeChunks, SmallsOk, Special;
    InLarge(s.trees, i, y);
    LargeMember(s, y);
    assert TreeBinOk(s.mem, s.h, s.gm, s.treebins, s.treemap, s.trees, i);
  }

  /** Bin i's own part after its tree and its mark have changed. */
  lemma ThisTree(s: State, s': State, i: nat, t': Tree, root': int, treemap': uint32)
    requires Shapes(s.treebins, s.trees) && i < NTREEBINS && TreeChanged(s, s', i, t', root', treemap')
    requires BinAt(s'.mem, s.h, t', TreeSlot(s.gm, i), i) && root' == Root(t') && (Marked(treemap', i) <==> t'.Node?)
    requires OfBin(s.h, t', i)
    ensures TreeBinOk(s'.mem, s'.h, s'.gm, s'.treebins, s'.treemap, s'.trees, i)
  {
    hide BinAt, OfBin, Marked;
  }

  lemma TreesChanged(s: State, s': State, i: nat, t': Tree, root': int, treemap': uint32, x: int)
    requires Books(s) && Shapes(s.treebins, s.trees) && i < NTREEBINS && TreeChanged(s, s', i, t', root', treemap')
    requires BinAt(s'.mem, s.h, t', TreeSlot(s.gm, i), i) && root' == Root(t')
    requires OnlyLinks(s.mem, s'.mem, Nodes(s.trees[i]) + {x}) && x in s.h && !s.h[x].used
             && 0x100 <= s.h[x].size < TWO64 && TreeIndex(s.h[x].size) == i
    requires forall j: nat :: j < NTREEBINS ==> (Marked(treemap',
             j) <==> if j == i then t'.Node? else Marked(s.treemap, j))
    requires forall j: nat :: j < NTREEBINS && j != i ==> x !in Nodes(s.trees[j])
    requires Nodes(t') <= Nodes(s.trees[i]) + {x}
    ensures TreesOk(s'.mem, s'.h, s'.gm, s'.treebins, s'.treemap, s'.trees)
    ensures Quiet(s.mem, s'.mem, s.h, s.gm) && Tagged(s'.mem, s.h, s.top)
    ensures SmallsOk(s'.mem, s'.gm, s'.smallmap, s'.rings)
  {
    hide Nodes, Marked, OnlyLinks, Ground, Roles, Tagged, BinAt, Quiet, TreeIndex, Shelved, TreeBinOk, SmallsOk,
      Special, LargeChunks;
    var ns := Nodes(s.trees[i]) + {x};
    forall y | y in ns
      ensures y in s.h && !s.h[y].used && 0x100 <= s.h[y].size < TWO64 && TreeIndex(s.h[y].size) == i
    {
      if y != x { TreeNode(s, i, y); }
    }
    LinksQuiet(s, s'.mem, ns);
    QuietTagged(s, s'.mem);
    LinksKeepSmalls(s, s'.mem, ns);
    ThisTree(s, s', i, t', root', treemap');
    forall j: nat | j < NTREEBINS
      ensures TreeBinOk(s'.mem, s'.h, s'.gm, s'.treebins, s'.treemap, s'.trees, j)
    {
      if j != i { OtherTrees(s, s', i, t', root', treemap', x, j); }
    }
  }

  /** A chunk is in at most one tree. */
  lemma OneTree(s: State, i: nat, x: int)
    requires Shelved(s) && Shapes(s.treebins, s.trees) && i < NTREEBINS && x in Nodes(s.trees[i])
    ensures forall j: nat :: j < NTREEBINS && j != i ==> x !in Nodes(s.trees[j])
  {
    hide Shelved, Nodes, TreeIndex;
    TreeNode(s, i, x);
    forall j: nat | j < NTREEBINS && x in Nodes(s.trees[j])
      ensures j == i
    {
      TreeNode(s, j, x);
    }
  }

  lemma LooseNoTree(s: State, x: int)
    requires Shelved(s) && Shapes(s.treebins, s.trees) && x in Special(s)
    ensures forall j: nat :: j < NTREEBINS ==> x !in Nodes(s.trees[j])
  {
    hide Shelved, Nodes, TreeIndex;
    forall j: nat | j < NTREEBINS
      ensures x !in Nodes(s.trees[j])
    {
      if x in Nodes(s.trees[j]) { TreeNode(s, j, x); }
    }
  }

  lemma InsertLargeBooks(s: State, s': State, x: int, i: nat, t': Tree, root': int, treemap': uint32)
    requires Books(s) && CanShelve(s, x) && 0x100 <= s.h[x].size && Shapes(s.treebins, s.trees)
    requires s.h[x].size < TWO64 && i == TreeIndex(s.h[x].size) < NTREEBINS
    requires TreeChanged(s, s', i, t', root', treemap') && s'.loose == s.loose - {x}
    requires treemap' == if Marked(s.treemap, i) then s.treemap else Mark(s.treemap, i)
    requires BinAt(s'.mem, s.h, t', TreeSlot(s.gm, i), i) && t'.Node? && root' == Root(t')
    requires Nodes(t') == Nodes(s.trees[i]) + {x} && OnlyLinks(s.mem, s'.mem, Nodes(s.trees[i]) + {x})
    ensures Books(s') && Quiet(s.mem, s'.mem, s.h, s.gm)
  {
    hide Nodes, Marked, Mark, OnlyLinks, Tagged, BinAt, Quiet, TreeIndex, SmallsOk, TreesOk, LargeChunks, SmallChunks,
      Tiled, MinSized;
    LooseFacts(s, x);
    LooseNoTree(s, x);
    forall j: nat | j < NTREEBINS
      ensures Marked(treemap', j) <==> if j == i then t'.Node? else Marked(s.treemap, j)
    {
      MarkClear(s.treemap, i, j);
    }
    TreesChanged(s, s', i, t', root', treemap', x);
    LargeReplaced(s.trees, i, t', x);
    assert Roles(s');
    assert Binned(s') == Binned(s) + {x};
  }

  lemma UnlinkLargeBooks(s: State, s': State, x: int, i: nat, t': Tree, root': int, treemap': uint32)
    requires Books(s) && Shapes(s.treebins, s.trees) && i < NTREEBINS && x in Nodes(s.trees[i])
    requires TreeChanged(s, s', i, t', root', treemap') && s'.loose == s.loose + {x}
    requires treemap' == if root' == 0 then Clear(s.treemap, i) else s.treemap
    requires BinAt(s'.mem, s.h, t', TreeSlot(s.gm, i), i) && root' == Root(t')
    requires Nodes(t') == Nodes(s.trees[i]) - {x} && OnlyLinks(s.mem, s'.mem, Nodes(s.trees[i]))
    ensures Books(s') && Quiet(s.mem, s'.mem, s.h, s.gm)
  {
    hide Nodes, Marked, Clear, OnlyLinks, Tagged, BinAt, Quiet, TreeIndex, SmallsOk, TreesOk, LargeChunks, SmallChunks,
      Tiled, MinSized;
    TreeNode(s, i, x);
    OneTree(s, i, x);
    assert Nodes(s.trees[i]) + {x} == Nodes(s.trees[i]);
    RootNode(s'.mem, s.h, t', TreeSlot(s.gm, i), i);
    TreeMarks(s.mem, s.h, s.gm, s.treebins, s.treemap, s.trees, i);
    NodesNode(s.trees[i], x);
    forall j: nat | j < NTREEBINS
      ensures Marked(treemap', j) <==> if j == i then t'.Node? else Marked(s.treemap, j)
    {
      MarkClear(s.treemap, i, j);
    }
    TreesChanged(s, s', i, t', root', treemap', x);
    LargeReplaced(s.trees, i, t', x);
    NotSmall(s, x);
    assert Roles(s');
    assert Binned(s') == Binned(s) - {x};
  }

  lemma NodesNode(t: Tree, x: int)
    requires x in Nodes(t)
    ensures t.Node?
  {
  }

  lemma NotSmall(s: State, x: int)
    requires Shelved(s) && x in LargeChunks(s.trees)
    ensures x !in SmallChunks(s.rings)
  {
    hide SmallChunks, LargeChunks, Shelved;
    LargeMember(s, x);
    if x in SmallChunks(s.rings) {
      ShelvedSmalls(s);
      var i, k := WhichRing(s.rings, x);
      SmallMember(s, i, x);
    }
  }

  lemma RootNode(m: Memory, h: Layout, t: Tree, slot: int, i: nat)
    requires BinAt(m, h, t, slot, i)
    ensures t.Node? <==> Root(t) != 0
  {
    RootIn(m, t, slot, i);
  }

  // ------------------------------------- what the bin operations rely on

  lemma InsertSmallReady(s: State, p: int)
    requires Books(s) && CanShelve(s, p) && s.h[p].size < 0x100
    ensures |s.rings| == NSMALLBINS && SmallsOk(s.mem, s.gm, s.smallmap, s.rings)
    ensures RingsClear(s.gm, s.rings, {p}) && RingsApart(s.gm, s.rings) && s.h[p].size >= 32
    ensures AtLeast(SmallChunks(s.rings), s.base)
  {
    hide Shelved, Ground, Tagged, Roles, Special;
    LooseFacts(s, p);
    ShelvedSmalls(s);
    assert p in Special(s) by { LooseSpecial(s, p); }
    RingsSeparate(s, {p});
  }

  lemma LooseSpecial(s: State, p: int)
    requires p in s.loose
    ensures p in Special(s)
  {
  }

  lemma UnlinkSmallReady(s: State)
    requires Books(s)
    ensures |s.rings| == NSMALLBINS && SmallsOk(s.mem, s.gm, s.smallmap, s.rings)
    ensures RingsClear(s.gm, s.rings, {}) && RingsApart(s.gm, s.rings)
    ensures AtLeast(SmallChunks(s.rings), s.base)
  {
    hide Shelved, Ground, Tagged, Roles, Special;
    ShelvedSmalls(s);
    RingsSeparate(s, {});
  }

  lemma SmallPlace(s: State, p: int) returns (k: nat)
    requires Books(s) && |s.rings| == NSMALLBINS && p in Binned(s) && s.h[p].size < 0x100
    ensures k < |s.rings[s.h[p].size / 8]| && s.rings[s.h[p].size / 8][k] == p
  {
    hide SmallChunks, LargeChunks, TreesOk, SmallsOk, Ground, Tagged, Roles, Special;
    if p in LargeChunks(s.trees) { LargeMember(s, p); }
    var i: nat;
    i, k := WhichRing(s.rings, p);
    SmallMember(s, i, p);
  }

  lemma InsertLargeReady(s: State, x: int)
    requires Books(s) && CanShelve(s, x) && s.h[x].size >= 0x100
    ensures s.h[x].size < TWO64 && TreeIndex(s.h[x].size) < NTREEBINS && Shapes(s.treebins, s.trees)
    ensures var i := TreeIndex(s.h[x].size); var t := s.trees[i];
            && BinAt(s.mem, s.h, t, TreeSlot(s.gm, i), i) && (Marked(s.treemap, i) <==> t.Node?)
            && s.treebins[i] == Root(t)
            && x !in Nodes(t) && Spread(Nodes(t) + {x}) && HeadsGive(s.mem, s.h, Nodes(t) + {x})
            && AtLeast(Nodes(t) + {x}, s.base) && s.base > 0
  {
    hide Shelved, Ground, Tagged, Roles, Special, BinAt, Nodes, TreeIndex, Marked, Spread, AtLeast, LargeChunks;
    LooseFacts(s, x);
    LooseSpecial(s, x);
    TreeIndexRange(s.h[x].size);
    ShelvedSmalls(s);
    var i := TreeIndex(s.h[x].size);
    assert TreeBinOk(s.mem, s.h, s.gm, s.treebins, s.treemap, s.trees, i);
    LooseNoTree(s, x);
    SubTree(s, i, {x});
    forall y | y in Nodes(s.trees[i]) + {x}
      ensures y in s.h && ChunkSize(Word(s.mem, y + 8)) == s.h[y].size
    {
      if y != x { TreeNode(s, i, y); }
      HeadSize(s, y);
    }
    BasePositive(s);
  }

  lemma BasePositive(s: State)
    requires Ground(s)
    ensures s.base > 0
  {
  }

  lemma SubTree(s: State, i: nat, extra: set<int>)
    requires Ground(s) && Shelved(s) && Shapes(s.treebins, s.trees) && i < NTREEBINS
    requires forall p :: p in extra ==> p in s.h && s.h[p].size >= 0x100
    ensures Spread(Nodes(s.trees[i]) + extra) && AtLeast(Nodes(s.trees[i]) + extra, s.base)
  {
    hide Ground, Shelved, Nodes;
    LargeSpread(s, extra);
    forall y | y in Nodes(s.trees[i]) ensures y in LargeChunks(s.trees) { InLarge(s.trees, i, y); }
  }

  lemma UnlinkLargeReady(s: State, x: int)
    requires Books(s) && x in Binned(s) && s.h[x].size >= 0x100
    ensures s.h[x].size < TWO64 && TreeIndex(s.h[x].size) < NTREEBINS && Shapes(s.treebins, s.trees)
    ensures var i := TreeIndex(s.h[x].size); var t := s.trees[i];
            && BinAt(s.mem, s.h, t, TreeSlot(s.gm, i), i) && s.treebins[i] == Root(t) && x in Nodes(t)
            && AtLeast(Nodes(t), s.base) && s.base > 0 && Word(s.mem, x + 56) == i
  {
    hide Ground, Tagged, Roles, Special, BinAt, Nodes, TreeIndex, Marked, AtLeast, LargeChunks, SmallChunks, SmallsOk,
      TreesOk;
    NotInRings(s, x);
    LargeMember(s, x);
    var i := WhichBin(s.trees, x);
    ShelvedSmalls(s);
    TreeNode(s, i, x);
    TreeOk(s, i);
    SubTree(s, i, {});
    assert Nodes(s.trees[i]) + {} == Nodes(s.trees[i]);
    BasePositive(s);
    BinIndexField(s.mem, s.h, s.trees[i], TreeSlot(s.gm, i), i, x);
  }

  lemma TreeOk(s: State, i: nat)
    requires Shelved(s) && Shapes(s.treebins, s.trees) && i < NTREEBINS
    ensures BinAt(s.mem, s.h, s.trees[i], TreeSlot(s.gm, i), i) && s.treebins[i] == Root(s.trees[i])
  {
    hide BinAt, Marked, OfBin;
    assert TreeBinOk(s.mem, s.h, s.gm, s.treebins, s.treemap, s.trees, i);
  }

  lemma NotInRings(s: State, x: int)
    requires Shelved(s) && x in Binned(s) && s.h[x].size >= 0x100
    ensures x in LargeChunks(s.trees)
  {
    hide SmallChunks, LargeChunks, TreesOk, SmallsOk, Special;
    if x in SmallChunks(s.rings) {
      ShelvedSmalls(s);
      var i, k := WhichRing(s.rings, x);
      SmallMember(s, i, x);
    }
  }

  lemma BinIndexField(m: Memory, h: Layout, t: Tree, slot: int, i: nat, x: int)
    requires BinAt(m, h, t, slot, i) && x in Nodes(t)
    ensures Word(m, x + 56) == i
  {
    IndexField(m, t, slot, i, x);
  }

  lemma {:induction false} IndexField(m: Memory, t: Tree, parent: int, idx: int, x: int)
    requires TreeAt(m, t, parent, idx) && x in Nodes(t)
    ensures Word(m, x + 56) == idx
    decreases t
  {
    if x in t.ring {
      var k :| 0 <= k < |t.ring| && t.ring[k] == x;
    } else if x in Nodes(t.left) {
      IndexField(m, t.left, t.ring[0], idx, x);
    } else {
      IndexField(m, t.right, t.ring[0], idx, x);
    }
  }
}
