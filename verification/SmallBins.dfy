/** Operations on small bins: circular lists through a header in the state
    (components/common/dlmalloc/malloc.c, lines 3575 to 3649). When a bin
    empties only its map bit is cleared, so the header of an unmarked bin says
    nothing. */
module SmallBins {
  import opened Words
  import opened Rings
  import opened Tiling
  import opened Tries
  import opened BinMaps
  import opened TreeBins
  import opened Bins

  const NSMALLBINS: nat := 32

  ghost predicate SmallBinOk(m: Memory, gm: int, smallmap: uint32, rings: seq<seq<int>>, i: nat)
    requires |rings| == NSMALLBINS && i < NSMALLBINS
  {
    && (Marked(smallmap, i) <==> rings[i] != [])
    && (rings[i] != [] ==> Ring(m, [SmallHeader(gm, i)] + rings[i]))
  }

  ghost predicate SmallsOk(m: Memory, gm: int, smallmap: uint32, rings: seq<seq<int>>) {
    |rings| == NSMALLBINS &&
    forall i: nat {:trigger SmallBinOk(m, gm, smallmap, rings, i)} :: i < NSMALLBINS ==> SmallBinOk(m, gm, smallmap,
      rings, i)
  }

  ghost function SmallChunks(rings: seq<seq<int>>): set<int> {
    set i, y | 0 <= i < |rings| && y in rings[i] :: y
  }

  ghost predicate RingsSized(h: Layout, rings: seq<seq<int>>) {
    forall i, p :: 0 <= i < |rings| && p in rings[i] ==> p in h && h[p].size == 8 * i
  }

  /** x and y have their link fields in different words. */
  ghost predicate Clear16(x: int, y: int) {
    x + 16 <= y || y + 16 <= x
  }

  /** Only fd/bk fields of the nodes in s have changed. */
  ghost predicate OnlyRing(m: Memory, m': Memory, s: set<int>) {
    forall a {:trigger Word(m', a)} :: Word(m', a) == Word(m, a) || exists y :: y in s && y + 16 <= a < y + 32
  }

  lemma OnlyRingSame(m: Memory, m': Memory, s: set<int>, x: int)
    requires OnlyRing(m, m', s) && forall y :: y in s ==> Clear16(x, y)
    ensures SameOn(m, m', x + 16, x + 32)
  {
  }

  lemma WriteRing(m: Memory, m': Memory, s: set<int>, y: int, o: int, v: int)
    requires OnlyRing(m, m', s) && y in s && 16 <= o < 32
    ensures OnlyRing(m, m'[y + o := v], s)
  {
    forall a
      ensures Word(m'[y + o := v], a) == Word(m, a) || exists z :: z in s && z + 16 <= a < z + 32
    {
      assert Word(m', a) == Word(m, a) || exists z :: z in s && z + 16 <= a < z + 32;
    }
  }

  /** The header and chunks of bin i. */
  ghost function RingOf(gm: int, rings: seq<seq<int>>, i: nat): seq<int>
    requires i < |rings|
  {
    [SmallHeader(gm, i)] + rings[i]
  }

  /** Bins other than i keep their rings when only nodes clear of them change. */
  lemma OtherRings(m: Memory, m': Memory, gm: int, smallmap: uint32, smallmap': uint32,
                   rings: seq<seq<int>>, rings': seq<seq<int>>, i: nat, j: nat, s: set<int>)
    requires SmallsOk(m, gm, smallmap, rings) && |rings'| == NSMALLBINS && i < NSMALLBINS && j < NSMALLBINS && j != i
    requires rings'[j] == rings[j] && (Marked(smallmap', j) <==> Marked(smallmap, j)) && OnlyRing(m, m', s)
    requires forall x, y :: x in RingOf(gm, rings, j) && y in s ==> Clear16(x, y)
    ensures SmallBinOk(m', gm, smallmap', rings', j)
  {
    assert SmallBinOk(m, gm, smallmap, rings, j);
    if rings[j] != [] {
      var r := RingOf(gm, rings, j);
      forall k | 0 <= k < |r|
        ensures SameOn(m, m', r[k] + 16, r[k] + 32)
      {
        assert r[k] in r;
        OnlyRingSame(m, m', s, r[k]);
      }
      RingFrame(m, m', r);
    }
  }

  /** All nodes of all small rings are clear of each other. */
  ghost predicate RingsClear(gm: int, rings: seq<seq<int>>, extra: set<int>) {
    && (forall i, j, x, y ::
          0 <= i < |rings| && 0 <= j < |rings| && x in RingOf(gm, rings, i) && y in RingOf(gm, rings, j) ==>
            x == y || Clear16(x, y))
    && (forall i, x, y :: 0 <= i < |rings| && x in RingOf(gm, rings, i) && y in extra ==> x != y && Clear16(x, y))
  }

  /** The ring of bin i after a chunk is linked in at its front. */
  lemma FrontRing(m: Memory, gm: int, smallmap: uint32, rings: seq<seq<int>>, i: nat, p: int, f: int)
    requires SmallsOk(m, gm, smallmap, rings) && i < NSMALLBINS && RingsClear(gm, rings, {p})
    requires f == if Marked(smallmap, i) then Word(m, SmallHeader(gm, i) + 16) else SmallHeader(gm, i)
    ensures Ring(Link(m, SmallHeader(gm, i), p, f), [SmallHeader(gm, i), p] + rings[i])
    ensures f in RingOf(gm, rings, i)
  {
    hide Marked, RingsClear, Ring, Link;
    assert SmallBinOk(m, gm, smallmap, rings, i);
    var b, r := SmallHeader(gm, i), RingOf(gm, rings, i);
    ClearOfExtra(gm, rings, i, p);
    assert r[0] == b && b in r;
    forall k | 0 <= k < |r| ensures p != r[k] && Clear16(r[k], p) { assert r[k] in r; }
    if rings[i] == [] {
      assert [b, p] + rings[i] == [b, p];
      PairRing(m, b, p);
    } else {
      SecondOf(m, r);
      assert f == r[1] && r[1] in r;
      RingInsert(m, r, p);
      assert [r[0], p] + r[1..] == [b, p] + rings[i];
    }
  }

  lemma PairRing(m: Memory, b: int, p: int)
    requires p != b && Clear16(b, p)
    ensures Ring(Link(m, b, p, b), [b, p])
  {
    var m', s := Link(m, b, p, b), [b, p];
    assert Linked(m', s, 0) && Linked(m', s, 1);
  }

  lemma SecondOf(m: Memory, r: seq<int>)
    requires Ring(m, r) && |r| > 1
    ensures Word(m, r[0] + 16) == r[1]
  {
    assert Linked(m, r, 0);
  }

  lemma ClearOfExtra(gm: int, rings: seq<seq<int>>, i: nat, p: int)
    requires RingsClear(gm, rings, {p}) && i < |rings|
    ensures forall y :: y in RingOf(gm, rings, i) ==> p != y && Clear16(y, p)
  {
    assert p in {p};
  }

  lemma LinkOnlyRing(m: Memory, b: int, p: int, f: int, s: set<int>)
    requires b in s && p in s && f in s
    ensures OnlyRing(m, Link(m, b, p, f), s)
  {
    hide OnlyRing;
    OnlyRingRefl(m, s);
    WriteRing(m, m, s, b, 16, p);
    WriteRing(m, m[b + 16 := p], s, f, 24, p);
    WriteRing(m, m[b + 16 := p][f + 24 := p], s, p, 16, f);
    WriteRing(m, m[b + 16 := p][f + 24 := p][p + 16 := f], s, p, 24, b);
  }

  lemma OnlyRingRefl(m: Memory, s: set<int>)
    ensures OnlyRing(m, m, s)
  {
  }

  /** The nodes of two bins, and a new chunk, are clear of each other. */
  lemma BinsClear(gm: int, rings: seq<seq<int>>, p: int, i: nat, j: nat)
    requires RingsClear(gm, rings, {p}) && i < |rings| && j < |rings| && i != j
    requires RingsApart(gm, rings)
    ensures forall x, y :: x in RingOf(gm, rings, j) && y in Elements(RingOf(gm, rings, i)) + {p} ==> Clear16(x, y)
  {
    forall x, y | x in RingOf(gm, rings, j) && y in Elements(RingOf(gm, rings, i)) + {p}
      ensures Clear16(x, y)
    {
      if y == p { ClearOfExtra(gm, rings, j, p); }
    }
  }

  /** The bins share no nodes. */
  ghost predicate RingsApart(gm: int, rings: seq<seq<int>>) {
    forall i, j, x, y :: 0 <= i < |rings| && 0 <= j < |rings| && i != j && x in RingOf(gm, rings, i)
      && y in RingOf(gm, rings, j)
      ==> x != y
  }

  /** Link a free chunk into its small bin, at the front. */
  method InsertSmall(m0: Memory, gm: int, smallmap0: uint32, p: int, size: nat, least: int, ghost rings: seq<seq<int>>)
    returns (m: Memory, smallmap: uint32)
    requires SmallsOk(m0, gm, smallmap0, rings) && RingsClear(gm, rings, {p}) && RingsApart(gm, rings)
    requires 32 <= size < 0x100 && AtLeast(SmallChunks(rings), least)
    ensures SmallsOk(m, gm, smallmap, rings[size / 8 := [p] + rings[size / 8]])
    ensures OnlyRing(m0, m, Elements(RingOf(gm, rings, size / 8)) + {p})
  {
    hide Marked, Mark, RingsClear, RingsApart, OnlyRing, Ring, SmallChunks, AtLeast;
    var i := size / 8;
    var b := SmallHeader(gm, i);
    var f := b;
    smallmap := smallmap0;
    FrontRing(m0, gm, smallmap0, rings, i, p, if Marked(smallmap0, i) then Word(m0, b + 16) else b);
    if !Marked(smallmap0, i) {
      smallmap := Mark(smallmap0, i);
    } else if Word(m0, b + 16) >= least {
      f := Word(m0, b + 16);
    } else {
      FirstAtLeast(m0, gm, smallmap0, rings, i, least);
      assert false;
    }
    m := m0[b + 16 := p];
    m := m[f + 24 := p];
    m := m[p + 16 := f];
    m := m[p + 24 := b];
    assert m == Link(m0, b, p, f);
    LinkOnlyRing(m0, b, p, f, Elements(RingOf(gm, rings, i)) + {p});
    FrontOk(m0, m, gm, smallmap0, smallmap, rings, i, p);
  }

  lemma FirstAtLeast(m: Memory, gm: int, smallmap: uint32, rings: seq<seq<int>>, i: nat, least: int)
    requires SmallsOk(m, gm, smallmap, rings) && i < NSMALLBINS && Marked(smallmap, i)
             && AtLeast(SmallChunks(rings), least)
    ensures rings[i] != [] && Word(m, SmallHeader(gm, i) + 16) == rings[i][0] >= least
  {
    hide Marked;
    assert SmallBinOk(m, gm, smallmap, rings, i);
    assert Ring(m, RingOf(gm, rings, i)) && Linked(m, RingOf(gm, rings, i), 0);
    assert rings[i] != [] && rings[i][0] in rings[i];
    assert rings[i][0] in SmallChunks(rings);
  }

  lemma FrontOk(m: Memory, m': Memory, gm: int, smallmap: uint32, smallmap': uint32, rings: seq<seq<int>>, i: nat,
                p: int)
    requires SmallsOk(m, gm, smallmap, rings) && i < NSMALLBINS && RingsClear(gm, rings, {p}) && RingsApart(gm, rings)
    requires smallmap' == if Marked(smallmap, i) then smallmap else Mark(smallmap, i)
    requires Ring(m', [SmallHeader(gm, i), p] + rings[i]) && OnlyRing(m, m', Elements(RingOf(gm, rings, i)) + {p})
    ensures SmallsOk(m', gm, smallmap', rings[i := [p] + rings[i]])
  {
    hide Marked, Mark, OnlyRing, Ring, RingsClear;
    var rings' := rings[i := [p] + rings[i]];
    forall j: nat | j < NSMALLBINS
      ensures SmallBinOk(m', gm, smallmap', rings', j)
    {
      MarkClear(smallmap, i, j);
      assert SmallBinOk(m, gm, smallmap, rings, j);
      if j == i {
        assert [SmallHeader(gm, i)] + rings'[i] == [SmallHeader(gm, i), p] + rings[i];
      } else {
        BinsClear(gm, rings, p, i, j);
        OtherRings(m, m', gm, smallmap, smallmap', rings, rings', i, j, Elements(RingOf(gm, rings, i)) + {p});
      }
    }
  }

  /** Clearing the mark of a bin empties it; the others keep their rings. */
  lemma ClearOk(m: Memory, gm: int, smallmap: uint32, rings: seq<seq<int>>, i: nat)
    requires SmallsOk(m, gm, smallmap, rings) && i < NSMALLBINS
    ensures SmallsOk(m, gm, Clear(smallmap, i), rings[i := []])
  {
    hide Marked, Clear, Ring;
    var smallmap', rings' := Clear(smallmap, i), rings[i := []];
    forall j: nat | j < NSMALLBINS
      ensures SmallBinOk(m, gm, smallmap', rings', j)
    {
      MarkClear(smallmap, i, j);
      assert SmallBinOk(m, gm, smallmap, rings, j);
    }
  }

  /** Unlinking keeps the other bins and leaves the ring without the chunk. */
  lemma RemoveOk(m: Memory, m': Memory, gm: int, smallmap: uint32, rings: seq<seq<int>>, i: nat, k: nat)
    requires SmallsOk(m, gm, smallmap, rings) && i < NSMALLBINS && k < |rings[i]| && |rings[i]| > 1
    requires RingsClear(gm, rings, {}) && RingsApart(gm, rings)
    requires Ring(m', Without(RingOf(gm, rings, i), k + 1)) && OnlyRing(m, m', Elements(RingOf(gm, rings, i)))
    ensures SmallsOk(m', gm, smallmap, rings[i := Without(rings[i], k)])
  {
    hide Marked, OnlyRing, Ring;
    var rings' := rings[i := Without(rings[i], k)];
    forall j: nat | j < NSMALLBINS
      ensures SmallBinOk(m', gm, smallmap, rings', j)
    {
      assert SmallBinOk(m, gm, smallmap, rings, j);
      if j == i {
        assert RingOf(gm, rings', i) == Without(RingOf(gm, rings, i), k + 1);
      } else {
        OtherRings(m, m', gm, smallmap, smallmap, rings, rings', i, j, Elements(RingOf(gm, rings, i)));
      }
    }
  }

  lemma UnlinkOnlyRing(m: Memory, f: int, b: int, s: set<int>)
    requires b in s && f in s
    ensures OnlyRing(m, Unlink(m, f, b), s)
  {
    hide OnlyRing;
    OnlyRingRefl(m, s);
    WriteRing(m, m, s, f, 24, b);
    WriteRing(m, m[f + 24 := b], s, b, 16, f);
  }

  /** What a chunk's links and its neighbours' links say. */
  lemma Neighbours(m: Memory, gm: int, smallmap: uint32, rings: seq<seq<int>>, i: nat, k: nat, least: int)
    requires SmallsOk(m, gm, smallmap, rings) && i < NSMALLBINS && k < |rings[i]| && AtLeast(SmallChunks(rings), least)
    ensures var p := rings[i][k]; var f, b := Word(m, p + 16), Word(m, p + 24); var r := RingOf(gm, rings, i);
            && f in r && b in r && Word(m, f + 24) == p && Word(m, b + 16) == p && f != p && b != p
            && (f == SmallHeader(gm, i) || f >= least) && (b == SmallHeader(gm, i) || b >= least)
            && (b == f <==> |rings[i]| == 1)
            && Ring(m, r) && r[k + 1] == p && (k == 0 ==> b == SmallHeader(gm, i))
            && (|rings[i]| == 1 ==> f == SmallHeader(gm, i))
  {
    hide Marked;
    assert SmallBinOk(m, gm, smallmap, rings, i);
    var r := RingOf(gm, rings, i);
    var n := |r|;
    assert Linked(m, r, k + 1) && Linked(m, r, Succ(k + 1, n)) && Linked(m, r, Pred(k + 1, n));
    assert forall x :: x in rings[i] ==> x in SmallChunks(rings);
    assert r[Succ(k + 1, n)] == r[0] || r[Succ(k + 1, n)] in rings[i];
    assert r[Pred(k + 1, n)] == r[0] || r[Pred(k + 1, n)] in rings[i];
  }

  /** The rings after chunk p of bin i is gone. */
  ghost function Dropped(rings: seq<seq<int>>, i: nat, k: nat): seq<seq<int>>
    requires i < |rings| && k < |rings[i]|
  {
    rings[i := Without(rings[i], k)]
  }

  /** Unlink a chunk from its small bin, wherever in the bin it is. */
  method UnlinkSmall(m0: Memory, gm: int, smallmap0: uint32, p: int, size: nat, least: int, ghost rings: seq<seq<int>>,
                     ghost k: nat)
    returns (m: Memory, smallmap: uint32)
    requires SmallsOk(m0, gm, smallmap0, rings) && RingsClear(gm, rings, {}) && RingsApart(gm, rings)
    requires size < 0x100 && k < |rings[size / 8]| && rings[size / 8][k] == p && AtLeast(SmallChunks(rings), least)
    ensures SmallsOk(m, gm, smallmap, Dropped(rings, size / 8, k))
    ensures OnlyRing(m0, m, Elements(RingOf(gm, rings, size / 8)))
  {
    hide Marked, Clear, RingsClear, RingsApart, OnlyRing, Ring, SmallChunks, AtLeast, SmallsOk;
    SmallLength(m0, gm, smallmap0, rings);
    m, smallmap := m0, smallmap0;
    var f, b := Word(m, p + 16), Word(m, p + 24);
    var i := size / 8;
    Neighbours(m0, gm, smallmap0, rings, i, k, least);
    OnlyRingRefl(m0, Elements(RingOf(gm, rings, i)));
    if f == SmallHeader(gm, i) || (f >= least && Word(m, f + 24) == p) {
      if b == f {
        smallmap := Clear(smallmap, i);
        ClearOk(m0, gm, smallmap0, rings, i);
        assert Without(rings[i], k) == [];
      } else if b == SmallHeader(gm, i) || (b >= least && Word(m, b + 16) == p) {
        m := m[f + 24 := b];
        m := m[b + 16 := f];
        UnlinkOnlyRing(m0, f, b, Elements(RingOf(gm, rings, i)));
        RingRemove(m0, RingOf(gm, rings, i), k + 1);
        RemoveOk(m0, m, gm, smallmap0, rings, i, k);
      } else {
        assert false;
      }
    } else {
      assert false;
    }
  }

  lemma SmallLength(m: Memory, gm: int, smallmap: uint32, rings: seq<seq<int>>)
    requires SmallsOk(m, gm, smallmap, rings)
    ensures |rings| == NSMALLBINS
  {
  }

  /** Unlink the first chunk of a small bin. */
  method UnlinkFirstSmall(m0: Memory, gm: int, smallmap0: uint32, b: int, p: int, i: nat, least: int,
                          ghost rings: seq<seq<int>>)
    returns (m: Memory, smallmap: uint32)
    requires SmallsOk(m0, gm, smallmap0, rings) && RingsClear(gm, rings, {}) && RingsApart(gm, rings)
    requires i < NSMALLBINS && b == SmallHeader(gm, i) && rings[i] != [] && p == rings[i][0]
    requires AtLeast(SmallChunks(rings), least)
    ensures SmallsOk(m, gm, smallmap, Dropped(rings, i, 0))
    ensures OnlyRing(m0, m, Elements(RingOf(gm, rings, i)))
  {
    hide Marked, Clear, RingsClear, RingsApart, OnlyRing, Ring, SmallChunks, AtLeast, SmallsOk;
    SmallLength(m0, gm, smallmap0, rings);
    m, smallmap := m0, smallmap0;
    var f := Word(m, p + 16);
    Neighbours(m0, gm, smallmap0, rings, i, 0, least);
    OnlyRingRefl(m0, Elements(RingOf(gm, rings, i)));
    if b == f {
      smallmap := Clear(smallmap, i);
      ClearOk(m0, gm, smallmap0, rings, i);
      assert Without(rings[i], 0) == [];
    } else if f >= least && Word(m, f + 24) == p {
      m := m[f + 24 := b];
      m := m[b + 16 := f];
      UnlinkOnlyRing(m0, f, b, Elements(RingOf(gm, rings, i)));
      RingRemove(m0, RingOf(gm, rings, i), 1);
      RemoveOk(m0, m, gm, smallmap0, rings, i, 0);
    } else {
      assert false;
    }
  }
}
