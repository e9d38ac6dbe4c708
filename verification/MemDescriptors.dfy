/** FF-A memory transaction descriptors in one byte buffer, in the version 1.1
    layout (components/messaging/ffa/libsp/ffa_memory_descriptors.c): a 48-byte
    transaction descriptor, 16-byte access descriptors, and at one offset all of
    them name a composite descriptor followed by its 16-byte region entries. */
module MemDescriptors {
  import opened Words
  import opened Packed

  const HEADER := 48
  const ACCESS := 16
  const COMPOSITE := 16
  const REGION := 16
  const LIMIT := 0x1_0000_0000

  datatype Access = Access(endpoint: nat, perm: nat, flags: nat)
  datatype Region = Region(address: nat, pages: nat)

  /** What a buffer describes. composite is the offset of the composite
      descriptor, or 0 if there is none yet. */
  datatype Transaction = Transaction(sender: nat, attr: nat, flags: nat, handle: nat, tag: nat,
                                     accesses: seq<Access>, composite: nat, regions: seq<Region>)

  ghost function Pages(rs: seq<Region>): nat {
    if rs == [] then 0 else Pages(rs[..|rs| - 1]) + rs[|rs| - 1].pages
  }

  ghost predicate HeaderAt(b: seq<byte>, t: Transaction)
    requires |b| >= HEADER
  {
    && Get(b, 0, 2) == t.sender && Get(b, 2, 2) == t.attr && Get(b, 4, 4) == t.flags
    && Get(b, 8, 8) == t.handle && Get(b, 16, 8) == t.tag
    && Get(b, 24, 4) == ACCESS && Get(b, 28, 4) == |t.accesses| && Get(b, 32, 4) == HEADER
  }

  ghost predicate AccessAt(b: seq<byte>, o: nat, a: Access, composite: nat)
    requires o + ACCESS <= |b|
  {
    Get(b, o, 2) == a.endpoint && Get(b, o + 2, 1) == a.perm && Get(b, o + 3, 1) == a.flags
      && Get(b, o + 4, 4) == composite
  }

  ghost predicate RegionAt(b: seq<byte>, o: nat, r: Region)
    requires o + REGION <= |b|
  {
    Get(b, o, 8) == r.address && Get(b, o + 8, 4) == r.pages
  }

  ghost predicate AccessesAt(b: seq<byte>, accesses: seq<Access>, composite: nat)
    requires HEADER + ACCESS * |accesses| <= |b|
  {
    forall i :: 0 <= i < |accesses| ==> AccessAt(b, HEADER + ACCESS * i, accesses[i], composite)
  }

  ghost predicate RegionsAt(b: seq<byte>, c: nat, rs: seq<Region>)
    requires c + COMPOSITE + REGION * |rs| <= |b|
  {
    && Get(b, c, 4) == Pages(rs) % LIMIT && Get(b, c + 4, 4) == |rs|
    && forall j :: 0 <= j < |rs| ==> RegionAt(b, c + COMPOSITE + REGION * j, rs[j])
  }

  /** Header, access array and composite descriptor lie one after the other
      within the used part of the buffer. */
  ghost predicate Placed(t: Transaction, used: nat, length: nat) {
    && HEADER + ACCESS * |t.accesses| <= used <= length < LIMIT
    && (t.composite == 0 ==> t.regions == [])
    && (t.composite != 0 ==>
          t.accesses != [] && HEADER + ACCESS * |t.accesses| <= t.composite
            && t.composite + COMPOSITE + REGION * |t.regions| == used)
  }

  ghost predicate Holds(b: seq<byte>, used: nat, t: Transaction) {
    && Placed(t, used, |b|) && HeaderAt(b, t) && AccessesAt(b, t.accesses, t.composite)
    && (t.composite != 0 ==> RegionsAt(b, t.composite, t.regions))
  }

  /** Where the fields are, in numbers. */
  lemma Layout(b: seq<byte>, used: nat, t: Transaction, i: nat, j: nat)
    requires Holds(b, used, t) && i < |t.accesses| && j < |t.regions|
    ensures 48 + 16 * |t.accesses| <= |b| && t.composite + 16 + 16 * |t.regions| <= |b|
    ensures Get(b, 0, 2) == t.sender && Get(b, 2, 2) == t.attr && Get(b, 4, 4) == t.flags
    ensures Get(b, 8, 8) == t.handle && Get(b, 16, 8) == t.tag
    ensures Get(b, 24, 4) == 16 && Get(b, 28, 4) == |t.accesses| && Get(b, 32, 4) == 48
    ensures var a := 48 + 16 * i;
            Get(b, a, 2) == t.accesses[i].endpoint && Get(b, a + 2, 1) == t.accesses[i].perm
              && Get(b, a + 3, 1) == t.accesses[i].flags && Get(b, a + 4, 4) == t.composite
    ensures Get(b, t.composite, 4) == Pages(t.regions) % 0x1_0000_0000 && Get(b, t.composite + 4, 4) == |t.regions|
    ensures var r := t.composite + 16 + 16 * j;
            Get(b, r, 8) == t.regions[j].address && Get(b, r + 8, 4) == t.regions[j].pages
  {
    hide Get;
    assert AccessAt(b, HEADER + ACCESS * i, t.accesses[i], t.composite);
    assert RegionAt(b, t.composite + COMPOSITE + REGION * j, t.regions[j]);
  }

  // ---------------------------------------------------------------- frames

  lemma HeaderKept(b: seq<byte>, b': seq<byte>, t: Transaction, lo: nat, hi: nat)
    requires |b| >= HEADER && HeaderAt(b, t) && SameOutside(b, b', lo, hi) && HEADER <= lo
    ensures HeaderAt(b', t)
  {
    GetSame(b, b', 0, 2, lo, hi); GetSame(b, b', 2, 2, lo, hi); GetSame(b, b', 4, 4, lo, hi);
      GetSame(b, b', 8, 8, lo, hi);
    GetSame(b, b', 16, 8, lo, hi); GetSame(b, b', 24, 4, lo, hi); GetSame(b, b', 28, 4, lo, hi);
      GetSame(b, b', 32, 4, lo, hi);
  }

  lemma AccessKept(b: seq<byte>, b': seq<byte>, o: nat, a: Access, composite: nat, lo: nat, hi: nat)
    requires o + ACCESS <= |b| && AccessAt(b, o, a, composite) && SameOutside(b, b', lo, hi)
             && (o + ACCESS <= lo || hi <= o)
    ensures AccessAt(b', o, a, composite)
  {
    GetSame(b, b', o, 2, lo, hi); GetSame(b, b', o + 2, 1, lo, hi); GetSame(b, b', o + 3, 1, lo, hi);
      GetSame(b, b', o + 4, 4, lo, hi);
  }

  lemma AccessesKept(b: seq<byte>, b': seq<byte>, accesses: seq<Access>, composite: nat, lo: nat, hi: nat)
    requires HEADER + ACCESS * |accesses| <= |b| && AccessesAt(b, accesses, composite) && SameOutside(b, b', lo, hi)
    requires HEADER + ACCESS * |accesses| <= lo || hi <= HEADER
    ensures AccessesAt(b', accesses, composite)
  {
    forall i | 0 <= i < |accesses|
      ensures AccessAt(b', HEADER + ACCESS * i, accesses[i], composite)
    {
      AccessKept(b, b', HEADER + ACCESS * i, accesses[i], composite, lo, hi);
    }
  }

  lemma RegionKept(b: seq<byte>, b': seq<byte>, o: nat, r: Region, lo: nat, hi: nat)
    requires o + REGION <= |b| && RegionAt(b, o, r) && SameOutside(b, b', lo, hi) && (o + REGION <= lo || hi <= o)
    ensures RegionAt(b', o, r)
  {
    GetSame(b, b', o, 8, lo, hi);
    GetSame(b, b', o + 8, 4, lo, hi);
  }

  lemma RegionsKept(b: seq<byte>, b': seq<byte>, c: nat, rs: seq<Region>, lo: nat, hi: nat)
    requires c + COMPOSITE + REGION * |rs| <= |b| && RegionsAt(b, c, rs) && SameOutside(b, b', lo, hi)
    requires c + COMPOSITE + REGION * |rs| <= lo || hi <= c
    ensures RegionsAt(b', c, rs)
  {
    GetSame(b, b', c, 4, lo, hi);
    GetSame(b, b', c + 4, 4, lo, hi);
    forall j | 0 <= j < |rs|
      ensures RegionAt(b', c + COMPOSITE + REGION * j, rs[j])
    {
      RegionKept(b, b', c + COMPOSITE + REGION * j, rs[j], lo, hi);
    }
  }

  // ------------------------------------------------------ writing structures

  function PutAccess(b: seq<byte>, o: nat, a: Access, composite: nat): seq<byte>
    requires o + ACCESS <= |b|
  {
    Put(Put(Put(Put(Put(b, o, 2, a.endpoint), o + 2, 1, a.perm), o + 3, 1, a.flags), o + 4, 4, composite), o + 8, 8, 0)
  }

  ghost predicate AccessFits(a: Access) { a.endpoint < 0x1_0000 && a.perm < 0x100 && a.flags < 0x100 }
  ghost predicate RegionFits(r: Region) { r.address < 0x1_0000_0000_0000_0000 && r.pages < LIMIT }

  /** A field written and another field read elsewhere. */
  lemma PutThenGet(b: seq<byte>, off: nat, n: nat, v: nat, o: nat, k: nat)
    requires off + n <= |b| && o + k <= |b| && (o + k <= off || off + n <= o)
    ensures Get(Put(b, off, n, v), o, k) == Get(b, o, k)
  {
    PutOutside(b, off, n, v);
    GetSame(b, Put(b, off, n, v), o, k, off, off + n);
  }

  lemma AccessPut(b: seq<byte>, o: nat, a: Access, composite: nat)
    requires o + ACCESS <= |b| && AccessFits(a) && composite < LIMIT
    ensures AccessAt(PutAccess(b, o, a, composite), o, a, composite)
    ensures SameOutside(b, PutAccess(b, o, a, composite), o, o + ACCESS)
  {
    hide Get, Put, Pow256;
    Sizes();
    var b1 := Put(b, o, 2, a.endpoint);
    var b2 := Put(b1, o + 2, 1, a.perm);
    var b3 := Put(b2, o + 3, 1, a.flags);
    var b4 := Put(b3, o + 4, 4, composite);
    GetPut(b, o, 2, a.endpoint);
    GetPut(b1, o + 2, 1, a.perm); PutThenGet(b1, o + 2, 1, a.perm, o, 2);
    GetPut(b2, o + 3, 1, a.flags); PutThenGet(b2, o + 3, 1, a.flags, o, 2); PutThenGet(b2, o + 3, 1, a.flags, o + 2, 1);
    GetPut(b3, o + 4, 4, composite);
    PutThenGet(b3, o + 4, 4, composite, o, 2); PutThenGet(b3, o + 4, 4, composite, o + 2, 1);
      PutThenGet(b3, o + 4, 4, composite, o + 3, 1);
    PutThenGet(b4, o + 8, 8, 0, o, 2); PutThenGet(b4, o + 8, 8, 0, o + 2, 1); PutThenGet(b4, o + 8, 8, 0, o + 3, 1);
      PutThenGet(b4, o + 8, 8, 0, o + 4, 4);
    PutOutside(b, o, 2, a.endpoint); PutOutside(b1, o + 2, 1, a.perm); PutOutside(b2, o + 3, 1, a.flags);
    PutOutside(b3, o + 4, 4, composite); PutOutside(b4, o + 8, 8, 0);
  }

  /** A header field written: the parts behind the header are untouched. */
  lemma BehindHeader(b: seq<byte>, b': seq<byte>, t: Transaction, used: nat)
    requires Holds(b, used, t) && SameOutside(b, b', 0, HEADER)
    ensures AccessesAt(b', t.accesses, t.composite)
    ensures t.composite != 0 ==> RegionsAt(b', t.composite, t.regions)
  {
    hide Get;
    AccessesKept(b, b', t.accesses, t.composite, 0, HEADER);
    if t.composite != 0 { RegionsKept(b, b', t.composite, t.regions, 0, HEADER); }
  }

  lemma CountPut(b: seq<byte>, t: Transaction, n: nat)
    requires |b| >= HEADER && HeaderAt(b, t) && n < LIMIT
    ensures var b' := Put(b, 28, 4, n);
            && Get(b', 0, 2) == t.sender && Get(b', 2, 2) == t.attr && Get(b', 4, 4) == t.flags
            && Get(b', 8, 8) == t.handle && Get(b', 16, 8) == t.tag
            && Get(b', 24, 4) == ACCESS && Get(b', 28, 4) == n && Get(b', 32, 4) == HEADER
            && SameOutside(b, b', 0, HEADER)
  {
    hide Get, Put, Pow256;
    Sizes();
    GetPut(b, 28, 4, n);
    PutOutside(b, 28, 4, n);
    PutThenGet(b, 28, 4, n, 0, 2); PutThenGet(b, 28, 4, n, 2, 2); PutThenGet(b, 28, 4, n, 4, 4);
      PutThenGet(b, 28, 4, n, 8, 8);
    PutThenGet(b, 28, 4, n, 16, 8); PutThenGet(b, 28, 4, n, 24, 4); PutThenGet(b, 28, 4, n, 32, 4);
  }

  /** The buffer after ffa_add_mem_access_desc. */
  function WithAccess(b: seq<byte>, count: nat, a: Access, composite: nat): seq<byte>
    requires HEADER + ACCESS * (count + 1) <= |b|
  {
    PutAccess(Put(b, 28, 4, count + 1), HEADER + ACCESS * count, a, composite)
  }

  lemma AccessAdded(b: seq<byte>, used: nat, used': nat, t: Transaction, a: Access)
    requires Holds(b, used, t) && AccessFits(a)
    requires var need := HEADER + ACCESS * (|t.accesses| + 1);
             need <= |b| && (t.composite == 0 || need <= t.composite) && used' == if used < need then need else used
    ensures Holds(WithAccess(b, |t.accesses|, a, t.composite), used', t.(accesses := t.accesses + [a]))
  {
    hide Get, Put, PutAccess, HeaderAt, AccessAt, RegionsAt;
    var n, o := |t.accesses|, HEADER + ACCESS * |t.accesses|;
    var b1 := Put(b, 28, 4, n + 1);
    var b2 := PutAccess(b1, o, a, t.composite);
    var t' := t.(accesses := t.accesses + [a]);
    CountPut(b, t, n + 1);
    HeaderCount(b1, t, n + 1, t');
    BehindHeader(b, b1, t, used);
    AccessPut(b1, o, a, t.composite);
    HeaderKept(b1, b2, t', o, o + ACCESS);
    AccessesKept(b1, b2, t.accesses, t.composite, o, o + ACCESS);
    forall i | 0 <= i < n + 1
      ensures AccessAt(b2, HEADER + ACCESS * i, t'.accesses[i], t.composite)
    {
    }
    if t.composite != 0 { RegionsKept(b1, b2, t.composite, t.regions, o, o + ACCESS); }
  }

  lemma HeaderCount(b: seq<byte>, t: Transaction, n: nat, t': Transaction)
    requires |b| >= HEADER && t' == t.(accesses := t'.accesses, composite := t'.composite, regions := t'.regions)
             && |t'.accesses| == n
    requires Get(b, 0, 2) == t.sender && Get(b, 2, 2) == t.attr && Get(b, 4, 4) == t.flags
    requires Get(b, 8, 8) == t.handle && Get(b, 16, 8) == t.tag
    requires Get(b, 24, 4) == ACCESS && Get(b, 28, 4) == n && Get(b, 32, 4) == HEADER
    ensures HeaderAt(b, t')
  {
  }

  // -------------------------------------------------------------- regions

  /** The first i access descriptors name the composite descriptor at c. */
  ghost predicate Named(b: seq<byte>, accesses: seq<Access>, i: nat, c: nat)
    requires HEADER + ACCESS * |accesses| <= |b| && i <= |accesses|
  {
    && (forall k :: 0 <= k < i ==> AccessAt(b, HEADER + ACCESS * k, accesses[k], c))
    && (forall k :: i <= k < |accesses| ==> AccessAt(b, HEADER + ACCESS * k, accesses[k], 0))
  }

  lemma NameOne(b: seq<byte>, accesses: seq<Access>, i: nat, c: nat)
    requires HEADER + ACCESS * |accesses| <= |b| && i < |accesses| && Named(b, accesses, i, c) && c < LIMIT
    ensures var o := HEADER + ACCESS * i;
            Named(Put(b, o + 4, 4, c), accesses, i + 1, c) && SameOutside(b, Put(b, o + 4, 4, c), o, o + ACCESS)
  {
    hide Get, Put, Pow256, AccessAt;
    var o := HEADER + ACCESS * i;
    var b' := Put(b, o + 4, 4, c);
    PutOutside(b, o + 4, 4, c);
    NameAccess(b, o, accesses[i], c);
    forall k | 0 <= k < |accesses| && k != i
      ensures AccessAt(b', HEADER + ACCESS * k, accesses[k], if k < i then c else 0)
    {
      AccessKept(b, b', HEADER + ACCESS * k, accesses[k], if k < i then c else 0, o, o + ACCESS);
    }
  }

  lemma NameAccess(b: seq<byte>, o: nat, a: Access, c: nat)
    requires o + ACCESS <= |b| && AccessAt(b, o, a, 0) && c < LIMIT
    ensures AccessAt(Put(b, o + 4, 4, c), o, a, c)
  {
    hide Get, Put, Pow256;
    Sizes();
    GetPut(b, o + 4, 4, c);
    PutThenGet(b, o + 4, 4, c, o, 2); PutThenGet(b, o + 4, 4, c, o + 2, 1); PutThenGet(b, o + 4, 4, c, o + 3, 1);
  }

  function PutComposite(b: seq<byte>, c: nat): seq<byte>
    requires c + COMPOSITE <= |b|
  {
    Put(Put(Put(b, c, 4, 0), c + 4, 4, 0), c + 8, 8, 0)
  }

  lemma CompositePut(b: seq<byte>, c: nat)
    requires c + COMPOSITE <= |b|
    ensures RegionsAt(PutComposite(b, c), c, []) && SameOutside(b, PutComposite(b, c), c, c + COMPOSITE)
  {
    hide Get, Put, Pow256;
    Sizes();
    var b1 := Put(b, c, 4, 0);
    var b2 := Put(b1, c + 4, 4, 0);
    GetPut(b, c, 4, 0); PutThenGet(b1, c + 4, 4, 0, c, 4); GetPut(b1, c + 4, 4, 0);
    PutThenGet(b2, c + 8, 8, 0, c, 4); PutThenGet(b2, c + 8, 8, 0, c + 4, 4);
    PutOutside(b, c, 4, 0); PutOutside(b1, c + 4, 4, 0); PutOutside(b2, c + 8, 8, 0);
  }

  /** The buffer after a new region entry. */
  function PutRegion(b: seq<byte>, c: nat, total: nat, n: nat, r: Region): seq<byte>
    requires c + COMPOSITE + REGION * (n + 1) <= |b|
  {
    var o := c + COMPOSITE + REGION * n;
    Put(Put(Put(Put(Put(b, c, 4, (total + r.pages) % LIMIT), c + 4, 4, n + 1), o, 8, r.address), o + 8, 4, r.pages),
      o + 12, 4, 0)
  }

  lemma PagesMore(rs: seq<Region>, r: Region)
    ensures (Pages(rs) % LIMIT + r.pages) % LIMIT == Pages(rs + [r]) % LIMIT
  {
    assert (rs + [r])[..|rs|] == rs;
    ModAdd(Pages(rs), r.pages);
  }

  lemma ModAdd(x: nat, y: nat)
    ensures (x % LIMIT + y) % LIMIT == (x + y) % LIMIT
  {
    assert x == LIMIT * (x / LIMIT) + x % LIMIT;
    ModShift(x / LIMIT, x % LIMIT + y);
  }

  lemma {:induction false} ModShift(k: nat, z: nat)
    ensures (LIMIT * k + z) % LIMIT == z % LIMIT
  {
    if k > 0 {
      ModShift(k - 1, z);
      assert LIMIT * k + z == LIMIT * (k - 1) + z + LIMIT;
    }
  }

  lemma RegionPut(b: seq<byte>, c: nat, rs: seq<Region>, r: Region)
    requires c + COMPOSITE + REGION * (|rs| + 1) <= |b| < LIMIT && RegionsAt(b, c, rs) && RegionFits(r)
    ensures var b' := PutRegion(b, c, Get(b, c, 4), |rs|, r);
            RegionsAt(b', c, rs + [r]) && SameOutside(b, b', c, c + COMPOSITE + REGION * (|rs| + 1))
  {
    hide Get, Put, RegionAt, Pages;
    var n, o := |rs|, c + COMPOSITE + REGION * |rs|;
    var total := (Get(b, c, 4) + r.pages) % LIMIT;
    PagesMore(rs, r);
    var b2 := Put(Put(b, c, 4, total), c + 4, 4, n + 1);
    var b5 := Put(Put(Put(b2, o, 8, r.address), o + 8, 4, r.pages), o + 12, 4, 0);
    TotalsPut(b, c, total, n + 1);
    EntryPut(b2, o, r);
    GetSame(b2, b5, c, 4, o, o + REGION);
    GetSame(b2, b5, c + 4, 4, o, o + REGION);
    forall j | 0 <= j < n + 1
      ensures RegionAt(b5, c + COMPOSITE + REGION * j, (rs + [r])[j])
    {
      if j < n {
        RegionKept(b, b2, c + COMPOSITE + REGION * j, rs[j], c, c + COMPOSITE);
        RegionKept(b2, b5, c + COMPOSITE + REGION * j, rs[j], o, o + REGION);
      }
    }
  }

  lemma TotalsPut(b: seq<byte>, c: nat, total: nat, n: nat)
    requires c + COMPOSITE <= |b| && total < LIMIT && n < LIMIT
    ensures var b' := Put(Put(b, c, 4, total), c + 4, 4, n);
            Get(b', c, 4) == total && Get(b', c + 4, 4) == n && SameOutside(b, b', c, c + COMPOSITE)
  {
    hide Get, Put, Pow256;
    Sizes();
    var b1 := Put(b, c, 4, total);
    GetPut(b, c, 4, total); PutThenGet(b1, c + 4, 4, n, c, 4); GetPut(b1, c + 4, 4, n);
    PutOutside(b, c, 4, total); PutOutside(b1, c + 4, 4, n);
  }

  lemma EntryPut(b: seq<byte>, o: nat, r: Region)
    requires o + REGION <= |b| && RegionFits(r)
    ensures var b' := Put(Put(Put(b, o, 8, r.address), o + 8, 4, r.pages), o + 12, 4, 0);
            RegionAt(b', o, r) && SameOutside(b, b', o, o + REGION)
  {
    hide Get, Put, Pow256;
    Sizes();
    var b1 := Put(b, o, 8, r.address);
    var b2 := Put(b1, o + 8, 4, r.pages);
    GetPut(b, o, 8, r.address); PutThenGet(b1, o + 8, 4, r.pages, o, 8); PutThenGet(b2, o + 12, 4, 0, o, 8);
    GetPut(b1, o + 8, 4, r.pages); PutThenGet(b2, o + 12, 4, 0, o + 8, 4);
    PutOutside(b, o, 8, r.address); PutOutside(b1, o + 8, 4, r.pages); PutOutside(b2, o + 12, 4, 0);
  }

  /** All access descriptors name a new, empty composite descriptor at c. */
  lemma CompositeAdded(b: seq<byte>, b1: seq<byte>, used: nat, t: Transaction)
    requires Holds(b, used, t) && t.composite == 0 && t.accesses != [] && used + COMPOSITE <= |b|
    requires |b1| == |b| && Named(b1, t.accesses, |t.accesses|, used)
             && SameOutside(b, b1, HEADER, HEADER + ACCESS * |t.accesses|)
    ensures Holds(PutComposite(b1, used), used + COMPOSITE, t.(composite := used))
  {
    hide Get, Put, PutComposite, HeaderAt, AccessAt, RegionsAt;
    var b2, t' := PutComposite(b1, used), t.(composite := used);
    HeaderKept(b, b1, t, HEADER, HEADER + ACCESS * |t.accesses|);
    CompositePut(b1, used);
    HeaderKept(b1, b2, t, used, used + COMPOSITE);
    HeaderSame(b2, t, t');
    AccessesKept(b1, b2, t.accesses, used, used, used + COMPOSITE);
  }

  lemma HeaderSame(b: seq<byte>, t: Transaction, t': Transaction)
    requires |b| >= HEADER && HeaderAt(b, t) && t' == t.(composite := t'.composite, regions := t'.regions)
    ensures HeaderAt(b, t')
  {
  }

  lemma RegionAdded(b: seq<byte>, used: nat, t: Transaction, r: Region)
    requires Holds(b, used, t) && t.composite != 0 && used + REGION <= |b| && RegionFits(r)
    ensures Holds(PutRegion(b, t.composite, Get(b, t.composite, 4), |t.regions|, r), used + REGION,
            t.(regions := t.regions + [r]))
  {
    hide Get, Put, PutRegion, HeaderAt, AccessAt, RegionsAt;
    var b', t' := PutRegion(b, t.composite, Get(b, t.composite, 4), |t.regions|, r), t.(regions := t.regions + [r]);
    RegionPut(b, t.composite, t.regions, r);
    HeaderKept(b, b', t, t.composite, used + REGION);
    HeaderSame(b', t, t');
    AccessesKept(b, b', t.accesses, t.composite, t.composite, used + REGION);
  }

  // ------------------------------------------------------------- the buffer

  /** ffa_init_mem_transaction_desc on the bytes: zeroed, then filled in. */
  function PutHeader(b: seq<byte>, t: Transaction): seq<byte>
    requires |b| >= HEADER
  {
    var b1 := Put(Put(Put(b, 0, 2, t.sender), 2, 2, t.attr), 4, 4, t.flags);
    var b2 := Put(Put(Put(b1, 8, 8, t.handle), 16, 8, t.tag), 28, 4, 0);
    Put(Put(b2, 24, 4, ACCESS), 32, 4, HEADER)
  }

  ghost predicate HeaderFits(t: Transaction) {
    && t.sender < 0x1_0000 && t.attr < 0x1_0000 && t.flags < LIMIT
    && t.handle < 0x1_0000_0000_0000_0000 && t.tag < 0x1_0000_0000_0000_0000
    && t.accesses == [] && t.composite == 0 && t.regions == []
  }

  lemma HeaderPut(b: seq<byte>, t: Transaction)
    requires HEADER <= |b| < LIMIT && HeaderFits(t)
    ensures Holds(PutHeader(b, t), HEADER, t)
  {
    hide Get, Put, Pow256;
    Sizes();
    var b1 := Put(b, 0, 2, t.sender);
    var b2 := Put(b1, 2, 2, t.attr);
    var b3 := Put(b2, 4, 4, t.flags);
    var b4 := Put(b3, 8, 8, t.handle);
    var b5 := Put(b4, 16, 8, t.tag);
    var b6 := Put(b5, 28, 4, 0);
    var b7 := Put(b6, 24, 4, ACCESS);
    GetPut(b, 0, 2, t.sender); PutThenGet(b1, 2, 2, t.attr, 0, 2); PutThenGet(b2, 4, 4, t.flags, 0, 2);
    GetPut(b1, 2, 2, t.attr); PutThenGet(b2, 4, 4, t.flags, 2, 2);
    GetPut(b2, 4, 4, t.flags);
    Rest(b3, 0, 2, t); Rest(b3, 2, 2, t); Rest(b3, 4, 4, t);
    GetPut(b3, 8, 8, t.handle); PutThenGet(b4, 16, 8, t.tag, 8, 8); PutThenGet(b5, 28, 4, 0, 8, 8);
    PutThenGet(b6, 24, 4, ACCESS, 8, 8); PutThenGet(b7, 32, 4, HEADER, 8, 8);
    GetPut(b4, 16, 8, t.tag); PutThenGet(b5, 28, 4, 0, 16, 8); PutThenGet(b6, 24, 4, ACCESS, 16, 8);
      PutThenGet(b7, 32, 4, HEADER, 16, 8);
    GetPut(b5, 28, 4, 0); PutThenGet(b6, 24, 4, ACCESS, 28, 4); PutThenGet(b7, 32, 4, HEADER, 28, 4);
    GetPut(b6, 24, 4, ACCESS); PutThenGet(b7, 32, 4, HEADER, 24, 4);
    GetPut(b7, 32, 4, HEADER);
  }

  /** The later header fields leave an earlier one alone. */
  lemma Rest(b: seq<byte>, o: nat, k: nat, t: Transaction)
    requires HEADER <= |b| && o + k <= 8
    ensures var b2 := Put(Put(Put(b, 8, 8, t.handle), 16, 8, t.tag), 28, 4, 0);
            Get(Put(Put(b2, 24, 4, ACCESS), 32, 4, HEADER), o, k) == Get(b, o, k)
  {
    hide Get, Put;
    var b4 := Put(b, 8, 8, t.handle);
    var b5 := Put(b4, 16, 8, t.tag);
    var b6 := Put(b5, 28, 4, 0);
    var b7 := Put(b6, 24, 4, ACCESS);
    PutThenGet(b, 8, 8, t.handle, o, k); PutThenGet(b4, 16, 8, t.tag, o, k); PutThenGet(b5, 28, 4, 0, o, k);
    PutThenGet(b6, 24, 4, ACCESS, o, k); PutThenGet(b7, 32, 4, HEADER, o, k);
  }

  /** ffa_init_mem_transaction_desc */
  method WriteHeader(a: array<byte>, sender: nat, attr: nat, flags: nat, handle: nat, tag: nat)
    requires HEADER <= a.Length < LIMIT && HeaderFits(Transaction(sender, attr, flags, handle, tag, [], 0, []))
    modifies a
    ensures Holds(a[..], HEADER, Transaction(sender, attr, flags, handle, tag, [], 0, []))
  {
    hide Holds, Put;
    var i := 0;
    while i < HEADER
      invariant 0 <= i <= HEADER
    {
      a[i] := 0;
      i := i + 1;
    }
    ghost var b := a[..];
    Store(a, 0, 2, sender);
    Store(a, 2, 2, attr);
    Store(a, 4, 4, flags);
    Store(a, 8, 8, handle);
    Store(a, 16, 8, tag);
    Store(a, 28, 4, 0);
    Store(a, 24, 4, ACCESS);
    Store(a, 32, 4, HEADER);
    HeaderPut(b, Transaction(sender, attr, flags, handle, tag, [], 0, []));
  }

  /** struct ffa_mem_transaction_buffer. Assertions of the source are
      preconditions here. */
  class Buffer {
    const bytes: array<byte>
    var used: nat
    ghost var t: Transaction

    ghost predicate Valid()
      reads this, bytes
    {
      Holds(bytes[..], used, t)
    }

    /** ffa_init_mem_transaction_buffer and ffa_init_mem_transaction_desc */
    constructor (bytes: array<byte>, sender: nat, attr: nat, flags: nat, handle: nat, tag: nat)
      requires HEADER <= bytes.Length < LIMIT && HeaderFits(Transaction(sender, attr, flags, handle, tag, [], 0, []))
      modifies bytes
      ensures Valid() && this.bytes == bytes && t == Transaction(sender, attr, flags, handle, tag, [], 0, [])
              && used == HEADER
    {
      hide Holds;
      WriteHeader(bytes, sender, attr, flags, handle, tag);
      this.bytes := bytes;
      used := HEADER;
      t := Transaction(sender, attr, flags, handle, tag, [], 0, []);
    }

    /** ffa_get_mem_access_desc_count */
    method AccessCount() returns (n: nat)
      requires Valid()
      ensures n == |t.accesses|
    {
      n := Load(bytes, 28, 4);
    }

    /** get_composite_desc_offset */
    method CompositeOffset() returns (c: nat)
      requires Valid()
      ensures c == t.composite
    {
      var n := AccessCount();
      if n == 0 {
        return 0;
      }
      assert AccessAt(bytes[..], HEADER + ACCESS * 0, t.accesses[0], t.composite);
      c := Load(bytes, HEADER + 4, 4);
    }

    /** ffa_reserve_mem_access_desc */
    method Reserve(count: nat)
      requires Valid()
      requires count > |t.accesses| ==>
        (var need := HEADER + ACCESS * count; need <= bytes.Length && (t.composite == 0 || need <= t.composite))
      modifies `used
      ensures Valid() && t == old(t) && used >= old(used)
      ensures count > |t.accesses| ==> HEADER + ACCESS * count <= used
    {
      var n := AccessCount();
      if count <= n {
        return;
      }
      var need := HEADER + ACCESS * count;
      if used < need {
        used := need;
      }
    }

    /** ffa_add_mem_access_desc */
    method AddAccess(endpoint: nat, perm: nat, flags: nat) returns (index: nat)
      requires Valid() && AccessFits(Access(endpoint, perm, flags))
      requires var need := HEADER + ACCESS * (|t.accesses| + 1);
               need <= bytes.Length && (t.composite == 0 || need <= t.composite)
      modifies this, bytes
      ensures Valid() && index == |old(t.accesses)|
      ensures t == old(t).(accesses := old(t.accesses) + [Access(endpoint, perm, flags)])
      ensures var need := HEADER + ACCESS * (index + 1); used == if old(used) < need then need else old(used)
    {
      hide Holds, Put, Get;
      ghost var b, t0, used0 := bytes[..], t, used;
      index := AccessCount();
      var c := CompositeOffset();
      var need := HEADER + ACCESS * (index + 1);
      if used < need {
        used := need;
      }
      Store(bytes, 28, 4, index + 1);
      var o := HEADER + ACCESS * index;
      Store(bytes, o, 2, endpoint);
      Store(bytes, o + 2, 1, perm);
      Store(bytes, o + 3, 1, flags);
      Store(bytes, o + 4, 4, c);
      Store(bytes, o + 8, 8, 0);
      t := t.(accesses := t.accesses + [Access(endpoint, perm, flags)]);
      AccessAdded(b, used0, used, t0, Access(endpoint, perm, flags));
    }

    /** All access descriptors get the offset of a new composite descriptor. */
    method NameComposite(offset: nat)
      requires Valid() && t.composite == 0 && offset < LIMIT
      modifies bytes
      ensures Named(bytes[..], t.accesses, |t.accesses|, offset)
      ensures SameOutside(old(bytes[..]), bytes[..], HEADER, HEADER + ACCESS * |t.accesses|)
    {
      hide Put, Get;
      var n := AccessCount();
      ghost var b := bytes[..];
      AllUnnamed(b, t.accesses, offset);
      var i := 0;
      while i < n
        invariant i <= n && Named(bytes[..], t.accesses, i, offset)
        invariant SameOutside(b, bytes[..], HEADER, HEADER + ACCESS * n)
      {
        NameOne(bytes[..], t.accesses, i, offset);
        Store(bytes, HEADER + ACCESS * i + 4, 4, offset);
        i := i + 1;
      }
    }

    /** A composite descriptor without regions at the end of the used part. */
    method AddComposite()
      requires Valid() && t.composite == 0 && t.accesses != [] && used + COMPOSITE <= bytes.Length
      modifies this, bytes
      ensures Valid() && t == old(t).(composite := old(used)) && used == old(used) + COMPOSITE
    {
      hide Put, Get, Holds, Named;
      var offset := used;
      ghost var b, t0 := bytes[..], t;
      UsedBound(b, used, t);
      NameComposite(offset);
      ghost var b1 := bytes[..];
      Store(bytes, offset, 4, 0);
      Store(bytes, offset + 4, 4, 0);
      Store(bytes, offset + 8, 8, 0);
      CompositeAdded(b, b1, offset, t0);
      used, t := used + COMPOSITE, t.(composite := offset);
    }

    /** ffa_add_memory_region */
    method AddRegion(address: nat, pages: nat)
      requires Valid() && t.accesses != [] && RegionFits(Region(address, pages))
      requires used + REGION + (if t.composite == 0 then COMPOSITE else 0) <= bytes.Length
      modifies this, bytes
      ensures Valid()
      ensures t == old(t).(composite := if old(t.composite) == 0 then old(used) else old(t.composite),
                           regions := old(t.regions) + [Region(address, pages)])
    {
      hide Put, Get, Holds;
      UsedBound(bytes[..], used, t);
      var offset := CompositeOffset();
      if offset == 0 {
        offset := used;
        AddComposite();
      }
      ghost var b, t1 := bytes[..], t;
      UsedBound(b, used, t);
      RegionCount(b, used, t);
      var index := Load(bytes, offset + 4, 4);
      var total := Load(bytes, offset, 4);
      Store(bytes, offset, 4, (total + pages) % LIMIT);
      Store(bytes, offset + 4, 4, index + 1);
      var o := offset + COMPOSITE + REGION * index;
      Store(bytes, o, 8, address);
      Store(bytes, o + 8, 4, pages);
      Store(bytes, o + 12, 4, 0);
      RegionAdded(b, used, t1, Region(address, pages));
      used, t := used + REGION, t.(regions := t.regions + [Region(address, pages)]);
    }
  }

  lemma AllUnnamed(b: seq<byte>, accesses: seq<Access>, c: nat)
    requires HEADER + ACCESS * |accesses| <= |b| && AccessesAt(b, accesses, 0)
    ensures Named(b, accesses, 0, c)
  {
  }

  lemma UsedBound(b: seq<byte>, used: nat, t: Transaction)
    requires Holds(b, used, t)
    ensures HEADER + ACCESS * |t.accesses| <= used <= |b| < LIMIT && (t.composite == 0 ==> t.regions == []) && used > 0
    ensures t.composite != 0 ==> t.composite + COMPOSITE + REGION * |t.regions| == used
  {
  }

  lemma RegionCount(b: seq<byte>, used: nat, t: Transaction)
    requires Holds(b, used, t) && t.composite != 0
    ensures t.composite + COMPOSITE <= |b| && Get(b, t.composite + 4, 4) == |t.regions|
  {
  }
}
