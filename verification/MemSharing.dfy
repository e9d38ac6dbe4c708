/** Building a memory transaction from its parts and parsing it back
    (components/messaging/ffa/libsp/sp_memory_management.c, lines 130 to 303).
    The memory region attributes are passed through as one number. */
module MemSharing {
  import opened Words
  import opened Packed
  import opened MemDescriptors

  datatype Flags = Flags(zeroMemory: bool, timeSlicing: bool, zeroAfter: bool, kind: nat, hint: nat)
  datatype AccessDesc = AccessDesc(receiver: nat, instruction: nat, data: nat)
  datatype Descriptor = Descriptor(sender: nat, attr: nat, flags: Flags, tag: nat)

  ghost predicate FlagsOk(f: Flags) { f.kind < 4 && f.hint < 16 }
  ghost predicate AccessOk(a: AccessDesc) { a.receiver < 0x1_0000 && a.instruction < 4 && a.data < 4 }
  ghost predicate DescriptorOk(d: Descriptor) {
    d.sender < 0x1_0000 && d.attr < 0x1_0000 && FlagsOk(d.flags) && d.tag < 0x1_0000_0000_0000_0000
  }

  /** build_mem_flags: bits 0 to 2, the type in bits 3 and 4, the hint in bits 5
      to 8 and its valid bit 9. */
  function BuildFlags(f: Flags): nat {
    (if f.zeroMemory then 1 else 0) + (if f.timeSlicing then 2 else 0) + (if f.zeroAfter then 4 else 0)
    + 8 * f.kind + (if f.hint != 0 then 512 + 32 * f.hint else 0)
  }

  /** parse_mem_flags */
  function ParseFlags(raw: nat): Flags {
    Flags(raw % 2 == 1, raw / 2 % 2 == 1, raw / 4 % 2 == 1, raw / 8 % 4,
      if raw / 512 % 2 == 1 then raw / 32 % 16 else 0)
  }

  lemma FlagsRoundTrip(f: Flags)
    requires FlagsOk(f)
    ensures ParseFlags(BuildFlags(f)) == f && BuildFlags(f) < 0x400
    ensures var w := BuildFlags(f);
            && (f.zeroMemory <==> w % 2 == 1) && (f.timeSlicing <==> w / 2 % 2 == 1)
            && (f.zeroAfter <==> w / 4 % 2 == 1) && w / 8 % 4 == f.kind
            && w / 0x20 % 0x10 == f.hint && (f.hint != 0 <==> w / 0x200 % 2 == 1)
  {
    var a, b, c := if f.zeroMemory then 1 else 0, if f.timeSlicing then 1 else 0, if f.zeroAfter then 1 else 0;
    var v := if f.hint != 0 then 1 else 0;
    var high := f.hint + 16 * v;
    assert BuildFlags(f) == a + 2 * b + 4 * c + 8 * f.kind + 32 * high;
    LowFields(a, b, c, f.kind + 4 * high);
    HighFields(a + 2 * b + 4 * c, f.kind, high);
    HintField(a + 2 * b + 4 * c + 8 * f.kind, f.hint, v);
  }

  lemma LowFields(a: nat, b: nat, c: nat, rest: nat)
    requires a < 2 && b < 2 && c < 2
    ensures var r := a + 2 * b + 4 * c + 8 * rest; r % 2 == a && r / 2 % 2 == b && r / 4 % 2 == c
  {
    Parity(a, b + 2 * c + 4 * rest);
    Parity(b, c + 2 * rest);
    Parity(c, rest);
    var r := a + 2 * b + 4 * c + 8 * rest;
    assert r / 4 == r / 2 / 2;
  }

  lemma Parity(low: nat, rest: nat)
    requires low < 2
    ensures (low + 2 * rest) % 2 == low && (low + 2 * rest) / 2 == rest
  {
  }

  lemma HighFields(low: nat, kind: nat, high: nat)
    requires low < 8 && kind < 4
    ensures (low + 8 * kind + 32 * high) / 8 % 4 == kind
  {
    assert (low + 8 * kind + 32 * high) / 8 == kind + 4 * high;
  }

  lemma HintField(low: nat, hint: nat, v: nat)
    requires low < 32 && hint < 16 && v < 2
    ensures var r := low + 32 * (hint + 16 * v); r / 32 % 16 == hint && r / 512 % 2 == v && r < 1024
  {
    var r := low + 32 * (hint + 16 * v);
    assert r / 32 == hint + 16 * v;
    assert r / 512 == v;
  }

  /** build_mem_access_perm: instruction access in bits 2 and 3, data access in
      bits 0 and 1. */
  function BuildPerm(a: AccessDesc): nat { 4 * a.instruction + a.data }

  function ParseAccess(a: Access): AccessDesc {
    AccessDesc(a.endpoint, a.perm / 4 % 4, a.perm % 4)
  }

  function BuildAccess(a: AccessDesc): Access { Access(a.receiver, BuildPerm(a), 0) }

  lemma AccessRoundTrip(a: AccessDesc)
    requires AccessOk(a)
    ensures ParseAccess(BuildAccess(a)) == a && AccessFits(BuildAccess(a))
    ensures var d := BuildAccess(a);
            d.endpoint == a.receiver && d.perm % 4 == a.data && d.perm / 4 == a.instruction && d.flags == 0
  {
  }

  function BuildAll(accs: seq<AccessDesc>): seq<Access> {
    seq(|accs|, i requires 0 <= i < |accs| => BuildAccess(accs[i]))
  }

  /** Room for everything Setup writes. */
  ghost predicate Room(length: nat, accs: seq<AccessDesc>, regions: seq<Region>) {
    HEADER + ACCESS * |accs| + (if regions == [] then 0 else COMPOSITE + REGION * |regions|) <= length < LIMIT
  }

  /** setup_descriptors */
  method Setup(bytes: array<byte>, d: Descriptor, accs: seq<AccessDesc>, regions: seq<Region>,
               handle: nat) returns (buf: Buffer)
    requires DescriptorOk(d) && handle < 0x1_0000_0000_0000_0000
    requires (forall i :: 0 <= i < |accs| ==> AccessOk(accs[i]))
             && (forall i :: 0 <= i < |regions| ==> RegionFits(regions[i]))
    requires Room(bytes.Length, accs, regions) && (regions != [] ==> accs != [])
    modifies bytes
    ensures fresh(buf) && buf.bytes == bytes && buf.Valid()
    ensures buf.t == Transaction(d.sender, d.attr, BuildFlags(d.flags), handle, d.tag, BuildAll(accs), buf.t.composite,
            regions)
    ensures regions != [] <==> buf.t.composite != 0
  {
    hide Holds;
    FlagsRoundTrip(d.flags);
    buf := new Buffer(bytes, d.sender, d.attr, BuildFlags(d.flags), handle, d.tag);
    ghost var t0 := buf.t;
    var i := 0;
    while i < |accs|
      invariant i <= |accs| && fresh(buf) && buf.bytes == bytes && buf.Valid()
      invariant buf.t == t0.(accesses := BuildAll(accs)[..i]) && buf.used == HEADER + ACCESS * i
    {
      AccessRoundTrip(accs[i]);
      UsedBound(bytes[..], buf.used, buf.t);
      var a := BuildAccess(accs[i]);
      var index := buf.AddAccess(a.endpoint, a.perm, a.flags);
      i := i + 1;
    }
    assert BuildAll(accs)[..|accs|] == BuildAll(accs);
    var j := 0;
    while j < |regions|
      invariant j <= |regions| && fresh(buf) && buf.bytes == bytes && buf.Valid()
      invariant buf.t == t0.(accesses := BuildAll(accs), composite := buf.t.composite, regions := regions[..j])
      invariant buf.t.composite == 0 <==> j == 0
      invariant buf.used == HEADER + ACCESS * |accs| + (if j == 0 then 0 else COMPOSITE + REGION * j)
    {
      UsedBound(bytes[..], buf.used, buf.t);
      buf.AddRegion(regions[j].address, regions[j].pages);
      UsedBound(bytes[..], buf.used, buf.t);
      j := j + 1;
    }
    assert regions[..|regions|] == regions;
  }

  /** The region count parse_descriptors reads: without a composite descriptor
      its offset is 0, and the flags word of the header is read for it. */
  function CountRead(t: Transaction): nat { if t.composite != 0 then |t.regions| else t.flags }

  /** parse_descriptors on a buffer for one receiver and the tag expected; ok if
      none of its assertions fails. */
  method Parse(buf: Buffer, expected: nat, capacity: nat) returns (ok: bool, d: Descriptor, acc: AccessDesc,
               count: nat, regions: seq<Region>)
    requires buf.Valid() && |buf.t.accesses| == 1
    ensures var n, c := CountRead(buf.t), buf.t.composite;
            ok <==> expected == buf.t.tag && n <= capacity && c + COMPOSITE + REGION * n <= buf.bytes.Length
    ensures ok ==> d == Descriptor(buf.t.sender, buf.t.attr, ParseFlags(buf.t.flags), buf.t.tag)
    ensures ok ==> acc == ParseAccess(buf.t.accesses[0])
    ensures ok ==> count == |regions| == CountRead(buf.t) && (buf.t.composite != 0 ==> regions == buf.t.regions)
  {
    hide Get;
    var bytes := buf.bytes;
    var sender := Load(bytes, 0, 2);
    var attr := Load(bytes, 2, 2);
    var flags := Load(bytes, 4, 4);
    var tag := Load(bytes, 16, 8);
    d := Descriptor(sender, attr, ParseFlags(flags), tag);
    assert AccessAt(bytes[..], HEADER + ACCESS * 0, buf.t.accesses[0], buf.t.composite);
    var endpoint := Load(bytes, HEADER, 2);
    var perm := Load(bytes, HEADER + 2, 1);
    acc := ParseAccess(Access(endpoint, perm, 0));
    var c := buf.CompositeOffset();
    count := Load(bytes, c + 4, 4);
    CountReadBack(bytes[..], buf.used, buf.t);
    regions := [];
    ok := tag == expected && c + COMPOSITE + REGION * count <= bytes.Length && count <= capacity;
    if !ok {
      return;
    }
    var i := 0;
    while i < count
      invariant i <= count && |regions| == i
      invariant c != 0 ==> forall k :: 0 <= k < i ==> regions[k] == buf.t.regions[k]
    {
      var o := c + COMPOSITE + REGION * i;
      var address := Load(bytes, o, 8);
      var pages := Load(bytes, o + 8, 4);
      if c != 0 { assert RegionAt(bytes[..], c + COMPOSITE + REGION * i, buf.t.regions[i]); }
      regions := regions + [Region(address, pages)];
      i := i + 1;
    }
  }

  /** Round trip: what Setup puts into a buffer for one receiver, Parse gets out,
      but for the region count without regions, which is right exactly if the
      flags word is 0. */
  method RoundTrip(bytes: array<byte>, d: Descriptor, acc: AccessDesc, regions: seq<Region>, handle: nat, capacity: nat)
    returns (ok: bool, d': Descriptor, acc': AccessDesc, count: nat, regions': seq<Region>)
    requires DescriptorOk(d) && handle < 0x1_0000_0000_0000_0000 && AccessOk(acc)
    requires (forall i :: 0 <= i < |regions| ==> RegionFits(regions[i])) && Room(bytes.Length, [acc], regions)
    modifies bytes
    ensures if regions != [] then ok <==> |regions| <= capacity
            else var n := BuildFlags(d.flags); ok <==> n <= capacity && COMPOSITE + REGION * n <= bytes.Length
    ensures ok ==> d' == d && acc' == acc && (count == |regions| <==> regions != [] || BuildFlags(d.flags) == 0)
    ensures ok ==> count == |regions'| == (if regions != [] then |regions| else BuildFlags(d.flags))
    ensures ok && count == |regions| ==> regions' == regions
  {
    hide Holds;
    FlagsRoundTrip(d.flags);
    AccessRoundTrip(acc);
    var buf := Setup(bytes, d, [acc], regions, handle);
    UsedBound(bytes[..], buf.used, buf.t);
    ok, d', acc', count, regions' := Parse(buf, d.tag, capacity);
  }

  /** A transaction without regions and with one flag comes back with a region
      that nobody put in. */
  method WrongCount(bytes: array<byte>, acc: AccessDesc) returns (count: nat, regions': seq<Region>)
    requires AccessOk(acc) && Room(bytes.Length, [acc], [])
    modifies bytes
    ensures count == |regions'| == 1
  {
    var ok, d', acc';
    var d := Descriptor(1, 0, Flags(true, false, false, 0, 0), 0);
    assert BuildFlags(d.flags) == 1;
    ok, d', acc', count, regions' := RoundTrip(bytes, d, acc, [], 0, 1);
  }

  lemma CountReadBack(b: seq<byte>, used: nat, t: Transaction)
    requires Holds(b, used, t)
    ensures Get(b, t.composite + 4, 4) == CountRead(t)
  {
    hide Get;
    if t.composite != 0 { RegionCount(b, used, t); }
  }
}
