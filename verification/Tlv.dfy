/** Records of tag, length and value in a byte buffer
    (components/common/tlv/tlv.c). */
module Tlv {
  import opened Words

  const TLV_HDR_LEN: nat := 4

  datatype Record = Record(tag: uint16, value: seq<byte>)

  datatype Found = Found(record: Record, next: nat) | NotFound

  ghost predicate Short(r: Record) { |r.value| < 0x1_0000 }

  ghost predicate AllShort(rs: seq<Record>) {
    forall i :: 0 <= i < |rs| ==> Short(rs[i])
  }

  ghost predicate Ascending(rs: seq<Record>) {
    forall i, j :: 0 <= i < j < |rs| ==> rs[i].tag <= rs[j].tag
  }

  /** The bytes of a record: tag and length with the high byte first. */
  function Bytes(r: Record): (b: seq<byte>)
    requires Short(r)
    ensures |b| == TLV_HDR_LEN + |r.value|
  {
    [r.tag / 256, r.tag % 256, |r.value| / 256, |r.value| % 256] + r.value
  }

  ghost function Flat(rs: seq<Record>): seq<byte>
    requires AllShort(rs)
  {
    if rs == [] then [] else Flat(rs[..|rs| - 1]) + Bytes(rs[|rs| - 1])
  }

  /** Two bytes, high byte first, as a number. */
  function Join(hi: int, lo: int): (x: uint16)
    requires 0 <= hi < 256 && 0 <= lo < 256
    ensures x == hi * 256 + lo
  {
    hi * 256 + lo
  }

  /** tlv_decode at pos: the record there, if it is complete. */
  function DecodeAt(b: seq<byte>, pos: nat): (f: Found)
    requires pos <= |b|
    ensures f.Found? ==> f.next <= |b| && f.next == pos + TLV_HDR_LEN + |f.record.value| && Short(f.record)
  {
    if |b| - pos < TLV_HDR_LEN then NotFound
    else
      var tag := Join(b[pos], b[pos + 1]);
      var length := Join(b[pos + 2], b[pos + 3]);
      if length + TLV_HDR_LEN <= |b| - pos then Found(Record(tag, b[pos + 4..pos + 4 + length]),
        pos + TLV_HDR_LEN + length)
      else NotFound
  }

  lemma {:induction false} FlatSplit(rs: seq<Record>, k: nat)
    requires AllShort(rs) && k <= |rs|
    ensures Flat(rs) == Flat(rs[..k]) + Flat(rs[k..])
  {
    hide Bytes, Flat;
    if k == |rs| {
      assert rs[..k] == rs && rs[k..] == [];
      FlatNone();
    } else {
      var n := |rs| - 1;
      var init, last, tail := rs[..n], rs[n], rs[k..];
      FlatSplit(init, k);
      assert init[..k] == rs[..k] && init[k..] == tail[..|tail| - 1];
      FlatSnoc(rs);
      FlatSnoc(tail);
      Associate(Flat(rs[..k]), Flat(init[k..]), Bytes(last));
    }
  }

  lemma FlatNone()
    ensures Flat([]) == []
  {
  }

  lemma FlatSnoc(rs: seq<Record>)
    requires AllShort(rs) && rs != []
    ensures Flat(rs) == Flat(rs[..|rs| - 1]) + Bytes(rs[|rs| - 1])
  {
  }

  lemma Associate(a: seq<byte>, b: seq<byte>, c: seq<byte>)
    ensures a + b + c == a + (b + c)
  {
  }

  /** Where record k starts. */
  ghost function Offset(rs: seq<Record>, k: nat): nat
    requires AllShort(rs) && k <= |rs|
  {
    |Flat(rs[..k])|
  }

  lemma OffsetStep(rs: seq<Record>, k: nat)
    requires AllShort(rs) && k < |rs|
    ensures Offset(rs, k + 1) == Offset(rs, k) + TLV_HDR_LEN + |rs[k].value| <= |Flat(rs)|
    ensures Flat(rs)[Offset(rs, k)..Offset(rs, k + 1)] == Bytes(rs[k])
  {
    assert rs[..k + 1][..k] == rs[..k];
    FlatSplit(rs, k + 1);
  }

  lemma Halves(x: uint16)
    ensures 0 <= x / 256 < 256 && x / 256 * 256 + x % 256 == x
  {
  }

  lemma DecodeBytes(b: seq<byte>, o: nat, r: Record)
    requires Short(r) && o + TLV_HDR_LEN + |r.value| <= |b| && b[o..o + TLV_HDR_LEN + |r.value|] == Bytes(r)
    ensures DecodeAt(b, o) == Found(r, o + TLV_HDR_LEN + |r.value|)
  {
    var n := |r.value|;
    var e := b[o..o + TLV_HDR_LEN + n];
    Halves(r.tag);
    Halves(n);
    assert e[0] == b[o] && e[1] == b[o + 1] && e[2] == b[o + 2] && e[3] == b[o + 3];
    assert e[0] == r.tag / 256 && e[1] == r.tag % 256 && e[2] == n / 256 && e[3] == n % 256;
    assert e[4..] == r.value && b[o + 4..o + 4 + n] == e[4..];
  }

  /** The encoding of r starts at pos. */
  ghost predicate EncodedAt(b: seq<byte>, pos: nat, r: Record) {
    Short(r) && pos + TLV_HDR_LEN + |r.value| <= |b| && b[pos..pos + TLV_HDR_LEN + |r.value|] == Bytes(r)
  }

  /** On any bytes decoding finds the record whose encoding starts there, and
      there is at most one. */
  lemma DecodeExact(b: seq<byte>, pos: nat)
    requires pos <= |b|
    ensures var f := DecodeAt(b, pos);
            && (f.Found? ==> EncodedAt(b, pos, f.record) && f.next == pos + TLV_HDR_LEN + |f.record.value|)
            && (forall r :: EncodedAt(b, pos, r) ==> f == Found(r, pos + TLV_HDR_LEN + |r.value|))
  {
    var f := DecodeAt(b, pos);
    if f.Found? {
      var length := |f.record.value|;
      JoinSplit(b[pos], b[pos + 1]);
      JoinSplit(b[pos + 2], b[pos + 3]);
      assert b[pos..pos + 4 + length] == [b[pos], b[pos + 1], b[pos + 2], b[pos + 3]] + b[pos + 4..pos + 4 + length];
    }
    forall r | EncodedAt(b, pos, r) ensures f == Found(r, pos + TLV_HDR_LEN + |r.value|) {
      DecodeBytes(b, pos, r);
    }
  }

  lemma JoinSplit(hi: byte, lo: byte)
    ensures Join(hi, lo) / 256 == hi && Join(hi, lo) % 256 == lo
  {
  }

  /** Decoding where record k of an encoded sequence starts gives record k. */
  lemma DecodeRecord(rs: seq<Record>, k: nat)
    requires AllShort(rs) && k < |rs|
    ensures Offset(rs, k) <= |Flat(rs)| && DecodeAt(Flat(rs), Offset(rs, k)) == Found(rs[k], Offset(rs, k + 1))
  {
    hide Flat, DecodeAt, Bytes, Offset;
    OffsetStep(rs, k);
    DecodeBytes(Flat(rs), Offset(rs, k), rs[k]);
  }

  lemma DecodeEnd(rs: seq<Record>)
    requires AllShort(rs)
    ensures Offset(rs, |rs|) == |Flat(rs)| && DecodeAt(Flat(rs), |Flat(rs)|) == NotFound
  {
    assert rs[..|rs|] == rs;
  }

  /** Decoding record after record. */
  ghost function DecodeAll(b: seq<byte>, pos: nat): seq<Record>
    requires pos <= |b|
    decreases |b| - pos
  {
    var f := DecodeAt(b, pos);
    if f.Found? then [f.record] + DecodeAll(b, f.next) else []
  }

  lemma {:induction false} RoundTripFrom(rs: seq<Record>, k: nat)
    requires AllShort(rs) && k <= |rs|
    ensures Offset(rs, k) <= |Flat(rs)| && DecodeAll(Flat(rs), Offset(rs, k)) == rs[k..]
    decreases |rs| - k
  {
    hide Flat, DecodeAt, Offset;
    if k == |rs| {
      DecodeEnd(rs);
    } else {
      DecodeRecord(rs, k);
      RoundTripFrom(rs, k + 1);
      assert rs[k..] == [rs[k]] + rs[k + 1..];
    }
  }

  /** Decoding what was encoded gives the same records in order. */
  lemma RoundTrip(rs: seq<Record>)
    requires AllShort(rs)
    ensures DecodeAll(Flat(rs), 0) == rs
  {
    RoundTripFrom(rs, 0);
    assert rs[..0] == [] && rs[0..] == rs;
  }

  /** The encoding iterator. */
  class Encoder {
    const buf: array<byte>
    var pos: nat
    var prevTag: uint16
    ghost var records: seq<Record>

    ghost predicate Valid()
      reads this, buf
    {
      && pos <= buf.Length && AllShort(records) && Ascending(records) && buf[..pos] == Flat(records)
      && prevTag == if records == [] then 0 else records[|records| - 1].tag
    }

    /** tlv_iterator_begin */
    constructor (buf: array<byte>)
      ensures Valid() && this.buf == buf && records == [] && pos == 0
    {
      this.buf, pos, prevTag, records := buf, 0, 0, [];
    }

    /** tlv_encode: succeeds exactly if the record fits and its tag is not below
        the last one. */
    method Encode(r: Record) returns (success: bool)
      requires Valid() && Short(r)
      modifies this, buf
      ensures Valid()
      ensures success <==> TLV_HDR_LEN + |r.value| <= buf.Length - old(pos) && r.tag >= old(prevTag)
      ensures records == if success then old(records) + [r] else old(records)
      ensures old(pos) <= pos <= buf.Length && buf[pos..] == old(buf[..])[pos..] && (!success ==> pos == old(pos))
      ensures success ==> pos == old(pos) + 4 + |r.value| && buf[old(pos) + 4..pos] == r.value
      ensures success ==> Join(buf[old(pos)], buf[old(pos) + 1]) == r.tag
      ensures success ==> Join(buf[old(pos) + 2], buf[old(pos) + 3]) == |r.value|
    {
      hide Flat, Ascending, AllShort, Bytes;
      success := false;
      var required := TLV_HDR_LEN + |r.value|;
      if required <= buf.Length - pos && r.tag >= prevTag {
        WriteRecord(buf, pos, r);
        RecordBytes(buf[..], pos, r);
        Extended(records, r);
        StillAscending(records, r);
        pos := pos + required;
        prevTag := r.tag;
        records := records + [r];
        success := true;
      }
    }
  }

  /** Where the parts of a record are. */
  lemma RecordBytes(b: seq<byte>, pos: nat, r: Record)
    requires Short(r) && pos + 4 + |r.value| <= |b| && b[pos..pos + 4 + |r.value|] == Bytes(r)
    ensures b[pos + 4..pos + 4 + |r.value|] == r.value
    ensures Join(b[pos], b[pos + 1]) == r.tag && Join(b[pos + 2], b[pos + 3]) == |r.value|
  {
    var w := b[pos..pos + 4 + |r.value|];
    assert w[0] == b[pos] && w[1] == b[pos + 1] && w[2] == b[pos + 2] && w[3] == b[pos + 3];
    assert w[4..] == b[pos + 4..pos + 4 + |r.value|];
  }

  /** Header and value at pos. */
  method WriteRecord(buf: array<byte>, pos: nat, r: Record)
    requires Short(r) && pos + TLV_HDR_LEN + |r.value| <= buf.Length
    modifies buf
    ensures buf[..pos + TLV_HDR_LEN + |r.value|] == old(buf[..pos]) + Bytes(r)
    ensures buf[pos + TLV_HDR_LEN + |r.value|..] == old(buf[..])[pos + TLV_HDR_LEN + |r.value|..]
  {
    Halves(r.tag);
    Halves(|r.value|);
    buf[pos] := r.tag / 256;
    buf[pos + 1] := r.tag % 256;
    buf[pos + 2] := |r.value| / 256;
    buf[pos + 3] := |r.value| % 256;
    ghost var header := [r.tag / 256, r.tag % 256, |r.value| / 256, |r.value| % 256];
    assert buf[..pos + 4] == old(buf[..pos]) + header;
    CopyIn(buf, pos + 4, r.value);
  }

  /** The memcpy of the value. */
  method CopyIn(a: array<byte>, off: nat, v: seq<byte>)
    requires off + |v| <= a.Length
    modifies a
    ensures a[..] == old(a[..off]) + v + old(a[off + |v|..])
  {
    var i := 0;
    while i < |v|
      invariant i <= |v|
      invariant a[..] == old(a[..off]) + v[..i] + old(a[off + i..])
    {
      a[off + i] := v[i];
      i := i + 1;
    }
    assert v[..|v|] == v;
  }

  lemma Extended(rs: seq<Record>, r: Record)
    requires AllShort(rs) && Short(r)
    ensures AllShort(rs + [r]) && Flat(rs + [r]) == Flat(rs) + Bytes(r)
  {
    assert (rs + [r])[..|rs|] == rs;
  }

  lemma StillAscending(rs: seq<Record>, r: Record)
    requires Ascending(rs) && (rs != [] ==> r.tag >= rs[|rs| - 1].tag)
    ensures Ascending(rs + [r])
  {
    var t := rs + [r];
    forall i, j | 0 <= i < j < |t|
      ensures t[i].tag <= t[j].tag
    {
      if j == |rs| && i < |rs| - 1 { assert rs[i].tag <= rs[|rs| - 1].tag; }
    }
  }

  /** The decoding iterator. */
  class Decoder {
    const bytes: seq<byte>
    var pos: nat

    ghost predicate Valid()
      reads this
    {
      pos <= |bytes|
    }

    /** tlv_const_iterator_begin */
    constructor (bytes: seq<byte>)
      ensures Valid() && this.bytes == bytes && pos == 0
    {
      this.bytes, pos := bytes, 0;
    }

    /** tlv_decode, on any bytes: the record whose encoding starts at the
        position, exactly if there is one, and then the iterator is behind it. */
    method Decode() returns (f: Found)
      requires Valid()
      modifies this
      ensures Valid() && f == DecodeAt(bytes, old(pos))
      ensures f.Found? <==> exists r :: EncodedAt(bytes, old(pos), r)
      ensures f.Found? ==> EncodedAt(bytes, old(pos), f.record)
      ensures f.Found? ==> old(pos) <= pos == f.next && bytes[old(pos)..pos] == Bytes(f.record)
      ensures f.NotFound? ==> pos == old(pos)
    {
      DecodeExact(bytes, pos);
      f := NotFound;
      var space := |bytes| - pos;
      if space >= TLV_HDR_LEN {
        var tag := Join(bytes[pos], bytes[pos + 1]);
        var length := Join(bytes[pos + 2], bytes[pos + 3]);
        if length + TLV_HDR_LEN <= space {
          f := Found(Record(tag, bytes[pos + 4..pos + 4 + length]), pos + TLV_HDR_LEN + length);
          pos := pos + TLV_HDR_LEN + length;
        }
      }
    }

    /** tlv_find_decode: moves behind the record found, and only then. */
    method FindDecode(tag: uint16) returns (f: Found)
      requires Valid()
      modifies this
      ensures Valid() && f == FindAt(bytes, old(pos), tag)
      ensures pos == if f.Found? then f.next else old(pos)
    {
      var temp := pos;
      while true
        invariant temp <= |bytes| && FindAt(bytes, temp, tag) == FindAt(bytes, pos, tag) && pos == old(pos)
        decreases |bytes| - temp
      {
        f := DecodeAt(bytes, temp);
        if f.NotFound? {
          return NotFound;
        }
        temp := f.next;
        if f.record.tag == tag {
          pos := temp;
          return f;
        } else if f.record.tag > tag {
          return NotFound;
        }
      }
    }
  }

  /** The first record with the tag, unless a higher tag comes before it. */
  function FindAt(b: seq<byte>, pos: nat, tag: uint16): Found
    requires pos <= |b|
    decreases |b| - pos
  {
    var f := DecodeAt(b, pos);
    if f.NotFound? || f.record.tag > tag then NotFound
    else if f.record.tag == tag then f
    else FindAt(b, f.next, tag)
  }

  /** j is the first record from k on with the tag. */
  ghost predicate FirstWith(rs: seq<Record>, k: nat, j: nat, tag: uint16) {
    k <= j < |rs| && rs[j].tag == tag && forall i :: k <= i < j ==> rs[i].tag != tag
  }

  /** On any encoded sequence the search stops at the first record whose tag is
      not below, and succeeds exactly if that has the tag. */
  lemma {:induction false} FindExact(rs: seq<Record>, k: nat, tag: uint16) returns (j: nat)
    requires AllShort(rs) && k <= |rs|
    ensures k <= j <= |rs| && (forall i :: k <= i < j ==> rs[i].tag < tag) && (j < |rs| ==> rs[j].tag >= tag)
    ensures Offset(rs, k) <= |Flat(rs)|
    ensures FindAt(Flat(rs), Offset(rs, k), tag)
         == if j < |rs| && rs[j].tag == tag then Found(rs[j], Offset(rs, j + 1)) else NotFound
    decreases |rs| - k
  {
    hide Flat, DecodeAt, Offset;
    j := k;
    if k == |rs| {
      DecodeEnd(rs);
    } else {
      DecodeRecord(rs, k);
      if rs[k].tag < tag { j := FindExact(rs, k + 1, tag); }
    }
  }

  /** On an encoded, ascending sequence the search finds the first record with
      the tag, and fails exactly if none is left. */
  lemma FindFirst(rs: seq<Record>, k: nat, tag: uint16) returns (j: nat)
    requires AllShort(rs) && Ascending(rs) && k <= |rs|
    ensures Offset(rs, k) <= |Flat(rs)|
    ensures var f := FindAt(Flat(rs), Offset(rs, k), tag);
            if exists i :: k <= i < |rs| && rs[i].tag == tag
            then FirstWith(rs, k, j, tag) && f == Found(rs[j], Offset(rs, j + 1))
            else f == NotFound
  {
    hide Flat, FindAt, Offset;
    j := FindExact(rs, k, tag);
    assert forall i :: j < i < |rs| ==> rs[j].tag <= rs[i].tag;
  }

  /** Reading strictly ascending tags one after the other: each search starts
      behind the record found last, and finds the first record of its tag in
      the whole sequence, whatever unknown records lie between. */
  lemma {:induction false} NextFind(rs: seq<Record>, j: nat, tag: uint16, i: nat)
    requires AllShort(rs) && Ascending(rs) && j < |rs| && rs[j].tag < tag && FirstWith(rs, 0, i, tag)
    ensures Offset(rs, j + 1) <= |Flat(rs)|
            && FindAt(Flat(rs), Offset(rs, j + 1), tag) == Found(rs[i], Offset(rs, i + 1))
  {
    assert j < i;
    var k := FindFirst(rs, j + 1, tag);
    assert rs[i].tag == tag && FirstWith(rs, j + 1, k, tag);
    assert k == i;
  }
}
