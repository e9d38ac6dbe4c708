/** Little-endian numbers in a byte buffer, as packed structures hold them. */
module Packed {
  import opened Words

  function Pow256(n: nat): nat {
    if n == 0 then 1 else 256 * Pow256(n - 1)
  }

  /** The n-byte number at off. */
  function Get(b: seq<byte>, off: nat, n: nat): nat
    requires off + n <= |b|
    decreases n
  {
    if n == 0 then 0 else b[off] + 256 * Get(b, off + 1, n - 1)
  }

  /** The sizes in use, byte by byte. */
  lemma LittleEndian(b: seq<byte>, off: nat)
    ensures off + 1 <= |b| ==> Get(b, off, 1) == b[off]
    ensures off + 2 <= |b| ==> var x0: int, x1: int := b[off], b[off + 1]; Get(b, off, 2) == x0 + 0x100 * x1
    ensures off + 4 <= |b| ==>
      var x0: int, x1: int, x2: int, x3: int := b[off], b[off + 1], b[off + 2], b[off + 3];
      Get(b, off, 4) == x0 + 0x100 * x1 + 0x1_0000 * x2 + 0x100_0000 * x3
    ensures off + 8 <= |b| ==> Get(b, off, 8) == Get(b, off, 4) + 0x1_0000_0000 * Get(b, off + 4, 4)
  {
    if off + 4 <= |b| { FourBytes(b, off, 0); }
    if off + 8 <= |b| { FourBytes(b, off, 4); }
  }

  lemma FourBytes(b: seq<byte>, off: nat, n: nat)
    requires off + 4 + n <= |b|
    ensures var x0: int, x1: int, x2: int, x3: int := b[off], b[off + 1], b[off + 2], b[off + 3];
            var low := x0 + 0x100 * x1 + 0x1_0000 * x2 + 0x100_0000 * x3;
            Get(b, off, 4 + n) == low + 0x1_0000_0000 * Get(b, off + 4, n)
  {
    assert Get(b, off, 4 + n) == b[off] as int + 0x100 * Get(b, off + 1, 3 + n);
    assert Get(b, off + 1, 3 + n) == b[off + 1] as int + 0x100 * Get(b, off + 2, 2 + n);
    assert Get(b, off + 2, 2 + n) == b[off + 2] as int + 0x100 * Get(b, off + 3, 1 + n);
    assert Get(b, off + 3, 1 + n) == b[off + 3] as int + 0x100 * Get(b, off + 4, n);
  }

  /** The buffer with the low n bytes of v at off. */
  function Put(b: seq<byte>, off: nat, n: nat, v: nat): (b': seq<byte>)
    requires off + n <= |b|
    ensures |b'| == |b|
    decreases n
  {
    if n == 0 then b else Put(b[off := v % 256], off + 1, n - 1, v / 256)
  }

  /** The buffers are equal outside [lo, hi). */
  ghost predicate SameOutside(b: seq<byte>, b': seq<byte>, lo: nat, hi: nat) {
    |b'| == |b| && forall i :: 0 <= i < |b| && !(lo <= i < hi) ==> b'[i] == b[i]
  }

  lemma {:induction false} PutOutside(b: seq<byte>, off: nat, n: nat, v: nat)
    requires off + n <= |b|
    ensures SameOutside(b, Put(b, off, n, v), off, off + n)
    decreases n
  {
    if n > 0 { PutOutside(b[off := v % 256], off + 1, n - 1, v / 256); }
  }

  lemma {:induction false} GetSame(b: seq<byte>, b': seq<byte>, off: nat, n: nat, lo: nat, hi: nat)
    requires SameOutside(b, b', lo, hi) && off + n <= |b| && (off + n <= lo || hi <= off)
    ensures Get(b', off, n) == Get(b, off, n)
    decreases n
  {
    if n > 0 { GetSame(b, b', off + 1, n - 1, lo, hi); }
  }

  lemma {:induction false} GetPut(b: seq<byte>, off: nat, n: nat, v: nat)
    requires off + n <= |b| && v < Pow256(n)
    ensures Get(Put(b, off, n, v), off, n) == v
    decreases n
  {
    if n > 0 {
      var b1 := b[off := v % 256];
      GetPut(b1, off + 1, n - 1, v / 256);
      PutOutside(b1, off + 1, n - 1, v / 256);
    }
  }

  lemma Sizes()
    ensures Pow256(1) == 0x100 && Pow256(2) == 0x1_0000 && Pow256(4) == 0x1_0000_0000
            && Pow256(8) == 0x1_0000_0000_0000_0000
  {
    assert Pow256(3) == 0x100_0000 && Pow256(5) == 0x100_0000_0000 && Pow256(6) == 0x1_0000_0000_0000
           && Pow256(7) == 0x100_0000_0000_0000;
  }

  /** Store a packed field in place. */
  method Store(a: array<byte>, off: nat, n: nat, v: nat)
    requires off + n <= a.Length
    modifies a
    ensures a[..] == Put(old(a[..]), off, n, v)
  {
    var i, w := 0, v;
    while i < n
      invariant i <= n
      invariant Put(a[..], off + i, n - i, w) == Put(old(a[..]), off, n, v)
    {
      ghost var before := a[..];
      a[off + i] := w % 256;
      assert a[..] == before[off + i := w % 256];
      w := w / 256;
      i := i + 1;
    }
  }

  /** Load a packed field. */
  method Load(a: array<byte>, off: nat, n: nat) returns (v: nat)
    requires off + n <= a.Length
    ensures v == Get(a[..], off, n)
  {
    v := 0;
    var i := n;
    while i > 0
      invariant 0 <= i <= n && v == Get(a[..], off + i, n - i)
    {
      i := i - 1;
      v := a[off + i] + 256 * v;
    }
  }
}
