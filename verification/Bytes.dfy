/** Bytes of word-addressed memory, and memcpy
    (components/common/libc/src/memcpy.c). */
module Bytes {
  import opened Rings

  /** Byte k of a little-endian word. */
  function Digit(w: int, k: nat): (b: int)
    ensures 0 <= b < 256
    decreases k
  {
    if k == 0 then w % 256 else Digit(w / 256, k - 1)
  }

  /** The word with byte k replaced. */
  function PutDigit(w: int, k: nat, b: int): int
    decreases k
  {
    if k == 0 then w - w % 256 + b else 256 * PutDigit(w / 256, k - 1, b) + w % 256
  }

  lemma {:induction false} PutThenGet(w: int, k: nat, b: int, j: nat)
    requires 0 <= b < 256
    ensures Digit(PutDigit(w, k, b), j) == if j == k then b else Digit(w, j)
    decreases k
  {
    var w' := PutDigit(w, k, b);
    if k > 0 {
      assert w' / 256 == PutDigit(w / 256, k - 1, b) && w' % 256 == w % 256;
      if j > 0 { PutThenGet(w / 256, k - 1, b, j - 1); }
    } else {
      assert w' / 256 == w / 256;
    }
  }

  /** The byte at address a. */
  function Byte(m: Memory, a: int): int {
    Digit(Word(m, a - a % 8), a % 8)
  }

  /** The k bytes at src in m are the k bytes at dst in m'. */
  ghost predicate Copied(m: Memory, src: int, m': Memory, dst: int, k: int) {
    forall a :: dst <= a < dst + k ==> Byte(m', a) == Byte(m, src + a - dst)
  }

  lemma CopiedTrans(m: Memory, a: int, m': Memory, b: int, m'': Memory, c: int, k: int)
    requires Copied(m, a, m', b, k) && Copied(m', b, m'', c, k)
    ensures Copied(m, a, m'', c, k)
  {
  }

  /** Equal words hold equal bytes. */
  lemma SameBytes(m: Memory, m': Memory, lo: int, hi: int, k: nat)
    requires SameOn(m, m', lo, hi) && lo % 8 == 0 && lo + k <= hi
    ensures Copied(m, lo, m', lo, k)
  {
    hide Digit;
    forall a | lo <= a < lo + k
      ensures Byte(m', a) == Byte(m, a)
    {
      assert lo <= a - a % 8;
    }
  }

  function PutByte(m: Memory, a: int, b: int): Memory {
    m[a - a % 8 := PutDigit(Word(m, a - a % 8), a % 8, b)]
  }

  lemma PutByteBytes(m: Memory, a: int, b: int, c: int)
    requires 0 <= b < 256
    ensures Byte(PutByte(m, a, b), c) == if c == a then b else Byte(m, c)
  {
    hide Digit, PutDigit;
    if c - c % 8 == a - a % 8 {
      PutThenGet(Word(m, a - a % 8), a % 8, b, c % 8);
    }
  }

  /** memcpy between ranges that do not overlap. */
  method MemCpy(m0: Memory, dst: int, src: int, len: nat) returns (m: Memory)
    requires dst + len <= src || src + len <= dst
    ensures Copied(m0, src, m, dst, len)
    ensures forall a :: !(dst <= a < dst + len) ==> Byte(m, a) == Byte(m0, a)
    ensures dst % 8 == 0 ==> forall w :: !(dst <= w < dst + len) ==> Word(m, w) == Word(m0, w)
  {
    hide Byte, PutByte;
    m := m0;
    var i := 0;
    while i < len
      invariant i <= len
      invariant Copied(m0, src, m, dst, i)
      invariant forall a :: !(dst <= a < dst + i) ==> Byte(m, a) == Byte(m0, a)
      invariant dst % 8 == 0 ==> forall w :: !(dst <= w < dst + i) ==> Word(m, w) == Word(m0, w)
    {
      ghost var m1 := m;
      m := PutByte(m, dst + i, Byte(m, src + i));
      PutWords(m1, dst + i, Byte(m1, src + i));
      forall c ensures Byte(m, c) == if c == dst + i then Byte(m1, src + i) else Byte(m1, c) {
        ByteRange(m1, src + i);
        PutByteBytes(m1, dst + i, Byte(m1, src + i), c);
      }
      i := i + 1;
    }
  }

  lemma ByteRange(m: Memory, a: int)
    ensures 0 <= Byte(m, a) < 256
  {
  }

  lemma PutWords(m: Memory, a: int, b: int)
    ensures forall w {:trigger Word(PutByte(m, a, b), w)} :: w != a - a % 8 ==> Word(PutByte(m, a, b), w) == Word(m, w)
  {
  }

  /** Every byte of the range is b. */
  ghost predicate Filled(m: Memory, dst: int, len: int, b: int) {
    forall a :: dst <= a < dst + len ==> Byte(m, a) == b
  }

  /** The first len bytes from dst are b, and nothing else differs from m0. */
  ghost predicate Written(m0: Memory, m: Memory, dst: int, len: int, b: int) {
    && Filled(m, dst, len, b)
    && (forall a :: !(dst <= a < dst + len) ==> Byte(m, a) == Byte(m0, a))
    && (dst % 8 == 0 ==> forall w :: !(dst <= w < dst + len) ==> Word(m, w) == Word(m0, w))
  }

  lemma WriteByte(m0: Memory, m: Memory, dst: int, len: nat, b: int)
    requires Written(m0, m, dst, len, b) && 0 <= b < 256
    ensures Written(m0, PutByte(m, dst + len, b), dst, len + 1, b)
  {
    hide Byte, PutByte;
    var m' := PutByte(m, dst + len, b);
    PutWords(m, dst + len, b);
    forall c ensures Byte(m', c) == if c == dst + len then b else Byte(m, c) {
      PutByteBytes(m, dst + len, b, c);
    }
  }

  /** The word whose eight bytes are all b. */
  function Repeated(b: int): int {
    b * 0x0101_0101_0101_0101
  }

  lemma RepeatedDigits(b: int, k: nat)
    requires 0 <= b < 256 && k < 8
    ensures Digit(Repeated(b), k) == b
  {
    Lower(b, 0x0101_0101_0101_0101, 0x01_0101_0101_0101, k);
    Lower(b, 0x01_0101_0101_0101, 0x0101_0101_0101, k - 1);
    Lower(b, 0x0101_0101_0101, 0x01_0101_0101, k - 2);
    Lower(b, 0x01_0101_0101, 0x0101_0101, k - 3);
    Lower(b, 0x0101_0101, 0x01_0101, k - 4);
    Lower(b, 0x01_0101, 0x0101, k - 5);
    Lower(b, 0x0101, 0x01, k - 6);
    Lower(b, 0x01, 0x00, k - 7);
  }

  lemma Lower(b: int, p: int, q: int, k: int)
    requires 0 <= b < 256 && p == 256 * q + 1
    ensures k == 0 ==> Digit(b * p, k) == b
    ensures k > 0 ==> Digit(b * p, k) == Digit(b * q, k - 1)
  {
    assert b * p == 256 * (b * q) + b;
    LowByte(b * q, b);
  }

  lemma LowByte(h: int, b: int)
    requires 0 <= b < 256
    ensures (256 * h + b) % 256 == b && (256 * h + b) / 256 == h
  {
  }

  lemma WriteWord(m0: Memory, m: Memory, dst: int, len: nat, b: int)
    requires Written(m0, m, dst, len, b) && 0 <= b < 256 && (dst + len) % 8 == 0
    ensures Written(m0, m[dst + len := Repeated(b)], dst, len + 8, b)
  {
    hide Digit;
    var p := dst + len;
    var m' := m[p := Repeated(b)];
    forall c ensures Byte(m', c) == if p <= c < p + 8 then b else Byte(m, c) {
      if p <= c < p + 8 { RepeatedDigits(b, c % 8); }
    }
  }

  /** memset: single bytes up to a multiple of eight, whole words while eight remain, and the rest in single bytes. */
  method MemSet(m0: Memory, dst: int, val: int, len: nat) returns (m: Memory)
    ensures Filled(m, dst, len, val % 256)
    ensures forall a :: !(dst <= a < dst + len) ==> Byte(m, a) == Byte(m0, a)
    ensures dst % 8 == 0 ==> forall w :: !(dst <= w < dst + len) ==> Word(m, w) == Word(m0, w)
  {
    hide Byte, PutByte;
    m := m0;
    var b, ptr, count := val % 256, dst, len;
    while count > 0 && ptr % 8 != 0
      invariant ptr + count == dst + len && ptr >= dst && count >= 0
      invariant Written(m0, m, dst, ptr - dst, b)
    {
      WriteByte(m0, m, dst, ptr - dst, b);
      m := PutByte(m, ptr, b);
      ptr, count := ptr + 1, count - 1;
    }
    // The shifted copies do not overlap, so each disjunction is a sum.
    var fill := b;
    fill := fill + fill * 0x100;
    fill := fill + fill * 0x1_0000;
    fill := fill + fill * 0x1_0000_0000;
    while count >= 8
      invariant ptr + count == dst + len && ptr >= dst && count >= 0
      invariant count == 0 || ptr % 8 == 0
      invariant Written(m0, m, dst, ptr - dst, b)
    {
      WriteWord(m0, m, dst, ptr - dst, b);
      m := m[ptr := fill];
      ptr, count := ptr + 8, count - 8;
    }
    while count > 0
      invariant ptr + count == dst + len && ptr >= dst && count >= 0
      invariant Written(m0, m, dst, ptr - dst, b)
    {
      WriteByte(m0, m, dst, ptr - dst, b);
      m := PutByte(m, ptr, b);
      ptr, count := ptr + 1, count - 1;
    }
  }
}
