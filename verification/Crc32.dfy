/** CRC-32 by table, against the bit-at-a-time definition
    (components/common/crc32/crc32.c; section 8 of RFC 1952). */
module Crc32 {
  import opened Polynomials

  function Row0(i: bv8): bv32 {
    if i == 0 then 0x00000000
    else if i == 1 then 0x77073096
    else if i == 2 then 0xee0e612c
    else if i == 3 then 0x990951ba
    else if i == 4 then 0x076dc419
    else if i == 5 then 0x706af48f
    else if i == 6 then 0xe963a535
    else if i == 7 then 0x9e6495a3
    else if i == 8 then 0x0edb8832
    else if i == 9 then 0x79dcb8a4
    else if i == 10 then 0xe0d5e91e
    else if i == 11 then 0x97d2d988
    else if i == 12 then 0x09b64c2b
    else if i == 13 then 0x7eb17cbd
    else if i == 14 then 0xe7b82d07
    else 0x90bf1d91
  }

  function Row1(i: bv8): bv32 {
    if i == 0 then 0x1db71064
    else if i == 1 then 0x6ab020f2
    else if i == 2 then 0xf3b97148
    else if i == 3 then 0x84be41de
    else if i == 4 then 0x1adad47d
    else if i == 5 then 0x6ddde4eb
    else if i == 6 then 0xf4d4b551
    else if i == 7 then 0x83d385c7
    else if i == 8 then 0x136c9856
    else if i == 9 then 0x646ba8c0
    else if i == 10 then 0xfd62f97a
    else if i == 11 then 0x8a65c9ec
    else if i == 12 then 0x14015c4f
    else if i == 13 then 0x63066cd9
    else if i == 14 then 0xfa0f3d63
    else 0x8d080df5
  }

  function Row2(i: bv8): bv32 {
    if i == 0 then 0x3b6e20c8
    else if i == 1 then 0x4c69105e
    else if i == 2 then 0xd56041e4
    else if i == 3 then 0xa2677172
    else if i == 4 then 0x3c03e4d1
    else if i == 5 then 0x4b04d447
    else if i == 6 then 0xd20d85fd
    else if i == 7 then 0xa50ab56b
    else if i == 8 then 0x35b5a8fa
    else if i == 9 then 0x42b2986c
    else if i == 10 then 0xdbbbc9d6
    else if i == 11 then 0xacbcf940
    else if i == 12 then 0x32d86ce3
    else if i == 13 then 0x45df5c75
    else if i == 14 then 0xdcd60dcf
    else 0xabd13d59
  }

  function Row3(i: bv8): bv32 {
    if i == 0 then 0x26d930ac
    else if i == 1 then 0x51de003a
    else if i == 2 then 0xc8d75180
    else if i == 3 then 0xbfd06116
    else if i == 4 then 0x21b4f4b5
    else if i == 5 then 0x56b3c423
    else if i == 6 then 0xcfba9599
    else if i == 7 then 0xb8bda50f
    else if i == 8 then 0x2802b89e
    else if i == 9 then 0x5f058808
    else if i == 10 then 0xc60cd9b2
    else if i == 11 then 0xb10be924
    else if i == 12 then 0x2f6f7c87
    else if i == 13 then 0x58684c11
    else if i == 14 then 0xc1611dab
    else 0xb6662d3d
  }

  function Row4(i: bv8): bv32 {
    if i == 0 then 0x76dc4190
    else if i == 1 then 0x01db7106
    else if i == 2 then 0x98d220bc
    else if i == 3 then 0xefd5102a
    else if i == 4 then 0x71b18589
    else if i == 5 then 0x06b6b51f
    else if i == 6 then 0x9fbfe4a5
    else if i == 7 then 0xe8b8d433
    else if i == 8 then 0x7807c9a2
    else if i == 9 then 0x0f00f934
    else if i == 10 then 0x9609a88e
    else if i == 11 then 0xe10e9818
    else if i == 12 then 0x7f6a0dbb
    else if i == 13 then 0x086d3d2d
    else if i == 14 then 0x91646c97
    else 0xe6635c01
  }

  function Row5(i: bv8): bv32 {
    if i == 0 then 0x6b6b51f4
    else if i == 1 then 0x1c6c6162
    else if i == 2 then 0x856530d8
    else if i == 3 then 0xf262004e
    else if i == 4 then 0x6c0695ed
    else if i == 5 then 0x1b01a57b
    else if i == 6 then 0x8208f4c1
    else if i == 7 then 0xf50fc457
    else if i == 8 then 0x65b0d9c6
    else if i == 9 then 0x12b7e950
    else if i == 10 then 0x8bbeb8ea
    else if i == 11 then 0xfcb9887c
    else if i == 12 then 0x62dd1ddf
    else if i == 13 then 0x15da2d49
    else if i == 14 then 0x8cd37cf3
    else 0xfbd44c65
  }

  function Row6(i: bv8): bv32 {
    if i == 0 then 0x4db26158
    else if i == 1 then 0x3ab551ce
    else if i == 2 then 0xa3bc0074
    else if i == 3 then 0xd4bb30e2
    else if i == 4 then 0x4adfa541
    else if i == 5 then 0x3dd895d7
    else if i == 6 then 0xa4d1c46d
    else if i == 7 then 0xd3d6f4fb
    else if i == 8 then 0x4369e96a
    else if i == 9 then 0x346ed9fc
    else if i == 10 then 0xad678846
    else if i == 11 then 0xda60b8d0
    else if i == 12 then 0x44042d73
    else if i == 13 then 0x33031de5
    else if i == 14 then 0xaa0a4c5f
    else 0xdd0d7cc9
  }

  function Row7(i: bv8): bv32 {
    if i == 0 then 0x5005713c
    else if i == 1 then 0x270241aa
    else if i == 2 then 0xbe0b1010
    else if i == 3 then 0xc90c2086
    else if i == 4 then 0x5768b525
    else if i == 5 then 0x206f85b3
    else if i == 6 then 0xb966d409
    else if i == 7 then 0xce61e49f
    else if i == 8 then 0x5edef90e
    else if i == 9 then 0x29d9c998
    else if i == 10 then 0xb0d09822
    else if i == 11 then 0xc7d7a8b4
    else if i == 12 then 0x59b33d17
    else if i == 13 then 0x2eb40d81
    else if i == 14 then 0xb7bd5c3b
    else 0xc0ba6cad
  }

  function Row8(i: bv8): bv32 {
    if i == 0 then 0xedb88320
    else if i == 1 then 0x9abfb3b6
    else if i == 2 then 0x03b6e20c
    else if i == 3 then 0x74b1d29a
    else if i == 4 then 0xead54739
    else if i == 5 then 0x9dd277af
    else if i == 6 then 0x04db2615
    else if i == 7 then 0x73dc1683
    else if i == 8 then 0xe3630b12
    else if i == 9 then 0x94643b84
    else if i == 10 then 0x0d6d6a3e
    else if i == 11 then 0x7a6a5aa8
    else if i == 12 then 0xe40ecf0b
    else if i == 13 then 0x9309ff9d
    else if i == 14 then 0x0a00ae27
    else 0x7d079eb1
  }

  function Row9(i: bv8): bv32 {
    if i == 0 then 0xf00f9344
    else if i == 1 then 0x8708a3d2
    else if i == 2 then 0x1e01f268
    else if i == 3 then 0x6906c2fe
    else if i == 4 then 0xf762575d
    else if i == 5 then 0x806567cb
    else if i == 6 then 0x196c3671
    else if i == 7 then 0x6e6b06e7
    else if i == 8 then 0xfed41b76
    else if i == 9 then 0x89d32be0
    else if i == 10 then 0x10da7a5a
    else if i == 11 then 0x67dd4acc
    else if i == 12 then 0xf9b9df6f
    else if i == 13 then 0x8ebeeff9
    else if i == 14 then 0x17b7be43
    else 0x60b08ed5
  }

  function RowA(i: bv8): bv32 {
    if i == 0 then 0xd6d6a3e8
    else if i == 1 then 0xa1d1937e
    else if i == 2 then 0x38d8c2c4
    else if i == 3 then 0x4fdff252
    else if i == 4 then 0xd1bb67f1
    else if i == 5 then 0xa6bc5767
    else if i == 6 then 0x3fb506dd
    else if i == 7 then 0x48b2364b
    else if i == 8 then 0xd80d2bda
    else if i == 9 then 0xaf0a1b4c
    else if i == 10 then 0x36034af6
    else if i == 11 then 0x41047a60
    else if i == 12 then 0xdf60efc3
    else if i == 13 then 0xa867df55
    else if i == 14 then 0x316e8eef
    else 0x4669be79
  }

  function RowB(i: bv8): bv32 {
    if i == 0 then 0xcb61b38c
    else if i == 1 then 0xbc66831a
    else if i == 2 then 0x256fd2a0
    else if i == 3 then 0x5268e236
    else if i == 4 then 0xcc0c7795
    else if i == 5 then 0xbb0b4703
    else if i == 6 then 0x220216b9
    else if i == 7 then 0x5505262f
    else if i == 8 then 0xc5ba3bbe
    else if i == 9 then 0xb2bd0b28
    else if i == 10 then 0x2bb45a92
    else if i == 11 then 0x5cb36a04
    else if i == 12 then 0xc2d7ffa7
    else if i == 13 then 0xb5d0cf31
    else if i == 14 then 0x2cd99e8b
    else 0x5bdeae1d
  }

  function RowC(i: bv8): bv32 {
    if i == 0 then 0x9b64c2b0
    else if i == 1 then 0xec63f226
    else if i == 2 then 0x756aa39c
    else if i == 3 then 0x026d930a
    else if i == 4 then 0x9c0906a9
    else if i == 5 then 0xeb0e363f
    else if i == 6 then 0x72076785
    else if i == 7 then 0x05005713
    else if i == 8 then 0x95bf4a82
    else if i == 9 then 0xe2b87a14
    else if i == 10 then 0x7bb12bae
    else if i == 11 then 0x0cb61b38
    else if i == 12 then 0x92d28e9b
    else if i == 13 then 0xe5d5be0d
    else if i == 14 then 0x7cdcefb7
    else 0x0bdbdf21
  }

  function RowD(i: bv8): bv32 {
    if i == 0 then 0x86d3d2d4
    else if i == 1 then 0xf1d4e242
    else if i == 2 then 0x68ddb3f8
    else if i == 3 then 0x1fda836e
    else if i == 4 then 0x81be16cd
    else if i == 5 then 0xf6b9265b
    else if i == 6 then 0x6fb077e1
    else if i == 7 then 0x18b74777
    else if i == 8 then 0x88085ae6
    else if i == 9 then 0xff0f6a70
    else if i == 10 then 0x66063bca
    else if i == 11 then 0x11010b5c
    else if i == 12 then 0x8f659eff
    else if i == 13 then 0xf862ae69
    else if i == 14 then 0x616bffd3
    else 0x166ccf45
  }

  function RowE(i: bv8): bv32 {
    if i == 0 then 0xa00ae278
    else if i == 1 then 0xd70dd2ee
    else if i == 2 then 0x4e048354
    else if i == 3 then 0x3903b3c2
    else if i == 4 then 0xa7672661
    else if i == 5 then 0xd06016f7
    else if i == 6 then 0x4969474d
    else if i == 7 then 0x3e6e77db
    else if i == 8 then 0xaed16a4a
    else if i == 9 then 0xd9d65adc
    else if i == 10 then 0x40df0b66
    else if i == 11 then 0x37d83bf0
    else if i == 12 then 0xa9bcae53
    else if i == 13 then 0xdebb9ec5
    else if i == 14 then 0x47b2cf7f
    else 0x30b5ffe9
  }

  function RowF(i: bv8): bv32 {
    if i == 0 then 0xbdbdf21c
    else if i == 1 then 0xcabac28a
    else if i == 2 then 0x53b39330
    else if i == 3 then 0x24b4a3a6
    else if i == 4 then 0xbad03605
    else if i == 5 then 0xcdd70693
    else if i == 6 then 0x54de5729
    else if i == 7 then 0x23d967bf
    else if i == 8 then 0xb3667a2e
    else if i == 9 then 0xc4614ab8
    else if i == 10 then 0x5d681b02
    else if i == 11 then 0x2a6f2b94
    else if i == 12 then 0xb40bbe37
    else if i == 13 then 0xc30c8ea1
    else if i == 14 then 0x5a05df1b
    else 0x2d02ef8d
  }

  /** crc32_tab */
  function Table(i: bv8): bv32 {
    var hi, lo := i >> 4, i & 0xF;
    if hi == 0 then Row0(lo)
    else if hi == 1 then Row1(lo)
    else if hi == 2 then Row2(lo)
    else if hi == 3 then Row3(lo)
    else if hi == 4 then Row4(lo)
    else if hi == 5 then Row5(lo)
    else if hi == 6 then Row6(lo)
    else if hi == 7 then Row7(lo)
    else if hi == 8 then Row8(lo)
    else if hi == 9 then Row9(lo)
    else if hi == 10 then RowA(lo)
    else if hi == 11 then RowB(lo)
    else if hi == 12 then RowC(lo)
    else if hi == 13 then RowD(lo)
    else if hi == 14 then RowE(lo)
    else RowF(lo)
  }

  function Xor(a: bv32, b: bv32): bv32 { a ^ b }
  function Half(a: bv32): bv32 { a >> 1 }
  predicate Odd(a: bv32) { a & 1 == 1 }

  const POLYNOMIAL: bv32 := 0xEDB8_8320

  /** One bit of the reflected polynomial division. */
  function Shift(c: bv32): bv32 {
    if Odd(c) then Xor(Half(c), POLYNOMIAL) else Half(c)
  }

  function Shift4(c: bv32): bv32 { Shift(Shift(Shift(Shift(c)))) }

  /** One byte. */
  function Eight(c: bv32): bv32 { Shift4(Shift4(c)) }

  /** Division is linear. */
  lemma ShiftLinear(a: bv32, b: bv32)
    ensures Shift(Xor(a, b)) == Xor(Shift(a), Shift(b))
  {
    hide Xor, Half, Odd;
    XorHalf(a, b);
    OddXor(a, b);
    XorSwap(Half(a), Half(b), POLYNOMIAL);
    XorAssoc(Half(a), Half(b), POLYNOMIAL);
    XorTwice(Half(a), Half(b), POLYNOMIAL);
  }

  lemma OddXor(a: bv32, b: bv32)
    ensures Odd(Xor(a, b)) <==> Odd(a) != Odd(b)
  {
  }

  lemma XorTwice(a: bv32, b: bv32, p: bv32)
    ensures Xor(Xor(a, p), Xor(b, p)) == Xor(a, b)
  {
    hide Xor;
    XorAssoc(a, p, Xor(b, p));
    XorComm(b, p);
    XorAssoc(p, p, b);
    XorSelf(p);
    XorComm(0, b);
    XorNone(b);
  }

  lemma XorSelf(p: bv32)
    ensures Xor(p, p) == 0
  {
  }

  lemma Shift4Linear(a: bv32, b: bv32)
    ensures Shift4(Xor(a, b)) == Xor(Shift4(a), Shift4(b))
  {
    hide Shift, Xor;
    ShiftLinear(a, b);
    ShiftLinear(Shift(a), Shift(b));
    ShiftLinear(Shift(Shift(a)), Shift(Shift(b)));
    ShiftLinear(Shift(Shift(Shift(a))), Shift(Shift(Shift(b))));
  }

  lemma EightLinear(a: bv32, b: bv32)
    ensures Eight(Xor(a, b)) == Xor(Eight(a), Eight(b))
  {
    hide Shift4, Xor;
    Shift4Linear(a, b);
    Shift4Linear(Shift4(a), Shift4(b));
  }

  /** What each bit of a byte divides to. */
  lemma BitValues()
    ensures Eight(0) == 0
    ensures Eight(0x01) == 0x77073096
    ensures Eight(0x02) == 0xEE0E612C
    ensures Eight(0x04) == 0x076DC419
    ensures Eight(0x08) == 0x0EDB8832
    ensures Eight(0x10) == 0x1DB71064
    ensures Eight(0x20) == 0x3B6E20C8
    ensures Eight(0x40) == 0x76DC4190
    ensures Eight(0x80) == 0xEDB88320
  {
  }

  function Bit(i: bv8, mask: bv8, value: bv32): bv32 { if i & mask == 0 then 0 else value }

  function Sum(i: bv8): bv32 {
    Xor(Xor(Xor(Bit(i, 0x01, 0x77073096), Bit(i, 0x02, 0xEE0E612C)),
      Xor(Bit(i, 0x04, 0x076DC419), Bit(i, 0x08, 0x0EDB8832))),
        Xor(Xor(Bit(i, 0x10, 0x1DB71064), Bit(i, 0x20, 0x3B6E20C8)),
          Xor(Bit(i, 0x40, 0x76DC4190), Bit(i, 0x80, 0xEDB88320))))
  }

  function Masked(i: bv8, mask: bv8): bv32 { (i & mask) as bv32 }

  lemma ByteBits(i: bv8)
    ensures i as bv32 == Xor(Xor(Xor(Masked(i, 0x01), Masked(i, 0x02)), Xor(Masked(i, 0x04), Masked(i, 0x08))),
                             Xor(Xor(Masked(i, 0x10), Masked(i, 0x20)), Xor(Masked(i, 0x40), Masked(i, 0x80))))
  {
  }

  lemma EightFour(a: bv32, b: bv32, c: bv32, d: bv32)
    ensures Eight(Xor(Xor(a, b), Xor(c, d))) == Xor(Xor(Eight(a), Eight(b)), Xor(Eight(c), Eight(d)))
  {
    hide Eight, Xor;
    EightLinear(Xor(a, b), Xor(c, d));
    EightLinear(a, b);
    EightLinear(c, d);
  }

  lemma OneBit(i: bv8, mask: bv8, value: bv32)
    requires (mask == 0x01 || mask == 0x02 || mask == 0x04 || mask == 0x08 || mask == 0x10 || mask == 0x20
             || mask == 0x40 || mask == 0x80)
    requires Eight(mask as bv32) == value && Eight(0) == 0
    ensures Eight(Masked(i, mask)) == Bit(i, mask, value)
  {
    hide Eight;
    assert i & mask == 0 || i & mask == mask;
  }

  /** A byte divides to the sum of what its bits divide to. */
  lemma SumOk(i: bv8)
    ensures Eight(i as bv32) == Sum(i)
  {
    hide Eight, Xor, Masked, Bit;
    BitValues();
    ByteBits(i);
    var lo := Xor(Xor(Masked(i, 0x01), Masked(i, 0x02)), Xor(Masked(i, 0x04), Masked(i, 0x08)));
    var hi := Xor(Xor(Masked(i, 0x10), Masked(i, 0x20)), Xor(Masked(i, 0x40), Masked(i, 0x80)));
    EightLinear(lo, hi);
    EightFour(Masked(i, 0x01), Masked(i, 0x02), Masked(i, 0x04), Masked(i, 0x08));
    EightFour(Masked(i, 0x10), Masked(i, 0x20), Masked(i, 0x40), Masked(i, 0x80));
    OneBit(i, 0x01, 0x77073096);
    OneBit(i, 0x02, 0xEE0E612C);
    OneBit(i, 0x04, 0x076DC419);
    OneBit(i, 0x08, 0x0EDB8832);
    OneBit(i, 0x10, 0x1DB71064);
    OneBit(i, 0x20, 0x3B6E20C8);
    OneBit(i, 0x40, 0x76DC4190);
    OneBit(i, 0x80, 0xEDB88320);
  }

  lemma Row0Ok(i: bv8)
    requires i < 16
    ensures Row0(i) == Sum(i | 0x00)
  {
  }

  lemma Row1Ok(i: bv8)
    requires i < 16
    ensures Row1(i) == Sum(i | 0x10)
  {
  }

  lemma Row2Ok(i: bv8)
    requires i < 16
    ensures Row2(i) == Sum(i | 0x20)
  {
  }

  lemma Row3Ok(i: bv8)
    requires i < 16
    ensures Row3(i) == Sum(i | 0x30)
  {
  }

  lemma Row4Ok(i: bv8)
    requires i < 16
    ensures Row4(i) == Sum(i | 0x40)
  {
  }

  lemma Row5Ok(i: bv8)
    requires i < 16
    ensures Row5(i) == Sum(i | 0x50)
  {
  }

  lemma Row6Ok(i: bv8)
    requires i < 16
    ensures Row6(i) == Sum(i | 0x60)
  {
  }

  lemma Row7Ok(i: bv8)
    requires i < 16
    ensures Row7(i) == Sum(i | 0x70)
  {
  }

  lemma Row8Ok(i: bv8)
    requires i < 16
    ensures Row8(i) == Sum(i | 0x80)
  {
  }

  lemma Row9Ok(i: bv8)
    requires i < 16
    ensures Row9(i) == Sum(i | 0x90)
  {
  }

  lemma RowAOk(i: bv8)
    requires i < 16
    ensures RowA(i) == Sum(i | 0xA0)
  {
  }

  lemma RowBOk(i: bv8)
    requires i < 16
    ensures RowB(i) == Sum(i | 0xB0)
  {
  }

  lemma RowCOk(i: bv8)
    requires i < 16
    ensures RowC(i) == Sum(i | 0xC0)
  {
  }

  lemma RowDOk(i: bv8)
    requires i < 16
    ensures RowD(i) == Sum(i | 0xD0)
  {
  }

  lemma RowEOk(i: bv8)
    requires i < 16
    ensures RowE(i) == Sum(i | 0xE0)
  {
  }

  lemma RowFOk(i: bv8)
    requires i < 16
    ensures RowF(i) == Sum(i | 0xF0)
  {
  }

  /** The table holds the result of dividing each byte. */
  lemma TableOk(i: bv8)
    ensures Table(i) == Eight(i as bv32)
  {
    hide Eight, Sum, Row0, Row1, Row2, Row3, Row4, Row5, Row6, Row7, Row8, Row9, RowA, RowB, RowC, RowD, RowE, RowF;
    var hi, lo := i >> 4, i & 0xF;
    Nibbles(i);
    SumOk(i);
    if hi == 0 { Row0Ok(lo); } else if hi == 1 { Row1Ok(lo); } else if hi == 2 { Row2Ok(lo);
      } else if hi == 3 { Row3Ok(lo); }
    else if hi == 4 { Row4Ok(lo); } else if hi == 5 { Row5Ok(lo); } else if hi == 6 { Row6Ok(lo);
      } else if hi == 7 { Row7Ok(lo); }
    else if hi == 8 { Row8Ok(lo); } else if hi == 9 { Row9Ok(lo); } else if hi == 10 { RowAOk(lo);
      } else if hi == 11 { RowBOk(lo); }
    else if hi == 12 { RowCOk(lo); } else if hi == 13 { RowDOk(lo); } else if hi == 14 { RowEOk(lo);
      } else { RowFOk(lo); }
  }

  lemma Nibbles(i: bv8)
    ensures i & 0xF < 16 && i >> 4 < 16
    ensures i >> 4 == 0 ==> (i & 0xF) | 0x00 == i
    ensures i >> 4 == 1 ==> (i & 0xF) | 0x10 == i
    ensures i >> 4 == 2 ==> (i & 0xF) | 0x20 == i
    ensures i >> 4 == 3 ==> (i & 0xF) | 0x30 == i
    ensures i >> 4 == 4 ==> (i & 0xF) | 0x40 == i
    ensures i >> 4 == 5 ==> (i & 0xF) | 0x50 == i
    ensures i >> 4 == 6 ==> (i & 0xF) | 0x60 == i
    ensures i >> 4 == 7 ==> (i & 0xF) | 0x70 == i
    ensures i >> 4 == 8 ==> (i & 0xF) | 0x80 == i
    ensures i >> 4 == 9 ==> (i & 0xF) | 0x90 == i
    ensures i >> 4 == 10 ==> (i & 0xF) | 0xA0 == i
    ensures i >> 4 == 11 ==> (i & 0xF) | 0xB0 == i
    ensures i >> 4 == 12 ==> (i & 0xF) | 0xC0 == i
    ensures i >> 4 == 13 ==> (i & 0xF) | 0xD0 == i
    ensures i >> 4 == 14 ==> (i & 0xF) | 0xE0 == i
    ensures i >> 4 == 15 ==> (i & 0xF) | 0xF0 == i
  {
  }

  lemma XorHalf(v: bv32, w: bv32)
    ensures Half(Xor(v, w)) == Xor(Half(v), Half(w))
  {
  }

  lemma XorOdd(v: bv32, w: bv32)
    requires !Odd(w)
    ensures Odd(Xor(v, w)) == Odd(v)
  {
  }

  lemma XorSwap(v: bv32, w: bv32, p: bv32)
    ensures Xor(Xor(v, w), p) == Xor(Xor(v, p), w)
  {
    hide Xor;
    XorAssoc(v, w, p);
    XorAssoc(v, p, w);
    XorComm(w, p);
  }

  lemma XorAssoc(a: bv32, b: bv32, c: bv32)
    ensures Xor(Xor(a, b), c) == Xor(a, Xor(b, c))
  {
  }

  lemma XorComm(a: bv32, b: bv32)
    ensures Xor(a, b) == Xor(b, a)
  {
  }

  /** A part w without the low bit only moves down. */
  lemma Aside(v: bv32, w: bv32)
    requires !Odd(w)
    ensures Shift(Xor(v, w)) == Xor(Shift(v), Half(w))
  {
    hide Xor, Half, Odd;
    XorHalf(v, w);
    XorOdd(v, w);
    XorSwap(Half(v), Half(w), POLYNOMIAL);
  }

  function Half4(a: bv32): bv32 { Half(Half(Half(Half(a)))) }

  /** The low four bits are clear. */
  predicate Clear4(w: bv32) { !Odd(w) && !Odd(Half(w)) && !Odd(Half(Half(w))) && !Odd(Half(Half(Half(w)))) }

  lemma Aside4(v: bv32, w: bv32)
    requires Clear4(w)
    ensures Shift4(Xor(v, w)) == Xor(Shift4(v), Half4(w))
  {
    hide Shift, Xor, Half, Odd;
    Aside(v, w);
    Aside(Shift(v), Half(w));
    Aside(Shift(Shift(v)), Half(Half(w)));
    Aside(Shift(Shift(Shift(v))), Half(Half(Half(w))));
  }

  function LowPart(x: bv32): bv32 { x & 0xFF }
  function HighPart(x: bv32): bv32 { x & 0xFFFF_FF00 }

  /** Only the low byte takes part in a byte's divisions; the rest moves down. */
  lemma LowByte(x: bv32)
    ensures Eight(x) == Xor(Eight(LowPart(x)), Half4(Half4(HighPart(x))))
  {
    hide Shift4, Xor, Half4, Clear4, LowPart, HighPart;
    Parts(x);
    Aside4(LowPart(x), HighPart(x));
    Aside4(Shift4(LowPart(x)), Half4(HighPart(x)));
  }

  lemma Parts(x: bv32)
    ensures x == Xor(LowPart(x), HighPart(x)) && Clear4(HighPart(x)) && Clear4(Half4(HighPart(x)))
  {
  }

  /** The index into the table. */
  function Index(c: bv32, b: bv8): bv8 { ((c ^ b as bv32) & 0xFF) as bv8 }
  function Mixed(c: bv32, b: bv8): bv32 { c ^ b as bv32 }
  function Down(c: bv32): bv32 { c >> 8 }

  lemma IndexParts(c: bv32, b: bv8)
    ensures Index(c, b) as bv32 == LowPart(Mixed(c, b)) && Half4(Half4(HighPart(Mixed(c, b)))) == Down(c)
  {
  }

  /** The table step of crc32_sw is one byte of division. */
  lemma TableStep(c: bv32, b: bv8)
    ensures Xor(Table(Index(c, b)), Down(c)) == Eight(Mixed(c, b))
  {
    hide Eight, Table, Xor, Index, LowPart, HighPart, Half4, Mixed, Down;
    TableOk(Index(c, b));
    LowByte(Mixed(c, b));
    IndexParts(c, b);
  }

  // ------------------------------------------------------------ whole messages

  /** The division of a message, bit by bit, from register value c. */
  function Divide(c: bv32, msg: seq<bv8>): bv32
    decreases msg
  {
    if msg == [] then c else Divide(Eight(Mixed(c, msg[0])), msg[1..])
  }

  /** The CRC-32 of a message, continued from the CRC of what came before. */
  function Crc(prev: bv32, msg: seq<bv8>): bv32 { Not(Divide(Not(prev), msg)) }

  function Not(x: bv32): bv32 { !x }

  /** crc32_sw: 0 for the null buffer. */
  method Crc32Sw(prev: bv32, buf: array?<bv8>, size: nat) returns (r: bv32)
    requires buf != null ==> size <= buf.Length
    ensures if buf == null then r == 0 else r == Crc(prev, buf[..size])
    ensures buf != null ==>
              Remainder(Dividend(prev ^ 0xFFFF_FFFF, MessageBits(buf[..size])), Generator(),
                        Bits(r ^ 0xFFFF_FFFF, 32))
  {
    hide Eight, Table, Xor, Index, Down, Mixed, Not, Remainder, Dividend, MessageBits, Bits;
    var crc := Not(prev);
    if buf == null {
      return 0;
    }
    ghost var msg := buf[..size];
    var i := 0;
    while i < size
      invariant i <= size && Divide(crc, msg[i..]) == Divide(Not(prev), msg)
    {
      TableStep(crc, buf[i]);
      crc := Xor(Table(Index(crc, buf[i])), Down(crc));
      i := i + 1;
    }
    r := Not(crc);
    CrcRemainder(prev, msg);
  }

  lemma {:induction false} DivideConcat(c: bv32, a: seq<bv8>, b: seq<bv8>)
    ensures Divide(c, a + b) == Divide(Divide(c, a), b)
    decreases a
  {
    hide Eight, Mixed;
    if a == [] {
      assert a + b == b;
    } else {
      assert (a + b)[1..] == a[1..] + b;
      DivideConcat(Eight(Mixed(c, a[0])), a[1..], b);
    }
  }

  /** A CRC can be computed piece by piece. */
  lemma CrcConcat(prev: bv32, a: seq<bv8>, b: seq<bv8>)
    ensures Crc(prev, a + b) == Crc(Crc(prev, a), b)
  {
    hide Divide, Not;
    DivideConcat(Not(prev), a, b);
    NotNot(Divide(Not(prev), a));
  }

  lemma NotNot(x: bv32)
    ensures Not(Not(x)) == x
  {
  }

  lemma ShiftInjective(a: bv32, b: bv32)
    requires Shift(a) == Shift(b)
    ensures a == b
  {
  }

  lemma Shift4Injective(a: bv32, b: bv32)
    requires Shift4(a) == Shift4(b)
    ensures a == b
  {
    hide Shift;
    ShiftInjective(Shift(Shift(Shift(a))), Shift(Shift(Shift(b))));
    ShiftInjective(Shift(Shift(a)), Shift(Shift(b)));
    ShiftInjective(Shift(a), Shift(b));
    ShiftInjective(a, b);
  }

  lemma EightInjective(a: bv32, b: bv32)
    requires Eight(a) == Eight(b)
    ensures a == b
  {
    hide Shift4;
    Shift4Injective(Shift4(a), Shift4(b));
    Shift4Injective(a, b);
  }

  /** Different register values stay different over the same bytes. */
  lemma {:induction false} DivideInjective(c: bv32, d: bv32, msg: seq<bv8>)
    requires Divide(c, msg) == Divide(d, msg)
    ensures c == d
    decreases msg
  {
    hide Eight, Mixed;
    if msg != [] {
      DivideInjective(Eight(Mixed(c, msg[0])), Eight(Mixed(d, msg[0])), msg[1..]);
      EightInjective(Mixed(c, msg[0]), Mixed(d, msg[0]));
      MixedSame(c, d, msg[0]);
    }
  }

  lemma MixedSame(c: bv32, d: bv32, b: bv8)
    requires Mixed(c, b) == Mixed(d, b)
    ensures c == d
  {
  }

  // ------------------------------------------------------------------ bursts

  function Up(x: bv32): bv32 { x << 8 }
  function Wide(b: bv8): bv32 { b as bv32 }

  /** Up to four bytes in one register, the first one lowest. */
  function Gather(x: seq<bv8>): bv32 { if x == [] then 0 else Xor(Wide(x[0]), Up(Gather(x[1..]))) }

  function Eights(n: nat, c: bv32): bv32 { if n == 0 then c else Eights(n - 1, Eight(c)) }

  predicate Fits(x: bv32,
                 n: nat) { n >= 4 || (n == 3 && x < 0x100_0000) || (n == 2 && x < 0x1_0000) || (n == 1 && x < 0x100)
                   || x == 0 }

  lemma FitsUp(b: bv8, x: bv32, n: nat)
    requires Fits(x, n)
    ensures Fits(Xor(Wide(b), Up(x)), n + 1)
  {
  }

  lemma {:induction false} GatherFits(x: seq<bv8>)
    ensures Fits(Gather(x), |x|)
  {
    hide Fits, Xor, Wide, Up;
    if x == [] {
      FitsZero();
    } else {
      GatherFits(x[1..]);
      FitsUp(x[0], Gather(x[1..]), |x| - 1);
    }
  }

  lemma FitsZero()
    ensures Fits(0, 0)
  {
  }

  /** Three bytes above the low one only move down. */
  lemma EightUp(a: bv32, v: bv32)
    requires v < 0x100_0000
    ensures Eight(Xor(a, Up(v))) == Xor(Eight(a), v)
  {
    hide Eight, Xor, Up, LowPart, HighPart, Half4;
    EightLinear(a, Up(v));
    LowByte(Up(v));
    UpParts(v);
    BitValues();
    XorComm(0, v);
    XorNone(v);
  }

  lemma UpParts(v: bv32)
    requires v < 0x100_0000
    ensures LowPart(Up(v)) == 0 && Half4(Half4(HighPart(Up(v)))) == v
  {
  }

  lemma XorNone(v: bv32)
    ensures Xor(v, 0) == v
  {
  }

  /** Dividing up to four bytes is dividing the register they are added to. */
  lemma {:induction false} DivideGather(c: bv32, x: seq<bv8>)
    requires |x| <= 4
    ensures Divide(c, x) == Eights(|x|, Xor(c, Gather(x)))
    decreases x
  {
    hide Eight, Xor, Up, Wide, Mixed, Fits;
    if x == [] {
      XorNone(c);
    } else {
      var a, g := Mixed(c, x[0]), Gather(x[1..]);
      DivideGather(Eight(a), x[1..]);
      GatherFits(x[1..]);
      ThreeBytes(g, |x| - 1);
      EightUp(a, g);
      MixedXor(c, x[0]);
      XorAssoc(c, Wide(x[0]), Up(g));
    }
  }

  lemma ThreeBytes(g: bv32, n: nat)
    requires Fits(g, n) && n <= 3
    ensures g < 0x100_0000
  {
  }

  lemma MixedXor(c: bv32, b: bv8)
    ensures Mixed(c, b) == Xor(c, Wide(b))
  {
  }

  lemma {:induction false} EightsInjective(n: nat, a: bv32, b: bv32)
    requires Eights(n, a) == Eights(n, b)
    ensures a == b
  {
    hide Eight;
    if n > 0 {
      EightsInjective(n - 1, Eight(a), Eight(b));
      EightInjective(a, b);
    }
  }

  lemma {:induction false} GatherInjective(x: seq<bv8>, y: seq<bv8>)
    requires |x| == |y| <= 4 && Gather(x) == Gather(y)
    ensures x == y
    decreases |x|
  {
    hide Xor, Up, Wide, Fits;
    if x != [] {
      var g, h := Gather(x[1..]), Gather(y[1..]);
      GatherFits(x[1..]);
      GatherFits(y[1..]);
      ThreeBytes(g, |x| - 1);
      ThreeBytes(h, |x| - 1);
      Apart(x[0], g, y[0], h);
      GatherInjective(x[1..], y[1..]);
      assert x == [x[0]] + x[1..] && y == [y[0]] + y[1..];
    }
  }

  lemma Apart(a: bv8, g: bv32, b: bv8, h: bv32)
    requires g < 0x100_0000 && h < 0x100_0000 && Xor(Wide(a), Up(g)) == Xor(Wide(b), Up(h))
    ensures a == b && g == h
  {
  }

  lemma XorSame(c: bv32, g: bv32, h: bv32)
    requires Xor(c, g) == Xor(c, h)
    ensures g == h
  {
  }

  /** Messages whose difference lies within four bytes in a row have different
      CRCs. */
  lemma BurstDiffers(prev: bv32, before: seq<bv8>, x: seq<bv8>, y: seq<bv8>, after: seq<bv8>)
    requires |x| == |y| <= 4 && x != y
    ensures Crc(prev, before + x + after) != Crc(prev, before + y + after)
  {
    hide Divide, Eights, Not, Xor, Gather;
    var c := Divide(Not(prev), before);
    DivideConcat(Not(prev), before + x, after);
    DivideConcat(Not(prev), before + y, after);
    DivideConcat(Not(prev), before, x);
    DivideConcat(Not(prev), before, y);
    var cx, cy := Divide(c, x), Divide(c, y);
    if Not(Divide(cx, after)) == Not(Divide(cy, after)) {
      NotNot(Divide(cx, after));
      NotNot(Divide(cy, after));
      DivideInjective(cx, cy, after);
      DivideGather(c, x);
      DivideGather(c, y);
      EightsInjective(|x|, Xor(c, Gather(x)), Xor(c, Gather(y)));
      XorSame(c, Gather(x), Gather(y));
      GatherInjective(x, y);
    }
  }

  /** In particular when they differ in exactly one byte. */
  lemma OneByteDiffers(prev: bv32, before: seq<bv8>, a: bv8, b: bv8, after: seq<bv8>)
    requires a != b
    ensures Crc(prev, before + [a] + after) != Crc(prev, before + [b] + after)
  {
    hide Crc;
    assert [a][0] != [b][0];
    BurstDiffers(prev, before, [a], [b], after);
  }

  // ------------------------------------------------------------ polynomials

  /** The generator: x^32 + x^26 + x^23 + x^22 + x^16 + x^12 + x^11 + x^10 + x^8 +
      x^7 + x^5 + x^4 + x^2 + x + 1. */
  function Generator(): Poly {
    seq(33, i => 32 - i in {32, 26, 23, 22, 16, 12, 11, 10, 8, 7, 5, 4, 2, 1, 0})
  }

  /** The n low bits of x, the lowest first. */
  function Bits(x: bv32, n: nat): (r: Poly)
    ensures |r| == n
    decreases n
  {
    if n == 0 then [] else [Odd(x)] + Bits(Half(x), n - 1)
  }

  /** The bits of a message in the order of transmission. */
  function MessageBits(msg: seq<bv8>): (r: Poly)
    ensures |r| == 8 * |msg|
    decreases msg
  {
    if msg == [] then [] else Bits(Wide(msg[0]), 8) + MessageBits(msg[1..])
  }

  /** The message and 32 zeros, with a word added to the first 32 bits. */
  function Dividend(word: bv32, bits: Poly): Poly {
    Plus(bits + Zeros(32), Bits(word, 32) + Zeros(|bits|))
  }

  lemma {:induction false} XorBits(a: bv32, b: bv32, n: nat)
    ensures Bits(Xor(a, b), n) == Plus(Bits(a, n), Bits(b, n))
    decreases n
  {
    hide Xor, Odd, Half;
    if n > 0 {
      XorLow(a, b);
      XorBits(Half(a), Half(b), n - 1);
    }
  }

  lemma XorLow(a: bv32, b: bv32)
    ensures Half(Xor(a, b)) == Xor(Half(a), Half(b)) && Odd(Xor(a, b)) == (Odd(a) != Odd(b))
  {
  }

  /** x moved down by n bits. */
  function Dropped(x: bv32, n: nat): bv32
    decreases n
  {
    if n == 0 then x else Dropped(Half(x), n - 1)
  }

  lemma {:induction false} BitsSplit(x: bv32, a: nat, b: nat)
    ensures Bits(x, a + b) == Bits(x, a) + Bits(Dropped(x, a), b)
    decreases a
  {
    hide Odd, Half;
    if a > 0 { BitsSplit(Half(x), a - 1, b); }
  }

  lemma DroppedFour(x: bv32, n: nat)
    ensures Dropped(x, n + 4) == Dropped(Half4(x), n)
  {
    hide Half;
    assert Dropped(x, n + 4) == Dropped(Half(x), n + 3) == Dropped(Half(Half(x)), n + 2);
    assert Dropped(Half(Half(x)), n + 2) == Dropped(Half(Half(Half(x))), n + 1);
  }

  lemma {:induction false} DroppedFours(x: bv32, n: nat)
    ensures Dropped(x, 4 * n) == Fours(x, n)
    decreases n
  {
    hide Dropped, Half4;
    if n > 0 {
      DroppedFour(x, 4 * (n - 1));
      DroppedFours(Half4(x), n - 1);
    } else {
      assert Dropped(x, 0) == x by { NoneDropped(x); }
    }
  }

  lemma NoneDropped(x: bv32)
    ensures Dropped(x, 0) == x
  {
  }

  function Fours(x: bv32, n: nat): bv32
    decreases n
  {
    if n == 0 then x else Fours(Half4(x), n - 1)
  }

  lemma DroppedAll(x: bv32)
    ensures Dropped(x, 32) == 0
  {
    hide Dropped, Half4;
    DroppedFours(x, 8);
    var y := Half4(Half4(Half4(Half4(x))));
    assert Fours(x, 8) == Fours(Half4(Half4(x)), 6) == Fours(y, 4);
    assert Fours(y, 4) == Fours(Half4(Half4(y)), 2) == Half4(Half4(Half4(Half4(y))));
    AllGone(x);
  }

  lemma AllGone(x: bv32)
    ensures Half4(Half4(Half4(Half4(Half4(Half4(Half4(Half4(x)))))))) == 0
  {
  }

  lemma HalfBits(c: bv32)
    ensures Bits(Half(c), 32) == Bits(c, 32)[1..] + [false]
  {
    hide Half, Dropped;
    BitsSplit(c, 32, 1);
    DroppedAll(c);
    ZeroOdd();
    assert Bits(c, 33) == [Odd(c)] + Bits(Half(c), 32);
    assert Bits(Dropped(c, 32), 1) == [false];
    assert Bits(c, 32) == [Odd(c)] + Bits(Half(c), 31);
    assert Bits(c, 33)[1..] == Bits(c, 32)[1..] + [false];
  }

  lemma ZeroOdd()
    ensures !Odd(0)
  {
  }

  function Low4(x: bv32): Poly { [Odd(x), Odd(Half(x)), Odd(Half(Half(x))), Odd(Half(Half(Half(x))))] }

  lemma FourBits(x: bv32, n: nat)
    ensures Bits(x, n + 4) == Low4(x) + Bits(Half4(x), n)
  {
    hide Bits, Low4, Dropped, Half4;
    BitsSplit(x, 4, n);
    DroppedFour(x, 0);
    NoneDropped(Half4(x));
    LowFour(x);
  }

  lemma LowFour(x: bv32)
    ensures Bits(x, 4) == Low4(x)
  {
    hide Half, Odd;
    var c := Half(Half(Half(x)));
    assert Bits(c, 1) == [Odd(c)];
    assert Bits(Half(Half(x)), 2) == [Odd(Half(Half(x))), Odd(c)];
    assert Bits(Half(x), 3) == [Odd(Half(x)), Odd(Half(Half(x))), Odd(c)];
  }

  lemma Digits()
    ensures Low4(0xEDB88320) == [false, false, false, false] && Half4(0xEDB88320) == 0xEDB8832
    ensures Low4(0xEDB8832) == [false, true, false, false] && Half4(0xEDB8832) == 0xEDB883
    ensures Low4(0xEDB883) == [true, true, false, false] && Half4(0xEDB883) == 0xEDB88
    ensures Low4(0xEDB88) == [false, false, false, true] && Half4(0xEDB88) == 0xEDB8
    ensures Low4(0xEDB8) == [false, false, false, true] && Half4(0xEDB8) == 0xEDB
    ensures Low4(0xEDB) == [true, true, false, true] && Half4(0xEDB) == 0xED
    ensures Low4(0xED) == [true, false, true, true] && Half4(0xED) == 0xE
    ensures Low4(0xE) == [false, true, true, true] && Half4(0xE) == 0x0
  {
  }

  lemma GeneratorBits()
    ensures Generator()[1..] == Bits(POLYNOMIAL, 32)
  {
    hide Bits, Low4, Half4;
    Digits();
    FourBits(0xEDB88320, 28);
    FourBits(0xEDB8832, 24);
    FourBits(0xEDB883, 20);
    FourBits(0xEDB88, 16);
    FourBits(0xEDB8, 12);
    FourBits(0xEDB, 8);
    FourBits(0xED, 4);
    FourBits(0xE, 0);
  }

  // ------------------------------------------------------ division by bits

  /** The register after one more message bit. */
  function Fed(c: bv32, bit: bool): bv32 { Shift(Xor(c, if bit then 1 else 0)) }

  function FedAll(c: bv32, bits: Poly): bv32
    decreases bits
  {
    if bits == [] then c else FedAll(Fed(c, bits[0]), bits[1..])
  }

  /** In a step of the register the polynomial loses its first coefficient, and
      the generator is added if that is set. */
  lemma ShiftBits(c: bv32)
    ensures var p := Bits(c, 32);
            Bits(Shift(c), 32) == Plus(p[1..] + [false], if p[0] then Generator()[1..] else Zeros(32))
  {
    hide Xor, Odd, Half, Generator;
    HalfBits(c);
    GeneratorBits();
    XorBits(Half(c), POLYNOMIAL, 32);
  }

  lemma FedBits(c: bv32, bit: bool)
    ensures var p := Bits(c, 32); var t := p[0] != bit;
            Bits(Fed(c, bit), 32) == Plus(p[1..] + [false], if t then Generator()[1..] else Zeros(32))
  {
    hide Xor, Generator, Shift, Bits, Plus, Zeros;
    var w: bv32 := if bit then 1 else 0;
    ShiftBits(Xor(c, w));
    XorBits(c, w, 32);
    UnitBits(bit);
    FirstFlipped(Bits(c, 32), bit);
  }

  lemma FirstFlipped(p: Poly, bit: bool)
    requires |p| == 32
    ensures var p' := Plus(p, [bit] + Zeros(31)); p'[0] == (p[0] != bit) && p'[1..] == p[1..]
  {
  }

  lemma UnitBits(bit: bool)
    ensures Bits(if bit then 1 else 0, 32) == [bit] + Zeros(31)
  {
    UnitOdd();
    hide Odd, Half;
    ZeroBits(31);
  }

  lemma UnitOdd()
    ensures Odd(1) && !Odd(0) && Half(1) == 0 && Half(0) == 0
  {
  }

  lemma {:induction false} ZeroBits(n: nat)
    ensures Bits(0, n) == Zeros(n)
    decreases n
  {
    UnitOdd();
    if n > 0 { ZeroBits(n - 1); }
  }

  /** Feeding bits is long division by the generator. */
  lemma {:induction false} FedRemainder(c: bv32, bits: Poly) returns (q: Poly)
    ensures Quotient(Dividend(c, bits), Generator(), Bits(FedAll(c, bits), 32), q)
    decreases bits
  {
    hide Bits, Fed;
    if bits == [] {
      q := [];
      assert Dividend(c, bits) == Bits(c, 32);
    } else {
      var bit, more := bits[0], bits[1..];
      var q' := FedRemainder(Fed(c, bit), more);
      var t := Bits(c, 32)[0] != bit;
      FedBits(c, bit);
      NextDividend(c, bits);
      NextQuotient(Dividend(c, bits), Dividend(Fed(c, bit), more), Generator(), Bits(FedAll(c, bits), 32), q', t);
      q := [t] + q';
    }
  }

  lemma NextDividend(c: bv32, bits: Poly)
    requires bits != []
    ensures var t := Bits(c, 32)[0] != bits[0]; var g := Generator();
            Dividend(c, bits) == Plus((if t then g else Zeros(33)) + Zeros(|bits| - 1),
                                      [false] + Dividend(Fed(c, bits[0]), bits[1..]))
  {
    hide Bits, Fed;
    FedBits(c, bits[0]);
    var t, g := Bits(c, 32)[0] != bits[0], Generator();
    var d, d' := Dividend(c, bits), Dividend(Fed(c, bits[0]), bits[1..]);
    var s := Plus((if t then g else Zeros(33)) + Zeros(|bits| - 1), [false] + d');
    forall i | 0 <= i < |d| ensures d[i] == s[i] {
      if i > 0 {
        assert (bits + Zeros(32))[i] == (bits[1..] + Zeros(32))[i - 1];
      }
    }
  }

  /** A word added to the register is fed in bit by bit. */
  lemma FeedOne(c: bv32, w: bv32)
    ensures Shift(Xor(c, w)) == Xor(Fed(c, Odd(w)), Half(w))
  {
    var low: bv32 := if Odd(w) then 1 else 0;
    LowBit(w);
    hide Xor, Odd, Half, Shift;
    XorAssoc(c, low, w & 0xFFFF_FFFE);
    Aside(Xor(c, low), w & 0xFFFF_FFFE);
  }

  lemma LowBit(w: bv32)
    ensures var high := w & 0xFFFF_FFFE;
            Xor(if Odd(w) then 1 else 0, high) == w && !Odd(high) && Half(high) == Half(w)
  {
  }

  function Shifted(c: bv32, n: nat): bv32
    decreases n
  {
    if n == 0 then c else Shifted(Shift(c), n - 1)
  }

  lemma {:induction false} Feeding(c: bv32, w: bv32, n: nat)
    ensures Shifted(Xor(c, w), n) == Xor(FedAll(c, Bits(w, n)), Dropped(w, n))
    decreases n
  {
    hide Xor, Odd, Half, Shift, Fed;
    if n > 0 {
      FeedOne(c, w);
      Feeding(Fed(c, Odd(w)), Half(w), n - 1);
      assert Bits(w, n)[1..] == Bits(Half(w), n - 1);
    }
  }

  lemma ByteFed(c: bv32, b: bv8)
    ensures Eight(Mixed(c, b)) == FedAll(c, Bits(Wide(b), 8))
  {
    Feeding(c, Wide(b), 8);
    DroppedFours(Wide(b), 2);
    ByteGone(b);
    hide Xor, Half4, Shift, FedAll, Bits, Dropped;
    ShiftedEight(Xor(c, Wide(b)));
    XorNone(FedAll(c, Bits(Wide(b), 8)));
  }

  lemma ByteGone(b: bv8)
    ensures Half4(Half4(Wide(b))) == 0
  {
  }

  lemma ShiftedEight(x: bv32)
    ensures Shifted(x, 8) == Eight(x)
  {
    hide Shift;
    var y := Shift4(x);
    assert Shifted(x, 8) == Shifted(Shift(x), 7) == Shifted(Shift(Shift(x)), 6);
    assert Shifted(Shift(Shift(x)), 6) == Shifted(Shift(Shift(Shift(x))), 5) == Shifted(y, 4);
    assert Shifted(y, 4) == Shifted(Shift(y), 3) == Shifted(Shift(Shift(y)), 2);
    assert Shifted(Shift(Shift(y)), 2) == Shifted(Shift(Shift(Shift(y))), 1) == Shifted(Shift4(y), 0);
  }

  lemma {:induction false} FedConcat(c: bv32, a: Poly, b: Poly)
    ensures FedAll(c, a + b) == FedAll(FedAll(c, a), b)
    decreases a
  {
    hide Fed;
    if a == [] {
      assert a + b == b;
    } else {
      assert (a + b)[1..] == a[1..] + b;
      FedConcat(Fed(c, a[0]), a[1..], b);
    }
  }

  lemma {:induction false} DivideFed(c: bv32, msg: seq<bv8>)
    ensures Divide(c, msg) == FedAll(c, MessageBits(msg))
    decreases msg
  {
    hide Eight, Mixed, FedAll, Bits, Wide;
    if msg == [] {
      assert FedAll(c, []) == c by { NoneFed(c); }
    } else {
      ByteFed(c, msg[0]);
      FedConcat(c, Bits(Wide(msg[0]), 8), MessageBits(msg[1..]));
      DivideFed(Eight(Mixed(c, msg[0])), msg[1..]);
    }
  }

  lemma NoneFed(c: bv32)
    ensures FedAll(c, []) == c
  {
  }

  /** The CRC-32 in terms of polynomials: the complement of the remainder, by the
      generator, of the message followed by 32 zeros, with the complement of the
      previous CRC added to its first 32 bits. */
  lemma CrcRemainder(prev: bv32, msg: seq<bv8>)
    ensures Remainder(Dividend(prev ^ 0xFFFF_FFFF, MessageBits(msg)), Generator(),
                      Bits(Crc(prev, msg) ^ 0xFFFF_FFFF, 32))
  {
    Complement(prev);
    Complement(Divide(prev ^ 0xFFFF_FFFF, msg));
    hide Not, Divide, Bits, Quotient, Dividend, FedAll, MessageBits;
    DivideFed(prev ^ 0xFFFF_FFFF, msg);
    var q := FedRemainder(prev ^ 0xFFFF_FFFF, MessageBits(msg));
  }

  lemma Complement(x: bv32)
    ensures Not(x) == x ^ 0xFFFF_FFFF && Not(x) ^ 0xFFFF_FFFF == x
  {
  }

  /** Only the CRC-32 is. */
  lemma OnlyCrc(prev: bv32, msg: seq<bv8>, r: bv32)
    requires Remainder(Dividend(prev ^ 0xFFFF_FFFF, MessageBits(msg)), Generator(), Bits(r ^ 0xFFFF_FFFF, 32))
    ensures r == Crc(prev, msg)
  {
    hide Remainder, Dividend, MessageBits, Bits, Crc;
    CrcRemainder(prev, msg);
    OneResult(Dividend(prev ^ 0xFFFF_FFFF, MessageBits(msg)), r, Crc(prev, msg));
  }

  lemma OneResult(d: Poly, x: bv32, y: bv32)
    requires Remainder(d, Generator(), Bits(x ^ 0xFFFF_FFFF, 32))
    requires Remainder(d, Generator(), Bits(y ^ 0xFFFF_FFFF, 32))
    ensures x == y
  {
    hide Remainder, Bits;
    OneWord(d, x ^ 0xFFFF_FFFF, y ^ 0xFFFF_FFFF);
    Uncomplement(x, y);
  }

  lemma OneWord(d: Poly, a: bv32, b: bv32)
    requires Remainder(d, Generator(), Bits(a, 32)) && Remainder(d, Generator(), Bits(b, 32))
    ensures a == b
  {
    hide Remainder, Bits;
    RemainderUnique(d, Generator(), Bits(a, 32), Bits(b, 32));
    BitsInjective(a, b);
  }

  lemma Uncomplement(x: bv32, y: bv32)
    requires x ^ 0xFFFF_FFFF == y ^ 0xFFFF_FFFF
    ensures x == y
  {
  }

  lemma BitsInjective(a: bv32, b: bv32)
    requires Bits(a, 32) == Bits(b, 32)
    ensures a == b
  {
    EqualXor(a, b);
    hide Xor, Bits;
    XorBits(a, b, 32);
    DroppedAll(Xor(a, b));
    assert Plus(Bits(a, 32), Bits(a, 32)) == Zeros(32);
    NoBitsNothing(Xor(a, b), 32);
  }

  lemma EqualXor(a: bv32, b: bv32)
    ensures Xor(a, b) == 0 ==> a == b
  {
  }

  lemma {:induction false} NoBitsNothing(x: bv32, n: nat)
    requires Bits(x, n) == Zeros(n) && Dropped(x, n) == 0
    ensures x == 0
    decreases n
  {
    if n > 0 {
      HalvesZero(x);
      hide Half, Odd;
      assert Bits(Half(x), n - 1) == Bits(x, n)[1..] == Zeros(n - 1);
      assert !Bits(x, n)[0];
      NoBitsNothing(Half(x), n - 1);
    }
  }

  lemma HalvesZero(x: bv32)
    ensures Half(x) == 0 && !Odd(x) ==> x == 0
  {
  }
}
