/** A volume of bytes over a store of blocks
    (components/media/volume/block_volume/block_volume.c). The store may move
    fewer bytes than asked for, or fail; its answers are a script. */
module BlockVolume {
  import opened Words

  const OK := 0
  const EPERM := 1
  const EIO := 5
  const ENXIO := 6
  const EINVAL := 22

  /** What a call of the block store does: fail, or move at least one and at
      most the requested number of bytes; surplus asks for the others. */
  datatype Answer = Fails | Moves(surplus: nat)

  /** A store that never fails. */
  ghost predicate Steady(answers: seq<Answer>) {
    forall i :: 0 <= i < |answers| ==> answers[i].Moves?
  }

  datatype SeekMode = SeekSet | SeekCur | SeekOther

  function Min(a: int, b: int): int { if a < b then a else b }

  /** A 64-bit pattern as a signed number. */
  function Signed(x: int): int {
    var u := x % TWO64;
    if u >= TWO63 then u - TWO64 else u
  }

  /** data with the bytes s at pos. */
  function Overwritten(data: seq<byte>, pos: nat, s: seq<byte>): (r: seq<byte>)
    requires pos + |s| <= |data|
    ensures Stored(data, r, pos, s)
  {
    data[..pos] + s + data[pos + |s|..]
  }

  /** after has s at pos, and before everywhere else. */
  ghost predicate Stored(before: seq<byte>, after: seq<byte>, pos: nat, s: seq<byte>) {
    && |after| == |before|
    && forall i :: 0 <= i < |after| ==>
         after[i] == if pos <= i < pos + |s| then s[i - pos] else before[i]
  }

  function Capacity(blockSize: nat, numBlocks: nat): nat { blockSize * numBlocks }

  /** The position of a byte in a block. */
  function Position(lba: nat, offset: nat, blockSize: nat): nat { lba * blockSize + offset }

  class Volume {
    /** The block store: its geometry, its contents and its answers. */
    const blockSize: nat
    const numBlocks: nat
    var data: seq<byte>
    var answers: seq<Answer>

    var filePos: nat
    var size: nat

    ghost predicate Valid()
      reads this
    {
      && |data| == Capacity(blockSize, numBlocks) < TWO63
      && (size == 0 || size == |data|) && filePos <= size
    }

    constructor (blockSize: nat, numBlocks: nat, data: seq<byte>, answers: seq<Answer>)
      requires |data| == Capacity(blockSize, numBlocks) < TWO63
      ensures Valid() && size == 0 && filePos == 0 && this.data == data && this.answers == answers
      ensures this.blockSize == blockSize && this.numBlocks == numBlocks
    {
      this.blockSize, this.numBlocks, this.data, this.answers := blockSize, numBlocks, data, answers;
      filePos, size := 0, 0;
    }

    /** block_volume_open, given whether the store finds and opens the partition.
        A partition that is found but not opened leaves the volume with its size. */
    method Open(found: bool, granted: bool) returns (res: int)
      requires Valid()
      modifies `filePos, `size
      ensures Valid() && res == (if found && granted then OK else -EPERM)
      ensures if found then filePos == 0 && size == |data| else filePos == old(filePos) && size == old(size)
    {
      if found {
        filePos := 0;
        size := Capacity(blockSize, numBlocks);
      }
      return if found && granted then OK else -EPERM;
    }

    /** block_volume_close, given whether the store closes the partition. */
    method Close(closed: bool) returns (res: int)
      requires Valid()
      modifies `filePos, `size
      ensures Valid() && res == (if closed then OK else -ENXIO)
      ensures if closed then filePos == 0 && size == 0 else filePos == old(filePos) && size == old(size)
    {
      if closed {
        filePos, size := 0, 0;
        return OK;
      }
      return -ENXIO;
    }

    /** block_volume_seek: the cursor moves exactly if the target, computed
        without overflow, is within the volume. */
    method Seek(mode: SeekMode, offset: int64) returns (res: int)
      requires Valid()
      modifies `filePos
      ensures Valid()
      ensures var target: int := if mode.SeekSet? then offset else old(filePos) + offset;
              if !mode.SeekOther? && 0 <= target <= size then res == OK && filePos == target
              else res == -EINVAL && filePos == old(filePos)
    {
      hide Signed;
      match mode
      case SeekSet =>
        SetTarget(offset, size);
        if offset % TWO64 <= size {
          filePos := offset % TWO64;
          return OK;
        }
        return -EINVAL;
      case SeekCur =>
        CurTarget(filePos, offset, size);
        var target := Signed(filePos + offset);
        if target >= 0 && target <= size {
          filePos := target;
          return OK;
        }
        return -EINVAL;
      case SeekOther =>
        return -EINVAL;
    }

    /** The next answer of the store to a request for len bytes. */
    method NextAnswer(len: nat) returns (ok: bool, actual: nat)
      requires len > 0
      modifies `answers
      ensures ok ==> 1 <= actual <= len
      ensures ok ==> old(answers) != []
      ensures old(answers) == [] ==> answers == []
      ensures Steady(old(answers)) && old(answers) != [] ==> ok && answers == old(answers)[1..]
    {
      if answers == [] {
        return false, 0;
      }
      var a := answers[0];
      answers := answers[1..];
      match a
      case Fails => return false, 0;
      case Moves(surplus) => return true, 1 + surplus % len;
    }

    /** block_store_read: within one block. */
    method StoreRead(lba: nat, offset: nat, len: nat) returns (ok: bool, got: seq<byte>)
      requires Valid() && lba < numBlocks && len > 0 && offset + len <= blockSize
      modifies `answers
      ensures ok ==> 1 <= |got| <= len && Position(lba, offset, blockSize) + |got| <= |data|
      ensures ok ==> old(answers) != []
      ensures old(answers) == [] ==> answers == []
      ensures Steady(old(answers)) && old(answers) != [] ==> ok && answers == old(answers)[1..]
      ensures ok ==> got == data[Position(lba, offset, blockSize)..Position(lba, offset, blockSize) + |got|]
    {
      var actual;
      ok, actual := NextAnswer(len);
      got := [];
      if ok {
        InBlock(lba, numBlocks, blockSize, offset + actual);
        var o := Position(lba, offset, blockSize);
        got := data[o..o + actual];
      }
    }

    /** block_store_write: within one block. */
    method StoreWrite(lba: nat, offset: nat, bytes: seq<byte>) returns (ok: bool, actual: nat)
      requires Valid() && lba < numBlocks && |bytes| > 0 && offset + |bytes| <= blockSize
      modifies `answers, `data
      ensures Valid() && (!ok ==> data == old(data))
      ensures ok ==> 1 <= actual <= |bytes| && Position(lba, offset, blockSize) + actual <= |data|
      ensures ok ==> old(answers) != []
      ensures old(answers) == [] ==> answers == []
      ensures Steady(old(answers)) && old(answers) != [] ==> ok && answers == old(answers)[1..]
      ensures ok ==> Stored(old(data), data, Position(lba, offset, blockSize), bytes[..actual])
    {
      ok, actual := NextAnswer(|bytes|);
      if ok {
        InBlock(lba, numBlocks, blockSize, offset + actual);
        data := Overwritten(data, Position(lba, offset, blockSize), bytes[..actual]);
      }
    }

    /** block_volume_read: count is the length it reports and read what it put
        into the buffer. In any case that is what lies before the cursor; a
        successful read delivers as many bytes as were asked for or are left. */
    method Read(length: nat) returns (res: int, count: nat, read: seq<byte>)
      requires Valid()
      modifies `filePos, `answers
      ensures Valid() && (res == OK || res == -EIO)
      ensures |read| <= length && filePos == old(filePos) + |read| && read == data[old(filePos)..filePos]
      ensures res == OK ==> count == |read| && (|read| == length || filePos == size)
      ensures res != OK ==> count == 0 && (blockSize == 0 ==> read == [])
      ensures blockSize > 0 && Steady(old(answers)) && |old(answers)| >= length ==> res == OK
      ensures blockSize > 0 && Steady(old(answers)) && |old(answers)| >= size - old(filePos) ==> res == OK
    {
      hide Capacity, Position;
      count, read := 0, [];
      if blockSize == 0 {
        return -EIO, 0, [];
      }
      ghost var start := filePos;
      while |read| < length && filePos < size
        invariant Valid() && filePos == start + |read| && |read| <= length
        invariant read == data[start..filePos]
        invariant Steady(old(answers)) ==> Steady(answers) && |answers| + |read| >= |old(answers)|
        decreases size - filePos
      {
        var lba, offset := Locate(filePos, blockSize, numBlocks);
        var remaining := Min(length - |read|, size - filePos);
        var len := Min(remaining, blockSize - offset);
        var ok, got := StoreRead(lba, offset, len);
        if !ok {
          return -EIO, 0, read;
        }
        assert data[start..filePos] + data[filePos..filePos + |got|] == data[start..filePos + |got|];
        read := read + got;
        filePos := filePos + |got|;
      }
      res, count := OK, |read|;
    }

    /** block_volume_write: a successful write replaces exactly the bytes from
        the cursor on, as many as were given or fit. */
    method Write(bytes: seq<byte>) returns (res: int, written: nat)
      requires Valid()
      modifies `filePos, `answers, `data
      ensures Valid() && (res == OK || res == -EIO)
      ensures old(filePos) <= filePos <= old(filePos) + |bytes| && |data| == |old(data)|
      ensures forall i :: 0 <= i < |data| ==>
                data[i] == if old(filePos) <= i < filePos then bytes[i - old(filePos)] else old(data)[i]
      ensures res == OK ==> written == filePos - old(filePos) && (written == |bytes| || filePos == size)
      ensures res != OK ==> written == 0
      ensures blockSize > 0 && Steady(old(answers)) && |old(answers)| >= |bytes| ==> res == OK
      ensures blockSize > 0 && Steady(old(answers)) && |old(answers)| >= size - old(filePos) ==> res == OK
      ensures Steady(old(answers)) ==> Steady(answers) && |answers| + (filePos - old(filePos)) >= |old(answers)|
    {
      hide Capacity, Position;
      ghost var before, start := data, filePos;
      written := 0;
      if blockSize == 0 {
        return -EIO, 0;
      }
      while written < |bytes| && filePos < size
        invariant Valid() && filePos == start + written && written <= |bytes| && |before| == |data|
        invariant Stored(before, data, start, bytes[..written])
        invariant Steady(old(answers)) ==> Steady(answers) && |answers| + written >= |old(answers)|
        decreases size - filePos
      {
        var lba, offset := Locate(filePos, blockSize, numBlocks);
        var remaining := Min(|bytes| - written, size - filePos);
        var len := Min(remaining, blockSize - offset);
        var ok, actual := StoreWrite(lba, offset, bytes[written..written + len]);
        if !ok {
          return -EIO, 0;
        }
        written := written + actual;
        filePos := filePos + actual;
      }
      res := OK;
    }
  }

  /** A negative offset, taken as unsigned, is beyond any volume. */
  lemma SetTarget(offset: int64, size: nat)
    requires size < TWO63
    ensures if 0 <= offset then offset % TWO64 == offset else offset % TWO64 > size
  {
    if offset < 0 { assert offset % TWO64 == offset + TWO64; }
  }

  /** The wrapped sum is the sum if that is within the volume, and otherwise is
      rejected too. */
  lemma CurTarget(pos: nat, offset: int64, size: nat)
    requires pos <= size < TWO63
    ensures var t := Signed(pos + offset); if 0 <= pos + offset <= size then t == pos + offset else !(0 <= t <= size)
  {
    var s := pos + offset;
    if s < 0 { assert s % TWO64 == s + TWO64; } else { assert s % TWO64 == s; }
  }

  /** The end of a part of block lba is within the store. */
  lemma InBlock(lba: nat, numBlocks: nat, blockSize: nat, end: nat)
    requires lba < numBlocks && end <= blockSize
    ensures Position(lba, end, blockSize) <= Capacity(blockSize, numBlocks)
  {
    assert (lba + 1) * blockSize <= numBlocks * blockSize;
  }

  /** The block and the offset of a position. */
  method Locate(pos: nat, blockSize: nat, numBlocks: nat) returns (lba: nat, offset: nat)
    requires blockSize > 0 && pos < Capacity(blockSize, numBlocks)
    ensures lba < numBlocks && offset < blockSize && lba * blockSize + offset == pos
    ensures Position(lba, offset, blockSize) == pos
  {
    lba := pos / blockSize;
    offset := pos % blockSize;
    if lba >= numBlocks { Beyond(lba, numBlocks, blockSize); }
  }

  lemma Beyond(lba: nat, numBlocks: nat, blockSize: nat)
    requires lba >= numBlocks
    ensures lba * blockSize >= blockSize * numBlocks
  {
    assert lba * blockSize == numBlocks * blockSize + (lba - numBlocks) * blockSize;
  }

  /** Whatever is written is read back from where it was written. */
  method WriteThenRead(v: Volume, bytes: seq<byte>) returns (res: int, read: seq<byte>)
    requires v.Valid()
    modifies v
    ensures v.Valid() && read <= bytes
    ensures res == OK ==> v.filePos == old(v.filePos) + |read| && (read == bytes || v.filePos == v.size)
    ensures v.blockSize > 0 && Steady(old(v.answers)) && |old(v.answers)| >= 2 * |bytes| ==> res == OK
  {
    var start, written := v.filePos, 0;
    res, written := v.Write(bytes);
    if res != OK {
      return res, [];
    }
    var back := v.Seek(SeekSet, start);
    var count;
    res, count, read := v.Read(written);
  }
}
