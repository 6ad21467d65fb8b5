/** A block device over a flat byte array, and byte-granular I/O on top of whole-block transfers. */
module BlockIO {
  import opened Bytes

  const IO_BUFFER_SIZE := 512

  /** The range test of the RAM disk, in 64-bit arithmetic. */
  predicate RangeValid(startBlock: u64, count: u64, total: u64) {
    var endBlock := (startBlock + count) % 0x1_0000_0000_0000_0000;
    count != 0 && endBlock >= startBlock && endBlock <= total
  }

  lemma RangeValidIff(startBlock: u64, count: u64, total: u64)
    ensures RangeValid(startBlock, count, total) <==> 0 < count && startBlock + count <= total
  {
    if startBlock + count >= TWO_64 {
      assert (startBlock + count) % 0x1_0000_0000_0000_0000 == startBlock + count - TWO_64;
    }
  }

  /** Where block `index` starts: index * size, as a sum so that the I/O loops reason without products. */
  function BlockStart(index: nat, size: nat): nat {
    if index == 0 then 0 else BlockStart(index - 1, size) + size
  }

  lemma {:induction false} BlockStartIsProduct(index: nat, size: nat)
    ensures BlockStart(index, size) == index * size
  {
    if index != 0 {
      BlockStartIsProduct(index - 1, size);
    }
  }

  /** A block lies inside a device of `count` blocks exactly when its number is below the count. */
  lemma {:induction false} BlockBytes(size: nat, count: nat, index: nat)
    requires size > 0
    ensures index < count <==> BlockStart(index, size) + size <= BlockStart(count, size)
    ensures index < count <==> BlockStart(index, size) < BlockStart(count, size)
  {
    if 0 < index && 0 < count {
      BlockBytes(size, count - 1, index - 1);
    } else if 0 < count {
      assert BlockStart(count, size) == BlockStart(count - 1, size) + size;
    }
  }

  /** The block that a byte position falls into, and the place of the byte within it. */
  method Locate(position: nat, size: nat) returns (blockIndex: nat, blockOffset: nat)
    requires 0 < size
    ensures BlockStart(blockIndex, size) + blockOffset == position && blockOffset < size && blockIndex <= position
  {
    blockIndex := position / size;
    blockOffset := position % size;
    BlockStartIsProduct(blockIndex, size);
    assert blockIndex <= blockIndex * size;
  }

  class BlockDevice {
    const blockSize: nat
    const blockCount: u64
    const storage: array<byte>

    ghost predicate Valid() {
      0 < blockSize && storage.Length == BlockStart(blockCount, blockSize) < TWO_64
    }

    constructor (blockSize: nat, blockCount: u64)
      requires 0 < blockSize && BlockStart(blockCount, blockSize) < TWO_64
      ensures Valid() && fresh(storage)
      ensures this.blockSize == blockSize && this.blockCount == blockCount
      ensures storage[..] == Zeros(BlockStart(blockCount, blockSize))
    {
      this.blockSize := blockSize;
      this.blockCount := blockCount;
      storage := new byte[BlockStart(blockCount, blockSize)](_ => 0);
    }

    /** The contents of one block. */
    ghost function Block(index: nat): (b: seq<byte>)
      requires BlockStart(index, blockSize) + blockSize <= storage.Length
      reads storage
      ensures |b| == blockSize
    {
      storage[BlockStart(index, blockSize)..BlockStart(index, blockSize) + blockSize]
    }

    /** ramdisk_read_blocks: copies a run of blocks to the front of `buffer`; touches nothing when they do not all
        exist. */
    method ReadBlocks(start: u64, count: u64, buffer: array<byte>) returns (ok: bool)
      requires Valid() && buffer != storage
      requires start + count <= blockCount ==> BlockStart(count, blockSize) <= buffer.Length
      modifies buffer
      ensures ok <==> 0 < count && start + count <= blockCount
      ensures !ok ==> buffer[..] == old(buffer[..])
      ensures ok ==>
        var from, n := BlockStart(start, blockSize), BlockStart(count, blockSize);
        from + n <= storage.Length && buffer[..] == Splice(old(buffer[..]), 0, old(storage[from..from + n]))
    {
      RangeValidIff(start, count, blockCount);
      if !RangeValid(start, count, blockCount) {
        return false;
      }
      RunFits(start, count, blockCount, blockSize);
      CopyBytes(buffer, 0, storage, start * blockSize, count * blockSize);
      return true;
    }

    /** ramdisk_write_blocks: replaces a run of blocks by the bytes of `source` from `sourceOffset` on. */
    method WriteBlocks(start: u64, count: u64, source: array<byte>, sourceOffset: nat) returns (ok: bool)
      requires Valid() && source != storage
      requires start + count <= blockCount ==> sourceOffset + BlockStart(count, blockSize) <= source.Length
      modifies storage
      ensures ok <==> 0 < count && start + count <= blockCount
      ensures !ok ==> storage[..] == old(storage[..])
      ensures ok ==> BlockStart(start, blockSize) + BlockStart(count, blockSize) <= storage.Length
      ensures ok ==> storage[..] == Splice(old(storage[..]), BlockStart(start, blockSize),
                                           old(source[sourceOffset..sourceOffset + BlockStart(count, blockSize)]))
    {
      RangeValidIff(start, count, blockCount);
      if !RangeValid(start, count, blockCount) {
        return false;
      }
      RunFits(start, count, blockCount, blockSize);
      CopyBytes(storage, start * blockSize, source, sourceOffset, count * blockSize);
      return true;
    }

    /** The transfer of a single block, as the byte I/O loops ask for it. */
    method ReadBlock(index: u64, buffer: array<byte>) returns (ok: bool)
      requires Valid() && buffer != storage && blockSize <= buffer.Length
      modifies buffer
      ensures ok <==> index < blockCount
      ensures !ok ==> buffer[..] == old(buffer[..])
      ensures ok ==>
        BlockStart(index, blockSize) + blockSize <= storage.Length && buffer[..blockSize] == old(Block(index))
    {
      OneBlock(blockSize);
      ok := ReadBlocks(index, 1, buffer);
    }

    method WriteBlock(index: u64, source: array<byte>, sourceOffset: nat) returns (ok: bool)
      requires Valid() && source != storage && sourceOffset + blockSize <= source.Length
      modifies storage
      ensures ok <==> index < blockCount
      ensures !ok ==> storage[..] == old(storage[..])
      ensures ok ==> BlockStart(index, blockSize) + blockSize <= storage.Length
      ensures ok ==>
        storage[..]
        == Splice(old(storage[..]), BlockStart(index, blockSize), old(source[sourceOffset..sourceOffset + blockSize]))
    {
      OneBlock(blockSize);
      ok := WriteBlocks(index, 1, source, sourceOffset);
    }
  }

  lemma OneBlock(size: nat)
    ensures BlockStart(1, size) == size
  {
    assert BlockStart(0, size) == 0;
  }

  lemma {:induction false} BlockStartSum(a: nat, b: nat, size: nat)
    ensures BlockStart(a + b, size) == BlockStart(a, size) + BlockStart(b, size)
  {
    if b > 0 {
      BlockStartSum(a, b - 1, size);
    }
  }

  lemma {:induction false} BlockStartMonotone(a: nat, b: nat, size: nat)
    requires a <= b
    ensures BlockStart(a, size) <= BlockStart(b, size)
  {
    BlockStartSum(a, b - a, size);
  }

  /** A run of existing blocks lies inside the device. */
  lemma RunFits(start: nat, count: nat, total: nat, size: nat)
    requires start + count <= total
    ensures start * size == BlockStart(start, size) && count * size == BlockStart(count, size)
    ensures BlockStart(start, size) + BlockStart(count, size) <= BlockStart(total, size)
  {
    BlockStartIsProduct(start, size);
    BlockStartIsProduct(count, size);
    BlockStartSum(start, count, size);
    BlockStartMonotone(start + count, total, size);
  }

  /** memcpy between two distinct buffers. */
  method CopyBytes(dest: array<byte>, destOffset: nat, source: array<byte>, sourceOffset: nat, size: nat)
    requires dest != source && destOffset + size <= dest.Length && sourceOffset + size <= source.Length
    modifies dest
    ensures dest[..] == Splice(old(dest[..]), destOffset, old(source[sourceOffset..sourceOffset + size]))
  {
    var i := 0;
    while i < size
      invariant 0 <= i <= size
      invariant forall k :: 0 <= k < dest.Length ==>
        dest[k] == if destOffset <= k < destOffset + i then old(source[sourceOffset + k - destOffset]) else old(dest[k])
    {
      dest[destOffset + i] := source[sourceOffset + i];
      i := i + 1;
    }
  }

  /** memcpy from a value. */
  method Store(buffer: array<byte>, offset: nat, data: seq<byte>)
    requires offset + |data| <= buffer.Length
    modifies buffer
    ensures buffer[..] == Splice(old(buffer[..]), offset, data)
  {
    for i := 0 to |data|
      invariant forall k :: 0 <= k < buffer.Length ==>
        buffer[k] == if offset <= k < offset + i then data[k - offset] else old(buffer[k])
    {
      buffer[offset + i] := data[i];
    }
  }

  /** `n` bytes at `offset`, where no bytes at all may start anywhere. */
  function Part(s: seq<byte>, offset: nat, n: nat): (r: seq<byte>)
    requires n == 0 || offset + n <= |s|
    ensures |r| == n
  {
    if n == 0 then [] else s[offset..offset + n]
  }

  lemma PartIsSlice(content: seq<byte>, offset: nat, n: nat)
    requires offset + n <= |content|
    ensures Part(content, offset, n) == content[offset..offset + n]
  {
  }

  lemma SpliceNothing(image: seq<byte>, offset: nat)
    requires offset <= |image|
    ensures Splice(image, offset, []) == image
  {
  }

  /** Two adjacent replacements are one replacement by the joined data. */
  lemma SpliceTwice(image: seq<byte>, offset: nat, a: seq<byte>, b: seq<byte>)
    requires offset + |a| + |b| <= |image|
    ensures Splice(Splice(image, offset, a), offset + |a|, b) == Splice(image, offset, a + b)
  {
  }

  /** A piece of a buffer that starts with a piece of the image is a piece of the image. */
  lemma SubSlice(image: seq<byte>, start: nat, size: nat, buffer: seq<byte>, offset: nat, n: nat)
    requires start + size <= |image| && size <= |buffer| && offset + n <= size
    requires buffer[..size] == image[start..start + size]
    ensures buffer[offset..offset + n] == Part(image, start + offset, n)
  {
    SliceOfSlice(buffer, 0, size, offset, offset + n);
    SliceOfSlice(image, start, start + size, offset, offset + n);
    assert buffer[0..size] == buffer[..size];
  }

  /** Reading `m` more bytes after the first `n`. */
  lemma ReadMore(before: seq<byte>, destOffset: nat, image: seq<byte>, offset: nat, n: nat, m: nat)
    requires destOffset + n + m <= |before| && (n + m == 0 || offset + n + m <= |image|)
    ensures Splice(Splice(before, destOffset, Part(image, offset, n)), destOffset + n, Part(image, offset + n, m))
         == Splice(before, destOffset, Part(image, offset, n + m))
  {
    SpliceTwice(before, destOffset, Part(image, offset, n), Part(image, offset + n, m));
    assert Part(image, offset, n + m) == Part(image, offset, n) + Part(image, offset + n, m);
  }

  /** Writing `m` more bytes after the first `n`. */
  lemma WriteMore(before: seq<byte>, offset: nat, data: seq<byte>, n: nat, m: nat)
    requires n + m <= |data| && 0 < m && offset + n + m <= |before|
    ensures Splice(Written(before, offset, data, n), offset + n, data[n..n + m]) == Written(before, offset, data, n + m)
  {
    assert data[..n + m] == data[..n] + data[n..n + m];
    SpliceTwice(before, offset, data[..n], data[n..n + m]);
  }

  /** The image after the first `n` bytes of `data` have been written at `offset`. */
  function Written(image: seq<byte>, offset: nat, data: seq<byte>, n: nat): (r: seq<byte>)
    requires n <= |data| && (n == 0 || offset + n <= |image|)
    ensures |r| == |image|
  {
    if n == 0 then image else Splice(image, offset, data[..n])
  }

  /** How many of the `size` bytes at `offset` exist on a device of `capacity` bytes. */
  function InRange(offset: nat, size: nat, capacity: nat): nat {
    if offset >= capacity then 0 else Min(size, capacity - offset)
  }

  /** One turn of the read loop: the part of [position, position + size) in the first block it touches. */
  method ReadChunk(device: BlockDevice, blockBuffer: array<byte>, position: nat,
                   dest: array<byte>, destOffset: nat, size: nat) returns (ok: bool, chunkSize: nat)
    requires device.Valid() && device.blockSize <= blockBuffer.Length
    requires blockBuffer != device.storage && blockBuffer != dest && dest != device.storage
    requires 0 < size && destOffset + size <= dest.Length && position < TWO_64
    modifies blockBuffer, dest
    ensures ok <==> position < device.storage.Length
    ensures !ok ==> dest[..] == old(dest[..])
    ensures ok ==> 0 < chunkSize <= size && position + chunkSize <= device.storage.Length
    ensures ok ==> dest[..] == Splice(old(dest[..]), destOffset, Part(old(device.storage[..]), position, chunkSize))
  {
    hide Splice;
    var blockIndex, blockOffset := Locate(position, device.blockSize);
    chunkSize := Min(device.blockSize - blockOffset, size);
    BlockBytes(device.blockSize, device.blockCount, blockIndex);
    ghost var image := device.storage[..];
    ok := device.ReadBlock(blockIndex, blockBuffer);
    if ok {
      assert dest[..] == old(dest[..]);
      SubSlice(image, BlockStart(blockIndex, device.blockSize), device.blockSize, blockBuffer[..], blockOffset,
               chunkSize);
      CopyBytes(dest, destOffset, blockBuffer, blockOffset, chunkSize);
    }
  }

  /** Reads `size` bytes at byte `offset` of the device, one block at a time, through `blockBuffer`. */
  method ReadBytes(device: BlockDevice, blockBuffer: array<byte>, offset: nat,
                   dest: array<byte>, destOffset: nat, size: nat) returns (ok: bool)
    requires device.Valid() && device.blockSize <= blockBuffer.Length
    requires blockBuffer != device.storage && blockBuffer != dest && dest != device.storage
    requires destOffset + size <= dest.Length && offset + size < TWO_64
    modifies blockBuffer, dest
    ensures ok <==> size == 0 || offset + size <= device.storage.Length
    ensures var n := if ok then size else InRange(offset, size, device.storage.Length);
      dest[..] == Splice(old(dest[..]), destOffset, Part(old(device.storage[..]), offset, n))
  {
    hide Splice;
    ghost var image, before := device.storage[..], dest[..];
    var copied := 0;
    SpliceNothing(before, destOffset);
    while copied < size
      invariant 0 <= copied <= size && (0 < copied ==> offset + copied <= |image|)
      invariant device.storage[..] == image
      invariant dest[..] == Splice(before, destOffset, Part(image, offset, copied))
    {
      var chunkSize;
      ghost var now := dest[..];
      ok, chunkSize := ReadChunk(device, blockBuffer, offset + copied, dest, destOffset + copied, size - copied);
      if !ok {
        return;
      }
      assert dest[..] == Splice(now, destOffset + copied, Part(image, offset + copied, chunkSize));
      ReadMore(before, destOffset, image, offset, copied, chunkSize);
      copied := copied + chunkSize;
    }
    return true;
  }

  /** A block with its middle patched is the same splice on the device. */
  lemma PatchBlock(image: seq<byte>, start: nat, size: nat, offset: nat, data: seq<byte>)
    requires start + size <= |image| && offset + |data| <= size
    ensures Splice(image, start, Splice(image[start..start + size], offset, data))
      == Splice(image, start + offset, data)
  {
  }

  /** The front of a patched buffer. */
  lemma PatchFront(buffer: seq<byte>, size: nat, offset: nat, data: seq<byte>)
    requires size <= |buffer| && offset + |data| <= size
    ensures Splice(buffer, offset, data)[0..0 + size] == Splice(buffer[..size], offset, data)
  {
  }

  /** The read-modify-write of one block. */
  method PatchDeviceBlock(device: BlockDevice, blockBuffer: array<byte>, blockIndex: u64, blockOffset: nat,
                          source: array<byte>, sourceOffset: nat, size: nat) returns (ok: bool)
    requires device.Valid() && device.blockSize <= blockBuffer.Length
    requires blockBuffer != device.storage && blockBuffer != source && source != device.storage
    requires sourceOffset + size <= source.Length && blockOffset + size <= device.blockSize
    modifies blockBuffer, device.storage
    ensures ok <==> blockIndex < device.blockCount
    ensures !ok ==> device.storage[..] == old(device.storage[..])
    ensures ok ==> BlockStart(blockIndex, device.blockSize) + device.blockSize <= device.storage.Length
    ensures ok ==>
      device.storage[..]
      == Splice(old(device.storage[..]), BlockStart(blockIndex, device.blockSize) + blockOffset,
                old(source[sourceOffset..sourceOffset + size]))
  {
    hide Splice;
    ghost var image, data := device.storage[..], source[sourceOffset..sourceOffset + size];
    BlockBytes(device.blockSize, device.blockCount, blockIndex);
    ok := device.ReadBlock(blockIndex, blockBuffer);
    if ok {
      assert source[sourceOffset..sourceOffset + size] == data;
      PatchFront(blockBuffer[..], device.blockSize, blockOffset, data);
      ghost var block := blockBuffer[..device.blockSize];
      CopyBytes(blockBuffer, blockOffset, source, sourceOffset, size);
      assert blockBuffer[0..0 + device.blockSize] == Splice(block, blockOffset, data);
      assert device.storage[..] == image;
      PatchBlock(image, BlockStart(blockIndex, device.blockSize), device.blockSize, blockOffset, data);
      ok := device.WriteBlock(blockIndex, blockBuffer, 0);
    }
  }

  /** One turn of the write loop: a whole block is written directly, part of a block is read and patched first. */
  method WriteChunk(device: BlockDevice, blockBuffer: array<byte>, position: nat,
                    source: array<byte>, sourceOffset: nat, size: nat) returns (ok: bool, chunkSize: nat)
    requires device.Valid() && device.blockSize <= blockBuffer.Length
    requires blockBuffer != device.storage && blockBuffer != source && source != device.storage
    requires 0 < size && sourceOffset + size <= source.Length && position < TWO_64
    modifies blockBuffer, device.storage
    ensures ok <==> position < device.storage.Length
    ensures !ok ==> device.storage[..] == old(device.storage[..])
    ensures ok ==> 0 < chunkSize <= size && position + chunkSize <= device.storage.Length
    ensures ok ==> device.storage[..] == Splice(old(device.storage[..]), position,
                                                old(source[sourceOffset..sourceOffset + chunkSize]))
  {
    hide Splice;
    var blockIndex, blockOffset := Locate(position, device.blockSize);
    chunkSize := Min(device.blockSize - blockOffset, size);
    BlockBytes(device.blockSize, device.blockCount, blockIndex);
    if blockOffset == 0 && chunkSize == device.blockSize {
      ok := device.WriteBlock(blockIndex, source, sourceOffset);
    } else {
      ok := PatchDeviceBlock(device, blockBuffer, blockIndex, blockOffset, source, sourceOffset, chunkSize);
    }
  }

  /** Writes `size` bytes at byte `offset` of the device. When the range leaves the device, the bytes before
      its end are written all the same. */
  method WriteBytes(device: BlockDevice, blockBuffer: array<byte>, offset: nat,
                    source: array<byte>, size: nat) returns (ok: bool)
    requires device.Valid() && device.blockSize <= blockBuffer.Length
    requires blockBuffer != device.storage && blockBuffer != source && source != device.storage
    requires size <= source.Length && offset + size < TWO_64
    modifies blockBuffer, device.storage
    ensures ok <==> size == 0 || offset + size <= device.storage.Length
    ensures var n := if ok then size else InRange(offset, size, device.storage.Length);
      device.storage[..] == Written(old(device.storage[..]), offset, old(source[..]), n)
  {
    hide Splice;
    ghost var before, data := device.storage[..], source[..];
    var copied := 0;
    while copied < size
      invariant 0 <= copied <= size && (0 < copied ==> offset + copied <= |before|)
      invariant source[..] == data
      invariant device.storage[..] == Written(before, offset, data, copied)
    {
      var chunkSize;
      ok, chunkSize := WriteChunk(device, blockBuffer, offset + copied, source, copied, size - copied);
      if !ok {
        return;
      }
      WriteMore(before, offset, data, copied, chunkSize);
      copied := copied + chunkSize;
    }
    return true;
  }
}
