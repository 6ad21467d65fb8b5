/** The TinyFS reader: a static file table filled by the mount, and reads through one block buffer. */
module TinyFS {
  import opened Bytes
  import opened BlockIO
  import opened TinyFormat

  /** A 32-bit count returned as a C int. */
  function AsInt(v: u32): (r: int)
    ensures r == v <==> v < 0x8000_0000
    ensures r < 0 <==> v >= 0x8000_0000
  {
    if v < 0x8000_0000 then v else v - 0x1_0000_0000
  }

  /** The bytes a read delivers, in the form of the byte I/O loop. */
  lemma DeviceBytesIsPart(disk: seq<byte>, offset: nat, n: nat)
    ensures DeviceBytes(disk, offset, n).Some? <==> n == 0 || offset + n <= |disk|
    ensures DeviceBytes(disk, offset, n).Some? ==> DeviceBytes(disk, offset, n).value == Part(disk, offset, n)
  {
  }

  lemma SpliceKeepsTail(image: seq<byte>, data: seq<byte>, limit: nat)
    requires |data| <= limit <= |image|
    ensures Splice(image, 0, data)[limit..] == image[limit..]
  {
  }

  /** A buffer whose front was filled from the device. */
  lemma Front(before: seq<byte>, data: seq<byte>, n: nat)
    requires n == |data| <= |before|
    ensures Splice(before, 0, data)[..n] == data
  {
  }

  /** One turn of the mount loop, read from the front. */
  lemma ReadTableStep(disk: seq<byte>, offset: u32, n: nat)
    requires n > 0
    ensures offset + ENTRY_SIZE > |disk| ==> ReadTable(disk, offset, n) == None
    ensures offset + ENTRY_SIZE <= |disk| ==>
      var rest := ReadTable(disk, Add32(offset, ENTRY_SIZE), n - 1);
      ReadTable(disk, offset, n) == if rest.None? then None
        else Some([DecodeEntry(disk[offset..offset + ENTRY_SIZE])] + rest.value)
  {
    hide DecodeEntry;
  }

  /** The table once the first `read` entries are in and `rest` is what the remaining turns will deliver. */
  ghost predicate Reading(whole: Option<seq<TinyFile>>, read: seq<TinyFile>, rest: Option<seq<TinyFile>>) {
    whole == if rest.None? then None else Some(read + rest.value)
  }

  lemma ReadingStep(whole: Option<seq<TinyFile>>, read: seq<TinyFile>, entry: TinyFile,
                    before: Option<seq<TinyFile>>, rest: Option<seq<TinyFile>>)
    requires Reading(whole, read, before)
    requires before == if rest.None? then None else Some([entry] + rest.value)
    ensures Reading(whole, read + [entry], rest)
  {
    if rest.Some? {
      assert read + ([entry] + rest.value) == (read + [entry]) + rest.value;
    }
  }

  class Driver {
    var device: BlockDevice?
    const files: array<TinyFile>
    var fileCount: nat
    var ready: bool
    const blockBuffer: array<byte>
    const structBuffer: array<byte>

    ghost predicate Valid()
      reads this
    {
      && files.Length == MAX_FILES && fileCount <= MAX_FILES
      && blockBuffer.Length == IO_BUFFER_SIZE && structBuffer.Length == ENTRY_SIZE && blockBuffer != structBuffer
      && (device != null ==> device.Valid() && device.blockSize <= IO_BUFFER_SIZE && device.storage != blockBuffer)
      && (ready ==> device != null)
    }

    /** The mounted files; nothing before a mount has succeeded. */
    ghost function Files(): (r: seq<TinyFile>)
      requires Valid()
      reads this, files
      ensures |r| <= MAX_FILES
    {
      if ready then files[..fileCount] else []
    }

    ghost function Disk(): seq<byte>
      reads this, if device != null then {device.storage} else {}
    {
      if device == null then [] else device.storage[..]
    }

    constructor ()
      ensures Valid() && !ready && fresh(files) && fresh(blockBuffer) && fresh(structBuffer)
    {
      device, fileCount, ready := null, 0, false;
      files := new TinyFile[MAX_FILES](_ => TinyFile([], 0, 0, 0));
      blockBuffer := new byte[IO_BUFFER_SIZE](_ => 0);
      structBuffer := new byte[ENTRY_SIZE](_ => 0);
    }

    /** Reads a structure of `size` bytes into the structure buffer. */
    method ReadStruct(d: BlockDevice, offset: u32, size: nat) returns (ok: bool)
      requires Valid() && d.Valid() && d.blockSize <= IO_BUFFER_SIZE
      requires d.storage != blockBuffer && d.storage != structBuffer && 0 < size <= ENTRY_SIZE
      modifies blockBuffer, structBuffer
      ensures ok <==> offset + size <= d.storage.Length
      ensures ok ==> structBuffer[..size] == d.storage[offset..offset + size]
    {
      hide Splice;
      ghost var before := structBuffer[..];
      ok := ReadBytes(d, blockBuffer, offset, structBuffer, 0, size);
      if ok {
        Front(before, Part(d.storage[..], offset, size), size);
        assert structBuffer[..size] == structBuffer[..][..size];
      }
    }

    /** tinyfs_mount. A failed mount leaves nothing mounted. */
    method Mount(d: BlockDevice) returns (ok: bool)
      requires Valid() && d.Valid() && d.storage != blockBuffer && d.storage != structBuffer
      modifies this`device, this`fileCount, this`ready, files, blockBuffer, structBuffer
      ensures Valid() && ready == ok
      ensures ok <==> d.blockSize <= IO_BUFFER_SIZE && MountTiny(d.storage[..]).Some?
      ensures ok ==> device == d && Files() == MountTiny(d.storage[..]).value
    {
      hide ReadTable, DecodeEntry, U32At, MountTiny;
      ghost var disk := d.storage[..];
      device, ready := null, false;
      if d.blockSize > blockBuffer.Length {
        return false;
      }
      ok := ReadStruct(d, 0, SUPERBLOCK_SIZE);
      HeaderOf(disk, structBuffer[..SUPERBLOCK_SIZE], ok);
      if !ok {
        return false;
      }
      if U32At(structBuffer[..SUPERBLOCK_SIZE], 0) != TINYFS_MAGIC
         || U32At(structBuffer[..SUPERBLOCK_SIZE], 4) != TINYFS_VERSION
         || U32At(structBuffer[..SUPERBLOCK_SIZE], 8) > MAX_FILES {
        return false;
      }
      var n := U32At(structBuffer[..SUPERBLOCK_SIZE], 8);
      var entryOffset := U32At(structBuffer[..SUPERBLOCK_SIZE], 12);
      ok := ReadEntries(d, n, entryOffset);
      if ok {
        device, fileCount, ready := d, n, true;
      }
    }

    /** The loop of tinyfs_mount over the file table. */
    method ReadEntries(d: BlockDevice, n: nat, tableOffset: u32) returns (ok: bool)
      requires Valid() && d.Valid() && d.blockSize <= IO_BUFFER_SIZE && n <= MAX_FILES
      requires d.storage != blockBuffer && d.storage != structBuffer
      modifies files, blockBuffer, structBuffer
      ensures ok <==> ReadTable(d.storage[..], tableOffset, n).Some?
      ensures ok ==> files[..n] == ReadTable(d.storage[..], tableOffset, n).value
    {
      hide ReadTable, DecodeEntry;
      ghost var disk := d.storage[..];
      ghost var whole := ReadTable(disk, tableOffset, n);
      var entryOffset := tableOffset;
      var index := 0;
      assert whole.Some? ==> files[..0] + whole.value == whole.value;
      while index < n
        invariant 0 <= index <= n && d.storage[..] == disk
        invariant Reading(whole, files[..index], ReadTable(disk, entryOffset, n - index))
      {
        ghost var was := files[..index];
        ReadTableStep(disk, entryOffset, n - index);
        ok := ReadStruct(d, entryOffset, ENTRY_SIZE);
        if !ok {
          return;
        }
        var entry := DecodeEntry(structBuffer[..]);
        assert structBuffer[..] == structBuffer[..ENTRY_SIZE];
        ReadingStep(whole, was, entry, ReadTable(disk, entryOffset, n - index),
                    ReadTable(disk, Add32(entryOffset, ENTRY_SIZE), n - index - 1));
        files[index] := entry;
        assert files[..index + 1] == was + [entry];
        entryOffset := Add32(entryOffset, ENTRY_SIZE);
        index := index + 1;
      }
      ReadTableEmpty(disk, entryOffset);
      return true;
    }

    /** tinyfs_find. */
    method FindFile(path: CString) returns (r: Option<nat>)
      requires Valid()
      ensures r == Find(Files(), path)
    {
      hide FindFrom;
      if !ready {
        FindIsFirst(Files(), path, None);
        return None;
      }
      for index := 0 to fileCount
        invariant forall k :: 0 <= k < index ==> files[k].name != path
      {
        if files[index].name == path {
          FindIsFirst(Files(), path, Some(index));
          return Some(index);
        }
      }
      FindIsFirst(Files(), path, None);
      return None;
    }

    /** Fills the front of the caller's buffer from the mounted device. */
    method Deliver(offset: u32, buffer: array<byte>, size: u32, limit: nat) returns (result: int)
      requires Valid() && ready && size <= limit <= buffer.Length && buffer != blockBuffer && buffer != device.storage
      modifies blockBuffer, buffer
      ensures buffer[limit..] == old(buffer[limit..])
      ensures match DeviceBytes(device.storage[..], offset, size)
              case None => result == -1
              case Some(data) => result == AsInt(size) && buffer[..] == Splice(old(buffer[..]), 0, data)
    {
      hide Splice, DeviceBytes;
      ghost var before, disk := buffer[..], device.storage[..];
      var ok := ReadBytes(device, blockBuffer, offset, buffer, 0, size);
      DeviceBytesIsPart(disk, offset, size);
      SpliceKeepsTail(before, Part(disk, offset, if ok then size else InRange(offset, size, |disk|)), limit);
      assert buffer[limit..] == buffer[..][limit..] && before[limit..] == old(buffer[limit..]);
      return if ok then AsInt(size) else -1;
    }

    /** tinyfs_read_file. */
    method ReadFile(path: CString, buffer: array<byte>, maxSize: nat) returns (result: int)
      requires Valid() && maxSize <= buffer.Length && buffer != blockBuffer
      requires device != null ==> buffer != device.storage
      modifies blockBuffer, buffer
      ensures buffer[maxSize..] == old(buffer[maxSize..])
      ensures match ReadWhole(Disk(), Files(), path, maxSize)
              case None => result == -1
              case Some(data) =>
                && |data| < TWO_32 && result == AsInt(|data|)
                && buffer[..] == Splice(old(buffer[..]), 0, data)
    {
      hide Find, Splice, Add32;
      var r := FindFile(path);
      if r.None? || files[r.value].size > maxSize {
        return -1;
      }
      result := Deliver(files[r.value].offset, buffer, files[r.value].size, maxSize);
    }

    /** tinyfs_read_file_part. */
    method ReadFilePart(path: CString, offset: u32, buffer: array<byte>, size: u32) returns (result: int)
      requires Valid() && size <= buffer.Length && buffer != blockBuffer
      requires device != null ==> buffer != device.storage
      modifies blockBuffer, buffer
      ensures buffer[size..] == old(buffer[size..])
      ensures match ReadPart(Disk(), Files(), path, offset, size)
              case None => result == -1
              case Some(data) =>
                && |data| <= size && result == AsInt(|data|)
                && buffer[..] == Splice(old(buffer[..]), 0, data)
    {
      hide Find, Splice, Add32;
      var r := FindFile(path);
      if r.None? || offset > files[r.value].size {
        return -1;
      }
      var available := files[r.value].size - offset;
      var wanted := if size > available then available else size;
      if wanted == 0 {
        SpliceNothing(buffer[..], 0);
        return 0;
      }
      result := Deliver(Add32(files[r.value].offset, offset), buffer, wanted, size);
    }
  }

  lemma ReadTableEmpty(disk: seq<byte>, offset: u32)
    ensures ReadTable(disk, offset, 0) == Some([])
  {
  }

  lemma SameField(disk: seq<byte>, header: seq<byte>, i: nat)
    requires |header| <= |disk| && header == disk[0..|header|] && i + 4 <= |header|
    ensures U32At(header, i) == U32At(disk, i)
  {
  }

  predicate HeaderOk(header: seq<byte>, read: bool)
    requires |header| == SUPERBLOCK_SIZE
  {
    && read && U32At(header, 0) == TINYFS_MAGIC && U32At(header, 4) == TINYFS_VERSION
    && U32At(header, 8) <= MAX_FILES
  }

  /** The header as the driver's own copy shows it. */
  lemma HeaderOf(disk: seq<byte>, header: seq<byte>, ok: bool)
    requires |header| == SUPERBLOCK_SIZE
    requires ok <==> SUPERBLOCK_SIZE <= |disk|
    requires ok ==> header == disk[0..SUPERBLOCK_SIZE]
    ensures HeaderOk(header, ok) ==>
      MountTiny(disk) == ReadTable(disk, U32At(header, 12), U32At(header, 8))
    ensures !HeaderOk(header, ok) ==>
      MountTiny(disk) == None
  {
    hide ReadTable, U32At;
    if ok {
      SameField(disk, header, 0);
      SameField(disk, header, 4);
      SameField(disk, header, 8);
      SameField(disk, header, 12);
    }
  }

  lemma FindIsFirst(files: seq<TinyFile>, path: CString, r: Option<nat>)
    requires r.Some? ==> r.value < |files| && files[r.value].name == path
    requires forall k :: 0 <= k < (if r.Some? then r.value else |files|) ==> files[k].name != path
    ensures Find(files, path) == r
  {
    hide FindFrom;
  }
}
