/** The LogFS driver: static tables, block buffers and the log end, updated in place. */
module LogFS {
  import opened Bytes
  import opened LogFormat
  import opened LogChecksum
  import opened BlockIO
  import opened LogVolume
  import opened LogRemount
  import opened LogContents

  /** Far above every offset the driver computes: 2^32 blocks of at most 512 bytes. */
  const OFFSET_LIMIT := 0x400_0000_0000

  lemma {:induction false} CapacityLimit(count: u32, size: nat)
    requires size <= IO_BUFFER_SIZE
    ensures BlockStart(count, size) <= IO_BUFFER_SIZE * count < OFFSET_LIMIT
  {
    if count != 0 {
      CapacityLimit(count - 1, size);
    }
  }

  /** Why a turn of the replay loop ended, or that it accepted a record. */
  datatype ReplayStatus = EndOfLog | Stopped | Replayed

  method NameIsValid(name: CString) returns (valid: bool)
    ensures valid == NameValid(name)
    ensures valid <==> 1 <= |name| <= 31 && 47 !in name
  {
    if |name| == 0 || |name| >= NAME_MAX {
      return false;
    }
    for i := 0 to |name|
      invariant SLASH !in name[..i]
    {
      if name[i] == SLASH {
        return false;
      }
      assert name[..i + 1] == name[..i] + [name[i]];
    }
    assert name[..|name|] == name;
    return true;
  }

  method ChecksumBytes(seed: u32, data: seq<byte>) returns (sum: u32)
    ensures sum == Checksum(seed, data)
    ensures sum == (seed * Pow33(|data|) + Weighted(data)) % 0x1_0000_0000
  {
    ChecksumClosed(seed, data);
    sum := seed;
    for i := 0 to |data|
      invariant sum == Checksum(seed, data[..i])
    {
      assert data[..i + 1][..i] == data[..i];
      sum := (sum * 33 + data[i] as int) % 0x1_0000_0000;
    }
    assert data[..|data|] == data;
  }

  /** The record buffer after the header, payload, padding and completed header have been copied into it. */
  lemma RecordLayout(buffer: seq<byte>, draft: seq<byte>, payload: seq<byte>, padding: seq<byte>, header: seq<byte>)
    requires |draft| == HEADER_SIZE == |header| && HEADER_SIZE + |payload| + |padding| <= |buffer|
    ensures var b := Splice(Splice(Splice(Splice(buffer, 0, draft), HEADER_SIZE, payload), HEADER_SIZE + |payload|,
                                   padding), 0, header);
      b[..HEADER_SIZE + |payload| + |padding|] == header + payload + padding
  {
  }

  lemma ClaimedHolds(payloadSize: u32)
    requires payloadSize <= MAX_PAYLOAD
    ensures HEADER_SIZE + payloadSize <= ClaimedSize(payloadSize)
  {
  }

  class Driver {
    var device: BlockDevice?
    var superblock: Superblock
    const files: array<Slot>
    const segments: array<Segment>
    var segmentCount: nat
    var nextFileId: u32
    var logEnd: nat
    var ready: bool
    const blockBuffer: array<byte>
    const recordBuffer: array<byte>

    ghost predicate Separate(d: BlockDevice) {
      d.storage != blockBuffer && d.storage != recordBuffer
    }

    ghost predicate Valid()
      reads this
    {
      && files.Length == MAX_FILES && segments.Length == MAX_SEGMENTS && segmentCount <= MAX_SEGMENTS
      && blockBuffer.Length == IO_BUFFER_SIZE && recordBuffer.Length == RECORD_BUFFER_SIZE
      && blockBuffer != recordBuffer
      && (device != null ==> device.Valid() && device.blockSize <= IO_BUFFER_SIZE && Separate(device))
      && (ready ==> device != null)
      && (device != null ==> Capacity() <= device.storage.Length && Capacity() < OFFSET_LIMIT && logEnd < OFFSET_LIMIT)
    }

    function Capacity(): nat
      reads this
    {
      BlockStart(superblock.blockCount, superblock.blockSize)
    }

    /** The tables as a value. */
    ghost function Vol(): Volume
      requires files.Length == MAX_FILES && segmentCount <= segments.Length
      reads this, files, segments
    {
      Volume(Capacity(), files[..], segments[..segmentCount], nextFileId, logEnd)
    }

    ghost function Disk(): seq<byte>
      requires device != null
      reads this, device.storage
    {
      device.storage[..]
    }

    constructor ()
      ensures Valid() && !ready && fresh(files) && fresh(segments) && fresh(blockBuffer) && fresh(recordBuffer)
    {
      device := null;
      superblock := Superblock(0, 0, 0, 0, 0);
      files := new Slot[MAX_FILES](_ => Unused);
      segments := new Segment[MAX_SEGMENTS](_ => Segment(0, 0, 0, 0));
      segmentCount, nextFileId, logEnd, ready := 0, 1, 0, false;
      blockBuffer := new byte[IO_BUFFER_SIZE](_ => 0);
      recordBuffer := new byte[RECORD_BUFFER_SIZE](_ => 0);
    }

    /** The searches by name, by id and for an unused slot. */
    method FindSlot(q: Query) returns (r: Option<nat>)
      requires Valid()
      ensures r == Find(files[..], q)
    {
      var i := 0;
      while i < MAX_FILES
        invariant 0 <= i <= MAX_FILES && Find(files[..], q) == FindFrom(files[..], q, i)
      {
        if Matches(q, files[i]) {
          return Some(i);
        }
        i := i + 1;
      }
      return None;
    }

    method ReadHeader() returns (h: Header)
      requires Valid() && device != null && logEnd + HEADER_SIZE <= Capacity()
      modifies blockBuffer
      ensures h == DecodeHeader(old(Disk())[logEnd..logEnd + HEADER_SIZE])
    {
      hide Splice, Part, DecodeHeader, BlockStart, InRange;
      ghost var disk := Disk();
      var raw := new byte[HEADER_SIZE];
      ghost var raw0 := raw[..];
      var ok := ReadBytes(device, blockBuffer, logEnd, raw, 0, HEADER_SIZE);
      FrontRead(raw0, disk, logEnd, HEADER_SIZE);
      assert raw[..] == raw[..HEADER_SIZE];
      h := DecodeHeader(raw[..]);
    }

    /** The payload, by way of the record buffer. */
    method ReadPayload(size: nat) returns (payload: seq<byte>)
      requires Valid() && device != null && size <= MAX_PAYLOAD && logEnd + HEADER_SIZE + size <= Capacity()
      modifies blockBuffer, recordBuffer
      ensures payload == old(Disk())[logEnd + HEADER_SIZE..logEnd + HEADER_SIZE + size]
    {
      hide Splice, Part, BlockStart, InRange;
      ghost var disk, buffer0 := Disk(), recordBuffer[..];
      var ok := ReadBytes(device, blockBuffer, logEnd + HEADER_SIZE, recordBuffer, 0, size);
      FrontRead(buffer0, disk, logEnd + HEADER_SIZE, size);
      payload := recordBuffer[..size];
    }

    /** The payload that a header announces, accepted when the checksum is right. */
    method ReadBody(h: Header) returns (payload: seq<byte>, ok: bool)
      requires Valid() && device != null && h.payloadSize <= MAX_PAYLOAD
      requires logEnd + HEADER_SIZE + h.payloadSize <= Capacity()
      modifies blockBuffer, recordBuffer
      ensures payload == old(Disk())[logEnd + HEADER_SIZE..logEnd + HEADER_SIZE + h.payloadSize]
      ensures ok == (RecordChecksum(h, payload) == h.checksum)
    {
      hide EncodeHeader, BlockStart, Checksum;
      payload := ReadPayload(h.payloadSize);
      var sum := ChecksumBytes(0, EncodeHeader(h.(checksum := 0)));
      sum := ChecksumBytes(sum, payload);
      ok := sum == h.checksum;
    }

    /** Reads the record at the log end: its header, then, if that looks right, its payload. */
    method ReadRecord() returns (p: Parsed)
      requires Valid() && device != null && logEnd + HEADER_SIZE <= Capacity()
      modifies blockBuffer, recordBuffer
      ensures p == ParseRecord(old(Disk()), logEnd, Capacity())
    {
      hide DecodeHeader, RecordChecksum, BlockStart, RecordSize, ClaimedSize;
      ghost var disk := Disk();
      var h := ReadHeader();
      if h.magic == 0 {
        return Blank;
      }
      if h.magic != RECORD_MAGIC {
        return Damaged;
      }
      var size := ClaimedSize(h.payloadSize);
      if size < HEADER_SIZE || logEnd + size > Capacity() || h.payloadSize > MAX_PAYLOAD {
        return Damaged;
      }
      ClaimedHolds(h.payloadSize);
      assert Disk() == disk;
      var payload, ok := ReadBody(h);
      if !ok {
        return Damaged;
      }
      return Intact(h.(checksum := 0), payload, size);
    }

    method ReplayCreateRecord(h: Header, payload: seq<byte>) returns (ok: bool)
      requires Valid() && |payload| == h.payloadSize
      modifies this`nextFileId, files
      ensures Valid()
      ensures old(ReplayCreate(Vol(), h, payload)) == if ok then Some(Vol()) else None
      ensures !ok ==> Vol() == old(Vol())
    {
      if h.nameLength == 0 || h.nameLength >= NAME_MAX {
        return false;
      }
      if h.payloadSize != h.nameLength + 1 || payload[h.nameLength] != NUL {
        return false;
      }
      var name := AsCString(payload);
      var valid := NameIsValid(name);
      if !valid {
        return false;
      }
      var byName := FindSlot(ByName(name));
      var byId := FindSlot(ById(h.fileId));
      if byName.Some? || byId.Some? {
        return false;
      }
      var slot := FindSlot(AnyUnused);
      if slot.None? {
        return false;
      }
      files[slot.value] := File(name, h.fileId, 0, 0);
      if h.fileId >= nextFileId {
        nextFileId := Add32(h.fileId, 1);
      }
      return true;
    }

    /** Fails when the segment table is full. */
    method AddSegmentEntry(fileId: u32, fileOffset: u32, dataSize: u32, dataOffset: nat) returns (ok: bool)
      requires Valid()
      modifies this`segmentCount, segments
      ensures Valid() && ok == (old(segmentCount) < MAX_SEGMENTS)
      ensures segments[..segmentCount]
           == old(segments[..segmentCount]) + if ok then [Segment(fileId, fileOffset, dataSize, dataOffset)] else []
    {
      if segmentCount >= MAX_SEGMENTS {
        return false;
      }
      segments[segmentCount] := Segment(fileId, fileOffset, dataSize, dataOffset);
      segmentCount := segmentCount + 1;
      return true;
    }

    method ReplayAppendRecord(h: Header, payloadOffset: nat) returns (ok: bool)
      requires Valid()
      modifies this`segmentCount, files, segments
      ensures Valid()
      ensures old(ReplayAppend(Vol(), h, payloadOffset)) == if ok then Some(Vol()) else None
      ensures !ok ==> Vol() == old(Vol())
    {
      var found := FindSlot(ById(h.fileId));
      if found.None? || h.payloadSize == 0 {
        return false;
      }
      var i := found.value;
      var f := files[i];
      if f.size != h.sizeBefore || h.sizeAfter != Add32(h.sizeBefore, h.payloadSize) {
        return false;
      }
      ok := AddSegmentEntry(h.fileId, f.size, h.payloadSize, payloadOffset);
      if !ok {
        return;
      }
      files[i] := f.(size := h.sizeAfter, segmentCount := Add32(f.segmentCount, 1));
    }

    /** One turn of the replay loop. */
    method ReplayRecord() returns (status: ReplayStatus)
      requires Valid() && device != null && logEnd + HEADER_SIZE <= Capacity()
      modifies this`nextFileId, this`segmentCount, this`logEnd, files, segments, blockBuffer, recordBuffer
      ensures Valid()
      ensures old(ReplayStep(Disk(), Vol())) == if status == Replayed then Some(Vol()) else None
      ensures status != Replayed ==> Vol() == old(Vol())
      ensures Disk() == old(Disk())
    {
      hide ParseRecord, ReplayCreate, ReplayAppend, RecordSize, BlockStart;
      var p := ReadRecord();
      assert Vol() == old(Vol());
      if p.Blank? {
        return EndOfLog;
      }
      if p.Damaged? {
        return Stopped;
      }
      var ok := false;
      if p.header.kind == RECORD_CREATE {
        ok := ReplayCreateRecord(p.header, p.payload);
      } else if p.header.kind == RECORD_APPEND {
        ok := ReplayAppendRecord(p.header, logEnd + HEADER_SIZE);
      }
      if !ok {
        return Stopped;
      }
      logEnd := logEnd + p.size;
      return Replayed;
    }

    /** The start of a mount: every table is cleared. */
    method Reset()
      requires Valid()
      modifies this, files, segments
      ensures Valid() && !ready && device == null
      ensures Vol().files == EmptyVolume(0, 0).files && segmentCount == 0 && nextFileId == 1 && logEnd == 0
    {
      device, ready := null, false;
      superblock := Superblock(0, 0, 0, 0, 0);
      forall i | 0 <= i < files.Length {
        files[i] := Unused;
      }
      segmentCount, nextFileId, logEnd := 0, 1, 0;
    }

    /** The replay loop of a mount. */
    method ReplayLog()
      requires Valid() && device != null && !ready
      modifies this`nextFileId, this`segmentCount, this`logEnd, files, segments, blockBuffer, recordBuffer
      ensures Valid() && Disk() == old(Disk())
      ensures Vol() == old(Replay(Disk(), Vol()))
    {
      hide ReplayStep, BlockStart;
      ghost var disk, start := Disk(), Vol();
      while logEnd + HEADER_SIZE <= Capacity()
        invariant Valid() && Disk() == disk
        invariant Replay(disk, Vol()) == Replay(disk, start)
        decreases Capacity() - logEnd
      {
        var status := ReplayRecord();
        if status != Replayed {
          return;
        }
      }
    }

    method ReadSuperblock(d: BlockDevice) returns (ok: bool, sb: Superblock)
      requires Valid() && d.Valid() && Separate(d) && d.blockSize <= IO_BUFFER_SIZE
      modifies blockBuffer
      ensures ok == (SUPERBLOCK_SIZE <= d.storage.Length)
      ensures ok ==> sb == DecodeSuperblock(d.storage[..])
    {
      hide Splice, Part, BlockStart, DecodeSuperblock;
      ghost var disk := d.storage[..];
      var raw := new byte[SUPERBLOCK_SIZE];
      ghost var raw0 := raw[..];
      ok := ReadBytes(d, blockBuffer, 0, raw, 0, SUPERBLOCK_SIZE);
      if ok {
        FrontRead(raw0, disk, 0, SUPERBLOCK_SIZE);
        assert raw[..SUPERBLOCK_SIZE] == disk[..SUPERBLOCK_SIZE];
        SameSuperblock(disk, raw[..]);
      }
      sb := DecodeSuperblock(raw[..]);
    }

    /** logfs_mount: succeeds and leaves the tables exactly as the replay of the image says. */
    method Mount(d: BlockDevice) returns (ok: bool)
      requires Valid() && d.Valid() && Separate(d)
      modifies this, files, segments, blockBuffer, recordBuffer
      ensures Valid() && ready == ok && (ok ==> device == d)
      ensures d.storage[..] == old(d.storage[..])
      ensures MountVolume(old(d.storage[..]), d.blockSize, d.blockCount) == if ok then Some(Vol()) else None
    {
      hide ReplayStep, BlockStart, Splice, Part, DecodeSuperblock;
      ghost var disk := d.storage[..];
      Reset();
      if d.blockSize > IO_BUFFER_SIZE {
        return false;
      }
      var read, sb := ReadSuperblock(d);
      if !read {
        return false;
      }
      if !SuperblockValid(sb, d.blockSize, d.blockCount) {
        return false;
      }
      CapacityLimit(sb.blockCount, sb.blockSize);
      BlockStartMonotone(sb.blockCount, d.blockCount, d.blockSize);
      superblock, device, logEnd := sb, d, sb.logOffset;
      assert Disk() == disk && Vol() == EmptyVolume(Capacity(), sb.logOffset);
      ReplayLog();
      ready := true;
      return true;
    }

    /** Lays the record out in the record buffer and writes it at the log end if it fits. */
    method AppendRecord(kind: u32, fileId: u32, sizeBefore: u32, sizeAfter: u32, nameLength: u32, payload: seq<byte>)
      returns (ok: bool)
      requires Valid() && device != null && |payload| < TWO_32
      modifies this`logEnd, blockBuffer, recordBuffer, device.storage
      ensures Valid()
      ensures ok == old(RecordFits(Vol(), |payload|))
      ensures !ok ==> Disk() == old(Disk()) && logEnd == old(logEnd)
      ensures ok ==>
        && logEnd == old(logEnd) + RecordSize(|payload|)
        && Disk() == old(WriteRecord(Disk(), Vol(),
                         RecordHeader(kind, fileId, sizeBefore, sizeAfter, nameLength, |payload|), payload))
    {
      hide Splice, EncodeHeader, BlockStart, Checksum;
      if |payload| > MAX_PAYLOAD {
        return false;
      }
      var h := RecordHeader(kind, fileId, sizeBefore, sizeAfter, nameLength, |payload|);
      var recordSize := AlignUp(HEADER_SIZE + |payload|);
      assert recordSize == RecordSize(|payload|);
      hide AlignUp, RecordSize;
      var padding := Zeros(recordSize - HEADER_SIZE - |payload|);
      ghost var buffer0 := recordBuffer[..];
      Store(recordBuffer, 0, EncodeHeader(h));
      Store(recordBuffer, HEADER_SIZE, payload);
      Store(recordBuffer, HEADER_SIZE + |payload|, padding);
      var sum := ChecksumBytes(0, EncodeHeader(h));
      sum := ChecksumBytes(sum, payload);
      var header := EncodeHeader(h.(checksum := sum));
      Store(recordBuffer, 0, header);
      RecordLayout(buffer0, EncodeHeader(h), payload, padding, header);
      assert h.(checksum := 0) == h;
      assert recordBuffer[..recordSize] == RecordBytes(h, payload);
      if logEnd + recordSize > Capacity() {
        return false;
      }
      ghost var disk, record := Disk(), recordBuffer[..];
      ok := WriteBytes(device, blockBuffer, logEnd, recordBuffer, recordSize);
      assert Disk() == Written(disk, logEnd, record, recordSize);
      logEnd := logEnd + recordSize;
    }

    /** logfs_create. */
    method CreateFile(name: CString) returns (ok: bool)
      requires Valid()
      modifies this`nextFileId, this`logEnd, files, blockBuffer, recordBuffer, if device == null then {}
        else {device.storage}
      ensures Valid()
      ensures !ready ==> !ok && Vol() == old(Vol()) && (device != null ==> Disk() == old(Disk()))
      ensures ready ==> Outcome(ok, Disk(), Vol()) == old(Create(Disk(), Vol(), name))
    {
      hide WriteRecord, RecordSize, BlockStart, FindFrom;
      if !ready {
        return false;
      }
      var valid := NameIsValid(name);
      if !valid {
        return false;
      }
      var found := FindSlot(ByName(name));
      if found.Some? {
        return false;
      }
      var slot := FindSlot(AnyUnused);
      if slot.None? {
        return false;
      }
      var i, id := slot.value, nextFileId;
      ghost var files0, disk, v := files[..], Disk(), Vol();
      nextFileId := Add32(nextFileId, 1);
      files[i] := File(name, id, 0, 0);
      assert |name + [NUL]| == |name| + 1;
      if RecordFits(v, |name| + 1) {
        SameWrite(disk, Vol(), v, CreateHeader(v, name), name + [NUL]);
      }
      ok := AppendRecord(RECORD_CREATE, id, 0, 0, |name|, name + [NUL]);
      if !ok {
        files[i] := Unused;
        assert files[..] == files0;
      } else {
        assert files[..] == files0[i := File(name, id, 0, 0)];
      }
    }

    /** logfs_append. */
    method AppendFile(name: CString, data: seq<byte>) returns (ok: bool)
      requires Valid() && |data| < TWO_32
      modifies this`segmentCount, this`logEnd, files, segments, blockBuffer, recordBuffer,
               if device == null then {} else {device.storage}
      ensures Valid()
      ensures !ready ==> !ok && Vol() == old(Vol()) && (device != null ==> Disk() == old(Disk()))
      ensures ready ==> Outcome(ok, Disk(), Vol()) == old(Append(Disk(), Vol(), name, data))
    {
      hide WriteRecord, RecordSize, BlockStart, FindFrom;
      if !ready || |data| == 0 {
        return false;
      }
      var found := FindSlot(ByName(name));
      if found.None? {
        return false;
      }
      var i := found.value;
      var f, recordOffset := files[i], logEnd;
      ok := AppendRecord(RECORD_APPEND, f.id, f.size, Add32(f.size, |data|), 0, data);
      if !ok {
        return;
      }
      ok := AddSegmentEntry(f.id, f.size, |data|, recordOffset + HEADER_SIZE);
      if !ok {
        return;
      }
      files[i] := f.(size := Add32(f.size, |data|), segmentCount := Add32(f.segmentCount, 1));
    }

    /** Reads the part of one segment that lies in [offset, readEnd) of its file, behind what earlier segments gave. */
    method CopyOverlap(s: Segment, offset: u32, readEnd: u32, buffer: array<byte>, copied: nat,
                       ghost before: seq<byte>, ghost content: seq<byte>) returns (now: nat)
      requires Valid() && device != null && buffer != blockBuffer && buffer != device.storage
      requires offset <= readEnd <= |content| < TWO_32 && readEnd - offset <= buffer.Length == |before|
      requires s.fileOffset + s.dataSize <= |content| && s.dataOffset + s.dataSize <= Capacity()
      requires content[s.fileOffset..s.fileOffset + s.dataSize] == Disk()[s.dataOffset..s.dataOffset + s.dataSize]
      requires copied == Covered(s.fileOffset, offset, readEnd) < readEnd - offset
      requires buffer[..] == Splice(before, 0, Part(content, offset, copied))
      modifies buffer, blockBuffer
      ensures now == Covered(s.fileOffset + s.dataSize, offset, readEnd)
      ensures buffer[..] == Splice(before, 0, Part(content, offset, now))
    {
      hide Splice, Part, BlockStart;
      var segmentStart, segmentEnd := s.fileOffset, Add32(s.fileOffset, s.dataSize);
      if offset >= segmentEnd || readEnd <= segmentStart {
        return copied;
      }
      var overlapStart, overlapEnd := Max(offset, segmentStart), Min(readEnd, segmentEnd);
      var readStart, readSize := overlapStart - segmentStart, overlapEnd - overlapStart;
      ghost var disk := Disk();
      var ok := ReadBytes(device, blockBuffer, s.dataOffset + readStart, buffer, copied, readSize);
      SegmentSlice(disk, content, s, segmentStart, readStart, readSize);
      ReadMore(before, 0, content, offset, copied, readSize);
      return copied + readSize;
    }

    /** The loop of logfs_read_file_part over the segment table. */
    method CollectSegments(id: u32, offset: u32, wanted: u32, buffer: array<byte>, ghost content: seq<byte>)
      returns (copied: nat)
      requires Valid() && device != null && buffer != blockBuffer && buffer != device.storage
      requires WellFormed(Vol(), superblock.logOffset) && Readable(Disk(), Vol())
      requires content == Content(Disk(), Vol().segs, id) && |content| == SizeOf(Vol().segs, id) < TWO_32
      requires wanted <= buffer.Length && offset + wanted <= |content|
      modifies buffer, blockBuffer
      ensures copied == wanted && buffer[..] == Splice(old(buffer[..]), 0, Part(content, offset, wanted))
    {
      hide Splice, Part, BlockStart, Content, WellFormed, SizeOf, Readable;
      ghost var disk, v, before := Disk(), Vol(), buffer[..];
      var readEnd := offset + wanted;
      var k := 0;
      copied := 0;
      NoSegments(v.segs, id);
      NothingPart(content, offset);
      SpliceNothing(before, 0);
      while k < segmentCount && copied < wanted
        invariant 0 <= k <= segmentCount && 0 <= copied <= wanted
        invariant Disk() == disk && Vol() == v && Valid()
        invariant copied == Covered(SizeOf(v.segs[..k], id), offset, readEnd)
        invariant buffer[..] == Splice(before, 0, Part(content, offset, copied))
      {
        var s := segments[k];
        assert s == v.segs[k];
        SegmentFacts(disk, v, k, superblock.logOffset, id);
        if s.fileId == id {
          copied := CopyOverlap(s, offset, readEnd, buffer, copied, before, content);
        }
        k := k + 1;
      }
      assert v.segs[..|v.segs|] == v.segs;
    }

    /** logfs_read_file_part: the number of bytes read, or -1. On well-formed tables it returns exactly the
        requested slice of the file, cut off at the end of the file. */
    method ReadFilePart(name: CString, offset: u32, buffer: array<byte>, size: u32) returns (n: int)
      requires Valid() && size <= buffer.Length && buffer != blockBuffer
      requires device != null ==> buffer != device.storage
      requires ready ==> WellFormed(Vol(), superblock.logOffset)
      modifies buffer, blockBuffer
      ensures Valid() && Vol() == old(Vol())
      ensures !ready ==> n == -1
      ensures ready ==> Readable(old(Disk()), Vol())
      ensures ready ==>
        var stored := Files(old(Disk()), Vol());
        if name !in stored || offset > |stored[name]| then n == -1 && buffer[..] == old(buffer[..])
        else
          && n == Min(size, |stored[name]| - offset)
          && buffer[..] == Splice(old(buffer[..]), 0, stored[name][offset..offset + n])
    {
      hide Splice, Part, BlockStart, FindFrom, Content, WellFormed, Files, SizeOf, Readable;
      if !ready {
        return -1;
      }
      ghost var disk, v, before := Disk(), Vol(), buffer[..];
      WellFormedReadable(disk, v, superblock.logOffset);
      NameStored(disk, v, name);
      var found := FindSlot(ByName(name));
      if found.None? {
        return -1;
      }
      var f := files[found.value];
      ghost var content := Files(disk, v)[name];
      StoredFile(disk, v, found.value, superblock.logOffset);
      if offset > f.size {
        return -1;
      }
      var wanted := Min(size, f.size - offset);
      SpliceNothing(before, 0);
      assert content[offset..offset + 0] == [] == Part(content, offset, 0) by { PartIsSlice(content, offset, 0); }
      if wanted == 0 {
        return 0;
      }
      n := CollectSegments(f.id, offset, wanted, buffer, content);
      PartIsSlice(content, offset, n);
    }

    /** logfs_read_file: the whole file, or -1 when it does not exist or does not fit. */
    method ReadFile(name: CString, buffer: array<byte>, maxSize: u32) returns (n: int)
      requires Valid() && maxSize <= buffer.Length && buffer != blockBuffer
      requires device != null ==> buffer != device.storage
      requires ready ==> WellFormed(Vol(), superblock.logOffset)
      modifies buffer, blockBuffer
      ensures Valid() && Vol() == old(Vol())
      ensures !ready ==> n == -1
      ensures ready ==> Readable(old(Disk()), Vol())
      ensures ready ==>
        var stored := Files(old(Disk()), Vol());
        if name !in stored || |stored[name]| > maxSize then n == -1 && buffer[..] == old(buffer[..])
        else n == |stored[name]| && buffer[..] == Splice(old(buffer[..]), 0, stored[name])
    {
      hide Splice, BlockStart, FindFrom, Content, WellFormed, Files, Readable;
      if !ready {
        return -1;
      }
      ghost var disk, v := Disk(), Vol();
      WellFormedReadable(disk, v, superblock.logOffset);
      NameStored(disk, v, name);
      var found := FindSlot(ByName(name));
      if found.None? {
        return -1;
      }
      StoredFile(disk, v, found.value, superblock.logOffset);
      if files[found.value].size > maxSize {
        return -1;
      }
      n := ReadFilePart(name, 0, buffer, files[found.value].size);
      assert Files(disk, v)[name][0..n] == Files(disk, v)[name];
    }
  }

  /** The size in the table is the length of the stored contents. */
  lemma StoredFile(disk: seq<byte>, v: Volume, i: nat, logOffset: nat)
    requires v.capacity <= |disk| && WellFormed(v, logOffset) && i < |v.files| && v.files[i].File?
    ensures Readable(disk, v) && v.files[i].name in Files(disk, v)
    ensures Files(disk, v)[v.files[i].name] == Content(disk, v.segs, v.files[i].id)
    ensures |Files(disk, v)[v.files[i].name]| == v.files[i].size == SizeOf(v.segs, v.files[i].id)
  {
    hide Files;
    WellFormedReadable(disk, v, logOffset);
    FilesAt(disk, v, i);
  }

  lemma SegmentSizes(v: Volume, k: nat, logOffset: nat)
    requires WellFormed(v, logOffset) && k < |v.segs|
    ensures v.segs[k].fileOffset == SizeOf(v.segs[..k], v.segs[k].fileId)
    ensures v.segs[k].dataOffset + v.segs[k].dataSize <= v.capacity
    ensures SizeOf(v.segs, v.segs[k].fileId) < TWO_32
  {
    hide FilesOk, NamesDistinct, Owned, SizeOf, CountOf;
    var low, high := logOffset + HEADER_SIZE, DataEnd(v);
    assert SegmentOk(v.segs, k, low, high);
    SizeBound(v.segs, v.segs[k].fileId, low, high);
  }

  lemma SizeStep(segs: seq<Segment>, k: nat, id: u32)
    requires k < |segs|
    ensures SizeOf(segs[..k + 1], id) == SizeOf(segs[..k], id) + if segs[k].fileId == id then segs[k].dataSize else 0
  {
    assert segs[..k + 1][..k] == segs[..k];
  }

  /** Segment k starts where the earlier segments of its file end and holds the file's bytes from there. */
  lemma SegmentFacts(disk: seq<byte>, v: Volume, k: nat, logOffset: nat, id: u32)
    requires v.capacity <= |disk| && WellFormed(v, logOffset) && k < |v.segs|
    ensures Readable(disk, v)
    ensures var s := v.segs[k];
      && s.fileOffset == SizeOf(v.segs[..k], s.fileId)
      && s.dataOffset + s.dataSize <= v.capacity
      && s.fileOffset + s.dataSize <= SizeOf(v.segs, s.fileId) < TWO_32
      && Content(disk, v.segs, s.fileId)[s.fileOffset..s.fileOffset + s.dataSize]
        == disk[s.dataOffset..s.dataOffset + s.dataSize]
    ensures SizeOf(v.segs[..k + 1], id) == SizeOf(v.segs[..k], id) + if v.segs[k].fileId == id then v.segs[k].dataSize
      else 0
  {
    hide Content, WellFormed, SizeOf;
    WellFormedReadable(disk, v, logOffset);
    SegmentSizes(v, k, logOffset);
    ContentAt(disk, v.segs, k);
    SizeStep(v.segs, k, id);
  }

  lemma NothingPart(content: seq<byte>, offset: nat)
    ensures Part(content, offset, 0) == []
  {
  }

  lemma NoSegments(segs: seq<Segment>, id: u32)
    ensures SizeOf(segs[..0], id) == 0
  {
  }

  /** How much of [offset, readEnd) lies below position `c` of the file. */
  function Covered(c: nat, offset: nat, readEnd: nat): nat {
    Max(0, Min(c, readEnd) - offset)
  }

  /** A piece of a segment is a piece of the file. */
  lemma SegmentSlice(disk: seq<byte>, content: seq<byte>, s: Segment, start: nat, i: nat, n: nat)
    requires s.dataOffset + s.dataSize <= |disk| && start + s.dataSize <= |content| && i + n <= s.dataSize
    requires content[start..start + s.dataSize] == disk[s.dataOffset..s.dataOffset + s.dataSize]
    ensures Part(disk, s.dataOffset + i, n) == Part(content, start + i, n)
  {
    PieceOf(content, start, s.dataSize, i, n);
    PieceOf(disk, s.dataOffset, s.dataSize, i, n);
  }

  lemma PieceOf(bytes: seq<byte>, start: nat, size: nat, i: nat, n: nat)
    requires start + size <= |bytes| && i + n <= size
    ensures Part(bytes, start + i, n) == bytes[start..start + size][i..i + n]
  {
    SliceOfSlice(bytes, start, start + size, i, i + n);
  }

  /** What has been read to the front of a buffer. */
  lemma FrontRead(buffer: seq<byte>, disk: seq<byte>, offset: nat, n: nat)
    requires n <= |buffer| && offset + n <= |disk|
    ensures Splice(buffer, 0, Part(disk, offset, n))[..n] == disk[offset..offset + n]
  {
  }
}
