/** The on-disk format of LogFS: superblock, record headers, checksums and whole records. */
module LogFormat {
  import opened Bytes

  const LOGFS_MAGIC: u32 := 0x5346474c
  const LOGFS_VERSION: u32 := 1
  const RECORD_MAGIC: u32 := 0x4345524c
  const RECORD_CREATE: u32 := 1
  const RECORD_APPEND: u32 := 2
  const RECORD_BUFFER_SIZE := 512
  const HEADER_SIZE := 32
  const SUPERBLOCK_SIZE := 20
  const MAX_PAYLOAD := RECORD_BUFFER_SIZE - HEADER_SIZE

  datatype Superblock = Superblock(magic: u32, version: u32, blockSize: u32, blockCount: u32, logOffset: u32)

  datatype Header = Header(magic: u32, kind: u32, fileId: u32, payloadSize: u32,
                           sizeBefore: u32, sizeAfter: u32, checksum: u32, nameLength: u32)

  function EncodeSuperblock(sb: Superblock): (s: seq<byte>)
    ensures |s| == SUPERBLOCK_SIZE
  {
    Le32(sb.magic) + Le32(sb.version) + Le32(sb.blockSize) + Le32(sb.blockCount) + Le32(sb.logOffset)
  }

  function DecodeSuperblock(s: seq<byte>): Superblock
    requires SUPERBLOCK_SIZE <= |s|
  {
    Superblock(U32At(s, 0), U32At(s, 4), U32At(s, 8), U32At(s, 12), U32At(s, 16))
  }

  function EncodeHeader(h: Header): (s: seq<byte>)
    ensures |s| == HEADER_SIZE
  {
    Le32(h.magic) + Le32(h.kind) + Le32(h.fileId) + Le32(h.payloadSize)
    + (Le32(h.sizeBefore) + Le32(h.sizeAfter) + Le32(h.checksum) + Le32(h.nameLength))
  }

  function DecodeHeader(s: seq<byte>): Header
    requires |s| == HEADER_SIZE
  {
    Header(U32At(s, 0), U32At(s, 4), U32At(s, 8), U32At(s, 12),
           U32At(s, 16), U32At(s, 20), U32At(s, 24), U32At(s, 28))
  }

  lemma SuperblockRoundTrip(sb: Superblock, rest: seq<byte>)
    ensures DecodeSuperblock(EncodeSuperblock(sb) + rest) == sb
  {
    var s := EncodeSuperblock(sb) + rest;
    var a, b, c, d, e := Le32(sb.magic), Le32(sb.version), Le32(sb.blockSize), Le32(sb.blockCount), Le32(sb.logOffset);
    hide Le32, U32At;
    assert s[0..4] == a && s[4..8] == b && s[8..12] == c && s[12..16] == d && s[16..20] == e;
    U32AtOfLe32(s, 0, sb.magic);
    U32AtOfLe32(s, 4, sb.version);
    U32AtOfLe32(s, 8, sb.blockSize);
    U32AtOfLe32(s, 12, sb.blockCount);
    U32AtOfLe32(s, 16, sb.logOffset);
  }

  lemma HeaderRoundTrip(h: Header)
    ensures DecodeHeader(EncodeHeader(h)) == h
  {
    var s := EncodeHeader(h);
    hide Le32, U32At;
    assert s[0..4] == Le32(h.magic) && s[4..8] == Le32(h.kind);
    assert s[8..12] == Le32(h.fileId) && s[12..16] == Le32(h.payloadSize);
    assert s[16..20] == Le32(h.sizeBefore) && s[20..24] == Le32(h.sizeAfter);
    assert s[24..28] == Le32(h.checksum) && s[28..32] == Le32(h.nameLength);
    U32AtOfLe32(s, 0, h.magic);
    U32AtOfLe32(s, 4, h.kind);
    U32AtOfLe32(s, 8, h.fileId);
    U32AtOfLe32(s, 12, h.payloadSize);
    U32AtOfLe32(s, 16, h.sizeBefore);
    U32AtOfLe32(s, 20, h.sizeAfter);
    U32AtOfLe32(s, 24, h.checksum);
    U32AtOfLe32(s, 28, h.nameLength);
  }

  /** The 32-bit multiply-by-33 checksum. */
  function Checksum(seed: u32, data: seq<byte>): u32 {
    if data == [] then seed
    else (Checksum(seed, data[..|data| - 1]) * 33 + data[|data| - 1] as int) % 0x1_0000_0000
  }

  /** Rounds up to a multiple of 8 in 32-bit arithmetic. */
  function AlignUp(v: u32): u32 {
    var t := Add32(v, 7);
    t - t % 8
  }

  /** The size of a record with `n` payload bytes. */
  function RecordSize(n: nat): (size: nat)
    requires n <= MAX_PAYLOAD
    ensures HEADER_SIZE + n <= size < HEADER_SIZE + n + 8 && size <= RECORD_BUFFER_SIZE && size % 8 == 0
  {
    AlignUp(HEADER_SIZE + n)
  }

  /** The record size as replay computes it from a header field, in 32 bits and before the field is checked. */
  function ClaimedSize(payloadSize: u32): (size: u32)
    ensures payloadSize <= MAX_PAYLOAD ==> size == RecordSize(payloadSize)
  {
    ClaimedSum(payloadSize);
    AlignUp(Add32(HEADER_SIZE, payloadSize))
  }

  lemma ClaimedSum(payloadSize: u32)
    ensures payloadSize <= MAX_PAYLOAD ==> Add32(HEADER_SIZE, payloadSize) == HEADER_SIZE + payloadSize
  {
  }

  function RecordChecksum(h: Header, payload: seq<byte>): u32 {
    Checksum(Checksum(0, EncodeHeader(h.(checksum := 0))), payload)
  }

  /** A record as it is laid out in the log. */
  function RecordBytes(h: Header, payload: seq<byte>): (s: seq<byte>)
    requires |payload| <= MAX_PAYLOAD
    ensures |s| == RecordSize(|payload|)
  {
    EncodeHeader(h.(checksum := RecordChecksum(h, payload))) + payload
    + Zeros(RecordSize(|payload|) - HEADER_SIZE - |payload|)
  }

  /** What replay finds at a log position: zeros, something unusable, or an intact record. */
  datatype Parsed = Blank | Damaged | Intact(header: Header, payload: seq<byte>, size: nat)

  /** Reads the record at `offset`; an intact one is reported with its checksum field cleared. */
  function ParseRecord(disk: seq<byte>, offset: nat, capacity: nat): (p: Parsed)
    requires offset + HEADER_SIZE <= capacity <= |disk|
    ensures p.Intact? ==> |p.payload| == p.header.payloadSize <= MAX_PAYLOAD && p.size == RecordSize(|p.payload|)
    ensures p.Intact? ==> offset + p.size <= capacity
  {
    hide *;
    var h := DecodeHeader(disk[offset..offset + HEADER_SIZE]);
    if h.magic == 0 then Blank
    else if h.magic != RECORD_MAGIC then Damaged
    else
      var size := ClaimedSize(h.payloadSize);
      if size < HEADER_SIZE || offset + size > capacity || h.payloadSize > MAX_PAYLOAD then Damaged
      else
        var payload := disk[offset + HEADER_SIZE..offset + HEADER_SIZE + h.payloadSize];
        if RecordChecksum(h, payload) != h.checksum then Damaged
        else Intact(h.(checksum := 0), payload, size)
  }

  /** Where the header and the payload of a written record are found. */
  lemma WrittenParts(disk: seq<byte>, offset: nat, h: Header, payload: seq<byte>)
    requires |payload| <= MAX_PAYLOAD && offset + RecordSize(|payload|) <= |disk|
    ensures var written := Splice(disk, offset, RecordBytes(h, payload));
      && written[offset..offset + HEADER_SIZE] == EncodeHeader(h.(checksum := RecordChecksum(h, payload)))
      && written[offset + HEADER_SIZE..offset + HEADER_SIZE + |payload|] == payload
  {
    var record := RecordBytes(h, payload);
    SpliceSlice(disk, offset, record, 0, HEADER_SIZE);
    SpliceSlice(disk, offset, record, HEADER_SIZE, HEADER_SIZE + |payload|);
    hide EncodeHeader, RecordChecksum, RecordSize, Splice;
    assert record[0..HEADER_SIZE] == EncodeHeader(h.(checksum := RecordChecksum(h, payload)));
    assert record[HEADER_SIZE..HEADER_SIZE + |payload|] == payload;
  }

  /** What replay finds where a complete record lies. */
  lemma ParseOf(disk: seq<byte>, offset: nat, capacity: nat, h: Header, payload: seq<byte>)
    requires |payload| <= MAX_PAYLOAD && h.magic == RECORD_MAGIC && h.payloadSize == |payload|
    requires offset + RecordSize(|payload|) <= capacity <= |disk| && RecordChecksum(h, payload) == h.checksum
    requires DecodeHeader(disk[offset..offset + HEADER_SIZE]) == h
    requires disk[offset + HEADER_SIZE..offset + HEADER_SIZE + |payload|] == payload
    ensures ParseRecord(disk, offset, capacity) == Intact(h.(checksum := 0), payload, RecordSize(|payload|))
  {
    hide DecodeHeader, RecordChecksum, RecordSize, ClaimedSize;
  }

  /** Reading back a record that was just written returns its header and payload. */
  lemma ParseWritten(disk: seq<byte>, offset: nat, capacity: nat, h: Header, payload: seq<byte>)
    requires |payload| <= MAX_PAYLOAD && h.magic == RECORD_MAGIC && h.payloadSize == |payload| && h.checksum == 0
    requires offset + RecordSize(|payload|) <= capacity <= |disk|
    ensures ParseRecord(Splice(disk, offset, RecordBytes(h, payload)), offset, capacity)
         == Intact(h, payload, RecordSize(|payload|))
  {
    hide EncodeHeader, DecodeHeader, RecordChecksum, RecordBytes, RecordSize, ParseRecord, Splice;
    var stored := h.(checksum := RecordChecksum(h, payload));
    WrittenParts(disk, offset, h, payload);
    ChecksumIgnoresItself(h, payload, stored.checksum);
    HeaderRoundTrip(stored);
    ParseOf(Splice(disk, offset, RecordBytes(h, payload)), offset, capacity, stored, payload);
    assert stored.(checksum := 0) == h;
  }

  lemma ChecksumIgnoresItself(h: Header, payload: seq<byte>, sum: u32)
    ensures RecordChecksum(h.(checksum := sum), payload) == RecordChecksum(h, payload)
  {
    assert h.(checksum := sum).(checksum := 0) == h.(checksum := 0);
  }

  lemma ParseSame(disk: seq<byte>, disk': seq<byte>, offset: nat, capacity: nat)
    requires offset + HEADER_SIZE <= capacity <= |disk| && capacity <= |disk'|
    requires disk[offset..offset + HEADER_SIZE] == disk'[offset..offset + HEADER_SIZE]
    requires var p := ParseRecord(disk, offset, capacity);
      p.Intact? && disk[offset + HEADER_SIZE..offset + HEADER_SIZE + |p.payload|]
                == disk'[offset + HEADER_SIZE..offset + HEADER_SIZE + |p.payload|]
    ensures ParseRecord(disk', offset, capacity) == ParseRecord(disk, offset, capacity)
  {
    hide DecodeHeader, RecordChecksum, RecordSize, ClaimedSize;
  }

  /** What replay finds at a position, intact or not, depends only on the bytes that a record there could occupy. */
  lemma ParseWindow(disk: seq<byte>, disk': seq<byte>, offset: nat, capacity: nat)
    requires offset + HEADER_SIZE <= capacity <= |disk| && capacity <= |disk'|
    requires var end := Min(capacity, offset + HEADER_SIZE + MAX_PAYLOAD); disk[offset..end] == disk'[offset..end]
    ensures ParseRecord(disk', offset, capacity) == ParseRecord(disk, offset, capacity)
  {
    hide DecodeHeader, RecordChecksum, RecordSize;
    var end := Min(capacity, offset + HEADER_SIZE + MAX_PAYLOAD);
    SameWindow(disk, disk', offset, end, HEADER_SIZE, 0);
    var h := DecodeHeader(disk[offset..offset + HEADER_SIZE]);
    if h.payloadSize <= MAX_PAYLOAD && offset + HEADER_SIZE + h.payloadSize <= capacity {
      SameWindow(disk, disk', offset, end, HEADER_SIZE, h.payloadSize);
    }
  }

  lemma SameWindow(disk: seq<byte>, disk': seq<byte>, offset: nat, end: nat, n: nat, m: nat)
    requires offset <= end <= |disk| && end <= |disk'| && disk[offset..end] == disk'[offset..end]
      && offset + n + m <= end
    ensures disk[offset..offset + n] == disk'[offset..offset + n]
    ensures disk[offset + n..offset + n + m] == disk'[offset + n..offset + n + m]
  {
    SliceOfSlice(disk, offset, end, 0, n);
    SliceOfSlice(disk', offset, end, 0, n);
    SliceOfSlice(disk, offset, end, n, n + m);
    SliceOfSlice(disk', offset, end, n, n + m);
  }

  /** An intact record depends only on its own bytes. */
  lemma ParseLocal(disk: seq<byte>, disk': seq<byte>, offset: nat, capacity: nat)
    requires offset + HEADER_SIZE <= capacity <= |disk| && capacity <= |disk'|
    requires var p := ParseRecord(disk, offset, capacity);
      p.Intact? && disk[..offset + p.size] == disk'[..offset + p.size]
    ensures ParseRecord(disk', offset, capacity) == ParseRecord(disk, offset, capacity)
  {
    hide ParseRecord, RecordSize;
    var p := ParseRecord(disk, offset, capacity);
    SamePart(disk, disk', offset + p.size, offset, offset + HEADER_SIZE);
    SamePart(disk, disk', offset + p.size, offset + HEADER_SIZE, offset + HEADER_SIZE + |p.payload|);
    ParseSame(disk, disk', offset, capacity);
  }

  lemma SamePart(a: seq<byte>, b: seq<byte>, end: nat, i: nat, j: nat)
    requires i <= j <= end <= |a| && end <= |b| && a[..end] == b[..end]
    ensures a[i..j] == b[i..j]
  {
    assert a[i..j] == a[..end][i..j];
    assert b[i..j] == b[..end][i..j];
  }

  /** A zeroed log position ends the replay. */
  lemma ParseZeros(disk: seq<byte>, offset: nat, capacity: nat)
    requires offset + HEADER_SIZE <= capacity <= |disk|
    requires forall i :: offset <= i < capacity ==> disk[i] == 0
    ensures ParseRecord(disk, offset, capacity) == Blank
  {
    var s := disk[offset..offset + HEADER_SIZE];
    assert s[0] == 0 && s[1] == 0 && s[2] == 0 && s[3] == 0;
  }
}
