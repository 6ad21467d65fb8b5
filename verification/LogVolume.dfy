/** The in-memory tables of LogFS as values: replay at mount, the live operations, and well-formedness. */
module LogVolume {
  import opened Bytes
  import opened LogFormat
  import opened BlockIO

  const NAME_MAX := 32
  const MAX_FILES := 16
  const MAX_SEGMENTS := 64

  datatype Slot = Unused | File(name: CString, id: u32, size: u32, segmentCount: u32)

  datatype Segment = Segment(fileId: u32, fileOffset: u32, dataSize: u32, dataOffset: nat)

  datatype Volume = Volume(capacity: nat, files: seq<Slot>, segs: seq<Segment>, nextId: u32, logEnd: nat)

  predicate NameValid(name: CString) {
    0 < |name| < NAME_MAX && SLASH !in name
  }

  /** The three table searches. */
  datatype Query = ByName(name: CString) | ById(id: u32) | AnyUnused

  predicate Matches(q: Query, slot: Slot) {
    match q
    case ByName(name) => slot.File? && slot.name == name
    case ById(id) => slot.File? && slot.id == id
    case AnyUnused => slot.Unused?
  }

  /** The first matching slot from `i` on. */
  function FindFrom(files: seq<Slot>, q: Query, i: nat): (r: Option<nat>)
    requires i <= |files|
    ensures r.Some? ==> i <= r.value < |files| && Matches(q, files[r.value])
    ensures r.Some? ==> forall k :: i <= k < r.value ==> !Matches(q, files[k])
    ensures r.None? ==> forall k :: i <= k < |files| ==> !Matches(q, files[k])
    decreases |files| - i
  {
    if i == |files| then None
    else if Matches(q, files[i]) then Some(i)
    else FindFrom(files, q, i + 1)
  }

  function Find(files: seq<Slot>, q: Query): (r: Option<nat>)
    ensures r.Some? ==> r.value < |files| && Matches(q, files[r.value])
    ensures r.Some? ==> forall k :: 0 <= k < r.value ==> !Matches(q, files[k])
    ensures r.None? ==> forall k :: 0 <= k < |files| ==> !Matches(q, files[k])
  {
    FindFrom(files, q, 0)
  }

  /** A new empty file in slot `i`. */
  function AddFile(v: Volume, i: nat, name: CString, id: u32): Volume
    requires i < |v.files|
  {
    v.(files := v.files[i := File(name, id, 0, 0)])
  }

  /** `n` more bytes for the file in slot `i`, stored at `dataOffset`. */
  function AddSegment(v: Volume, i: nat, n: u32, dataOffset: nat): Volume
    requires i < |v.files| && v.files[i].File?
  {
    var f := v.files[i];
    v.(segs := v.segs + [Segment(f.id, f.size, n, dataOffset)],
       files := v.files[i := f.(size := Add32(f.size, n), segmentCount := Add32(f.segmentCount, 1))])
  }

  /** The effect of an intact creation record; None when replay refuses it. */
  function ReplayCreate(v: Volume, h: Header, payload: seq<byte>): Option<Volume>
    requires |payload| == h.payloadSize
  {
    if h.nameLength == 0 || h.nameLength >= NAME_MAX then None
    else if h.payloadSize != h.nameLength + 1 || payload[h.nameLength] != NUL then None
    else
      var name := AsCString(payload);
      if !NameValid(name) then None
      else if Find(v.files, ByName(name)).Some? || Find(v.files, ById(h.fileId)).Some? then None
      else match Find(v.files, AnyUnused)
        case None => None
        case Some(i) =>
          Some(AddFile(v, i, name, h.fileId).(nextId := if h.fileId >= v.nextId then Add32(h.fileId, 1) else v.nextId))
  }

  /** The effect of an intact append record; None when replay refuses it. */
  function ReplayAppend(v: Volume, h: Header, payloadOffset: nat): Option<Volume> {
    match Find(v.files, ById(h.fileId))
    case None => None
    case Some(i) =>
      if h.payloadSize == 0 then None
      else if v.files[i].size != h.sizeBefore || h.sizeAfter != Add32(h.sizeBefore, h.payloadSize) then None
      else if |v.segs| >= MAX_SEGMENTS then None
      else Some(AddSegment(v, i, h.payloadSize, payloadOffset))
  }

  function ApplyRecord(v: Volume, h: Header, payload: seq<byte>, payloadOffset: nat): (r: Option<Volume>)
    requires |payload| == h.payloadSize
    ensures r.Some? ==> r.value.capacity == v.capacity
  {
    if h.kind == RECORD_CREATE then ReplayCreate(v, h, payload)
    else if h.kind == RECORD_APPEND then ReplayAppend(v, h, payloadOffset)
    else None
  }

  /** One turn of the replay loop: the record at the log end, or None where replay stops. */
  function ReplayStep(disk: seq<byte>, v: Volume): (r: Option<Volume>)
    requires v.capacity <= |disk|
    ensures r.Some? ==> v.logEnd + HEADER_SIZE <= r.value.logEnd <= v.capacity && r.value.capacity == v.capacity
  {
    if v.logEnd + HEADER_SIZE > v.capacity then None
    else match ParseRecord(disk, v.logEnd, v.capacity)
      case Blank => None
      case Damaged => None
      case Intact(h, payload, size) =>
        match ApplyRecord(v, h, payload, v.logEnd + HEADER_SIZE)
        case None => None
        case Some(v') => Some(v'.(logEnd := v.logEnd + size))
  }

  /** The whole replay. Every accepted record moves the log end by at least a header, so this ends. */
  function Replay(disk: seq<byte>, v: Volume): (r: Volume)
    requires v.capacity <= |disk|
    ensures r.capacity == v.capacity
    ensures r == v || v.logEnd + HEADER_SIZE <= r.logEnd <= r.capacity
    decreases v.capacity - v.logEnd
  {
    match ReplayStep(disk, v)
    case None => v
    case Some(v') => Replay(disk, v')
  }

  function SuperblockValid(sb: Superblock, blockSize: nat, blockCount: nat): bool {
    && sb.magic == LOGFS_MAGIC && sb.version == LOGFS_VERSION
    && sb.blockSize == blockSize && sb.blockCount <= blockCount && sb.logOffset >= blockSize
  }

  function EmptyVolume(capacity: nat, logOffset: nat): (v: Volume)
    ensures |v.files| == MAX_FILES && forall i :: 0 <= i < MAX_FILES ==> v.files[i] == Unused
  {
    Volume(capacity, seq(MAX_FILES, _ => Unused), [], 1, logOffset)
  }

  /** The state that mounting the image leaves behind; None when the mount fails. */
  function MountVolume(disk: seq<byte>, blockSize: nat, blockCount: nat): (r: Option<Volume>)
    requires |disk| == BlockStart(blockCount, blockSize)
    ensures r.Some? ==> r.value.capacity <= |disk|
  {
    if blockSize == 0 || blockSize > IO_BUFFER_SIZE || |disk| < SUPERBLOCK_SIZE then None
    else
      var sb := DecodeSuperblock(disk);
      if !SuperblockValid(sb, blockSize, blockCount) then None
      else
        BlockStartMonotone(sb.blockCount, blockCount, blockSize);
        Some(Replay(disk, EmptyVolume(BlockStart(sb.blockCount, blockSize), sb.logOffset)))
  }

  /** A device is mounted exactly when its blocks fit the buffer and its superblock has the magic number, version 1,
      the device's own block size, no more blocks than the device and a log that starts behind the first block. */
  lemma MountedIff(disk: seq<byte>, blockSize: nat, blockCount: nat)
    requires |disk| == BlockStart(blockCount, blockSize)
    ensures MountVolume(disk, blockSize, blockCount).Some? <==>
              && 1 <= blockSize <= 512 && 20 <= |disk| && U32At(disk, 0) == 0x5346474c && U32At(disk, 4) == 1
              && U32At(disk, 8) == blockSize && U32At(disk, 12) <= blockCount && blockSize <= U32At(disk, 16)
    ensures MountVolume(disk, blockSize, blockCount).Some? ==>
              var v := MountVolume(disk, blockSize, blockCount).value;
              v.capacity == U32At(disk, 12) * blockSize && U32At(disk, 16) <= v.logEnd
  {
    hide U32At, Replay;
    if MountVolume(disk, blockSize, blockCount).Some? {
      BlockStartIsProduct(U32At(disk, 12), blockSize);
    }
  }

  /** What a live operation leaves: its success, the device contents and the tables. */
  datatype Outcome = Outcome(ok: bool, disk: seq<byte>, vol: Volume)

  function RecordHeader(kind: u32, id: u32, sizeBefore: u32, sizeAfter: u32, nameLength: u32,
                        payloadSize: u32): Header {
    Header(RECORD_MAGIC, kind, id, payloadSize, sizeBefore, sizeAfter, 0, nameLength)
  }

  predicate RecordFits(v: Volume, n: nat) {
    n <= MAX_PAYLOAD && v.logEnd + RecordSize(n) <= v.capacity
  }

  /** The device and log end after a record has been written at the log end. */
  function WriteRecord(disk: seq<byte>, v: Volume, h: Header, payload: seq<byte>): (r: seq<byte>)
    requires RecordFits(v, |payload|) && v.capacity <= |disk|
    ensures |r| == |disk|
  {
    Splice(disk, v.logEnd, RecordBytes(h, payload))
  }

  function CreateHeader(v: Volume, name: CString): Header
    requires |name| < NAME_MAX
  {
    RecordHeader(RECORD_CREATE, v.nextId, 0, 0, |name|, |name| + 1)
  }

  /** logfs_create: an id is consumed even when the record does not fit any more. */
  function Create(disk: seq<byte>, v: Volume, name: CString): (r: Outcome)
    requires v.capacity <= |disk|
    ensures |r.disk| == |disk| && r.vol.capacity == v.capacity
  {
    if !NameValid(name) || Find(v.files, ByName(name)).Some? then Outcome(false, disk, v)
    else match Find(v.files, AnyUnused)
      case None => Outcome(false, disk, v)
      case Some(i) =>
        var v1 := v.(nextId := Add32(v.nextId, 1));
        if !RecordFits(v, |name| + 1) then Outcome(false, disk, v1)
        else Outcome(true, WriteRecord(disk, v, CreateHeader(v, name), name + [NUL]),
                     AddFile(v1, i, name, v.nextId).(logEnd := v.logEnd + RecordSize(|name| + 1)))
  }

  function AppendHeader(f: Slot, n: u32): Header
    requires f.File?
  {
    RecordHeader(RECORD_APPEND, f.id, f.size, Add32(f.size, n), 0, n)
  }

  /** logfs_append: the record is written before the segment table is found to be full. */
  function Append(disk: seq<byte>, v: Volume, name: CString, data: seq<byte>): (r: Outcome)
    requires v.capacity <= |disk| && |data| < TWO_32
    ensures |r.disk| == |disk| && r.vol.capacity == v.capacity
  {
    if data == [] then Outcome(false, disk, v)
    else match Find(v.files, ByName(name))
      case None => Outcome(false, disk, v)
      case Some(i) =>
        if !RecordFits(v, |data|) then Outcome(false, disk, v)
        else
          var disk' := WriteRecord(disk, v, AppendHeader(v.files[i], |data|), data);
          var end := v.logEnd + RecordSize(|data|);
          if |v.segs| >= MAX_SEGMENTS then Outcome(false, disk', v.(logEnd := end))
          else Outcome(true, disk', AddSegment(v, i, |data|, v.logEnd + HEADER_SIZE).(logEnd := end))
  }

  // ---- Well-formedness ----

  /** The total length of a file's segments. */
  function SizeOf(segs: seq<Segment>, id: u32): nat {
    if segs == [] then 0
    else SizeOf(segs[..|segs| - 1], id) + if segs[|segs| - 1].fileId == id then segs[|segs| - 1].dataSize else 0
  }

  function CountOf(segs: seq<Segment>, id: u32): nat {
    if segs == [] then 0
    else CountOf(segs[..|segs| - 1], id) + if segs[|segs| - 1].fileId == id then 1 else 0
  }

  ghost predicate NamesDistinct(files: seq<Slot>) {
    forall i, j :: 0 <= i < j < |files| && files[i].File? && files[j].File? ==>
      files[i].name != files[j].name && files[i].id != files[j].id
  }

  ghost predicate FilesOk(files: seq<Slot>, segs: seq<Segment>) {
    forall i :: 0 <= i < |files| && files[i].File? ==>
      && NameValid(files[i].name)
      && files[i].size == SizeOf(segs, files[i].id)
      && files[i].segmentCount == CountOf(segs, files[i].id)
  }

  predicate Owned(files: seq<Slot>, id: u32) {
    exists i :: 0 <= i < |files| && files[i].File? && files[i].id == id
  }

  /** Segment k continues its file where the earlier segments of that file end, inside [low, high). */
  ghost predicate SegmentOk(segs: seq<Segment>, k: nat, low: nat, high: nat)
    requires k < |segs|
  {
    && 0 < segs[k].dataSize <= MAX_PAYLOAD
    && segs[k].fileOffset == SizeOf(segs[..k], segs[k].fileId)
    && low <= segs[k].dataOffset && segs[k].dataOffset + segs[k].dataSize <= high
  }

  ghost predicate SegmentsOk(segs: seq<Segment>, low: nat, high: nat) {
    && (forall k :: 0 <= k < |segs| ==> SegmentOk(segs, k, low, high))
    && (forall j, k :: 0 <= j < k < |segs| ==> segs[j].dataOffset + segs[j].dataSize <= segs[k].dataOffset)
  }

  /** The data of a volume lies between the first possible payload and the log end, inside the capacity. */
  function DataEnd(v: Volume): nat {
    Min(v.logEnd, v.capacity)
  }

  /** Distinct names and ids, valid names, sizes and counts that agree with the segment table, and segments
      that tile [0, size) of each file in table order, in disjoint increasing parts of the log. */
  ghost predicate WellFormed(v: Volume, logOffset: nat) {
    && |v.files| == MAX_FILES && |v.segs| <= MAX_SEGMENTS && logOffset <= v.logEnd
    && NamesDistinct(v.files)
    && FilesOk(v.files, v.segs)
    && SegmentsOk(v.segs, logOffset + HEADER_SIZE, DataEnd(v))
    && (forall k :: 0 <= k < |v.segs| ==> Owned(v.files, v.segs[k].fileId))
  }

  lemma {:induction false} SizeBound(segs: seq<Segment>, id: u32, low: nat, high: nat)
    requires forall k :: 0 <= k < |segs| ==> SegmentOk(segs, k, low, high)
    ensures SizeOf(segs, id) <= MAX_PAYLOAD * |segs| && CountOf(segs, id) <= |segs|
  {
    if segs != [] {
      var init := segs[..|segs| - 1];
      assert SegmentOk(segs, |segs| - 1, low, high);
      forall k | 0 <= k < |init|
        ensures SegmentOk(init, k, low, high)
      {
        assert SegmentOk(segs, k, low, high);
        assert init[..k] == segs[..k];
      }
      SizeBound(init, id, low, high);
    }
  }

  lemma SizeOfAppended(segs: seq<Segment>, s: Segment, id: u32)
    ensures SizeOf(segs + [s], id) == SizeOf(segs, id) + if s.fileId == id then s.dataSize else 0
    ensures CountOf(segs + [s], id) == CountOf(segs, id) + if s.fileId == id then 1 else 0
  {
    assert (segs + [s])[..|segs|] == segs;
  }

  lemma {:induction false} SizeOfUnowned(segs: seq<Segment>, id: u32)
    requires forall k :: 0 <= k < |segs| ==> segs[k].fileId != id
    ensures SizeOf(segs, id) == 0 && CountOf(segs, id) == 0
  {
    if segs != [] {
      SizeOfUnowned(segs[..|segs| - 1], id);
    }
  }

  /** More room keeps the segments in order. */
  lemma SegmentsOkWider(segs: seq<Segment>, low: nat, high: nat, high': nat)
    requires SegmentsOk(segs, low, high) && high <= high'
    ensures SegmentsOk(segs, low, high')
  {
    forall k | 0 <= k < |segs|
      ensures SegmentOk(segs, k, low, high')
    {
      assert SegmentOk(segs, k, low, high);
    }
  }

  lemma SegmentsOkAppended(segs: seq<Segment>, s: Segment, low: nat, high: nat, high': nat)
    requires SegmentsOk(segs, low, high) && high <= s.dataOffset && low <= s.dataOffset
    requires 0 < s.dataSize <= MAX_PAYLOAD && s.dataOffset + s.dataSize <= high'
    requires s.fileOffset == SizeOf(segs, s.fileId)
    ensures SegmentsOk(segs + [s], low, high')
  {
    var segs' := segs + [s];
    forall k | 0 <= k < |segs'|
      ensures SegmentOk(segs', k, low, high')
    {
      assert segs'[..k] == segs[..k];
      assert k < |segs| ==> SegmentOk(segs, k, low, high);
    }
    forall j, k | 0 <= j < k < |segs'|
      ensures segs'[j].dataOffset + segs'[j].dataSize <= segs'[k].dataOffset
    {
      assert SegmentOk(segs, j, low, high);
    }
  }

  lemma EmptyWellFormed(capacity: nat, logOffset: nat)
    ensures WellFormed(EmptyVolume(capacity, logOffset), logOffset)
  {
  }

  /** A fresh valid name and a fresh id in an unused slot keep the tables well formed. */
  lemma AddFileWellFormed(v: Volume, logOffset: nat, i: nat, name: CString, id: u32, end: nat, next: u32)
    requires WellFormed(v, logOffset) && i < |v.files| && v.files[i].Unused? && NameValid(name)
    requires Find(v.files, ByName(name)).None? && Find(v.files, ById(id)).None? && v.logEnd <= end
    ensures WellFormed(AddFile(v, i, name, id).(logEnd := end, nextId := next), logOffset)
  {
    var v' := AddFile(v, i, name, id).(logEnd := end, nextId := next);
    assert forall k :: 0 <= k < |v.files| ==> !Matches(ByName(name), v.files[k]) && !Matches(ById(id), v.files[k]);
    SegmentsOkWider(v.segs, logOffset + HEADER_SIZE, DataEnd(v), DataEnd(v'));
    forall k | 0 <= k < |v.segs|
      ensures Owned(v'.files, v.segs[k].fileId) && v.segs[k].fileId != id
    {
      assert Owned(v.files, v.segs[k].fileId);
      var j :| 0 <= j < |v.files| && v.files[j].File? && v.files[j].id == v.segs[k].fileId;
      assert v'.files[j] == v.files[j];
    }
    SizeOfUnowned(v.segs, id);
  }

  /** The file table after a segment has been added to the file in slot i. */
  lemma FilesOkAppended(v: Volume, i: nat, n: u32, dataOffset: nat)
    requires i < |v.files| && v.files[i].File? && NamesDistinct(v.files) && FilesOk(v.files, v.segs)
    requires v.files[i].size + n < TWO_32 && v.files[i].segmentCount + 1 < TWO_32
    ensures var w := AddSegment(v, i, n, dataOffset);
      FilesOk(w.files, w.segs) && NamesDistinct(w.files)
    ensures AddSegment(v, i, n, dataOffset).files[i].size == v.files[i].size + n
  {
    hide SizeOf, CountOf, NameValid;
    var w := AddSegment(v, i, n, dataOffset);
    var s := w.segs[|v.segs|];
    assert w.segs == v.segs + [s];
    forall k | 0 <= k < |v.files| && w.files[k].File?
      ensures NameValid(w.files[k].name)
      ensures w.files[k].size == SizeOf(w.segs, w.files[k].id)
      ensures w.files[k].segmentCount == CountOf(w.segs, w.files[k].id)
    {
      SizeOfAppended(v.segs, s, v.files[k].id);
    }
  }

  lemma OwnedAppended(v: Volume, i: nat, n: u32, dataOffset: nat)
    requires i < |v.files| && v.files[i].File?
    requires forall k :: 0 <= k < |v.segs| ==> Owned(v.files, v.segs[k].fileId)
    ensures var w := AddSegment(v, i, n, dataOffset);
      forall k :: 0 <= k < |w.segs| ==> Owned(w.files, w.segs[k].fileId)
  {
    var w := AddSegment(v, i, n, dataOffset);
    forall k | 0 <= k < |w.segs|
      ensures Owned(w.files, w.segs[k].fileId)
    {
      if k < |v.segs| {
        assert Owned(v.files, v.segs[k].fileId);
        var j :| 0 <= j < |v.files| && v.files[j].File? && v.files[j].id == v.segs[k].fileId;
        assert w.files[j].id == v.files[j].id;
      } else {
        assert w.files[i].id == w.segs[k].fileId;
      }
    }
  }

  /** A file's size and segment count are those of its segments and stay far below 2^32. */
  lemma FileBound(v: Volume, logOffset: nat, i: nat)
    requires WellFormed(v, logOffset) && i < |v.files| && v.files[i].File?
    ensures v.files[i].size == SizeOf(v.segs, v.files[i].id)
    ensures v.files[i].size <= MAX_PAYLOAD * MAX_SEGMENTS && v.files[i].segmentCount <= MAX_SEGMENTS
  {
    hide Owned, NamesDistinct, SegmentOk, SizeOf, CountOf, NameValid;
    SizeBound(v.segs, v.files[i].id, logOffset + HEADER_SIZE, DataEnd(v));
  }

  /** A segment for an existing file, written past the log end, keeps the tables well formed. */
  lemma AddSegmentWellFormed(v: Volume, logOffset: nat, i: nat, n: u32, end: nat)
    requires WellFormed(v, logOffset) && i < |v.files| && v.files[i].File?
    requires 0 < n <= MAX_PAYLOAD && |v.segs| < MAX_SEGMENTS && v.logEnd + HEADER_SIZE + n <= end <= v.capacity
    ensures WellFormed(AddSegment(v, i, n, v.logEnd + HEADER_SIZE).(logEnd := end), logOffset)
    ensures AddSegment(v, i, n, v.logEnd + HEADER_SIZE).files[i].size == v.files[i].size + n
  {
    hide FilesOk, NamesDistinct, Owned, SegmentsOk, SizeOf, CountOf;
    var v' := AddSegment(v, i, n, v.logEnd + HEADER_SIZE).(logEnd := end);
    FileBound(v, logOffset, i);
    FilesOkAppended(v, i, n, v.logEnd + HEADER_SIZE);
    OwnedAppended(v, i, n, v.logEnd + HEADER_SIZE);
    SegmentsOkAppended(v.segs, v'.segs[|v.segs|], logOffset + HEADER_SIZE, DataEnd(v), DataEnd(v'));
  }

  lemma ReplayStepWellFormed(disk: seq<byte>, v: Volume, logOffset: nat)
    requires v.capacity <= |disk| && WellFormed(v, logOffset) && ReplayStep(disk, v).Some?
    ensures WellFormed(ReplayStep(disk, v).value, logOffset)
  {
    hide ParseRecord, RecordSize, WellFormed;
    var p := ParseRecord(disk, v.logEnd, v.capacity);
    var h, end := p.header, v.logEnd + p.size;
    if h.kind == RECORD_CREATE {
      var name := AsCString(p.payload);
      var i := Find(v.files, AnyUnused).value;
      AddFileWellFormed(v, logOffset, i, name, h.fileId, end,
                        if h.fileId >= v.nextId then Add32(h.fileId, 1) else v.nextId);
    } else {
      var i := Find(v.files, ById(h.fileId)).value;
      AddSegmentWellFormed(v, logOffset, i, h.payloadSize, end);
    }
  }

  lemma {:induction false} ReplayWellFormed(disk: seq<byte>, v: Volume, logOffset: nat)
    requires v.capacity <= |disk| && WellFormed(v, logOffset)
    ensures WellFormed(Replay(disk, v), logOffset)
    decreases v.capacity - v.logEnd
  {
    hide WellFormed, ReplayStep;
    if ReplayStep(disk, v).Some? {
      ReplayStepWellFormed(disk, v, logOffset);
      ReplayWellFormed(disk, ReplayStep(disk, v).value, logOffset);
    }
  }

  /** Mounting any image whatsoever leaves well-formed tables. */
  lemma MountWellFormed(disk: seq<byte>, blockSize: nat, blockCount: nat)
    requires |disk| == BlockStart(blockCount, blockSize) && MountVolume(disk, blockSize, blockCount).Some?
    ensures var v := MountVolume(disk, blockSize, blockCount).value;
      v.capacity <= |disk| && WellFormed(v, DecodeSuperblock(disk).logOffset)
  {
    var sb := DecodeSuperblock(disk);
    hide WellFormed, Replay;
    BlockStartMonotone(sb.blockCount, blockCount, blockSize);
    EmptyWellFormed(BlockStart(sb.blockCount, blockSize), sb.logOffset);
    ReplayWellFormed(disk, EmptyVolume(BlockStart(sb.blockCount, blockSize), sb.logOffset), sb.logOffset);
  }
}
