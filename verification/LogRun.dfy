/** Whole runs of LogFS, remounts included: remount equivalence from a freshly formatted image, the exact condition
    under which a run on any image stays visible to a remount, and what an overflow of the segment table does to every
    later operation up to the next mount. */
module LogRun {
  import opened Bytes
  import opened LogFormat
  import opened BlockIO
  import opened LogVolume
  import opened LogRemount
  import opened LogContents

  const BLOCK_SIZE := 512
  const BLOCK_COUNT := 128
  const IMAGE_SIZE := 65536
  const LOG_OFFSET := 512

  datatype Op = CreateOp(name: CString) | AppendOp(name: CString, data: seq<byte>) | RemountOp

  predicate OpValid(op: Op) {
    op.AppendOp? ==> |op.data| < TWO_32
  }

  predicate OpsValid(ops: seq<Op>) {
    forall k :: 0 <= k < |ops| ==> OpValid(ops[k])
  }

  /** One operation on a device of this geometry. A mount that fails leaves nothing mounted: no file and no room. */
  function Step(disk: seq<byte>, blockSize: nat, blockCount: nat, v: Volume, op: Op): (r: Outcome)
    requires |disk| == BlockStart(blockCount, blockSize) && v.capacity <= |disk| && OpValid(op)
    ensures |r.disk| == |disk| && r.vol.capacity <= |disk|
  {
    match op
    case CreateOp(name) => Create(disk, v, name)
    case AppendOp(name, data) => Append(disk, v, name, data)
    case RemountOp =>
      match MountVolume(disk, blockSize, blockCount)
      case None => Outcome(false, disk, EmptyVolume(0, 0))
      case Some(m) => Outcome(true, disk, m)
  }

  /** The operations in order, with the success of each. */
  function Run(disk: seq<byte>, blockSize: nat, blockCount: nat, v: Volume, ops: seq<Op>):
      (r: (seq<byte>, Volume, seq<bool>))
    requires |disk| == BlockStart(blockCount, blockSize) && v.capacity <= |disk| && OpsValid(ops)
    ensures |r.0| == |disk| && r.1.capacity <= |disk|
    decreases |ops|
  {
    if ops == [] then (disk, v, [])
    else
      var o := Step(disk, blockSize, blockCount, v, ops[0]);
      var rest := Run(o.disk, blockSize, blockCount, o.vol, ops[1..]);
      (rest.0, rest.1, [o.ok] + rest.2)
  }

  /** The specification: a map from names to bytes and the number of appends made so far. */
  datatype Spec = Spec(files: map<CString, seq<byte>>, appends: nat)

  predicate SpecAccepts(s: Spec, op: Op) {
    match op
    case CreateOp(name) => NameValid(name) && name !in s.files && |s.files| < 16
    case AppendOp(name, data) => name in s.files && 0 < |data| <= MAX_PAYLOAD
    case RemountOp => true
  }

  function SpecStep(s: Spec, op: Op): Spec {
    if !SpecAccepts(s, op) then s
    else match op
      case CreateOp(name) => Spec(s.files[name := []], s.appends)
      case AppendOp(name, data) => Spec(s.files[name := s.files[name] + data], s.appends + 1)
      case RemountOp => s
  }

  function SpecRun(s: Spec, ops: seq<Op>): (Spec, seq<bool>)
    decreases |ops|
  {
    if ops == [] then (s, [])
    else
      var rest := SpecRun(SpecStep(s, ops[0]), ops[1..]);
      (rest.0, [SpecAccepts(s, ops[0])] + rest.1)
  }

  /** No append is accepted once the segment table is full. */
  predicate NoOverflow(s: Spec, ops: seq<Op>)
    decreases |ops|
  {
    ops != [] ==>
      && (ops[0].AppendOp? && SpecAccepts(s, ops[0]) ==> s.appends < 64)
      && NoOverflow(SpecStep(s, ops[0]), ops[1..])
  }

  /** The image that mklogfs.py writes. */
  function FormatImage(): (image: seq<byte>)
    ensures |image| == IMAGE_SIZE
  {
    EncodeSuperblock(Superblock(LOGFS_MAGIC, LOGFS_VERSION, BLOCK_SIZE, BLOCK_COUNT, LOG_OFFSET))
    + Zeros(IMAGE_SIZE - SUPERBLOCK_SIZE)
  }

  /** Slots are filled in order and file ids count from 1. */
  ghost predicate Numbered(v: Volume) {
    && 1 <= v.nextId <= MAX_FILES + 1 && |v.files| == MAX_FILES
    && forall i :: 0 <= i < MAX_FILES ==>
         && (v.files[i].File? <==> i < v.nextId - 1)
         && (v.files[i].File? ==> v.files[i].id == i + 1)
  }

  /** No record is larger than 64 bytes for a file and 512 for a segment, so the log never fills up. */
  predicate LogBounded(v: Volume) {
    && v.capacity == IMAGE_SIZE && |v.segs| <= MAX_SEGMENTS
    && v.logEnd <= LOG_OFFSET + 64 * (v.nextId - 1) + RECORD_BUFFER_SIZE * |v.segs|
  }

  /** What holds between the live state and the specification after any allowed run. */
  ghost predicate Matching(disk: seq<byte>, v: Volume, s: Spec) {
    && |disk| == IMAGE_SIZE == BlockStart(BLOCK_COUNT, BLOCK_SIZE)
    && MountVolume(disk, BLOCK_SIZE, BLOCK_COUNT) == Some(v)
    && TailZero(disk, v) && LogApart(v)
    && WellFormed(v, LOG_OFFSET) && Numbered(v) && LogBounded(v)
    && Readable(disk, v) && Files(disk, v) == s.files && |v.segs| == s.appends
  }

  /** The image of mklogfs.py is the empty file system. */
  lemma FormatMatching()
    ensures IMAGE_SIZE == BlockStart(BLOCK_COUNT, BLOCK_SIZE)
    ensures Matching(FormatImage(), EmptyVolume(IMAGE_SIZE, LOG_OFFSET), Spec(map[], 0))
  {
    hide EncodeSuperblock, DecodeSuperblock, Replay, BlockStart;
    BlockStartIsProduct(BLOCK_COUNT, BLOCK_SIZE);
    var sb := Superblock(LOGFS_MAGIC, LOGFS_VERSION, BLOCK_SIZE, BLOCK_COUNT, LOG_OFFSET);
    SuperblockRoundTrip(sb, Zeros(IMAGE_SIZE - SUPERBLOCK_SIZE));
    var v := EmptyVolume(IMAGE_SIZE, LOG_OFFSET);
    assert TailZero(FormatImage(), v);
    ReplayStopsAtZeros(FormatImage(), v);
    EmptyWellFormed(IMAGE_SIZE, LOG_OFFSET);
    WellFormedReadable(FormatImage(), v, LOG_OFFSET);
  }

  lemma NumberedFresh(v: Volume)
    requires Numbered(v)
    ensures Find(v.files, ById(v.nextId)).None?
  {
    hide FindFrom;
  }

  lemma CreateNumbered(disk: seq<byte>, v: Volume, name: CString)
    requires Numbered(v) && LogBounded(v) && v.capacity <= |disk|
    ensures NameValid(name) ==> RecordFits(v, |name| + 1)
    ensures var o := Create(disk, v, name); Numbered(o.vol) && LogBounded(o.vol) && o.vol.segs == v.segs
  {
    hide FindFrom, WriteRecord;
    var i := Find(v.files, AnyUnused);
    if i.Some? {
      assert 0 < i.value ==> !Matches(AnyUnused, v.files[i.value - 1]);
      assert i.value == v.nextId - 1;
    }
  }

  lemma AppendNumbered(disk: seq<byte>, v: Volume, name: CString, data: seq<byte>)
    requires Numbered(v) && LogBounded(v) && v.capacity <= |disk| && |data| < TWO_32 && !Overflows(v, name, data)
    ensures |data| <= MAX_PAYLOAD && |v.segs| < MAX_SEGMENTS ==> RecordFits(v, |data|)
    ensures var o := Append(disk, v, name, data);
      Numbered(o.vol) && LogBounded(o.vol) && |o.vol.segs| == |v.segs| + if o.ok then 1 else 0
  {
    hide FindFrom, WriteRecord;
  }

  /** One operation keeps the match, and succeeds exactly when the specification accepts it. */
  lemma StepMatching(disk: seq<byte>, v: Volume, s: Spec, op: Op)
    requires Matching(disk, v, s) && OpValid(op) && NoOverflow(s, [op])
    ensures |disk| == BlockStart(BLOCK_COUNT, BLOCK_SIZE)
    ensures var o := Step(disk, BLOCK_SIZE, BLOCK_COUNT, v, op);
      Matching(o.disk, o.vol, SpecStep(s, op)) && o.ok == SpecAccepts(s, op)
  {
    hide MountVolume, DecodeSuperblock, WellFormed, Numbered, Files, Readable, FindFrom, RecordSize, Create, Append,
         TailZero;
    match op
    case CreateOp(name) => CreateMatching(disk, v, s, name);
    case AppendOp(name, data) => AppendMatching(disk, v, s, name, data);
    case RemountOp =>
  }

  lemma CreateMatching(disk: seq<byte>, v: Volume, s: Spec, name: CString)
    requires Matching(disk, v, s)
    ensures var o := Create(disk, v, name);
      Matching(o.disk, o.vol, SpecStep(s, CreateOp(name))) && o.ok == SpecAccepts(s, CreateOp(name))
  {
    hide MountVolume, DecodeSuperblock, WellFormed, Numbered, Files, Readable, FindFrom, RecordSize, Create, TailZero;
    NumberedFresh(v);
    CreateNumbered(disk, v, name);
    CreateSyncedOnZeros(disk, BLOCK_SIZE, BLOCK_COUNT, v, name);
    CreateRefines(disk, v, name, LOG_OFFSET);
    CreateRefused(disk, v, name);
  }

  lemma AppendMatching(disk: seq<byte>, v: Volume, s: Spec, name: CString, data: seq<byte>)
    requires Matching(disk, v, s) && OpValid(AppendOp(name, data)) && NoOverflow(s, [AppendOp(name, data)])
    ensures var o := Append(disk, v, name, data);
      Matching(o.disk, o.vol, SpecStep(s, AppendOp(name, data))) && o.ok == SpecAccepts(s, AppendOp(name, data))
  {
    hide MountVolume, DecodeSuperblock, WellFormed, Numbered, Files, Readable, FindFrom, RecordSize, Append, TailZero;
    NameStored(disk, v, name);
    AppendNumbered(disk, v, name, data);
    AppendSyncedOnZeros(disk, BLOCK_SIZE, BLOCK_COUNT, v, name, data);
    AppendRefines(disk, v, name, data, LOG_OFFSET);
  }

  /** A creation refused for any reason but lack of log space changes nothing at all. */
  lemma CreateRefused(disk: seq<byte>, v: Volume, name: CString)
    requires v.capacity <= |disk| && (NameValid(name) ==> RecordFits(v, |name| + 1))
    ensures !Create(disk, v, name).ok ==> Create(disk, v, name).vol == v && Create(disk, v, name).disk == disk
  {
  }

  lemma MatchingCapacity(disk: seq<byte>, v: Volume, s: Spec)
    requires Matching(disk, v, s)
    ensures v.capacity <= |disk| == BlockStart(BLOCK_COUNT, BLOCK_SIZE)
  {
  }

  /** Every allowed run keeps the live state, the bytes on the device and the specification in step. */
  lemma {:induction false} RunMatching(disk: seq<byte>, v: Volume, s: Spec, ops: seq<Op>)
    requires Matching(disk, v, s) && NoOverflow(s, ops) && OpsValid(ops)
    ensures |disk| == BlockStart(BLOCK_COUNT, BLOCK_SIZE)
    ensures var r := Run(disk, BLOCK_SIZE, BLOCK_COUNT, v, ops);
      Matching(r.0, r.1, SpecRun(s, ops).0) && r.2 == SpecRun(s, ops).1
    decreases |ops|
  {
    hide Matching, Step, SpecStep, SpecAccepts;
    MatchingCapacity(disk, v, s);
    if ops != [] {
      assert OpValid(ops[0]);
      assert NoOverflow(SpecStep(s, ops[0]), []);
      StepMatching(disk, v, s, ops[0]);
      var o := Step(disk, BLOCK_SIZE, BLOCK_COUNT, v, ops[0]);
      RunMatching(o.disk, o.vol, SpecStep(s, ops[0]), ops[1..]);
    }
  }

  /** After any run from a freshly formatted image, with remounts anywhere in it, that does not overflow the segment
      table, mounting the device rebuilds exactly the live tables, the stored files are those of the specification, and
      every operation succeeded exactly when the specification says so. */
  lemma RemountEquivalence(ops: seq<Op>)
    requires NoOverflow(Spec(map[], 0), ops) && OpsValid(ops)
    ensures IMAGE_SIZE == BlockStart(BLOCK_COUNT, BLOCK_SIZE)
    ensures var r := Run(FormatImage(), BLOCK_SIZE, BLOCK_COUNT, EmptyVolume(IMAGE_SIZE, LOG_OFFSET), ops);
      var spec := SpecRun(Spec(map[], 0), ops);
      && MountVolume(FormatImage(), BLOCK_SIZE, BLOCK_COUNT) == Some(EmptyVolume(IMAGE_SIZE, LOG_OFFSET))
      && MountVolume(r.0, BLOCK_SIZE, BLOCK_COUNT) == Some(r.1)
      && Readable(r.0, r.1) && Files(r.0, r.1) == spec.0.files
      && r.2 == spec.1
  {
    hide Run, SpecRun, NoOverflow, MountVolume, Files, Readable;
    FormatMatching();
    RunMatching(FormatImage(), EmptyVolume(IMAGE_SIZE, LOG_OFFSET), Spec(map[], 0), ops);
  }

  // ---- Any image ----

  /** The operation keeps the live tables visible to a remount: an id not in use, room in the segment table, and no
      older record that replay would apply where the new one ends. */
  predicate Visible(disk: seq<byte>, v: Volume, op: Op)
    requires v.capacity <= |disk| && OpValid(op)
  {
    match op
    case CreateOp(name) =>
      var o := Create(disk, v, name);
      o.ok ==> !Collides(v, name) && ReplayStep(disk, o.vol).None?
    case AppendOp(name, data) =>
      var o := Append(disk, v, name, data);
      !Overflows(v, name, data) && (o.ok ==> ReplayStep(disk, o.vol).None?)
    case RemountOp => true
  }

  predicate AllVisible(disk: seq<byte>, blockSize: nat, blockCount: nat, v: Volume, ops: seq<Op>)
    requires |disk| == BlockStart(blockCount, blockSize) && v.capacity <= |disk| && OpsValid(ops)
    decreases |ops|
  {
    ops != [] ==>
      && Visible(disk, v, ops[0])
      && var o := Step(disk, blockSize, blockCount, v, ops[0]);
         AllVisible(o.disk, blockSize, blockCount, o.vol, ops[1..])
  }

  /** After every operation of the run a remount would find the live tables. */
  ghost predicate AlwaysSynced(disk: seq<byte>, blockSize: nat, blockCount: nat, v: Volume, ops: seq<Op>)
    requires |disk| == BlockStart(blockCount, blockSize) && v.capacity <= |disk| && OpsValid(ops)
    decreases |ops|
  {
    && Synced(disk, blockSize, blockCount, v)
    && (ops != [] ==>
          var o := Step(disk, blockSize, blockCount, v, ops[0]);
          AlwaysSynced(o.disk, blockSize, blockCount, o.vol, ops[1..]))
  }

  lemma StepSynced(disk: seq<byte>, blockSize: nat, blockCount: nat, v: Volume, op: Op)
    requires Synced(disk, blockSize, blockCount, v) && LogApart(v) && OpValid(op)
    ensures var o := Step(disk, blockSize, blockCount, v, op);
      LogApart(o.vol) && (Synced(o.disk, blockSize, blockCount, o.vol) <==> Visible(disk, v, op))
  {
    hide MountVolume, Create, Append, ReplayStep, FindFrom, RecordSize, BlockStart;
    match op
    case CreateOp(name) => CreateSynced(disk, blockSize, blockCount, v, name);
    case AppendOp(name, data) => AppendSynced(disk, blockSize, blockCount, v, name, data);
    case RemountOp =>
  }

  /** On any mounted image, over runs of any length, remounts included: after every operation a remount would find the
      live tables, if and only if every operation passes the three checks that can be made before it. */
  lemma {:induction false} RunSyncedIff(disk: seq<byte>, blockSize: nat, blockCount: nat, v: Volume, ops: seq<Op>)
    requires Synced(disk, blockSize, blockCount, v) && LogApart(v) && OpsValid(ops)
    ensures AlwaysSynced(disk, blockSize, blockCount, v, ops) <==> AllVisible(disk, blockSize, blockCount, v, ops)
    decreases |ops|
  {
    hide Step, Synced, Visible, LogApart, OpValid;
    SyncedCapacity(disk, blockSize, blockCount, v);
    if ops != [] {
      StepSynced(disk, blockSize, blockCount, v, ops[0]);
      var o := Step(disk, blockSize, blockCount, v, ops[0]);
      if Visible(disk, v, ops[0]) {
        RunSyncedIff(o.disk, blockSize, blockCount, o.vol, ops[1..]);
      }
    }
  }

  lemma SyncedCapacity(disk: seq<byte>, blockSize: nat, blockCount: nat, v: Volume)
    requires Synced(disk, blockSize, blockCount, v)
    ensures |disk| == BlockStart(blockCount, blockSize) && v.capacity <= |disk|
  {
    hide MountVolume;
  }

  // ---- Overflow of the segment table ----

  /** Replay of this image ends at `m`, before an intact record that it refuses; `end` is where that record ends. */
  ghost predicate Frozen(disk: seq<byte>, blockSize: nat, blockCount: nat, m: Volume, end: nat) {
    && |disk| == BlockStart(blockCount, blockSize) && SUPERBLOCK_SIZE <= m.logEnd
    && MountVolume(disk, blockSize, blockCount) == Some(m)
    && m.logEnd + HEADER_SIZE <= m.capacity <= |disk|
    && var p := ParseRecord(disk, m.logEnd, m.capacity);
       && p.Intact? && end == m.logEnd + p.size
       && ApplyRecord(m, p.header, p.payload, m.logEnd + HEADER_SIZE).None?
  }

  /** Nothing written past the refused record is seen by a remount. */
  lemma FrozenStays(disk: seq<byte>, disk': seq<byte>, blockSize: nat, blockCount: nat, m: Volume, end: nat)
    requires Frozen(disk, blockSize, blockCount, m, end) && |disk'| == |disk| && end <= |disk|
    requires disk'[..end] == disk[..end]
    ensures Frozen(disk', blockSize, blockCount, m, end)
  {
    hide MountVolume, DecodeSuperblock, Replay, ParseRecord, ApplyRecord, RecordSize, StartVolume, BlockStart;
    SameFront(disk, disk', end, SUPERBLOCK_SIZE);
    SameFront(disk, disk', end, m.logEnd);
    MountAfterWrite(disk, disk', blockSize, blockCount);
    ParseLocal(disk, disk', m.logEnd, m.capacity);
    ReplayLocal(disk, disk', StartVolume(disk, blockSize));
    ReplayRefused(disk', m);
  }

  lemma ReplayRefused(disk: seq<byte>, m: Volume)
    requires m.logEnd + HEADER_SIZE <= m.capacity <= |disk|
    requires var p := ParseRecord(disk, m.logEnd, m.capacity);
      p.Intact? && ApplyRecord(m, p.header, p.payload, m.logEnd + HEADER_SIZE).None?
    ensures Replay(disk, m) == m
  {
    hide ParseRecord, ApplyRecord;
  }

  lemma StepAppendsOnly(disk: seq<byte>, blockSize: nat, blockCount: nat, v: Volume, op: Op, end: nat)
    requires |disk| == BlockStart(blockCount, blockSize) && v.capacity <= |disk| && OpValid(op)
    requires !op.RemountOp? && end <= v.logEnd && end <= |disk|
    ensures var o := Step(disk, blockSize, blockCount, v, op);
      v.logEnd <= o.vol.logEnd && o.disk[..end] == disk[..end]
  {
    hide FindFrom, RecordBytes, RecordSize;
  }

  /** An append that overflows the table freezes the image: a mount finds what it found before, up to the first write
      after such a mount, which overwrites the refused record. */
  lemma OverflowFreezes(disk: seq<byte>, blockSize: nat, blockCount: nat, v: Volume, name: CString, data: seq<byte>)
    requires Synced(disk, blockSize, blockCount, v) && LogApart(v) && |data| < TWO_32
    requires Overflows(v, name, data)
    ensures var o := Append(disk, v, name, data);
      !o.ok && Frozen(o.disk, blockSize, blockCount, MountVolume(disk, blockSize, blockCount).value, o.vol.logEnd)
  {
    hide MountVolume, WriteRecord, RecordSize, FindFrom, DecodeSuperblock, ParseRecord, RecordBytes, BlockStart;
    var o := Append(disk, v, name, data);
    var m := MountVolume(disk, blockSize, blockCount).value;
    var i := Find(v.files, ByName(name)).value;
    var h := AppendHeader(v.files[i], |data|);
    SyncedFindId(disk, blockSize, blockCount, v, i);
    SyncedLogEnd(disk, blockSize, blockCount, v);
    RemountAfterWrite(disk, blockSize, blockCount, v, h, data);
    SuperblockKept(disk, v, h, data);
    ParseWritten(disk, v.logEnd, v.capacity, h, data);
    assert o.disk == WriteRecord(disk, v, h, data);
    WriteIsSplice(disk, v, h, data);
  }

  lemma WriteIsSplice(disk: seq<byte>, v: Volume, h: Header, payload: seq<byte>)
    requires RecordFits(v, |payload|) && v.capacity <= |disk|
    ensures WriteRecord(disk, v, h, payload) == Splice(disk, v.logEnd, RecordBytes(h, payload))
  {
  }

  lemma SuperblockKept(disk: seq<byte>, v: Volume, h: Header, payload: seq<byte>)
    requires v.capacity <= |disk| && RecordFits(v, |payload|) && SUPERBLOCK_SIZE <= v.logEnd
    ensures DecodeSuperblock(WriteRecord(disk, v, h, payload)) == DecodeSuperblock(disk)
  {
    hide DecodeSuperblock, WriteRecord, RecordSize;
    WriteKeepsFront(disk, v, h, payload);
    SameFront(disk, WriteRecord(disk, v, h, payload), v.logEnd, SUPERBLOCK_SIZE);
    SameSuperblock(disk, WriteRecord(disk, v, h, payload));
  }

  /** Whatever is created or appended between an overflow and the next mount is lost by that mount. */
  lemma {:induction false} RunFrozen(disk: seq<byte>, blockSize: nat, blockCount: nat, m: Volume, end: nat, v: Volume,
                                     ops: seq<Op>)
    requires Frozen(disk, blockSize, blockCount, m, end) && end <= v.logEnd && v.capacity <= |disk| && end <= |disk|
    requires OpsValid(ops) && RemountOp !in ops
    ensures Frozen(Run(disk, blockSize, blockCount, v, ops).0, blockSize, blockCount, m, end)
    ensures MountVolume(Run(disk, blockSize, blockCount, v, ops).0, blockSize, blockCount) == Some(m)
    decreases |ops|
  {
    hide Step, MountVolume, ParseRecord, ApplyRecord, DecodeSuperblock, BlockStart;
    if ops != [] {
      assert OpValid(ops[0]);
      var o := Step(disk, blockSize, blockCount, v, ops[0]);
      StepAppendsOnly(disk, blockSize, blockCount, v, ops[0], end);
      FrozenStays(disk, o.disk, blockSize, blockCount, m, end);
      RunFrozen(o.disk, blockSize, blockCount, m, end, o.vol, ops[1..]);
    }
  }

  /** The first file created after that mount ends the freeze: the next mount replays the log past the record that was
      refused. */
  lemma FrozenEnds(disk: seq<byte>, blockSize: nat, blockCount: nat, m: Volume, end: nat, name: CString)
    requires Frozen(disk, blockSize, blockCount, m, end)
    requires Create(disk, m, name).ok && !Collides(m, name)
    ensures var o := Create(disk, m, name);
      var next := MountVolume(o.disk, blockSize, blockCount);
      next.Some? && m.logEnd < o.vol.logEnd <= next.value.logEnd
  {
    hide MountVolume, WriteRecord, RecordSize, FindFrom, DecodeSuperblock, ReplayStep, BlockStart, ParseRecord;
    AsCStringOfTerminated(name, []);
    assert name + [NUL] + [] == name + [NUL];
    RemountAfterWrite(disk, blockSize, blockCount, m, CreateHeader(m, name), name + [NUL]);
  }
}
