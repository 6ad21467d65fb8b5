/** Concrete runs on which a remount does not find the live state again. */
module LogWitness {
  import opened Bytes
  import opened LogFormat
  import opened BlockIO
  import opened LogVolume
  import opened LogRemount
  import opened LogContents
  import opened LogRun

  const NAME_A: CString := [97]
  const NAME_B: CString := [98]
  const NAME_C: CString := [99]
  const NAME_D: CString := [100]
  const NAME_20: CString := seq(20, _ => 101)
  const NAME_31: CString := seq(31, _ => 101)
  const START: Volume := EmptyVolume(IMAGE_SIZE, LOG_OFFSET)

  /** A run from the formatted image. */
  function RunFormatted(ops: seq<Op>): (r: (seq<byte>, Volume, seq<bool>))
    requires OpsValid(ops)
    ensures |r.0| == IMAGE_SIZE == BlockStart(BLOCK_COUNT, BLOCK_SIZE) && r.1.capacity <= IMAGE_SIZE
  {
    FormatMatching();
    Run(FormatImage(), BLOCK_SIZE, BLOCK_COUNT, START, ops)
  }

  /** A run followed by one more operation. */
  lemma {:induction false} RunThenStep(disk: seq<byte>, v: Volume, ops: seq<Op>, op: Op)
    requires |disk| == BlockStart(BLOCK_COUNT, BLOCK_SIZE) && v.capacity <= |disk| && OpsValid(ops) && OpValid(op)
    ensures OpsValid(ops + [op])
    ensures var r := Run(disk, BLOCK_SIZE, BLOCK_COUNT, v, ops);
      var o := Step(r.0, BLOCK_SIZE, BLOCK_COUNT, r.1, op);
      Run(disk, BLOCK_SIZE, BLOCK_COUNT, v, ops + [op]) == (o.disk, o.vol, r.2 + [o.ok])
    decreases |ops|
  {
    hide Step, BlockStart;
    if ops == [] {
      var one := [op];
      var o := Step(disk, BLOCK_SIZE, BLOCK_COUNT, v, one[0]);
      assert ops + one == one && one[1..] == [];
      assert Run(o.disk, BLOCK_SIZE, BLOCK_COUNT, o.vol, one[1..]) == (o.disk, o.vol, []);
      assert Run(disk, BLOCK_SIZE, BLOCK_COUNT, v, one) == (o.disk, o.vol, [o.ok] + []);
      assert Run(disk, BLOCK_SIZE, BLOCK_COUNT, v, ops) == (disk, v, []);
      assert Run(disk, BLOCK_SIZE, BLOCK_COUNT, v, ops).2 + [o.ok] == [o.ok] + [];
    } else {
      var o := Step(disk, BLOCK_SIZE, BLOCK_COUNT, v, ops[0]);
      assert (ops + [op])[1..] == ops[1..] + [op];
      RunThenStep(o.disk, o.vol, ops[1..], op);
      var r := Run(o.disk, BLOCK_SIZE, BLOCK_COUNT, o.vol, ops[1..]);
      var last := Step(r.0, BLOCK_SIZE, BLOCK_COUNT, r.1, op);
      assert [o.ok] + (r.2 + [last.ok]) == ([o.ok] + r.2) + [last.ok];
    }
  }

  lemma ThenStep(ops: seq<Op>, op: Op)
    requires OpsValid(ops) && OpValid(op)
    ensures OpsValid(ops + [op])
    ensures var r := RunFormatted(ops);
      var o := Step(r.0, BLOCK_SIZE, BLOCK_COUNT, r.1, op);
      RunFormatted(ops + [op]) == (o.disk, o.vol, r.2 + [o.ok])
  {
    hide Step, BlockStart, Run, Matching, FormatImage;
    FormatMatching();
    RunThenStep(FormatImage(), START, ops, op);
  }

  /** One file and `k` one-byte appends to it. */
  function FillOps(k: nat): (ops: seq<Op>)
    ensures OpsValid(ops)
  {
    if k == 0 then [CreateOp(NAME_A)] else FillOps(k - 1) + [AppendOp(NAME_A, [1])]
  }

  /** One file, 64 appends that fill the segment table, and the 65th. */
  function OverflowOps(): (ops: seq<Op>)
    ensures OpsValid(ops)
  {
    FillOps(MAX_SEGMENTS) + [AppendOp(NAME_A, [1])]
  }

  /** Up to 64 appends the run matches the specification. */
  lemma {:induction false} FillMatching(k: nat) returns (s: Spec)
    requires k <= MAX_SEGMENTS
    ensures var r := RunFormatted(FillOps(k)); Matching(r.0, r.1, s)
    ensures s.appends == k && s.files.Keys == {NAME_A}
  {
    hide Matching, Step, Run, FormatImage, BlockStart;
    if k == 0 {
      FormatMatching();
      s := Spec(map[], 0);
      StepMatching(FormatImage(), START, s, CreateOp(NAME_A));
      EmptyRun();
      ThenStep([], CreateOp(NAME_A));
      assert [] + [CreateOp(NAME_A)] == FillOps(0);
      s := SpecStep(s, CreateOp(NAME_A));
    } else {
      s := FillMatching(k - 1);
      var r := RunFormatted(FillOps(k - 1));
      ThenStep(FillOps(k - 1), AppendOp(NAME_A, [1]));
      StepMatching(r.0, r.1, s, AppendOp(NAME_A, [1]));
      s := SpecStep(s, AppendOp(NAME_A, [1]));
    }
  }

  lemma EmptyRun()
    ensures RunFormatted([]).0 == FormatImage() && RunFormatted([]).1 == START
  {
  }

  /** With one file stored the next id is 2, and no other name is found. */
  lemma OneFile(disk: seq<byte>, v: Volume, s: Spec)
    requires Matching(disk, v, s) && s.files.Keys == {NAME_A}
    ensures Numbered(v) && v.nextId == 2 && v.capacity == IMAGE_SIZE
    ensures forall name: CString :: name != NAME_A ==> Find(v.files, ByName(name)).None?
  {
    hide MountVolume, DecodeSuperblock, FindFrom, TailZero, FilesOk, SegmentsOk, Files, Content, BlockStart;
    NameStored(disk, v, NAME_A);
    var a := Find(v.files, ByName(NAME_A)).value;
    assert v.files[a].File? && a < v.nextId - 1;
    assert v.nextId > 2 ==> v.files[0].File? && v.files[1].File?;
    forall i | 0 <= i < |v.files| && v.files[i].File?
      ensures v.files[i].name == NAME_A
    {
      FilesAt(disk, v, i);
      assert v.files[i].name in s.files.Keys;
    }
  }

  /** The 65th append: the log has grown, the tables have not, and a mount stops before the new record. */
  lemma OverflowingAppend(disk: seq<byte>, v: Volume, s: Spec)
    requires Matching(disk, v, s) && s.appends == MAX_SEGMENTS && NAME_A in s.files
    ensures v.capacity <= |disk| && Overflows(v, NAME_A, [1])
    ensures var o := Append(disk, v, NAME_A, [1]);
      && Frozen(o.disk, BLOCK_SIZE, BLOCK_COUNT, v, o.vol.logEnd)
      && o.vol == v.(logEnd := v.logEnd + RecordSize(1))
  {
    hide MountVolume, DecodeSuperblock, WellFormed, Files, Readable, FindFrom, WriteRecord, TailZero, Frozen;
    NameStored(disk, v, NAME_A);
    OverflowFreezes(disk, BLOCK_SIZE, BLOCK_COUNT, v, NAME_A, [1]);
  }

  /** The state after the 65th append. The last mounted state `m` has one file and next id 2. */
  lemma AfterOverflow() returns (m: Volume)
    ensures var r := RunFormatted(OverflowOps());
      && Frozen(r.0, BLOCK_SIZE, BLOCK_COUNT, m, r.1.logEnd)
      && r.1 == m.(logEnd := m.logEnd + RecordSize(1))
    ensures Numbered(m) && m.nextId == 2 && m.capacity == IMAGE_SIZE && m.logEnd + 1000 <= m.capacity
    ensures forall name: CString :: name != NAME_A ==> Find(m.files, ByName(name)).None?
  {
    hide RunFormatted, Frozen, FillOps, MountVolume, FindFrom, BlockStart, Append, Readable, Files, TailZero,
         WellFormed;
    var s := FillMatching(MAX_SEGMENTS);
    var r := RunFormatted(FillOps(MAX_SEGMENTS));
    m := r.1;
    OneFile(r.0, m, s);
    OverflowingAppend(r.0, m, s);
    ThenStep(FillOps(MAX_SEGMENTS), AppendOp(NAME_A, [1]));
  }

  /** A creation with a new name while slots are filled in order. */
  lemma CreateNext(disk: seq<byte>, v: Volume, name: CString)
    requires v.capacity <= |disk| && Numbered(v) && v.nextId <= MAX_FILES && v.logEnd + 100 <= v.capacity
    requires NameValid(name) && Find(v.files, ByName(name)).None?
    ensures RecordFits(v, |name| + 1) && !Collides(v, name)
    ensures var o := Create(disk, v, name);
      && o.ok && o.disk == WriteRecord(disk, v, CreateHeader(v, name), name + [NUL])
      && Numbered(o.vol) && o.vol.nextId == v.nextId + 1 && o.vol.capacity == v.capacity
      && o.vol.logEnd == v.logEnd + RecordSize(|name| + 1)
      && Find(o.vol.files, ByName(name)).Some?
      && forall other: CString :: other != name && Find(v.files, ByName(other)).None? ==>
           Find(o.vol.files, ByName(other)).None?
  {
    hide FindFrom, WriteRecord;
    NumberedFresh(v);
    assert Matches(AnyUnused, v.files[v.nextId - 1]);
    var i := Find(v.files, AnyUnused).value;
    assert 0 < i ==> !Matches(AnyUnused, v.files[i - 1]);
    var o := Create(disk, v, name);
    assert Matches(ByName(name), o.vol.files[i]);
    forall other: CString | other != name && Find(v.files, ByName(other)).None?
      ensures Find(o.vol.files, ByName(other)).None?
    {
      assert forall k :: 0 <= k < |v.files| && k != i ==> o.vol.files[k] == v.files[k];
    }
  }

  /** On the image of mklogfs.py: create "a", append to it 65 times, create "b". The last creation succeeds and
      "b" is there, but after the next mount it is not. */
  lemma OverflowLosesFile()
    ensures var ops := OverflowOps() + [CreateOp(NAME_B)];
      && OpsValid(ops)
      && var r := RunFormatted(ops);
         && r.2 != [] && r.2[|r.2| - 1] && Find(r.1.files, ByName(NAME_B)).Some?
         && MountVolume(r.0, BLOCK_SIZE, BLOCK_COUNT).Some?
         && Find(MountVolume(r.0, BLOCK_SIZE, BLOCK_COUNT).value.files, ByName(NAME_B)).None?
  {
    hide Frozen, RunFormatted, OverflowOps, MountVolume, FindFrom, BlockStart, Create, RecordSize;
    var m := AfterOverflow();
    var r := RunFormatted(OverflowOps());
    ThenStep(OverflowOps(), CreateOp(NAME_B));
    CreateNext(r.0, r.1, NAME_B);
    LogEndInside(r.0, r.1, m);
    var o := Create(r.0, r.1, NAME_B);
    StepAppendsOnly(r.0, BLOCK_SIZE, BLOCK_COUNT, r.1, CreateOp(NAME_B), r.1.logEnd);
    FrozenStays(r.0, o.disk, BLOCK_SIZE, BLOCK_COUNT, m, r.1.logEnd);
    FrozenMounts(o.disk, m, r.1.logEnd);
  }

  lemma LogEndInside(disk: seq<byte>, v: Volume, m: Volume)
    requires Frozen(disk, BLOCK_SIZE, BLOCK_COUNT, m, v.logEnd)
    ensures v.logEnd <= |disk|
  {
    hide ParseRecord, MountVolume, ApplyRecord, RecordSize, DecodeSuperblock;
  }

  lemma FrozenMounts(disk: seq<byte>, m: Volume, end: nat)
    requires Frozen(disk, BLOCK_SIZE, BLOCK_COUNT, m, end)
    ensures |disk| == BlockStart(BLOCK_COUNT, BLOCK_SIZE) && MountVolume(disk, BLOCK_SIZE, BLOCK_COUNT) == Some(m)
  {
  }

  /** A creation record for a given id. */
  function ForeignCreate(id: u32, name: CString): Header
    requires |name| < NAME_MAX
  {
    RecordHeader(RECORD_CREATE, id, 0, 0, |name|, |name| + 1)
  }

  lemma ForeignReplayed(v: Volume, id: u32, name: CString, payloadOffset: nat)
    requires NameValid(name) && Find(v.files, ByName(name)).None? && Find(v.files, ById(id)).None?
    requires Find(v.files, AnyUnused).Some?
    ensures ApplyRecord(v, ForeignCreate(id, name), name + [NUL], payloadOffset)
         == Some(AddFile(v, Find(v.files, AnyUnused).value, name, id)
                 .(nextId := if id >= v.nextId then Add32(id, 1) else v.nextId))
  {
    hide FindFrom;
    AsCStringOfTerminated(name, []);
    assert name + [NUL] + [] == name + [NUL];
  }

  // ---- Old records behind the log end ----

  /** Where the record of the file `d` lies, and the field of an older record at which replay stops before it. */
  ghost predicate StaleAt(disk: seq<byte>, at: nat, hole: nat) {
    && hole + HEADER_SIZE <= at && at + HEADER_SIZE <= IMAGE_SIZE <= |disk|
    && disk[hole..hole + 4] == Le32(0)
    && ParseRecord(disk, at, IMAGE_SIZE) == Intact(ForeignCreate(4, NAME_D), NAME_D + [NUL], RecordSize(2))
  }

  /** The third of the records that follow the refused one is the stale record; the unused size field of the first is
      the hole. */
  lemma StaleWritten(d0: seq<byte>, v0: Volume, d1: seq<byte>, v1: Volume, d2: seq<byte>, v2: Volume, d3: seq<byte>)
    requires |d0| == IMAGE_SIZE == v0.capacity == v1.capacity == v2.capacity && v0.logEnd + 900 <= IMAGE_SIZE
    requires v1.logEnd == v0.logEnd + RecordSize(2) && v2.logEnd == v1.logEnd + RecordSize(2) && v2.nextId == 4
    requires RecordFits(v0, 2) && d1 == WriteRecord(d0, v0, CreateHeader(v0, NAME_B), NAME_B + [NUL])
    requires RecordFits(v1, 2) && d2 == WriteRecord(d1, v1, CreateHeader(v1, NAME_C), NAME_C + [NUL])
    requires RecordFits(v2, 2) && d3 == WriteRecord(d2, v2, CreateHeader(v2, NAME_D), NAME_D + [NUL])
    ensures RecordSize(2) == 40 && StaleAt(d3, v2.logEnd, v0.logEnd + 16)
  {
    hide RecordBytes, Splice, EncodeHeader, DecodeHeader, RecordChecksum, Le32, ParseRecord;
    var h := CreateHeader(v0, NAME_B);
    WrittenParts(d0, v0.logEnd, h, NAME_B + [NUL]);
    SizeField(h.(checksum := RecordChecksum(h, NAME_B + [NUL])));
    SliceOfSlice(d1, v0.logEnd, v0.logEnd + HEADER_SIZE, 16, 20);
    WriteKeepsFront(d1, v1, CreateHeader(v1, NAME_C), NAME_C + [NUL]);
    SamePart(d1, d2, v1.logEnd, v0.logEnd + 16, v0.logEnd + 20);
    WriteKeepsFront(d2, v2, CreateHeader(v2, NAME_D), NAME_D + [NUL]);
    SamePart(d2, d3, v2.logEnd, v0.logEnd + 16, v0.logEnd + 20);
    ParseWritten(d2, v2.logEnd, IMAGE_SIZE, CreateHeader(v2, NAME_D), NAME_D + [NUL]);
  }

  lemma SizeField(h: Header)
    requires h.sizeBefore == 0
    ensures EncodeHeader(h)[16..20] == Le32(0)
  {
    hide Le32;
  }

  /** Replay stops at the hole. */
  lemma HoleStops(disk: seq<byte>, v: Volume, at: nat)
    requires StaleAt(disk, at, v.logEnd) && v.capacity == IMAGE_SIZE
    ensures ReplayStep(disk, v).None?
  {
    hide Le32, RecordSize, RecordChecksum, U32At, AsCString;
    var header := disk[v.logEnd..v.logEnd + HEADER_SIZE];
    SliceOfSlice(disk, v.logEnd, v.logEnd + HEADER_SIZE, 0, 4);
    U32AtOfLe32(header, 0, 0);
  }

  /** A record that ends at the hole leaves it and the stale one. */
  lemma StaleStays(disk: seq<byte>, v: Volume, h: Header, payload: seq<byte>, at: nat)
    requires v.capacity == IMAGE_SIZE == |disk| && RecordFits(v, |payload|)
    requires StaleAt(disk, at, v.logEnd + RecordSize(|payload|))
    ensures StaleAt(WriteRecord(disk, v, h, payload), at, v.logEnd + RecordSize(|payload|))
  {
    hide RecordSize, WriteRecord, RecordFits, ParseRecord, Le32, ForeignCreate;
    WriteKeepsBack(disk, v, h, payload);
    ParseWindow(disk, WriteRecord(disk, v, h, payload), at, IMAGE_SIZE);
  }

  /** When the log end reaches the stale record, replay takes it. */
  lemma StaleReplayed(disk: seq<byte>, v: Volume, hole: nat)
    requires StaleAt(disk, v.logEnd, hole) && v.capacity == IMAGE_SIZE
    requires Numbered(v) && v.nextId == 4 && Find(v.files, ByName(NAME_D)).None?
    ensures ReplayStep(disk, v).Some? && Find(ReplayStep(disk, v).value.files, ByName(NAME_D)).Some?
  {
    hide FindFrom, ParseRecord, RecordSize;
    NumberedFresh(v);
    assert Matches(AnyUnused, v.files[4]);
    ForeignReplayed(v, 4, NAME_D, v.logEnd + HEADER_SIZE);
    var files := ReplayStep(disk, v).value.files;
    assert Matches(ByName(NAME_D), files[Find(v.files, AnyUnused).value]);
  }

  /** Three creations after the 65th append, and a remount. */
  function RemountedOps(): (ops: seq<Op>)
    ensures OpsValid(ops)
  {
    OverflowOps() + [CreateOp(NAME_B)] + [CreateOp(NAME_C)] + [CreateOp(NAME_D)] + [RemountOp]
  }

  /** What the three creations leave on the device. */
  lemma LateCreates(d0: seq<byte>, v0: Volume, m: Volume) returns (o1: Outcome, o2: Outcome, o3: Outcome)
    requires |d0| == BlockStart(BLOCK_COUNT, BLOCK_SIZE) == IMAGE_SIZE
      && Frozen(d0, BLOCK_SIZE, BLOCK_COUNT, m, v0.logEnd)
    requires Numbered(v0) && v0.nextId == 2 && v0.capacity == IMAGE_SIZE && v0.logEnd + 900 <= v0.capacity
    requires forall name: CString :: name != NAME_A ==> Find(v0.files, ByName(name)).None?
    ensures o1 == Create(d0, v0, NAME_B) && o2 == Create(o1.disk, o1.vol, NAME_C)
      && o3 == Create(o2.disk, o2.vol, NAME_D)
    ensures |o3.disk| == |d0| && Frozen(o3.disk, BLOCK_SIZE, BLOCK_COUNT, m, v0.logEnd)
    ensures StaleAt(o3.disk, v0.logEnd + 80, v0.logEnd + 16)
  {
    hide Frozen, MountVolume, FindFrom, BlockStart, Create, RecordFits, Numbered, StaleAt, WriteRecord;
    CreateNext(d0, v0, NAME_B);
    o1 := Create(d0, v0, NAME_B);
    CreateNext(o1.disk, o1.vol, NAME_C);
    o2 := Create(o1.disk, o1.vol, NAME_C);
    CreateNext(o2.disk, o2.vol, NAME_D);
    o3 := Create(o2.disk, o2.vol, NAME_D);
    StaleWritten(d0, v0, o1.disk, o1.vol, o2.disk, o2.vol, o3.disk);
    StillFrozen(d0, v0, CreateOp(NAME_B), m, v0.logEnd);
    StillFrozen(o1.disk, o1.vol, CreateOp(NAME_C), m, v0.logEnd);
    StillFrozen(o2.disk, o2.vol, CreateOp(NAME_D), m, v0.logEnd);
  }

  lemma AfterRemount() returns (m: Volume)
    ensures var r := RunFormatted(RemountedOps());
      && MountVolume(r.0, BLOCK_SIZE, BLOCK_COUNT) == Some(m) && r.1 == m && LogApart(m)
      && StaleAt(r.0, m.logEnd + 120, m.logEnd + 56)
    ensures Numbered(m) && m.nextId == 2 && m.capacity == IMAGE_SIZE && m.logEnd + 1000 <= m.capacity
    ensures forall name: CString :: name != NAME_A ==> Find(m.files, ByName(name)).None?
  {
    hide Frozen, RunFormatted, OverflowOps, MountVolume, FindFrom, BlockStart, Create, Numbered, StaleAt;
    m := AfterOverflow();
    var r := RunFormatted(OverflowOps());
    LogEndInside(r.0, r.1, m);
    NumberedMoved(m, r.1);
    var o1, o2, o3 := LateCreates(r.0, r.1, m);
    FrozenMounts(o3.disk, m, r.1.logEnd);
    FrozenApart(o3.disk, m, r.1.logEnd);
    var ops1 := OverflowOps() + [CreateOp(NAME_B)];
    var ops2 := ops1 + [CreateOp(NAME_C)];
    ThenStep(OverflowOps(), CreateOp(NAME_B));
    ThenStep(ops1, CreateOp(NAME_C));
    ThenStep(ops2, CreateOp(NAME_D));
    ThenStep(ops2 + [CreateOp(NAME_D)], RemountOp);
  }

  lemma NumberedMoved(v: Volume, w: Volume)
    requires Numbered(v) && w == v.(logEnd := w.logEnd)
    ensures Numbered(w)
  {
  }

  lemma FrozenApart(disk: seq<byte>, m: Volume, end: nat)
    requires Frozen(disk, BLOCK_SIZE, BLOCK_COUNT, m, end)
    ensures LogApart(m)
  {
  }

  lemma StillFrozen(disk: seq<byte>, v: Volume, op: Op, m: Volume, end: nat)
    requires Frozen(disk, BLOCK_SIZE, BLOCK_COUNT, m, end) && OpValid(op) && !op.RemountOp?
    requires |disk| == BlockStart(BLOCK_COUNT, BLOCK_SIZE) && v.capacity <= |disk| && end <= v.logEnd && end <= |disk|
    ensures Frozen(Step(disk, BLOCK_SIZE, BLOCK_COUNT, v, op).disk, BLOCK_SIZE, BLOCK_COUNT, m, end)
  {
    hide Frozen, Step, BlockStart;
    StepAppendsOnly(disk, BLOCK_SIZE, BLOCK_COUNT, v, op, end);
    FrozenStays(disk, Step(disk, BLOCK_SIZE, BLOCK_COUNT, v, op).disk, BLOCK_SIZE, BLOCK_COUNT, m, end);
  }

  /** On the image of mklogfs.py: overflow the segment table, create "b", "c" and "d", mount again, and create files
      with names of 20 and 31 characters. Their records cover the refused one, "b" and "c" to the byte. All succeed and
      no id is taken twice, but the next mount also finds "d", which the live volume does not have. */
  lemma StaleRecordReturns()
    ensures var ops := RemountedOps() + [CreateOp(NAME_20)];
      && OpsValid(ops)
      && var r := RunFormatted(ops);
         var o := Create(r.0, r.1, NAME_31);
         && Synced(r.0, BLOCK_SIZE, BLOCK_COUNT, r.1)
         && o.ok && !Collides(r.1, NAME_31) && Find(o.vol.files, ByName(NAME_D)).None?
         && !Synced(o.disk, BLOCK_SIZE, BLOCK_COUNT, o.vol)
         && MountVolume(o.disk, BLOCK_SIZE, BLOCK_COUNT).Some?
         && Find(MountVolume(o.disk, BLOCK_SIZE, BLOCK_COUNT).value.files, ByName(NAME_D)).Some?
  {
    hide RunFormatted, RemountedOps, MountVolume, FindFrom, BlockStart, Create, RecordFits, StaleAt, ReplayStep,
         Numbered;
    hide DecodeSuperblock, WriteRecord;
    var m := AfterRemount();
    var r0 := RunFormatted(RemountedOps());
    ThenStep(RemountedOps(), CreateOp(NAME_20));
    CreateNext(r0.0, m, NAME_20);
    var r := RunFormatted(RemountedOps() + [CreateOp(NAME_20)]);
    HoleStops(r0.0, r.1, m.logEnd + 120);
    CreateSynced(r0.0, BLOCK_SIZE, BLOCK_COUNT, m, NAME_20);
    StaleStays(r0.0, m, CreateHeader(m, NAME_20), NAME_20 + [NUL], m.logEnd + 120);
    CreateNext(r.0, r.1, NAME_31);
    var o := Create(r.0, r.1, NAME_31);
    StaleReplayed(r.0, o.vol, m.logEnd + 56);
    CreateSynced(r.0, BLOCK_SIZE, BLOCK_COUNT, r.1, NAME_31);
    StaleMounted(r.0, r.1, NAME_31);
  }

  /** The mount after a creation goes on to replay what lies behind it. */
  lemma StaleMounted(disk: seq<byte>, v: Volume, name: CString)
    requires |disk| == BlockStart(BLOCK_COUNT, BLOCK_SIZE) && MountVolume(disk, BLOCK_SIZE, BLOCK_COUNT) == Some(v)
    requires LogApart(v) && Create(disk, v, name).ok && !Collides(v, name)
    requires var o := Create(disk, v, name);
      var next := ReplayStep(disk, o.vol);
      next.Some? && Find(next.value.files, ByName(NAME_D)).Some?
    ensures var found := MountVolume(Create(disk, v, name).disk, BLOCK_SIZE, BLOCK_COUNT);
      found.Some? && Find(found.value.files, ByName(NAME_D)).Some?
  {
    hide MountVolume, WriteRecord, RecordSize, FindFrom, DecodeSuperblock, ReplayStep, BlockStart;
    var o := Create(disk, v, name);
    AsCStringOfTerminated(name, []);
    assert name + [NUL] + [] == name + [NUL];
    RemountAfterWrite(disk, BLOCK_SIZE, BLOCK_COUNT, v, CreateHeader(v, name), name + [NUL]);
    StepBehindWrite(disk, v, CreateHeader(v, name), name + [NUL], o.vol);
    ReplayKeepsName(o.disk, ReplayStep(disk, o.vol).value, NAME_D);
  }

  // ---- Ids in use ----

  /** An image holding files with the ids 0 and 0xffffffff mounts with next id 0, which is in use: the next
      creation succeeds on the live volume and a remount does not find it. */
  lemma NextIdCanCollide() returns (disk: seq<byte>, v: Volume)
    ensures |disk| == BlockStart(BLOCK_COUNT, BLOCK_SIZE)
    ensures MountVolume(disk, BLOCK_SIZE, BLOCK_COUNT) == Some(v) && TailZero(disk, v) && LogApart(v)
    ensures Find(v.files, ById(v.nextId)).Some?
    ensures var o := Create(disk, v, NAME_C); o.ok && !Synced(o.disk, BLOCK_SIZE, BLOCK_COUNT, o.vol)
  {
    hide MountVolume, WriteRecord, BlockStart, FormatImage, TailZero;
    FormatMatching();
    assert Matches(AnyUnused, START.files[0]);
    var d1, v1 := ForeignWritten(FormatImage(), START, 0, NAME_A);
    assert !Matches(AnyUnused, v1.files[0]) && Matches(AnyUnused, v1.files[1]);
    disk, v := ForeignWritten(d1, v1, 0xffff_ffff, NAME_B);
    assert Matches(ById(0), v.files[0]) && Matches(AnyUnused, v.files[2]);
    CreateSyncedOnZeros(disk, BLOCK_SIZE, BLOCK_COUNT, v, NAME_C);
  }

  /** The image with one more file, of any unused id, at the end of its log. */
  lemma ForeignWritten(disk: seq<byte>, v: Volume, id: u32, name: CString) returns (disk': seq<byte>, v': Volume)
    requires |disk| == BlockStart(BLOCK_COUNT, BLOCK_SIZE) && MountVolume(disk, BLOCK_SIZE, BLOCK_COUNT) == Some(v)
    requires TailZero(disk, v) && LogApart(v) && NameValid(name) && RecordFits(v, |name| + 1)
    requires Find(v.files, ByName(name)).None? && Find(v.files, ById(id)).None? && Find(v.files, AnyUnused).Some?
    ensures |disk'| == |disk| && MountVolume(disk', BLOCK_SIZE, BLOCK_COUNT) == Some(v') && TailZero(disk', v')
    ensures v' == AddFile(v, Find(v.files, AnyUnused).value, name, id)
                  .(nextId := if id >= v.nextId then Add32(id, 1) else v.nextId,
                    logEnd := v.logEnd + RecordSize(|name| + 1))
  {
    hide MountVolume, WriteRecord, BlockStart, FindFrom, TailZero, RecordSize;
    ForeignReplayed(v, id, name, v.logEnd + HEADER_SIZE);
    var h := ForeignCreate(id, name);
    disk' := WriteRecord(disk, v, h, name + [NUL]);
    v' := ApplyRecord(v, h, name + [NUL], v.logEnd + HEADER_SIZE).value.(logEnd := v.logEnd + RecordSize(|name| + 1));
    RemountOnZeros(disk, BLOCK_SIZE, BLOCK_COUNT, v, h, name + [NUL]);
  }
}
