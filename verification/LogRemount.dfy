/** Remounting: what replay of the log finds after a live operation, compared with the live tables. */
module LogRemount {
  import opened Bytes
  import opened LogFormat
  import opened BlockIO
  import opened LogVolume

  /** Nothing has been written past the log end. */
  ghost predicate TailZero(disk: seq<byte>, v: Volume) {
    v.capacity <= |disk| && forall i :: v.logEnd <= i < v.capacity ==> disk[i] == 0
  }

  /** Mounting the device now would rebuild the tables `v`, the next file id aside. */
  ghost predicate Synced(disk: seq<byte>, blockSize: nat, blockCount: nat, v: Volume) {
    && |disk| == BlockStart(blockCount, blockSize)
    && var m := MountVolume(disk, blockSize, blockCount);
       m.Some? && m.value.(nextId := v.nextId) == v
  }

  /** The next record does not overlap the superblock. It cannot unless blocks are shorter than 20 bytes and the log is
      still empty. */
  predicate LogApart(v: Volume) {
    SUPERBLOCK_SIZE <= v.logEnd
  }

  lemma ReplayStepLocal(disk: seq<byte>, disk': seq<byte>, v: Volume)
    requires v.capacity <= |disk| == |disk'| && ReplayStep(disk, v).Some?
    requires var end := ReplayStep(disk, v).value.logEnd; disk[..end] == disk'[..end]
    ensures ReplayStep(disk', v) == ReplayStep(disk, v)
  {
    hide ParseRecord, ApplyRecord, RecordSize;
    ParseLocal(disk, disk', v.logEnd, v.capacity);
  }

  /** Replay passes over an unchanged part of the log in the same way. */
  lemma {:induction false} ReplayLocal(disk: seq<byte>, disk': seq<byte>, v: Volume)
    requires v.capacity <= |disk| == |disk'|
    requires var m := Replay(disk, v); m != v ==> disk[..m.logEnd] == disk'[..m.logEnd]
    ensures Replay(disk', v) == Replay(disk', Replay(disk, v))
    decreases v.capacity - v.logEnd
  {
    hide ReplayStep;
    if ReplayStep(disk, v).Some? {
      var v1, m := ReplayStep(disk, v).value, Replay(disk, v);
      SameFront(disk, disk', m.logEnd, v1.logEnd);
      ReplayStepLocal(disk, disk', v);
      ReplayLocal(disk, disk', v1);
    }
  }

  lemma ReplayStopsAtZeros(disk: seq<byte>, v: Volume)
    requires TailZero(disk, v)
    ensures Replay(disk, v) == v
  {
    if v.logEnd + HEADER_SIZE <= v.capacity {
      ParseZeros(disk, v.logEnd, v.capacity);
    }
  }

  /** Replay never drops a file. */
  lemma {:induction false} ReplayKeepsName(disk: seq<byte>, v: Volume, name: CString)
    requires v.capacity <= |disk| && Find(v.files, ByName(name)).Some?
    ensures Find(Replay(disk, v).files, ByName(name)).Some?
    decreases v.capacity - v.logEnd
  {
    hide ReplayStep;
    if ReplayStep(disk, v).Some? {
      StepKeepsName(disk, v, name);
      ReplayKeepsName(disk, ReplayStep(disk, v).value, name);
    }
  }

  lemma StepKeepsName(disk: seq<byte>, v: Volume, name: CString)
    requires v.capacity <= |disk| && ReplayStep(disk, v).Some? && Find(v.files, ByName(name)).Some?
    ensures Find(ReplayStep(disk, v).value.files, ByName(name)).Some?
  {
    hide ParseRecord, FindFrom, NameValid, AsCString;
    var files := ReplayStep(disk, v).value.files;
    var i := Find(v.files, ByName(name)).value;
    assert Matches(ByName(name), files[i]);
  }

  /** Replay goes no further exactly when its next turn finds nothing to apply. */
  lemma ReplayStopsIff(disk: seq<byte>, v: Volume)
    requires v.capacity <= |disk|
    ensures Replay(disk, v) == v <==> ReplayStep(disk, v).None?
    ensures Replay(disk, v).logEnd == v.logEnd <==> ReplayStep(disk, v).None?
  {
    hide ReplayStep;
  }

  /** Whether replay takes a record does not depend on the next id. */
  lemma StepOtherId(disk: seq<byte>, v: Volume, next: u32)
    requires v.capacity <= |disk|
    ensures ReplayStep(disk, v.(nextId := next)).None? <==> ReplayStep(disk, v).None?
  {
    hide ParseRecord, FindFrom, NameValid, AsCString;
  }

  /** Writing a record at the log end leaves the bytes before it. */
  lemma WriteKeepsFront(disk: seq<byte>, v: Volume, h: Header, payload: seq<byte>)
    requires v.capacity <= |disk| && RecordFits(v, |payload|)
    ensures v.logEnd <= |disk| && WriteRecord(disk, v, h, payload)[..v.logEnd] == disk[..v.logEnd]
  {
    hide RecordBytes, RecordSize;
  }

  /** It leaves the bytes after it too. */
  lemma WriteKeepsBack(disk: seq<byte>, v: Volume, h: Header, payload: seq<byte>)
    requires v.capacity <= |disk| && RecordFits(v, |payload|)
    ensures v.logEnd + RecordSize(|payload|) <= |disk|
    ensures forall i :: v.logEnd + RecordSize(|payload|) <= i < |disk| ==>
      WriteRecord(disk, v, h, payload)[i] == disk[i]
  {
    hide RecordBytes, RecordSize;
  }

  /** So what replay finds behind the new record was there before. */
  lemma StepBehindWrite(disk: seq<byte>, v: Volume, h: Header, payload: seq<byte>, w: Volume)
    requires v.capacity <= |disk| && RecordFits(v, |payload|)
    requires w.capacity == v.capacity && w.logEnd == v.logEnd + RecordSize(|payload|)
    ensures ReplayStep(WriteRecord(disk, v, h, payload), w) == ReplayStep(disk, w)
  {
    hide ParseRecord, RecordSize, WriteRecord, RecordFits, ApplyRecord;
    WriteKeepsBack(disk, v, h, payload);
    if w.logEnd + HEADER_SIZE <= w.capacity {
      ParseWindow(disk, WriteRecord(disk, v, h, payload), w.logEnd, w.capacity);
    }
  }

  /** The written record is the one that replay finds next. */
  lemma StepAfterWrite(disk: seq<byte>, m: Volume, h: Header, payload: seq<byte>)
    requires m.capacity <= |disk| && RecordFits(m, |payload|)
    requires h.magic == RECORD_MAGIC && h.payloadSize == |payload| && h.checksum == 0
    ensures ReplayStep(WriteRecord(disk, m, h, payload), m)
      == match ApplyRecord(m, h, payload, m.logEnd + HEADER_SIZE)
         case None => None
         case Some(m') => Some(m'.(logEnd := m.logEnd + RecordSize(|payload|)))
  {
    hide ParseRecord, RecordBytes, ApplyRecord, RecordSize, Splice;
    ParseWritten(disk, m.logEnd, m.capacity, h, payload);
  }

  /** Replay finds the earlier log unchanged and then the new record, which it applies if it can and stops at if it
      cannot. */
  lemma ReplayAfterWrite(disk: seq<byte>, v0: Volume, h: Header, payload: seq<byte>)
    requires v0.capacity <= |disk|
    requires RecordFits(Replay(disk, v0), |payload|)
    requires h.magic == RECORD_MAGIC && h.payloadSize == |payload| && h.checksum == 0
    ensures var m := Replay(disk, v0);
      var disk' := WriteRecord(disk, m, h, payload);
      Replay(disk', v0)
      == match ApplyRecord(m, h, payload, m.logEnd + HEADER_SIZE)
         case None => m
         case Some(m') =>
           assert m'.capacity == m.capacity;
           Replay(disk', m'.(logEnd := m.logEnd + RecordSize(|payload|)))
  {
    hide ReplayStep, ApplyRecord, RecordSize, WriteRecord, RecordFits;
    var m := Replay(disk, v0);
    WriteKeepsFront(disk, m, h, payload);
    ReplayLocal(disk, WriteRecord(disk, m, h, payload), v0);
    StepAfterWrite(disk, m, h, payload);
  }

  /** The volume from which replay of this image starts. */
  function StartVolume(disk: seq<byte>, blockSize: nat): Volume
    requires SUPERBLOCK_SIZE <= |disk|
  {
    var sb := DecodeSuperblock(disk);
    EmptyVolume(BlockStart(sb.blockCount, blockSize), sb.logOffset)
  }

  /** A record written at the log end leaves the superblock alone, so a remount starts as before. */
  lemma MountAfterWrite(disk: seq<byte>, disk': seq<byte>, blockSize: nat, blockCount: nat)
    requires |disk| == BlockStart(blockCount, blockSize) == |disk'| && MountVolume(disk, blockSize, blockCount).Some?
    requires disk[..SUPERBLOCK_SIZE] == disk'[..SUPERBLOCK_SIZE]
    ensures StartVolume(disk, blockSize).capacity <= |disk|
    ensures MountVolume(disk, blockSize, blockCount) == Some(Replay(disk, StartVolume(disk, blockSize)))
    ensures MountVolume(disk', blockSize, blockCount) == Some(Replay(disk', StartVolume(disk, blockSize)))
    ensures DecodeSuperblock(disk') == DecodeSuperblock(disk)
  {
    SameSuperblock(disk, disk');
    hide DecodeSuperblock, Replay, EmptyVolume;
    BlockStartMonotone(DecodeSuperblock(disk).blockCount, blockCount, blockSize);
  }

  lemma SameSuperblock(disk: seq<byte>, disk': seq<byte>)
    requires SUPERBLOCK_SIZE <= |disk| && SUPERBLOCK_SIZE <= |disk'|
    requires disk[..SUPERBLOCK_SIZE] == disk'[..SUPERBLOCK_SIZE]
    ensures DecodeSuperblock(disk') == DecodeSuperblock(disk)
  {
    var front, front' := disk[..SUPERBLOCK_SIZE], disk'[..SUPERBLOCK_SIZE];
    assert forall i :: 0 <= i < SUPERBLOCK_SIZE ==> disk[i] == front[i] && disk'[i] == front'[i];
  }

  /** What a remount finds after one more record has been written to a synced volume. */
  lemma RemountAfterWrite(disk: seq<byte>, blockSize: nat, blockCount: nat, v: Volume, h: Header, payload: seq<byte>)
    requires Synced(disk, blockSize, blockCount, v) && LogApart(v)
    requires RecordFits(v, |payload|)
    requires h.magic == RECORD_MAGIC && h.payloadSize == |payload| && h.checksum == 0
    ensures var m := MountVolume(disk, blockSize, blockCount).value;
      var disk' := WriteRecord(disk, v, h, payload);
      MountVolume(disk', blockSize, blockCount)
         == Some(match ApplyRecord(m, h, payload, v.logEnd + HEADER_SIZE)
                 case None => m
                 case Some(m') => Replay(disk', m'.(logEnd := v.logEnd + RecordSize(|payload|))))
  {
    hide MountVolume, Replay, WriteRecord, ApplyRecord, RecordSize, DecodeSuperblock, StartVolume;
    var m := MountVolume(disk, blockSize, blockCount).value;
    var disk' := WriteRecord(disk, v, h, payload);
    SyncedLogEnd(disk, blockSize, blockCount, v);
    WriteKeepsFront(disk, v, h, payload);
    SameFront(disk, disk', v.logEnd, SUPERBLOCK_SIZE);
    MountAfterWrite(disk, disk', blockSize, blockCount);
    SameWrite(disk, m, v, h, payload);
    ReplayAfterWrite(disk, StartVolume(disk, blockSize), h, payload);
  }

  lemma SyncedLogEnd(disk: seq<byte>, blockSize: nat, blockCount: nat, v: Volume)
    requires Synced(disk, blockSize, blockCount, v) && SUPERBLOCK_SIZE <= |disk|
    ensures DecodeSuperblock(disk).logOffset <= v.logEnd
  {
    hide MountVolume, DecodeSuperblock;
    MountWellFormed(disk, blockSize, blockCount);
  }

  lemma SameFront(a: seq<byte>, b: seq<byte>, end: nat, n: nat)
    requires n <= end <= |a| && end <= |b| && a[..end] == b[..end]
    ensures a[..n] == b[..n]
  {
    SamePart(a, b, end, 0, n);
    assert a[0..n] == a[..n] && b[0..n] == b[..n];
  }

  lemma SameWrite(disk: seq<byte>, m: Volume, v: Volume, h: Header, payload: seq<byte>)
    requires m.capacity == v.capacity <= |disk| && m.logEnd == v.logEnd && RecordFits(v, |payload|)
    ensures RecordFits(m, |payload|) && WriteRecord(disk, m, h, payload) == WriteRecord(disk, v, h, payload)
  {
  }

  /** The live tables `w` after a record has been written are those of a remount exactly when replay applies the record
      and the bytes behind it, which are older, are not a record that replay applies as well. */
  lemma WriteSynced(disk: seq<byte>, blockSize: nat, blockCount: nat, v: Volume, h: Header, payload: seq<byte>,
                    w: Volume)
    requires Synced(disk, blockSize, blockCount, v) && LogApart(v)
    requires RecordFits(v, |payload|)
    requires h.magic == RECORD_MAGIC && h.payloadSize == |payload| && h.checksum == 0
    requires w.capacity == v.capacity && w.logEnd == v.logEnd + RecordSize(|payload|)
    requires var a := ApplyRecord(MountVolume(disk, blockSize, blockCount).value, h, payload, v.logEnd + HEADER_SIZE);
      a.Some? ==> a.value.(nextId := w.nextId, logEnd := w.logEnd) == w
    ensures var a := ApplyRecord(MountVolume(disk, blockSize, blockCount).value, h, payload, v.logEnd + HEADER_SIZE);
      var disk' := WriteRecord(disk, v, h, payload);
      && (Synced(disk', blockSize, blockCount, w) <==> a.Some? && ReplayStep(disk, w).None?)
      && (a.Some? && ReplayStep(disk, w).None? ==>
            MountVolume(disk', blockSize, blockCount) == Some(w.(nextId := a.value.nextId)))
  {
    hide MountVolume, WriteRecord, ApplyRecord, RecordSize, DecodeSuperblock, Replay, ReplayStep, RecordFits,
         BlockStart;
    var a := ApplyRecord(MountVolume(disk, blockSize, blockCount).value, h, payload, v.logEnd + HEADER_SIZE);
    var disk' := WriteRecord(disk, v, h, payload);
    RemountAfterWrite(disk, blockSize, blockCount, v, h, payload);
    if a.Some? {
      var found := w.(nextId := a.value.nextId);
      assert found == a.value.(logEnd := w.logEnd);
      ReplayStopsIff(disk', found);
      StepOtherId(disk', found, w.nextId);
      assert found.(nextId := w.nextId) == w;
      StepBehindWrite(disk, v, h, payload, w);
    }
  }

  /** Over zeros the remount finds the new record and stops. */
  lemma RemountOnZeros(disk: seq<byte>, blockSize: nat, blockCount: nat, v: Volume, h: Header, payload: seq<byte>)
    requires |disk| == BlockStart(blockCount, blockSize) && MountVolume(disk, blockSize, blockCount) == Some(v)
    requires TailZero(disk, v) && LogApart(v) && RecordFits(v, |payload|)
    requires h.magic == RECORD_MAGIC && h.payloadSize == |payload| && h.checksum == 0
    requires ApplyRecord(v, h, payload, v.logEnd + HEADER_SIZE).Some?
    ensures var applied := ApplyRecord(v, h, payload, v.logEnd + HEADER_SIZE);
      var w := applied.value.(logEnd := v.logEnd + RecordSize(|payload|));
      var disk' := WriteRecord(disk, v, h, payload);
      MountVolume(disk', blockSize, blockCount) == Some(w) && TailZero(disk', w) && LogApart(w)
  {
    var w := ApplyRecord(v, h, payload, v.logEnd + HEADER_SIZE).value.(logEnd := v.logEnd + RecordSize(|payload|));
    hide MountVolume, WriteRecord, ApplyRecord, RecordSize, DecodeSuperblock, Replay, ReplayStep, RecordFits,
         BlockStart;
    RemountAfterWrite(disk, blockSize, blockCount, v, h, payload);
    WriteKeepsBack(disk, v, h, payload);
    ReplayStopsAtZeros(WriteRecord(disk, v, h, payload), w);
  }

  /** The creation that succeeds with an id that is in use. */
  predicate Collides(v: Volume, name: CString) {
    && NameValid(name) && Find(v.files, ByName(name)).None? && Find(v.files, AnyUnused).Some?
    && RecordFits(v, |name| + 1) && Find(v.files, ById(v.nextId)).Some?
  }

  /** A creation stays visible to a remount exactly when, if it succeeds, its id is not in use and its record does not
      end where an older one begins that replay goes on to apply. */
  lemma CreateSynced(disk: seq<byte>, blockSize: nat, blockCount: nat, v: Volume, name: CString)
    requires Synced(disk, blockSize, blockCount, v) && LogApart(v)
    ensures var o := Create(disk, v, name);
      && LogApart(o.vol)
      && (Synced(o.disk, blockSize, blockCount, o.vol) <==>
            (o.ok ==> !Collides(v, name) && ReplayStep(disk, o.vol).None?))
      && (MountVolume(disk, blockSize, blockCount) == Some(v) && o.ok && !Collides(v, name)
          && ReplayStep(disk, o.vol).None? ==>
            MountVolume(o.disk, blockSize, blockCount) == Some(o.vol))
  {
    hide MountVolume, WriteRecord, RecordSize, FindFrom, DecodeSuperblock, ReplayStep, BlockStart;
    var o := Create(disk, v, name);
    if o.ok {
      AsCStringOfTerminated(name, []);
      assert name + [NUL] + [] == name + [NUL];
      WriteSynced(disk, blockSize, blockCount, v, CreateHeader(v, name), name + [NUL], o.vol);
    }
  }

  /** Over a log followed by zeros only an id in use can hide a creation from a remount. */
  lemma CreateSyncedOnZeros(disk: seq<byte>, blockSize: nat, blockCount: nat, v: Volume, name: CString)
    requires Synced(disk, blockSize, blockCount, v) && TailZero(disk, v) && LogApart(v)
    ensures var o := Create(disk, v, name);
      && TailZero(o.disk, o.vol) && LogApart(o.vol)
      && (Synced(o.disk, blockSize, blockCount, o.vol) <==> !Collides(v, name))
      && (MountVolume(disk, blockSize, blockCount) == Some(v) && o.ok && !Collides(v, name) ==>
            MountVolume(o.disk, blockSize, blockCount) == Some(o.vol))
  {
    hide MountVolume, WriteRecord, RecordSize, FindFrom, DecodeSuperblock, ReplayStep, BlockStart, Synced;
    var o := Create(disk, v, name);
    CreateSynced(disk, blockSize, blockCount, v, name);
    if o.ok {
      WriteKeepsBack(disk, v, CreateHeader(v, name), name + [NUL]);
      ReplayStopsAtZeros(disk, o.vol);
      ReplayStopsIff(disk, o.vol);
    }
  }

  /** The append that the code writes to the log although it cannot enter it into the full segment table. */
  predicate Overflows(v: Volume, name: CString, data: seq<byte>) {
    && data != [] && Find(v.files, ByName(name)).Some? && RecordFits(v, |data|)
    && |v.segs| >= MAX_SEGMENTS
  }

  /** An append stays visible to a remount exactly when it does not overflow the segment table and, if it succeeds, its
      record does not end where an older one begins that replay goes on to apply. */
  lemma AppendSynced(disk: seq<byte>, blockSize: nat, blockCount: nat, v: Volume, name: CString, data: seq<byte>)
    requires Synced(disk, blockSize, blockCount, v) && LogApart(v) && |data| < TWO_32
    ensures var o := Append(disk, v, name, data);
      && LogApart(o.vol)
      && (Synced(o.disk, blockSize, blockCount, o.vol) <==>
            !Overflows(v, name, data) && (o.ok ==> ReplayStep(disk, o.vol).None?))
      && (MountVolume(disk, blockSize, blockCount) == Some(v) && !Overflows(v, name, data)
          && (o.ok ==> ReplayStep(disk, o.vol).None?) ==>
            MountVolume(o.disk, blockSize, blockCount) == Some(o.vol))
  {
    hide MountVolume, WriteRecord, RecordSize, FindFrom, DecodeSuperblock, AddSegment, ReplayStep, BlockStart;
    var o := Append(disk, v, name, data);
    var found := Find(v.files, ByName(name));
    if data != [] && found.Some? && RecordFits(v, |data|) {
      SyncedFindId(disk, blockSize, blockCount, v, found.value);
      AddSegmentOnly(v, found.value, |data|, v.logEnd + HEADER_SIZE);
      AddSegmentOnly(MountVolume(disk, blockSize, blockCount).value, found.value, |data|, v.logEnd + HEADER_SIZE);
      WriteSynced(disk, blockSize, blockCount, v, AppendHeader(v.files[found.value], |data|), data, o.vol);
    }
  }

  /** Over a log followed by zeros only an overflow can hide an append from a remount. */
  lemma AppendSyncedOnZeros(disk: seq<byte>, blockSize: nat, blockCount: nat, v: Volume, name: CString, data: seq<byte>)
    requires Synced(disk, blockSize, blockCount, v) && TailZero(disk, v) && LogApart(v) && |data| < TWO_32
    ensures var o := Append(disk, v, name, data);
      && TailZero(o.disk, o.vol) && LogApart(o.vol)
      && (Synced(o.disk, blockSize, blockCount, o.vol) <==> !Overflows(v, name, data))
      && (MountVolume(disk, blockSize, blockCount) == Some(v) && !Overflows(v, name, data) ==>
            MountVolume(o.disk, blockSize, blockCount) == Some(o.vol))
  {
    hide MountVolume, WriteRecord, RecordSize, FindFrom, DecodeSuperblock, ReplayStep, BlockStart, Synced;
    var o := Append(disk, v, name, data);
    AppendSynced(disk, blockSize, blockCount, v, name, data);
    var found := Find(v.files, ByName(name));
    if data != [] && found.Some? && RecordFits(v, |data|) {
      WriteKeepsBack(disk, v, AppendHeader(v.files[found.value], |data|), data);
      ReplayStopsAtZeros(disk, o.vol);
      ReplayStopsIff(disk, o.vol);
    }
  }

  /** Ids are distinct, so the search by id finds the file that the search by name found. */
  lemma SyncedFindId(disk: seq<byte>, blockSize: nat, blockCount: nat, v: Volume, i: nat)
    requires Synced(disk, blockSize, blockCount, v) && i < |v.files| && v.files[i].File?
    ensures Find(v.files, ById(v.files[i].id)) == Some(i)
  {
    hide MountVolume, FindFrom, SegmentsOk, FilesOk, DecodeSuperblock;
    MountWellFormed(disk, blockSize, blockCount);
  }

  /** AddSegment reads nothing but the tables and changes nothing else. */
  lemma AddSegmentOnly(v: Volume, i: nat, n: u32, dataOffset: nat)
    requires i < |v.files| && v.files[i].File?
    ensures var w := AddSegment(v, i, n, dataOffset);
      w == v.(files := w.files, segs := w.segs)
    ensures forall next ::
      AddSegment(v.(nextId := next), i, n, dataOffset) == AddSegment(v, i, n, dataOffset).(nextId := next)
  {
  }
}
