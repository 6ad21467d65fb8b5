/** LogFS as a map from names to contents: what each operation does to that map. */
module LogContents {
  import opened Bytes
  import opened LogFormat
  import opened LogVolume
  import opened LogRemount

  ghost predicate InBounds(segs: seq<Segment>, n: nat) {
    forall k :: 0 <= k < |segs| ==> segs[k].dataOffset + segs[k].dataSize <= n
  }

  function SegmentData(disk: seq<byte>, s: Segment): seq<byte>
    requires s.dataOffset + s.dataSize <= |disk|
  {
    disk[s.dataOffset..s.dataOffset + s.dataSize]
  }

  /** The bytes of a file: its segments in table order. */
  ghost function Content(disk: seq<byte>, segs: seq<Segment>, id: u32): (c: seq<byte>)
    requires InBounds(segs, |disk|)
    ensures |c| == SizeOf(segs, id)
  {
    if segs == [] then []
    else
      var last := segs[|segs| - 1];
      Content(disk, segs[..|segs| - 1], id) + if last.fileId == id then SegmentData(disk, last) else []
  }

  lemma ContentAppended(disk: seq<byte>, segs: seq<Segment>, s: Segment, id: u32)
    requires InBounds(segs + [s], |disk|)
    ensures InBounds(segs, |disk|) && s.dataOffset + s.dataSize <= |disk|
    ensures Content(disk, segs + [s], id) == Content(disk, segs, id) + if s.fileId == id then SegmentData(disk, s)
      else []
  {
    var all := segs + [s];
    assert all[|segs|] == s;
    assert forall k :: 0 <= k < |segs| ==> all[k] == segs[k];
    assert all[..|segs|] == segs;
  }

  /** Contents depend only on the part of the log below `end` when all segments lie there. */
  lemma {:induction false} ContentStable(disk: seq<byte>, disk': seq<byte>, segs: seq<Segment>, id: u32, end: nat)
    requires InBounds(segs, end) && end <= |disk| && end <= |disk'| && disk[..end] == disk'[..end]
    ensures Content(disk, segs, id) == Content(disk', segs, id)
  {
    if segs != [] {
      var last := segs[|segs| - 1];
      ContentStable(disk, disk', segs[..|segs| - 1], id, end);
      SamePart(disk, disk', end, last.dataOffset, last.dataOffset + last.dataSize);
      assert SegmentData(disk, last) == SegmentData(disk', last);
    }
  }

  /** A segment's bytes are found in its file's contents at the segment's file offset. */
  lemma {:induction false} ContentAt(disk: seq<byte>, segs: seq<Segment>, k: nat)
    requires InBounds(segs, |disk|) && k < |segs|
    ensures var s := segs[k];
      var start := SizeOf(segs[..k], s.fileId);
      && start + s.dataSize <= SizeOf(segs, s.fileId)
      && Content(disk, segs, s.fileId)[start..start + s.dataSize] == SegmentData(disk, s)
    decreases |segs|
  {
    var init := segs[..|segs| - 1];
    if k < |init| {
      assert init[..k] == segs[..k];
      ContentAt(disk, init, k);
      var s := segs[k];
      var start := SizeOf(segs[..k], s.fileId);
      var c, c' := Content(disk, init, s.fileId), Content(disk, segs, s.fileId);
      assert c'[..|c|] == c;
      assert c'[start..start + s.dataSize] == c[start..start + s.dataSize];
    } else {
      assert init == segs[..k];
    }
  }

  ghost predicate Readable(disk: seq<byte>, v: Volume) {
    v.capacity <= |disk| && InBounds(v.segs, DataEnd(v)) && NamesDistinct(v.files)
  }

  lemma ReadableBounds(disk: seq<byte>, v: Volume)
    requires Readable(disk, v)
    ensures InBounds(v.segs, |disk|)
  {
  }

  lemma WellFormedReadable(disk: seq<byte>, v: Volume, logOffset: nat)
    requires v.capacity <= |disk| && WellFormed(v, logOffset)
    ensures Readable(disk, v)
  {
    forall k | 0 <= k < |v.segs|
      ensures v.segs[k].dataOffset + v.segs[k].dataSize <= DataEnd(v)
    {
      assert SegmentOk(v.segs, k, logOffset + HEADER_SIZE, DataEnd(v));
    }
  }

  /** The abstract value of a volume: every file name with its bytes. */
  ghost function Files(disk: seq<byte>, v: Volume): map<CString, seq<byte>>
    requires Readable(disk, v)
  {
    map i | 0 <= i < |v.files| && v.files[i].File? :: v.files[i].name := Content(disk, v.segs, v.files[i].id)
  }

  lemma FilesAt(disk: seq<byte>, v: Volume, i: nat)
    requires Readable(disk, v) && i < |v.files| && v.files[i].File?
    ensures v.files[i].name in Files(disk, v) && Files(disk, v)[v.files[i].name] == Content(disk, v.segs, v.files[i].id)
  {
  }

  /** The names in the first n slots. */
  ghost function NamesIn(files: seq<Slot>, n: nat): set<CString>
    requires n <= |files|
  {
    set i | 0 <= i < n && files[i].File? :: files[i].name
  }

  /** A map with the right names and contents is the abstract value. */
  lemma FilesIs(disk: seq<byte>, v: Volume, m: map<CString, seq<byte>>)
    requires Readable(disk, v) && m.Keys == NamesIn(v.files, |v.files|)
    requires forall i :: 0 <= i < |v.files| && v.files[i].File? ==>
      v.files[i].name in m && m[v.files[i].name] == Content(disk, v.segs, v.files[i].id)
    ensures m == Files(disk, v)
  {
    hide Content, SizeOf;
    assert Files(disk, v).Keys == NamesIn(v.files, |v.files|);
  }

  /** A name is stored exactly when the table search finds it. */
  lemma NameStored(disk: seq<byte>, v: Volume, name: CString)
    requires Readable(disk, v)
    ensures name in Files(disk, v) <==> Find(v.files, ByName(name)).Some?
  {
    hide FindFrom, Content;
    var r := Find(v.files, ByName(name));
    if r.Some? {
      FilesAt(disk, v, r.value);
    }
    assert forall i :: 0 <= i < |v.files| && v.files[i].File? && v.files[i].name == name ==>
      Matches(ByName(name), v.files[i]);
  }

  lemma NamesStep(files: seq<Slot>, n: nat)
    requires 0 < n <= |files| && NamesDistinct(files)
    ensures files[n - 1].Unused? ==> NamesIn(files, n) == NamesIn(files, n - 1)
    ensures files[n - 1].File? ==>
      NamesIn(files, n) == NamesIn(files, n - 1) + {files[n - 1].name} && files[n - 1].name !in NamesIn(files, n - 1)
  {
  }

  lemma {:induction false} NamesCount(files: seq<Slot>, n: nat)
    requires n <= |files| && NamesDistinct(files)
    ensures |NamesIn(files, n)| <= n
    ensures |NamesIn(files, n)| == n <==> forall i :: 0 <= i < n ==> files[i].File?
  {
    if n > 0 {
      NamesStep(files, n);
      NamesCount(files, n - 1);
      hide NamesIn, NamesDistinct;
    }
  }

  /** A slot is free exactly when fewer files than slots are stored. */
  lemma SlotFree(disk: seq<byte>, v: Volume)
    requires Readable(disk, v)
    ensures |Files(disk, v)| < |v.files| <==> Find(v.files, AnyUnused).Some?
  {
    hide FindFrom, Content;
    assert Files(disk, v).Keys == NamesIn(v.files, |v.files|);
    NamesCount(v.files, |v.files|);
    var r := Find(v.files, AnyUnused);
    assert r.None? ==> forall i :: 0 <= i < |v.files| ==> !Matches(AnyUnused, v.files[i]);
  }

  /** Files that keep their slots and segments keep their contents when only the log's tail is written. */
  lemma FilesFrame(disk: seq<byte>, disk': seq<byte>, v: Volume, v': Volume)
    requires Readable(disk, v) && Readable(disk', v')
    requires v'.files == v.files && v'.segs == v.segs
    requires disk' == disk || (v.logEnd <= v.capacity <= |disk'| && disk[..v.logEnd] == disk'[..v.logEnd])
    ensures Files(disk', v') == Files(disk, v)
  {
    if disk' != disk {
      forall id: u32
        ensures Content(disk', v'.segs, id) == Content(disk, v.segs, id)
      {
        ContentStable(disk, disk', v.segs, id, v.logEnd);
      }
    }
  }

  /** A file that owns no segment is empty. */
  lemma FreshContent(disk: seq<byte>, v: Volume, id: u32)
    requires Readable(disk, v) && Find(v.files, ById(id)).None?
    requires forall k :: 0 <= k < |v.segs| ==> Owned(v.files, v.segs[k].fileId)
    ensures Content(disk, v.segs, id) == []
  {
    hide FindFrom, Content;
    forall k | 0 <= k < |v.segs|
      ensures v.segs[k].fileId != id
    {
      assert Owned(v.files, v.segs[k].fileId);
      var j :| 0 <= j < |v.files| && v.files[j].File? && v.files[j].id == v.segs[k].fileId;
      assert !Matches(ById(id), v.files[j]);
    }
    SizeOfUnowned(v.segs, id);
  }

  lemma AddFileContents(disk: seq<byte>, v: Volume, v': Volume, i: nat, name: CString, id: u32)
    requires Readable(disk, v) && Readable(disk, v')
    requires i < |v.files| && v.files[i].Unused? && Find(v.files, ByName(name)).None?
    requires Content(disk, v.segs, id) == []
    requires v'.files == AddFile(v, i, name, id).files && v'.segs == v.segs
    ensures Files(disk, v') == Files(disk, v)[name := []]
  {
    assert InBounds(v'.segs, |disk|);
    hide FindFrom, Content, Files, Readable;
    var m := Files(disk, v);
    FilesKeys(disk, v);
    NamesAdded(v.files, i, name, id);
    forall k | 0 <= k < |v'.files| && v'.files[k].File?
      ensures v'.files[k].name in m[name := []]
      ensures m[name := []][v'.files[k].name] == Content(disk, v'.segs, v'.files[k].id)
    {
      if k != i {
        assert !Matches(ByName(name), v.files[k]);
        FilesAt(disk, v, k);
      }
    }
    FilesIs(disk, v', m[name := []]);
  }

  lemma FilesKeys(disk: seq<byte>, v: Volume)
    requires Readable(disk, v)
    ensures Files(disk, v).Keys == NamesIn(v.files, |v.files|)
  {
    hide Content;
  }

  lemma NamesAdded(files: seq<Slot>, i: nat, name: CString, id: u32)
    requires i < |files| && files[i].Unused?
    ensures NamesIn(files[i := File(name, id, 0, 0)], |files|) == NamesIn(files, |files|) + {name}
  {
    var files' := files[i := File(name, id, 0, 0)];
    assert files'[i].name == name;
    forall k | 0 <= k < |files| && files[k].File?
      ensures files[k].name in NamesIn(files', |files|)
    {
      assert files'[k] == files[k];
    }
  }

  lemma NamesSame(files: seq<Slot>, files': seq<Slot>)
    requires |files| == |files'|
    requires forall i :: 0 <= i < |files| ==>
      (files'[i].File? <==> files[i].File?) && (files[i].File? ==> files'[i].name == files[i].name)
    ensures NamesIn(files', |files'|) == NamesIn(files, |files|)
  {
    forall name
      ensures name in NamesIn(files', |files'|) <==> name in NamesIn(files, |files|)
    {
      if name in NamesIn(files, |files|) {
        var i :| 0 <= i < |files| && files[i].File? && files[i].name == name;
        assert files'[i].name == name;
      }
    }
  }

  lemma OtherFile(files: seq<Slot>, i: nat, k: nat)
    requires NamesDistinct(files) && i < |files| && k < |files| && files[i].File? && files[k].File?
    ensures i == k <==> files[i].name == files[k].name
    ensures i == k <==> files[i].id == files[k].id
  {
  }

  /** What a new segment does to the file in slot k. */
  lemma SegmentContent(disk: seq<byte>, v: Volume, i: nat, n: u32, dataOffset: nat, k: nat)
    requires Readable(disk, v) && dataOffset + n <= |disk|
    requires i < |v.files| && v.files[i].File? && k < |v.files| && v.files[k].File?
    ensures var w := AddSegment(v, i, n, dataOffset);
      && InBounds(w.segs, |disk|) && w.files[k].File?
      && w.files[k].name == v.files[k].name && w.files[k].id == v.files[k].id
      && Content(disk, w.segs, w.files[k].id)
         == Content(disk, v.segs, v.files[k].id) + if k == i then disk[dataOffset..dataOffset + n] else []
  {
    hide Content, SizeOf;
    var s := Segment(v.files[i].id, v.files[i].size, n, dataOffset);
    assert AddSegment(v, i, n, dataOffset).segs == v.segs + [s];
    assert InBounds(v.segs + [s], |disk|);
    ContentAppended(disk, v.segs, s, v.files[k].id);
    OtherFile(v.files, i, k);
  }

  lemma FileAfterAppend(disk: seq<byte>, v: Volume, v': Volume, i: nat, n: u32, dataOffset: nat, k: nat)
    requires Readable(disk, v) && Readable(disk, v')
    requires i < |v.files| && v.files[i].File? && dataOffset + n <= |disk| && k < |v.files| && v.files[k].File?
    requires v'.files == AddSegment(v, i, n, dataOffset).files && v'.segs == AddSegment(v, i, n, dataOffset).segs
    ensures v.files[k].name in Files(disk, v) && (v.files[k].name == v.files[i].name <==> k == i)
    ensures k < |v'.files| && v'.files[k].File? && v'.files[k].name == v.files[k].name
    ensures Content(disk, v'.segs, v'.files[k].id)
         == Files(disk, v)[v.files[k].name] + if k == i then disk[dataOffset..dataOffset + n] else []
  {
    hide Content, SizeOf, Files, NamesIn, InBounds, AddSegment;
    FilesAt(disk, v, k);
    OtherFile(v.files, i, k);
    NamesKept(v, i, n, dataOffset);
    SegmentContent(disk, v, i, n, dataOffset, k);
  }

  lemma AddSegmentContents(disk: seq<byte>, v: Volume, v': Volume, i: nat, n: u32, dataOffset: nat)
    requires Readable(disk, v) && Readable(disk, v')
    requires i < |v.files| && v.files[i].File? && dataOffset + n <= |disk|
    requires v'.files == AddSegment(v, i, n, dataOffset).files && v'.segs == AddSegment(v, i, n, dataOffset).segs
    ensures v.files[i].name in Files(disk, v)
    ensures Files(disk, v')
         == Files(disk, v)[v.files[i].name := Files(disk, v)[v.files[i].name] + disk[dataOffset..dataOffset + n]]
  {
    hide Content, Readable, Files, NamesIn, AddSegment, InBounds;
    ReadableBounds(disk, v');
    NamesKept(v, i, n, dataOffset);
    NamesSame(v.files, v'.files);
    FileAfterAppend(disk, v, v', i, n, dataOffset, i);
    FilesKeys(disk, v);
    var m := Files(disk, v);
    var m' := m[v.files[i].name := m[v.files[i].name] + disk[dataOffset..dataOffset + n]];
    assert m'.Keys == m.Keys;
    forall k | 0 <= k < |v'.files| && v'.files[k].File?
      ensures v'.files[k].name in m' && m'[v'.files[k].name] == Content(disk, v'.segs, v'.files[k].id)
    {
      FileAfterAppend(disk, v, v', i, n, dataOffset, k);
    }
    FilesIs(disk, v', m');
  }

  lemma NamesKept(v: Volume, i: nat, n: u32, dataOffset: nat)
    requires i < |v.files| && v.files[i].File?
    ensures var w := AddSegment(v, i, n, dataOffset);
      |w.files| == |v.files| && forall k :: 0 <= k < |v.files| ==>
        (w.files[k].File? <==> v.files[k].File?) && (v.files[k].File? ==> w.files[k].name == v.files[k].name)
  {
  }

  /** A record fits when it has at most 480 payload bytes and, rounded up to 8 bytes, ends inside the device. */
  lemma RecordFitsIff(v: Volume, n: nat)
    ensures RecordFits(v, n) <==> n <= 480 && v.logEnd + (32 + n + 7) / 8 * 8 <= v.capacity
  {
  }

  /** logfs_create succeeds exactly when the name is valid and new and there is room. It leaves well-formed tables
      exactly when it does not take an id in use, and then it adds an empty file and changes nothing else. */
  lemma CreateRefines(disk: seq<byte>, v: Volume, name: CString, logOffset: nat)
    requires v.capacity <= |disk| && WellFormed(v, logOffset)
    ensures var o := Create(disk, v, name);
      && Readable(disk, v)
      && (o.ok <==>
            && NameValid(name) && name !in Files(disk, v) && |Files(disk, v)| < 16
            && v.logEnd + (32 + |name| + 8) / 8 * 8 <= v.capacity)
      && (WellFormed(o.vol, logOffset) <==> !Collides(v, name))
    ensures var o := Create(disk, v, name);
      !Collides(v, name) ==>
        && Readable(o.disk, o.vol)
        && Files(o.disk, o.vol) == if o.ok then Files(disk, v)[name := []] else Files(disk, v)
  {
    hide FindFrom, RecordSize, WellFormed, NamesDistinct, Files, WriteRecord;
    var o := Create(disk, v, name);
    RecordFitsIff(v, |name| + 1);
    WellFormedReadable(disk, v, logOffset);
    NameStored(disk, v, name);
    TableSize(v, logOffset);
    SlotFree(disk, v);
    if o.ok {
      if Collides(v, name) {
        CollisionMalformed(disk, v, name, logOffset);
      } else {
        CreateAdds(disk, v, name, logOffset);
      }
    } else {
      WellFormedOtherId(v, o.vol, logOffset);
      WellFormedReadable(o.disk, o.vol, logOffset);
      FilesFrame(disk, o.disk, v, o.vol);
    }
  }

  lemma CreateAdds(disk: seq<byte>, v: Volume, name: CString, logOffset: nat)
    requires v.capacity <= |disk| && WellFormed(v, logOffset)
    requires Create(disk, v, name).ok && !Collides(v, name)
    ensures var o := Create(disk, v, name);
      && WellFormed(o.vol, logOffset) && Readable(disk, v) && Readable(o.disk, o.vol)
      && Files(o.disk, o.vol) == Files(disk, v)[name := []]
  {
    hide FindFrom, RecordSize, WellFormed, NamesDistinct, Files, WriteRecord;
    var o := Create(disk, v, name);
    WellFormedReadable(disk, v, logOffset);
    var i := Find(v.files, AnyUnused).value;
    AddFileWellFormed(v, logOffset, i, name, v.nextId, o.vol.logEnd, o.vol.nextId);
    WellFormedReadable(o.disk, o.vol, logOffset);
    WriteKeepsFront(disk, v, CreateHeader(v, name), name + [NUL]);
    FilesFrame(disk, o.disk, v, v);
    SegmentsOwned(v, logOffset);
    FreshContent(o.disk, v, v.nextId);
    AddFileContents(o.disk, v, o.vol, i, name, v.nextId);
  }

  lemma CollisionMalformed(disk: seq<byte>, v: Volume, name: CString, logOffset: nat)
    requires v.capacity <= |disk| && Collides(v, name)
    ensures Create(disk, v, name).ok && !WellFormed(Create(disk, v, name).vol, logOffset)
  {
    hide FindFrom, RecordSize, WriteRecord, FilesOk, SegmentsOk, Owned;
    var files := Create(disk, v, name).vol.files;
    var i, j := Find(v.files, AnyUnused).value, Find(v.files, ById(v.nextId)).value;
    assert files[i].File? && files[j].File? && i != j && files[i].id == files[j].id;
  }

  lemma SegmentsOwned(v: Volume, logOffset: nat)
    requires WellFormed(v, logOffset)
    ensures forall k :: 0 <= k < |v.segs| ==> Owned(v.files, v.segs[k].fileId)
  {
  }

  lemma TableSize(v: Volume, logOffset: nat)
    requires WellFormed(v, logOffset)
    ensures |v.files| == MAX_FILES && |v.segs| <= MAX_SEGMENTS
  {
  }

  /** Well-formedness does not look at the next id, and survives a log end moved further. */
  lemma WellFormedOtherId(v: Volume, v': Volume, logOffset: nat)
    requires WellFormed(v, logOffset) && v.logEnd <= v'.logEnd && v' == v.(nextId := v'.nextId, logEnd := v'.logEnd)
    ensures WellFormed(v', logOffset)
  {
    SegmentsOkWider(v.segs, logOffset + HEADER_SIZE, DataEnd(v), DataEnd(v'));
  }

  /** logfs_append extends one file by the data, exactly when the file exists, the data fits a record, the log
      has room and the segment table is not full; in every other case the files stay as they were. */
  lemma AppendRefines(disk: seq<byte>, v: Volume, name: CString, data: seq<byte>, logOffset: nat)
    requires v.capacity <= |disk| && WellFormed(v, logOffset) && |data| < TWO_32
    ensures var o := Append(disk, v, name, data);
      && WellFormed(o.vol, logOffset) && Readable(disk, v) && Readable(o.disk, o.vol)
      && (o.ok <==>
            && name in Files(disk, v) && 1 <= |data| <= 480
            && |v.segs| < 64 && v.logEnd + (32 + |data| + 7) / 8 * 8 <= v.capacity)
      && Files(o.disk, o.vol) == if o.ok then Files(disk, v)[name := Files(disk, v)[name] + data] else Files(disk, v)
  {
    WellFormedReadable(disk, v, logOffset);
    AppendAccepted(disk, v, name, data, logOffset);
    if Append(disk, v, name, data).ok {
      AppendAdds(disk, v, name, data, logOffset);
    } else {
      AppendRefused(disk, v, name, data, logOffset);
    }
  }

  lemma AppendAccepted(disk: seq<byte>, v: Volume, name: CString, data: seq<byte>, logOffset: nat)
    requires v.capacity <= |disk| && WellFormed(v, logOffset) && |data| < TWO_32 && Readable(disk, v)
    ensures Append(disk, v, name, data).ok <==>
              && name in Files(disk, v) && 1 <= |data| <= 480
              && |v.segs| < 64 && v.logEnd + (32 + |data| + 7) / 8 * 8 <= v.capacity
  {
    hide FindFrom, RecordSize, WellFormed, Files, WriteRecord, AddSegment, RecordFits;
    RecordFitsIff(v, |data|);
    NameStored(disk, v, name);
  }

  lemma AppendAdds(disk: seq<byte>, v: Volume, name: CString, data: seq<byte>, logOffset: nat)
    requires v.capacity <= |disk| && WellFormed(v, logOffset) && |data| < TWO_32
    requires Append(disk, v, name, data).ok
    ensures var o := Append(disk, v, name, data);
      && WellFormed(o.vol, logOffset) && Readable(disk, v) && Readable(o.disk, o.vol) && name in Files(disk, v)
      && Files(o.disk, o.vol) == Files(disk, v)[name := Files(disk, v)[name] + data]
  {
    hide FindFrom, RecordSize, WellFormed, NamesDistinct, Files, WriteRecord, AddSegment;
    var o := Append(disk, v, name, data);
    WellFormedReadable(disk, v, logOffset);
    NameStored(disk, v, name);
    TableSize(v, logOffset);
    var i := Find(v.files, ByName(name)).value;
    var h := AppendHeader(v.files[i], |data|);
    WriteKeepsFront(disk, v, h, data);
    AddSegmentWellFormed(v, logOffset, i, |data|, o.vol.logEnd);
    WellFormedReadable(o.disk, o.vol, logOffset);
    FilesFrame(disk, o.disk, v, v);
    WrittenParts(disk, v.logEnd, h, data);
    WrittenData(disk, v, h, data);
    AddSegmentContents(o.disk, v, o.vol, i, |data|, v.logEnd + HEADER_SIZE);
  }

  lemma AppendRefused(disk: seq<byte>, v: Volume, name: CString, data: seq<byte>, logOffset: nat)
    requires v.capacity <= |disk| && WellFormed(v, logOffset) && |data| < TWO_32
    requires !Append(disk, v, name, data).ok
    ensures var o := Append(disk, v, name, data);
      && WellFormed(o.vol, logOffset) && Readable(disk, v) && Readable(o.disk, o.vol)
      && Files(o.disk, o.vol) == Files(disk, v)
  {
    hide FindFrom, RecordSize, WellFormed, NamesDistinct, Files, WriteRecord, AddSegment;
    var o := Append(disk, v, name, data);
    WellFormedReadable(disk, v, logOffset);
    var found := Find(v.files, ByName(name));
    if data != [] && found.Some? && RecordFits(v, |data|) {
      WriteKeepsFront(disk, v, AppendHeader(v.files[found.value], |data|), data);
    }
    WellFormedOtherId(v, o.vol, logOffset);
    WellFormedReadable(o.disk, o.vol, logOffset);
    FilesFrame(disk, o.disk, v, o.vol);
  }

  lemma WrittenData(disk: seq<byte>, v: Volume, h: Header, payload: seq<byte>)
    requires RecordFits(v, |payload|) && v.capacity <= |disk|
    ensures v.logEnd + HEADER_SIZE + |payload| <= |disk|
    ensures WriteRecord(disk, v, h, payload)[v.logEnd + HEADER_SIZE..v.logEnd + HEADER_SIZE + |payload|] == payload
  {
    hide RecordBytes, RecordSize, Splice;
    WrittenParts(disk, v.logEnd, h, payload);
  }

  // ---- Replay of any log ----

  /** The name in a creation record: the bytes before the first NUL. */
  predicate NameIn(payload: seq<byte>, name: CString) {
    |name| < |payload| && payload[..|name|] == name && payload[|name|] == 0
  }

  lemma NameInUnique(payload: seq<byte>, name: CString)
    requires NameIn(payload, name)
    ensures AsCString(payload) == name
  {
    var rest := payload[|name| + 1..];
    assert payload == name + [NUL] + rest;
    AsCStringOfTerminated(name, rest);
  }

  /** Replay applies an intact creation record, of which n bytes are announced as the name, exactly when n is 1 to
      31, the payload is one byte longer and has a NUL there, the name in it is valid and new, its id is new and
      there is a slot. It then adds an empty file of that name to the map from names to bytes. */
  lemma ReplayedCreate(disk: seq<byte>, v: Volume, h: Header, payload: seq<byte>, offset: nat, name: CString,
                       logOffset: nat, end: nat)
    requires WellFormed(v, logOffset) && v.capacity <= |disk| && v.logEnd <= end
    requires h.kind == 1 && |payload| == h.payloadSize && NameIn(payload, name)
    ensures Readable(disk, v)
    ensures ApplyRecord(v, h, payload, offset).Some? <==>
      && 1 <= h.nameLength <= 31 && h.payloadSize == h.nameLength + 1 && payload[h.nameLength] == 0
      && 1 <= |name| <= 31 && 47 !in name && name !in Files(disk, v) && |Files(disk, v)| < 16
      && Find(v.files, ById(h.fileId)).None?
    ensures ApplyRecord(v, h, payload, offset).Some? ==>
      var w := ApplyRecord(v, h, payload, offset).value.(logEnd := end);
      && Readable(disk, w) && Files(disk, w) == Files(disk, v)[name := []] && Stored(w, name, h.fileId)
  {
    hide FindFrom, WellFormed, Files, Content, NameIn;
    WellFormedReadable(disk, v, logOffset);
    NameInUnique(payload, name);
    NameStored(disk, v, name);
    TableSize(v, logOffset);
    SlotFree(disk, v);
    if ApplyRecord(v, h, payload, offset).Some? {
      var i := Find(v.files, AnyUnused).value;
      var w := ApplyRecord(v, h, payload, offset).value.(logEnd := end);
      AddFileWellFormed(v, logOffset, i, name, h.fileId, end, w.nextId);
      WellFormedReadable(disk, w, logOffset);
      SegmentsOwned(v, logOffset);
      FreshContent(disk, v, h.fileId);
      AddFileContents(disk, v, w, i, name, h.fileId);
      assert w.files[i] == File(name, h.fileId, 0, 0);
    }
  }

  /** The file of this name has this id. */
  ghost predicate Stored(v: Volume, name: CString, id: u32) {
    exists i :: 0 <= i < |v.files| && v.files[i].File? && v.files[i].name == name && v.files[i].id == id
  }

  /** Replay applies an intact append record exactly when it is not empty, some file has its id, that file is as
      long as the record says it was, and becomes as long as the record says (in 32 bits), and the segment table
      has room. It then adds the payload to the bytes of that file. */
  lemma ReplayedAppend(disk: seq<byte>, v: Volume, h: Header, payload: seq<byte>, name: CString,
                       logOffset: nat, end: nat)
    requires WellFormed(v, logOffset) && v.capacity <= |disk| && Stored(v, name, h.fileId)
    requires h.kind == 2 && |payload| == h.payloadSize <= 480 && v.logEnd + 32 + |payload| <= end <= v.capacity
    requires disk[v.logEnd + 32..v.logEnd + 32 + |payload|] == payload
    ensures Readable(disk, v) && name in Files(disk, v)
    ensures ApplyRecord(v, h, payload, v.logEnd + 32).Some? <==>
      && 0 < |payload| && |Files(disk, v)[name]| == h.sizeBefore
      && h.sizeAfter == (h.sizeBefore + h.payloadSize) % 0x1_0000_0000 && |v.segs| < 64
    ensures ApplyRecord(v, h, payload, v.logEnd + 32).Some? ==>
      var w := ApplyRecord(v, h, payload, v.logEnd + 32).value.(logEnd := end);
      Readable(disk, w) && Files(disk, w) == Files(disk, v)[name := Files(disk, v)[name] + payload]
  {
    hide FindFrom, WellFormed, Files, Content, AddSegment, NamesDistinct;
    WellFormedReadable(disk, v, logOffset);
    TableSize(v, logOffset);
    var k :| 0 <= k < |v.files| && v.files[k].File? && v.files[k].name == name && v.files[k].id == h.fileId;
    IdFound(v, logOffset, k);
    FilesAt(disk, v, k);
    ContentSize(disk, v, logOffset, k);
    if ApplyRecord(v, h, payload, v.logEnd + 32).Some? {
      var w := ApplyRecord(v, h, payload, v.logEnd + 32).value.(logEnd := end);
      AddSegmentOnly(v, k, |payload|, v.logEnd + 32);
      AddSegmentWellFormed(v, logOffset, k, |payload|, end);
      WellFormedReadable(disk, w, logOffset);
      AddSegmentContents(disk, v, w, k, |payload|, v.logEnd + 32);
    }
  }

  lemma IdFound(v: Volume, logOffset: nat, k: nat)
    requires WellFormed(v, logOffset) && k < |v.files| && v.files[k].File?
    ensures Find(v.files, ById(v.files[k].id)) == Some(k)
  {
    hide FindFrom, SegmentsOk, FilesOk;
  }

  lemma ContentSize(disk: seq<byte>, v: Volume, logOffset: nat, k: nat)
    requires WellFormed(v, logOffset) && Readable(disk, v) && k < |v.files| && v.files[k].File?
    ensures |Content(disk, v.segs, v.files[k].id)| == v.files[k].size
  {
    hide NamesDistinct, SegmentsOk;
  }

  /** A record of any other kind, or for a file that is not there, is refused. */
  lemma ReplayedOther(v: Volume, h: Header, payload: seq<byte>, offset: nat)
    requires |payload| == h.payloadSize && (h.kind != 1 && h.kind != 2)
    ensures ApplyRecord(v, h, payload, offset).None?
  {
  }

  lemma ReplayedNowhere(v: Volume, h: Header, payload: seq<byte>, offset: nat)
    requires |payload| == h.payloadSize && h.kind == 2 && forall name: CString :: !Stored(v, name, h.fileId)
    ensures ApplyRecord(v, h, payload, offset).None?
  {
    hide FindFrom;
    var r := Find(v.files, ById(h.fileId));
    assert r.Some? ==> Stored(v, v.files[r.value].name, h.fileId);
  }
}
