/** The TinyFS image: what mktinyfs.py packs and what the kernel's mount reads back. */
module TinyFormat {
  import opened Bytes

  const TINYFS_MAGIC: u32 := 0x53465954
  const TINYFS_VERSION: u32 := 1
  const NAME_MAX := 64
  const MAX_FILES := 16
  const SUPERBLOCK_SIZE := 20
  const ENTRY_SIZE := 76
  const MIN_IMAGE_SIZE := 4096

  /** A file handed to the packer. */
  datatype Packed = Packed(name: CString, contents: seq<byte>)

  /** A name in its 64-byte field, with the NUL that the mount forces. */
  type FileName = s: CString | |s| < 64

  /** A file entry as the kernel keeps it. */
  datatype TinyFile = TinyFile(name: FileName, offset: u32, size: u32, flags: u32)

  function AlignUp512(v: nat): (r: nat)
    ensures v <= r < v + 512 && r % 512 == 0
  {
    (v + 511) - (v + 511) % 512
  }

  // ---- The packer ----

  function DataStart(n: nat): nat {
    AlignUp512(SUPERBLOCK_SIZE + n * 76)
  }

  /** Where the contents of file i start; for i == |files|, where the data ends. */
  function OffsetOf(files: seq<Packed>, i: nat): (r: nat)
    requires i <= |files|
    ensures DataStart(|files|) <= r && r % 512 == 0
  {
    if i == 0 then DataStart(|files|) else AlignUp512(OffsetOf(files, i - 1) + |files[i - 1].contents|)
  }

  /** The name fits its field, and the numbers packed into the entry fit 32 bits. */
  predicate EntryFits(files: seq<Packed>, i: nat)
    requires i < |files|
  {
    |files[i].name| < NAME_MAX && OffsetOf(files, i) < TWO_32 && |files[i].contents| < TWO_32
  }

  /** What the packer needs. The end of the data is not among the numbers that it packs. */
  predicate Packable(files: seq<Packed>) {
    DataStart(|files|) < TWO_32 && forall i :: 0 <= i < |files| ==> EntryFits(files, i)
  }

  lemma {:induction false} PackableAt(files: seq<Packed>, i: nat)
    requires Packable(files) && i < |files|
    ensures |files[i].name| < NAME_MAX && OffsetOf(files, i) < TWO_32 && |files[i].contents| < TWO_32
  {
    hide OffsetOf;
    assert EntryFits(files, i);
  }

  lemma OffsetNext(files: seq<Packed>, i: nat)
    requires i < |files|
    ensures OffsetOf(files, i + 1) == AlignUp512(OffsetOf(files, i) + |files[i].contents|)
  {
  }

  function EncodeEntry(name: CString, offset: u32, size: u32): (s: seq<byte>)
    requires |name| < NAME_MAX
    ensures |s| == ENTRY_SIZE
  {
    name + Zeros(NAME_MAX - |name|) + (Le32(offset) + Le32(size) + Le32(0))
  }

  lemma {:induction false} OffsetsGrow(files: seq<Packed>, i: nat, j: nat)
    requires i <= j <= |files|
    ensures OffsetOf(files, i) <= OffsetOf(files, j)
    ensures i < j ==> OffsetOf(files, i) + |files[i].contents| <= OffsetOf(files, j)
  {
    if i < j {
      OffsetsGrow(files, i, j - 1);
    }
  }

  /** The table entries of the first i files. */
  function Entries(files: seq<Packed>, i: nat): (s: seq<byte>)
    requires Packable(files) && i <= |files|
    ensures |s| == i * 76
  {
    if i == 0 then []
    else
      PackableAt(files, i - 1);
      Entries(files, i - 1) + EncodeEntry(files[i - 1].name, OffsetOf(files, i - 1), |files[i - 1].contents|)
  }

  /** The padded contents of the first i files. */
  function Data(files: seq<Packed>, i: nat): (s: seq<byte>)
    requires i <= |files|
    ensures |s| == OffsetOf(files, i) - DataStart(|files|)
  {
    if i == 0 then []
    else
      Data(files, i - 1) + files[i - 1].contents
      + Zeros(OffsetOf(files, i) - OffsetOf(files, i - 1) - |files[i - 1].contents|)
  }

  function EncodeSuperblock(n: u32, dataOffset: u32): (s: seq<byte>)
    ensures |s| == SUPERBLOCK_SIZE
  {
    Le32(TINYFS_MAGIC) + Le32(TINYFS_VERSION) + Le32(n) + Le32(SUPERBLOCK_SIZE) + Le32(dataOffset)
  }

  /** The packed image before the final padding. */
  function Body(files: seq<Packed>): (s: seq<byte>)
    requires Packable(files)
    ensures |s| == OffsetOf(files, |files|)
  {
    OffsetsGrow(files, 0, |files|);
    EncodeSuperblock(|files|, DataStart(|files|)) + Entries(files, |files|)
    + Zeros(DataStart(|files|) - SUPERBLOCK_SIZE - |files| * 76) + Data(files, |files|)
  }

  /** build_image. */
  function Image(files: seq<Packed>): (s: seq<byte>)
    requires Packable(files)
    ensures |s| == Max(OffsetOf(files, |files|), MIN_IMAGE_SIZE)
  {
    Body(files) + Zeros(Max(OffsetOf(files, |files|), MIN_IMAGE_SIZE) - OffsetOf(files, |files|))
  }

  /** build_image as the packer's loop runs it, with its growing byte arrays and running offset. */
  method BuildImage(files: seq<Packed>) returns (image: seq<byte>)
    requires Packable(files)
    ensures image == Image(files)
  {
    hide EncodeEntry, EncodeSuperblock, Zeros, OffsetOf, AlignUp512, Entries, Data;
    var fileTableOffset, fileTableSize := SUPERBLOCK_SIZE, |files| * 76;
    var dataOffset := AlignUp512(fileTableOffset + fileTableSize);
    OffsetsGrow(files, 0, |files|);
    var entries, data := PackFiles(files, dataOffset);
    image := EncodeSuperblock(|files|, dataOffset) + entries;
    image := image + Zeros(dataOffset - |image|);
    image := image + data;
    assert image == Body(files);
    BodyAligned(files);
    // The image already ends at a block: the packer's next padding step adds nothing.
    image := image + Zeros(AlignUp512(|image|) - |image|);
    assert image == Body(files);
    if |image| < MIN_IMAGE_SIZE {
      image := image + Zeros(MIN_IMAGE_SIZE - |image|);
    } else {
      assert image + Zeros(0) == image;
    }
  }

  lemma {:induction false} BodyAligned(files: seq<Packed>)
    requires Packable(files)
    ensures AlignUp512(|Body(files)|) == |Body(files)| && Zeros(0) == []
  {
    hide Body, OffsetOf, Packable;
  }

  /** The loop of build_image: the entries and the padded contents grow together with the running offset. */
  method PackFiles(files: seq<Packed>, dataOffset: nat) returns (entries: seq<byte>, data: seq<byte>)
    requires Packable(files) && dataOffset == DataStart(|files|)
    ensures entries == Entries(files, |files|) && data == Data(files, |files|)
  {
    hide EncodeEntry, OffsetOf, Packable, AlignUp512, DataStart;
    FirstOffset(files);
    var currentOffset := dataOffset;
    entries, data := [], [];
    for i := 0 to |files|
      invariant currentOffset == OffsetOf(files, i)
      invariant entries == Entries(files, i) && data == Data(files, i)
    {
      PackableAt(files, i);
      OffsetNext(files, i);
      var contents := files[i].contents;
      entries := entries + EncodeEntry(files[i].name, currentOffset, |contents|);
      data := data + contents;
      currentOffset := currentOffset + |contents|;
      var padding := AlignUp512(currentOffset) - currentOffset;
      data := data + Zeros(padding);
      currentOffset := currentOffset + padding;
    }
  }

  lemma FirstOffset(files: seq<Packed>)
    ensures OffsetOf(files, 0) == DataStart(|files|)
  {
  }

  // ---- The reader ----

  /** The kernel's copy of an entry: the last byte of the name field is overwritten by NUL. */
  function DecodeEntry(s: seq<byte>): TinyFile
    requires |s| == ENTRY_SIZE
  {
    TinyFile(AsCString(s[..NAME_MAX - 1]), U32At(s, 64), U32At(s, 68), U32At(s, 72))
  }

  /** The mount loop over the entries from `offset` on; None when one of them cannot be read. The offset wraps at 32
      bits. */
  function ReadTable(disk: seq<byte>, offset: u32, n: nat): (r: Option<seq<TinyFile>>)
    ensures r.Some? ==> |r.value| == n
    decreases n
  {
    if n == 0 then Some([])
    else if offset + ENTRY_SIZE > |disk| then None
    else match ReadTable(disk, Add32(offset, ENTRY_SIZE), n - 1)
      case None => None
      case Some(rest) => Some([DecodeEntry(disk[offset..offset + ENTRY_SIZE])] + rest)
  }

  /** The file table that mounting the device leaves; None when the mount fails. */
  function MountTiny(disk: seq<byte>): (r: Option<seq<TinyFile>>)
    ensures r.Some? ==> |r.value| <= MAX_FILES
  {
    if |disk| < SUPERBLOCK_SIZE then None
    else if U32At(disk, 0) != TINYFS_MAGIC || U32At(disk, 4) != TINYFS_VERSION || U32At(disk, 8) > MAX_FILES then None
    else ReadTable(disk, U32At(disk, 12), U32At(disk, 8))
  }

  /** Where the mount looks for entry i; the position wraps at 32 bits. */
  function EntryPos(disk: seq<byte>, i: nat): (r: nat)
    requires 20 <= |disk|
  {
    (U32At(disk, 12) + 76 * i) % 0x1_0000_0000
  }

  /** A device is mounted exactly when it has the magic number, version 1, at most 16 files and room for every entry
      where the superblock says; the table holds the fields of the entries, the names cut at the 63rd byte. */
  lemma MountedIff(disk: seq<byte>)
    ensures MountTiny(disk).Some? <==>
              && 20 <= |disk| && U32At(disk, 0) == 0x53465954 && U32At(disk, 4) == 1 && U32At(disk, 8) <= 16
              && forall i :: 0 <= i < U32At(disk, 8) ==> EntryPos(disk, i) + 76 <= |disk|
    ensures MountTiny(disk).Some? ==>
              && |MountTiny(disk).value| == U32At(disk, 8)
              && forall i :: 0 <= i < U32At(disk, 8) ==>
                   var f, e := MountTiny(disk).value[i], EntryPos(disk, i);
                   && f.name == AsCString(disk[e..e + 63]) && f.offset == U32At(disk, e + 64)
                   && f.size == U32At(disk, e + 68) && f.flags == U32At(disk, e + 72)
  {
    hide U32At, DecodeEntry;
    if 20 <= |disk| {
      TableIff(disk, 0, U32At(disk, 8));
      assert EntryPos(disk, 0) == U32At(disk, 12);
      if MountTiny(disk).Some? {
        forall i | 0 <= i < U32At(disk, 8)
          ensures DecodeEntry(disk[EntryPos(disk, i)..EntryPos(disk, i) + 76]) == EntryAtPos(disk, EntryPos(disk, i))
        {
          DecodedFields(disk, EntryPos(disk, i));
        }
      }
    }
  }

  function EntryAtPos(disk: seq<byte>, e: nat): TinyFile
    requires e + 76 <= |disk|
  {
    TinyFile(AsCString(disk[e..e + 63]), U32At(disk, e + 64), U32At(disk, e + 68), U32At(disk, e + 72))
  }

  lemma DecodedFields(disk: seq<byte>, e: nat)
    requires e + 76 <= |disk|
    ensures DecodeEntry(disk[e..e + 76]) == EntryAtPos(disk, e)
  {
    var s := disk[e..e + 76];
    assert s[..63] == disk[e..e + 63];
    assert forall k :: 0 <= k < 76 ==> s[k] == disk[e + k];
  }

  lemma {:induction false} TableIff(disk: seq<byte>, k: nat, n: nat)
    requires 20 <= |disk|
    ensures var t := ReadTable(disk, EntryPos(disk, k), n);
      && (t.Some? <==> forall i :: k <= i < k + n ==> EntryPos(disk, i) + 76 <= |disk|)
      && (t.Some? ==> forall i :: k <= i < k + n ==>
                        && EntryPos(disk, i) + 76 <= |disk|
                        && t.value[i - k] == DecodeEntry(disk[EntryPos(disk, i)..EntryPos(disk, i) + 76]))
    decreases n
  {
    hide DecodeEntry, U32At;
    if n > 0 {
      EntryNext(U32At(disk, 12), k);
      TableIff(disk, k + 1, n - 1);
    }
  }

  lemma EntryNext(start: u32, k: nat)
    ensures Add32((start + 76 * k) % 0x1_0000_0000, 76) == (start + 76 * (k + 1)) % 0x1_0000_0000
  {
  }

  /** tinyfs_find from index i on. */
  function FindFrom(files: seq<TinyFile>, path: CString, i: nat): (r: Option<nat>)
    requires i <= |files|
    ensures r.Some? ==> i <= r.value < |files| && files[r.value].name == path
    ensures r.Some? ==> forall k :: i <= k < r.value ==> files[k].name != path
    ensures r.None? ==> forall k :: i <= k < |files| ==> files[k].name != path
    decreases |files| - i
  {
    if i == |files| then None
    else if files[i].name == path then Some(i)
    else FindFrom(files, path, i + 1)
  }

  function Find(files: seq<TinyFile>, path: CString): (r: Option<nat>)
    ensures r.Some? ==> r.value < |files| && files[r.value].name == path
    ensures r.None? ==> forall k :: 0 <= k < |files| ==> files[k].name != path
  {
    FindFrom(files, path, 0)
  }

  /** Bytes of the device as the read loop delivers them; None when the range leaves the device. */
  function DeviceBytes(disk: seq<byte>, offset: nat, n: nat): (r: Option<seq<byte>>)
    ensures r.Some? ==> |r.value| == n
  {
    if n == 0 then Some([]) else if offset + n <= |disk| then Some(disk[offset..offset + n]) else None
  }

  /** tinyfs_read_file_part. */
  function ReadPart(disk: seq<byte>, files: seq<TinyFile>, path: CString, offset: u32,
                    size: u32): (r: Option<seq<byte>>)
    ensures r.Some? ==> |r.value| <= size
  {
    match Find(files, path)
    case None => None
    case Some(i) =>
      if offset > files[i].size then None
      else DeviceBytes(disk, Add32(files[i].offset, offset), Min(size, files[i].size - offset))
  }

  /** tinyfs_read_file. */
  function ReadWhole(disk: seq<byte>, files: seq<TinyFile>, path: CString, maxSize: nat): Option<seq<byte>> {
    match Find(files, path)
    case None => None
    case Some(i) => if files[i].size > maxSize then None else DeviceBytes(disk, files[i].offset, files[i].size)
  }

  // ---- Pack, mount, read ----

  lemma EntryRoundTrip(name: CString, offset: u32, size: u32)
    requires |name| < NAME_MAX
    ensures DecodeEntry(EncodeEntry(name, offset, size)) == TinyFile(name, offset, size, 0)
  {
    var s := EncodeEntry(name, offset, size);
    hide Le32, U32At;
    assert s[64..68] == Le32(offset) && s[68..72] == Le32(size) && s[72..76] == Le32(0);
    U32AtOfLe32(s, 64, offset);
    U32AtOfLe32(s, 68, size);
    U32AtOfLe32(s, 72, 0);
    NameField(name, s);
  }

  lemma NameField(name: CString, s: seq<byte>)
    requires |name| < NAME_MAX <= |s| && s[..|name|] == name && forall i :: |name| <= i < NAME_MAX ==> s[i] == NUL
    ensures AsCString(s[..NAME_MAX - 1]) == name
  {
    var field := s[..NAME_MAX - 1];
    if |name| < NAME_MAX - 1 {
      var rest := field[|name| + 1..];
      assert field == name + [NUL] + rest;
      AsCStringOfTerminated(name, rest);
    } else {
      assert field == name;
      AsCStringOfWhole(name);
    }
  }

  lemma {:induction false} AsCStringOfWhole(s: CString)
    ensures AsCString(s) == s
  {
    if s != [] {
      AsCStringOfWhole(s[1..]);
    }
  }

  /** Entry i is found in the table. */
  lemma {:induction false} EntryAt(files: seq<Packed>, n: nat, i: nat)
    requires Packable(files) && i < n <= |files|
    ensures EntryFits(files, i)
    ensures Entries(files, n)[i * 76..i * 76 + 76]
      == EncodeEntry(files[i].name, OffsetOf(files, i), |files[i].contents|)
  {
    hide EncodeEntry, OffsetOf, Packable;
    PackableAt(files, i);
    var all, init := Entries(files, n), Entries(files, n - 1);
    if i < n - 1 {
      EntryAt(files, n - 1, i);
      assert all[i * 76..i * 76 + 76] == init[i * 76..i * 76 + 76];
    } else {
      assert all[i * 76..i * 76 + 76] == all[|init|..];
    }
  }

  /** The contents of file i are found in the data. */
  lemma {:induction false} DataAt(files: seq<Packed>, n: nat, i: nat)
    requires i < n <= |files|
    ensures OffsetOf(files, i) + |files[i].contents| <= OffsetOf(files, n)
    ensures var d := OffsetOf(files, i) - DataStart(|files|);
      Data(files, n)[d..d + |files[i].contents|] == files[i].contents
  {
    hide OffsetOf, DataStart;
    OffsetsGrow(files, i, n);
    var d, c := OffsetOf(files, i) - DataStart(|files|), files[i].contents;
    if i < n - 1 {
      DataAt(files, n - 1, i);
      OffsetsGrow(files, i, n - 1);
      OffsetsGrow(files, n - 1, n);
      DataGrows(files, n - 1, d, d + |c|);
    } else {
      DataLast(files, i);
    }
  }

  lemma DataGrows(files: seq<Packed>, n: nat, i: nat, j: nat)
    requires n < |files| && i <= j <= |Data(files, n)|
    ensures j <= |Data(files, n + 1)| && Data(files, n + 1)[i..j] == Data(files, n)[i..j]
  {
    hide OffsetOf, DataStart;
    OffsetsGrow(files, n, n + 1);
    JoinedFront(Data(files, n), files[n].contents,
                Zeros(OffsetOf(files, n + 1) - OffsetOf(files, n) - |files[n].contents|), i, j);
  }

  lemma JoinedFront(a: seq<byte>, b: seq<byte>, c: seq<byte>, i: nat, j: nat)
    requires i <= j <= |a|
    ensures (a + b + c)[i..j] == a[i..j] && (a + b + c)[|a|..|a| + |b|] == b
  {
  }

  lemma DataLast(files: seq<Packed>, n: nat)
    requires n < |files|
    ensures |Data(files, n)| + |files[n].contents| <= |Data(files, n + 1)|
    ensures Data(files, n + 1)[|Data(files, n)|..|Data(files, n)| + |files[n].contents|] == files[n].contents
  {
    hide OffsetOf, DataStart;
    OffsetsGrow(files, n, n + 1);
    JoinedFront(Data(files, n), files[n].contents,
                Zeros(OffsetOf(files, n + 1) - OffsetOf(files, n) - |files[n].contents|), 0, 0);
  }

  /** The image starts the device: its superblock, entries and contents are found where they were put. */
  lemma {:induction false} ImageParts(files: seq<Packed>, disk: seq<byte>)
    requires Packable(files) && |Image(files)| <= |disk| && disk[..|Image(files)|] == Image(files)
    ensures SUPERBLOCK_SIZE + |files| * 76 <= |disk| && OffsetOf(files, |files|) <= |disk|
    ensures disk[..SUPERBLOCK_SIZE] == EncodeSuperblock(|files|, DataStart(|files|))
    ensures disk[SUPERBLOCK_SIZE..SUPERBLOCK_SIZE + |files| * 76] == Entries(files, |files|)
    ensures disk[DataStart(|files|)..OffsetOf(files, |files|)] == Data(files, |files|)
  {
    hide EncodeSuperblock, Entries, Data, OffsetOf, Image, Body;
    var body, n, start := Body(files), |files|, DataStart(|files|);
    BodyStartsDisk(files, disk);
    BodyParts(files);
    OffsetsGrow(files, 0, n);
    Inside(disk, body, 0, 20);
    Inside(disk, body, 20, 20 + n * 76);
    Inside(disk, body, start, |body|);
    assert disk[0..20] == disk[..20] && body[0..20] == body[..20];
  }

  lemma {:induction false} BodyStartsDisk(files: seq<Packed>, disk: seq<byte>)
    requires Packable(files) && |Image(files)| <= |disk| && disk[..|Image(files)|] == Image(files)
    ensures |Body(files)| <= |disk| && disk[..|Body(files)|] == Body(files)
  {
    hide Body;
    var image, body := Image(files), Body(files);
    assert image[..|body|] == body;
    assert disk[..|image|][..|body|] == disk[..|body|];
  }

  lemma {:induction false} BodyParts(files: seq<Packed>)
    requires Packable(files)
    ensures SUPERBLOCK_SIZE + |files| * 76 <= DataStart(|files|) <= |Body(files)|
    ensures Body(files)[..SUPERBLOCK_SIZE] == EncodeSuperblock(|files|, DataStart(|files|))
    ensures Body(files)[SUPERBLOCK_SIZE..SUPERBLOCK_SIZE + |files| * 76] == Entries(files, |files|)
    ensures Body(files)[DataStart(|files|)..|Body(files)|] == Data(files, |files|)
  {
    hide EncodeSuperblock, Entries, Data, OffsetOf;
    OffsetsGrow(files, 0, |files|);
    var n, start := |files|, DataStart(|files|);
    JoinedParts(EncodeSuperblock(n, start), Entries(files, n), Zeros(start - SUPERBLOCK_SIZE - n * 76), Data(files, n));
  }

  lemma JoinedParts(a: seq<byte>, b: seq<byte>, c: seq<byte>, d: seq<byte>)
    ensures var s := a + b + c + d;
      s[..|a|] == a && s[|a|..|a| + |b|] == b && s[|a| + |b| + |c|..|s|] == d
  {
  }

  lemma Inside(disk: seq<byte>, body: seq<byte>, i: nat, j: nat)
    requires |body| <= |disk| && disk[..|body|] == body && i <= j <= |body|
    ensures disk[i..j] == body[i..j]
  {
    SliceOfSlice(disk, 0, |body|, i, j);
    assert disk[0..|body|] == disk[..|body|];
  }

  lemma SuperblockFields(files: seq<Packed>, disk: seq<byte>)
    requires |files| < TWO_32 && DataStart(|files|) < TWO_32 && SUPERBLOCK_SIZE <= |disk|
    requires disk[..SUPERBLOCK_SIZE] == EncodeSuperblock(|files|, DataStart(|files|))
    ensures U32At(disk, 0) == TINYFS_MAGIC && U32At(disk, 4) == TINYFS_VERSION
    ensures U32At(disk, 8) == |files| && U32At(disk, 12) == SUPERBLOCK_SIZE
    ensures U32At(disk, 16) == DataStart(|files|)
  {
    hide Le32, U32At;
    var s := disk[..SUPERBLOCK_SIZE];
    assert disk[0..4] == s[0..4] == Le32(TINYFS_MAGIC);
    assert disk[4..8] == s[4..8] == Le32(TINYFS_VERSION);
    assert disk[8..12] == s[8..12] == Le32(|files|);
    assert disk[12..16] == s[12..16] == Le32(SUPERBLOCK_SIZE);
    assert disk[16..20] == s[16..20] == Le32(DataStart(|files|));
    U32AtOfLe32(disk, 0, TINYFS_MAGIC);
    U32AtOfLe32(disk, 4, TINYFS_VERSION);
    U32AtOfLe32(disk, 8, |files|);
    U32AtOfLe32(disk, 12, SUPERBLOCK_SIZE);
    U32AtOfLe32(disk, 16, DataStart(|files|));
  }

  /** The kernel's entries for the packed files from number i on. */
  function Expected(files: seq<Packed>, i: nat): (r: seq<TinyFile>)
    requires Packable(files) && i <= |files|
    ensures |r| == |files| - i
    decreases |files| - i
  {
    if i == |files| then []
    else
      PackableAt(files, i);
      [TinyFile(files[i].name, OffsetOf(files, i), |files[i].contents|, 0)] + Expected(files, i + 1)
  }

  lemma {:induction false} ExpectedAt(files: seq<Packed>, i: nat, k: nat)
    requires Packable(files) && i <= k < |files|
    ensures EntryFits(files, k)
    ensures Expected(files, i)[k - i] == TinyFile(files[k].name, OffsetOf(files, k), |files[k].contents|, 0)
    decreases k - i
  {
    hide OffsetOf, Packable;
    PackableAt(files, k);
    if i < k {
      ExpectedAt(files, i + 1, k);
    }
  }

  /** The entry of file i on the device. */
  lemma {:induction false} EntryOnDisk(files: seq<Packed>, disk: seq<byte>, i: nat)
    requires Packable(files) && i < |files| && SUPERBLOCK_SIZE + |files| * 76 <= |disk|
    requires disk[SUPERBLOCK_SIZE..SUPERBLOCK_SIZE + |files| * 76] == Entries(files, |files|)
    ensures 20 + i * 76 + 76 <= |disk| && EntryFits(files, i)
    ensures DecodeEntry(disk[20 + i * 76..20 + i * 76 + 76])
         == TinyFile(files[i].name, OffsetOf(files, i), |files[i].contents|, 0)
  {
    hide Entries, EncodeEntry, DecodeEntry, Packable, OffsetOf;
    EntryAt(files, |files|, i);
    SliceOfSlice(disk, SUPERBLOCK_SIZE, SUPERBLOCK_SIZE + |files| * 76, i * 76, i * 76 + 76);
    PackableAt(files, i);
    EntryRoundTrip(files[i].name, OffsetOf(files, i), |files[i].contents|);
  }

  lemma {:induction false} TableRead(files: seq<Packed>, disk: seq<byte>, i: nat)
    requires Packable(files) && i <= |files| <= MAX_FILES && SUPERBLOCK_SIZE + |files| * 76 <= |disk|
    requires disk[SUPERBLOCK_SIZE..SUPERBLOCK_SIZE + |files| * 76] == Entries(files, |files|)
    ensures ReadTable(disk, SUPERBLOCK_SIZE + i * 76, |files| - i) == Some(Expected(files, i))
    decreases |files| - i
  {
    hide Entries, DecodeEntry, Packable, OffsetOf;
    if i < |files| {
      TableRead(files, disk, i + 1);
      EntryOnDisk(files, disk, i);
    }
  }

  ghost predicate NamesDistinct(files: seq<Packed>) {
    forall i, j :: 0 <= i < j < |files| ==> files[i].name != files[j].name
  }

  /** Mounting a device that starts with the packed image gives exactly the packed entries; it is refused when the
      packer, which has no such limit, was given more files than the kernel's table holds. */
  lemma {:induction false} MountRoundTrip(files: seq<Packed>, disk: seq<byte>)
    requires Packable(files)
    requires |Image(files)| <= |disk| && disk[..|Image(files)|] == Image(files)
    ensures MountTiny(disk) == if |files| <= 16 then Some(Expected(files, 0)) else None
  {
    hide Image, Body, Data, Entries, EncodeSuperblock;
    OffsetsGrow(files, 0, |files|);
    ImageParts(files, disk);
    SuperblockFields(files, disk);
    if |files| <= MAX_FILES {
      TableRead(files, disk, 0);
    }
  }

  /** Only the last file can reach past the first 4 GiB of the image. */
  lemma {:induction false} OnlyLastReaches(files: seq<Packed>, i: nat)
    requires Packable(files) && i < |files| - 1
    ensures OffsetOf(files, i) + |files[i].contents| < TWO_32
  {
    PackableAt(files, i + 1);
    OffsetsGrow(files, i, i + 1);
  }

  /** Every packed file is found by its name and reads back exactly as it was packed: in whole always, in part when the
      part starts in the first 4 GiB of the image. The start of any other part wraps, and bytes 4 GiB before it are
      delivered. */
  lemma {:induction false} ReadRoundTrip(files: seq<Packed>, disk: seq<byte>, i: nat, offset: u32, size: u32,
                                         maxSize: nat)
    requires Packable(files) && |files| <= MAX_FILES && NamesDistinct(files) && i < |files|
    requires |Image(files)| <= |disk| && disk[..|Image(files)|] == Image(files)
    ensures MountTiny(disk) == Some(Expected(files, 0))
    ensures Find(Expected(files, 0), files[i].name) == Some(i)
    ensures offset > |files[i].contents| ==> ReadPart(disk, Expected(files, 0), files[i].name, offset, size) == None
    ensures offset <= |files[i].contents| ==>
      var start, n := OffsetOf(files, i) + offset, Min(size, |files[i].contents| - offset);
      && start + n <= |disk|
      && ReadPart(disk, Expected(files, 0), files[i].name, offset, size)
         == Some(if start < TWO_32 then files[i].contents[offset..offset + n]
           else disk[start - TWO_32..start - TWO_32 + n])
    ensures ReadWhole(disk, Expected(files, 0), files[i].name, maxSize)
         == if |files[i].contents| > maxSize then None else Some(files[i].contents)
  {
    hide Image, Expected, MountTiny, Find, OffsetOf, Data, ReadPart, DeviceBytes;
    MountRoundTrip(files, disk);
    FoundAt(files, i);
    ContentsOnDisk(files, disk, i);
    ExpectedAt(files, 0, i);
    PartOfStored(disk, Expected(files, 0), files[i].name, i, files[i].contents, offset, size);
    WholeDelivered(disk, OffsetOf(files, i), files[i].contents);
  }

  /** The five fields at the front of an image of n files. */
  predicate FrontIs(s: seq<byte>, n: nat)
    requires 20 <= |s|
  {
    && U32At(s, 0) == 0x53465954 && U32At(s, 4) == 1 && U32At(s, 8) == n && U32At(s, 12) == 20
    && U32At(s, 16) == AlignUp512(20 + 76 * n)
  }

  /** The entry at byte e: the name and zeros in 64 bytes, the offset, the size and zero; and the contents there. */
  predicate EntryIs(s: seq<byte>, e: nat, name: CString, contents: seq<byte>)
    requires e + 76 <= |s|
  {
    && |name| < 64 && s[e..e + |name|] == name && (forall k :: e + |name| <= k < e + 64 ==> s[k] == 0)
    && U32At(s, e + 68) == |contents| && U32At(s, e + 72) == 0
    && U32At(s, e + 64) + |contents| <= |s| && s[U32At(s, e + 64)..U32At(s, e + 64) + |contents|] == contents
  }

  /** Where the contents of the entry at byte e end, rounded up to a block. */
  function EndAt(s: seq<byte>, e: nat): nat
    requires e + 76 <= |s|
  {
    AlignUp512(U32At(s, e + 64) + U32At(s, e + 68))
  }

  /** Where the packed image holds what, byte for byte: five superblock fields, then 76-byte entries from byte 20 on,
      and the contents at the offsets in them, which start at the first block behind the table and go on at the first
      block behind the contents before. */
  lemma {:induction false} ImageFields(files: seq<Packed>, i: nat)
    requires Packable(files) && i < |files|
    ensures var s, n, e := Image(files), |files|, 20 + 76 * i;
      && 20 + 76 * n <= |s| && FrontIs(s, n) && EntryIs(s, e, files[i].name, files[i].contents)
      && U32At(s, e + 64) == (if i == 0 then U32At(s, 16) else EndAt(s, e - 76))
      && (i == n - 1 ==> |s| == Max(4096, EndAt(s, e)))
  {
    hide Image, OffsetOf, U32At, Packable, DataStart, EntryFits, AlignUp512;
    ImageSuperblock(files);
    ImageEntry(files, i);
    ImageContents(files, i);
    OffsetsRounded(files, i);
    if i > 0 {
      ImageNumbers(files, i - 1);
    }
  }

  lemma ImageSuperblock(files: seq<Packed>)
    requires Packable(files)
    ensures var s := Image(files);
      && 20 + 76 * |files| <= |s| == Max(4096, OffsetOf(files, |files|))
      && U32At(s, 0) == 0x53465954 && U32At(s, 4) == 1 && U32At(s, 8) == |files| && U32At(s, 12) == 20
      && U32At(s, 16) == DataStart(|files|)
  {
    CountFits(files);
    hide Image, OffsetOf, U32At, Packable, DataStart, EncodeSuperblock, Entries, Data;
    var s := Image(files);
    assert s[..|s|] == s;
    ImageParts(files, s);
    SuperblockFields(files, s);
  }

  lemma ImageEntry(files: seq<Packed>, i: nat)
    requires Packable(files) && i < |files|
    ensures EntryFits(files, i)
    ensures var s, e, name := Image(files), 20 + 76 * i, files[i].name;
      && e + 76 <= |s| && |name| < 64 && s[e..e + |name|] == name
      && (forall k :: e + |name| <= k < e + 64 ==> s[k] == 0)
      && U32At(s, e + 64) == OffsetOf(files, i) && U32At(s, e + 68) == |files[i].contents| && U32At(s, e + 72) == 0
  {
    hide Image, OffsetOf, U32At, Packable, DataStart, EncodeSuperblock, Entries, Data;
    var s := Image(files);
    assert s[..|s|] == s;
    ImageParts(files, s);
    EntryFields(files, s, i);
  }

  lemma ImageNumbers(files: seq<Packed>, i: nat)
    requires Packable(files) && i < |files|
    ensures var s, e := Image(files), 20 + 76 * i;
      e + 76 <= |s| && U32At(s, e + 64) == OffsetOf(files, i) && U32At(s, e + 68) == |files[i].contents|
  {
    hide Image, OffsetOf, U32At, Packable;
    ImageEntry(files, i);
  }

  lemma ImageContents(files: seq<Packed>, i: nat)
    requires Packable(files) && i < |files|
    ensures var s, start, c := Image(files), OffsetOf(files, i), files[i].contents;
      start + |c| <= |s| && s[start..start + |c|] == c
  {
    hide Image, OffsetOf, Packable;
    var s := Image(files);
    assert s[..|s|] == s;
    ContentsOnDisk(files, s, i);
  }

  lemma OffsetsRounded(files: seq<Packed>, i: nat)
    requires i < |files|
    ensures DataStart(|files|) == AlignUp512(20 + 76 * |files|)
    ensures OffsetOf(files, i)
      == if i == 0 then DataStart(|files|) else AlignUp512(OffsetOf(files, i - 1) + |files[i - 1].contents|)
    ensures OffsetOf(files, i + 1) == AlignUp512(OffsetOf(files, i) + |files[i].contents|)
  {
    hide AlignUp512;
  }

  lemma CountFits(files: seq<Packed>)
    requires Packable(files)
    ensures |files| < TWO_32 && DataStart(|files|) < TWO_32
  {
  }

  /** The fields of entry i of an image. */
  lemma EntryFields(files: seq<Packed>, s: seq<byte>, i: nat)
    requires Packable(files) && i < |files| && 20 + |files| * 76 <= |s|
    requires s[SUPERBLOCK_SIZE..SUPERBLOCK_SIZE + |files| * 76] == Entries(files, |files|)
    ensures EntryFits(files, i)
    ensures var e, name := 20 + 76 * i, files[i].name;
      && e + 76 <= |s| && |name| < 64 && s[e..e + |name|] == name
      && (forall k :: e + |name| <= k < e + 64 ==> s[k] == 0)
      && U32At(s, e + 64) == OffsetOf(files, i) && U32At(s, e + 68) == |files[i].contents| && U32At(s, e + 72) == 0
  {
    hide Entries, EncodeEntry, Packable, OffsetOf, Le32, U32At;
    var e := 20 + 76 * i;
    PackableAt(files, i);
    EntryAt(files, |files|, i);
    SliceOfSlice(s, 20, 20 + |files| * 76, i * 76, i * 76 + 76);
    var t := EncodeEntry(files[i].name, OffsetOf(files, i), |files[i].contents|);
    assert s[e..e + 76] == t;
    EntryParts(s, e, files[i].name, OffsetOf(files, i), |files[i].contents|);
  }

  lemma EntryParts(s: seq<byte>, e: nat, name: CString, offset: u32, size: u32)
    requires |name| < 64 && e + 76 <= |s| && s[e..e + 76] == EncodeEntry(name, offset, size)
    ensures s[e..e + |name|] == name && (forall k :: e + |name| <= k < e + 64 ==> s[k] == 0)
    ensures U32At(s, e + 64) == offset && U32At(s, e + 68) == size && U32At(s, e + 72) == 0
  {
    hide Le32, U32At;
    var t := EncodeEntry(name, offset, size);
    var field := s[e..e + 76];
    assert forall k :: e <= k < e + 76 ==> s[k] == field[k - e];
    assert t[..|name|] == name;
    forall k | e + |name| <= k < e + 64
      ensures s[k] == 0
    {
      assert s[k] == t[k - e];
    }
    assert t[64..68] == Le32(offset) && t[68..72] == Le32(size) && t[72..76] == Le32(0);
    U32AtOfLe32(s, e + 64, offset);
    U32AtOfLe32(s, e + 68, size);
    U32AtOfLe32(s, e + 72, 0);
  }

  /** An instance: of a file of 2^32 - 1 zeros the byte at 2^32 - 512 reads as the first byte of the superblock. */
  lemma LastPartWraps()
    ensures var files := [Packed([97], Zeros(0xffff_ffff))];
      && Packable(files)
      && var disk := Image(files);
         && MountTiny(disk) == Some(Expected(files, 0))
         && ReadPart(disk, Expected(files, 0), [97], 0xffff_fe00, 1) == Some([0x54])
         && files[0].contents[0xffff_fe00] == 0
  {
    hide Expected, MountTiny, ReadPart, Image, Body, EncodeSuperblock;
    var files := [Packed([97], Zeros(0xffff_ffff))];
    var disk := Image(files);
    assert OffsetOf(files, 0) == DataStart(1) == 512;
    ReadRoundTrip(files, disk, 0, 0xffff_fe00, 1, 0);
    ImageParts(files, disk);
    FirstByte(files, disk);
    assert disk[0..1] == [0x54];
  }

  lemma FirstByte(files: seq<Packed>, disk: seq<byte>)
    requires |files| < TWO_32 && DataStart(|files|) < TWO_32 && SUPERBLOCK_SIZE <= |disk|
    requires disk[..SUPERBLOCK_SIZE] == EncodeSuperblock(|files|, DataStart(|files|))
    ensures disk[0] == 0x54
  {
    hide DataStart;
    var front := disk[..SUPERBLOCK_SIZE];
    assert front[0] == Le32(TINYFS_MAGIC)[0];
  }

  lemma WholeDelivered(disk: seq<byte>, start: nat, contents: seq<byte>)
    requires start + |contents| <= |disk| && disk[start..start + |contents|] == contents
    ensures DeviceBytes(disk, start, |contents|) == Some(contents)
  {
  }

  /** Reading part of a file whose contents lie where its entry says. */
  lemma PartOfStored(disk: seq<byte>, files: seq<TinyFile>, path: CString, i: nat, contents: seq<byte>, offset: u32,
                     size: u32)
    requires Find(files, path) == Some(i) && i < |files| && files[i].size == |contents|
    requires files[i].offset + |contents| <= |disk|
    requires disk[files[i].offset..files[i].offset + |contents|] == contents
    ensures offset > |contents| ==> ReadPart(disk, files, path, offset, size) == None
    ensures offset <= |contents| ==>
      var start, n := files[i].offset + offset, Min(size, |contents| - offset);
      ReadPart(disk, files, path, offset, size)
      == Some(if start < TWO_32 then contents[offset..offset + n] else disk[start - TWO_32..start - TWO_32 + n])
  {
    hide Find;
    if offset <= |contents| {
      var start, n := files[i].offset, Min(size, |contents| - offset);
      SliceOfSlice(disk, start, start + |contents|, offset, offset + n);
      assert Add32(start, offset) == if start + offset < TWO_32 then start + offset else start + offset - TWO_32;
    }
  }

  lemma {:induction false} FoundAt(files: seq<Packed>, i: nat)
    requires Packable(files) && NamesDistinct(files) && i < |files|
    ensures Find(Expected(files, 0), files[i].name) == Some(i)
  {
    hide Expected, FindFrom, Packable, OffsetOf;
    ExpectedAt(files, 0, i);
    var r := Find(Expected(files, 0), files[i].name);
    if r.Some? {
      ExpectedAt(files, 0, r.value);
    }
  }

  lemma {:induction false} ContentsOnDisk(files: seq<Packed>, disk: seq<byte>, i: nat)
    requires Packable(files) && i < |files|
    requires |Image(files)| <= |disk| && disk[..|Image(files)|] == Image(files)
    ensures OffsetOf(files, i) + |files[i].contents| <= |disk|
    ensures disk[OffsetOf(files, i)..OffsetOf(files, i) + |files[i].contents|] == files[i].contents
  {
    hide Data, Entries, Image, EncodeSuperblock, OffsetOf, AlignUp512, DataStart;
    ImageParts(files, disk);
    DataAt(files, |files|, i);
    var start, d, n := DataStart(|files|), OffsetOf(files, i) - DataStart(|files|), |files[i].contents|;
    SliceOfSlice(disk, start, OffsetOf(files, |files|), d, d + n);
  }
}
