/** The packed image of two small files, byte for byte, and what the kernel makes of these bytes. */
module TinyLiteral {
  import opened Bytes
  import opened TinyFormat
  import opened Paths
  import opened VfsTree

  const FILES := [Packed([97], [1]), Packed([98, 47, 99], [2, 3])]

  /** The magic number, version 1, two files, the table at byte 20 and the data at byte 512. */
  const HEAD: seq<byte> := [0x54, 0x59, 0x46, 0x53, 1, 0, 0, 0, 2, 0, 0, 0, 20, 0, 0, 0, 0, 2, 0, 0]

  /** "a", one byte at 512; and "b/c", two bytes at 1024. */
  const ENTRY_A: seq<byte> := [97] + Zeros(63) + [0, 2, 0, 0, 1, 0, 0, 0, 0, 0, 0, 0]
  const ENTRY_BC: seq<byte> := [98, 47, 99] + Zeros(61) + [0, 4, 0, 0, 2, 0, 0, 0, 0, 0, 0, 0]

  const IMAGE: seq<byte> :=
    HEAD + ENTRY_A + ENTRY_BC + Zeros(340) + [1] + Zeros(511) + [2, 3] + Zeros(510) + Zeros(2560)

  const TABLE := [TinyFile([97], 512, 1, 0), TinyFile([98, 47, 99], 1024, 2, 0)]

  /** The path "/b//c". */
  const PATH: CString := [47, 98, 47, 47, 99]

  lemma Offsets()
    ensures DataStart(2) == 512 && OffsetOf(FILES, 0) == 512 && OffsetOf(FILES, 1) == 1024
    ensures OffsetOf(FILES, 2) == 1536 && Packable(FILES)
  {
    assert DataStart(2) == 512;
    assert OffsetOf(FILES, 0) == 512;
    assert OffsetOf(FILES, 1) == 1024;
    assert OffsetOf(FILES, 2) == 1536;
    assert EntryFits(FILES, 0) && EntryFits(FILES, 1);
  }

  lemma Words()
    ensures Le32(0x53465954) == [0x54, 0x59, 0x46, 0x53] && Le32(512) == [0, 2, 0, 0] && Le32(1024) == [0, 4, 0, 0]
  {
  }

  lemma SmallWord(b: byte)
    ensures Le32(b as int) == [b, 0, 0, 0]
  {
  }

  lemma HeadBytes()
    ensures EncodeSuperblock(2, 512) == HEAD
    ensures EncodeEntry([97], 512, 1) == ENTRY_A && EncodeEntry([98, 47, 99], 1024, 2) == ENTRY_BC
  {
    hide Le32;
    Words();
    SmallWord(0);
    SmallWord(1);
    SmallWord(2);
    SmallWord(20);
  }

  lemma TableBytes()
    ensures Packable(FILES) && Entries(FILES, 2) == ENTRY_A + ENTRY_BC
  {
    hide EncodeEntry, OffsetOf, Packable;
    Offsets();
    HeadBytes();
    assert Entries(FILES, 0) == [];
    assert Entries(FILES, 1) == [] + ENTRY_A;
  }

  lemma DataBytes()
    ensures Data(FILES, 2) == [1] + Zeros(511) + [2, 3] + Zeros(510)
  {
    hide OffsetOf, Packable;
    Offsets();
    assert Data(FILES, 0) == [];
    assert Data(FILES, 1) == [1] + Zeros(511);
  }

  lemma ImageBytes()
    ensures Packable(FILES) && Image(FILES) == IMAGE && |IMAGE| == 4096
  {
    hide OffsetOf, Packable, Entries, Data, EncodeSuperblock, Zeros;
    Offsets();
    HeadBytes();
    TableBytes();
    DataBytes();
    assert Body(FILES) == HEAD + (ENTRY_A + ENTRY_BC) + Zeros(340) + ([1] + Zeros(511) + [2, 3] + Zeros(510));
  }

  lemma Names()
    ensures PackedNames(FILES)
    ensures Segments(PATH) == Segments([98, 47, 99]) == [[98], [99]] && Segments([97]) == [[97]]
  {
    hide Segments;
    SingleSegment([97]);
    SingleSegment([99]);
    SegmentSplit([98], [99]);
    assert [98] + [SLASH] + [99] == [98, 47, 99];
    SegmentSplit([98], [47, 99]);
    SlashSkipped([99]);
    SlashSkipped([98, 47, 47, 99]);
    assert [SLASH] + [99] == [47, 99] && [98] + [SLASH] + [47, 99] == [98, 47, 47, 99];
    assert [SLASH] + [98, 47, 47, 99] == [47, 98, 47, 47, 99];
    assert Join([[98], [99]]) == [98, 47, 99];
  }

  /** The packer makes exactly these bytes of "a" and "b/c", and the kernel that mounts them finds just these two. */
  lemma LiteralImage()
    ensures Packable(FILES) && Image(FILES) == IMAGE && |IMAGE| == 4096
    ensures MountTiny(IMAGE) == Some(TABLE)
  {
    hide Image, OffsetOf, Packable, MountTiny;
    ImageBytes();
    assert IMAGE[..|IMAGE|] == IMAGE;
    ExpectedIsTable();
    MountRoundTrip(FILES, IMAGE);
  }

  /** From these bytes "/b//c" is read through its own entry, for which a buffer of one byte is too small; "b" is a
      directory; and the root lists "a" and "b". */
  lemma LiteralTree()
    ensures VfsReadWhole(IMAGE, TABLE, PATH, 2) == Some([2, 3])
    ensures VfsReadWhole(IMAGE, TABLE, PATH, 1) == None
    ensures VfsReadPart(IMAGE, TABLE, [97], 0, 4096) == Some([1])
    ensures Stat(TABLE, [98]) == Some(Info([98], 0, 1))
    ensures List(TABLE, [47]) == Some([Info([97], 1, 0), Info([98], 0, 1)])
  {
    hide Image, OffsetOf, Packable, Segments, PackedNames, VfsReadWhole, VfsReadPart, MountTiny, Stat, List;
    Offsets();
    ImageBytes();
    Names();
    assert IMAGE[..|IMAGE|] == IMAGE;
    ExpectedIsTable();
    PackMountRead(FILES, IMAGE, PATH, 1, 0, 0, 2);
    PackMountRead(FILES, IMAGE, PATH, 1, 0, 0, 1);
    PackMountRead(FILES, IMAGE, [97], 0, 0, 4096, 0);
    assert FILES[0].contents[0..1] == [1];
    DirectoryStat();
    RootListing();
  }

  lemma ExpectedIsTable()
    ensures Packable(FILES) && Expected(FILES, 0) == TABLE
  {
    hide OffsetOf, Packable;
    Offsets();
    assert Expected(FILES, 2) == [];
    assert Expected(FILES, 1) == [TABLE[1]];
  }

  lemma DirectoryStat()
    ensures Stat(TABLE, [98]) == Some(Info([98], 0, DIRECTORY))
  {
    SingleSegment([98]);
    SegmentSplit([98], [99]);
    assert [98] + [SLASH] + [99] == [98, 47, 99];
  }

  lemma RootListing()
    ensures List(TABLE, [47]) == Some([Info([97], 1, 0), Info([98], 0, 1)])
  {
    NoSegments();
    JoinNothing();
    RootFits();
    SlashSkipped([]);
    FirstOfJoined([98], [99]);
    FirstOfJoined([97], []);
    var a: CString, b: CString := [97], [98];
    assert [98] + [SLASH] + [99] == TABLE[1].name && [SLASH] + [] == [47];
    assert CollectChild([], TABLE[0].name) == Some(Child(a, false));
    assert CollectChild([], TABLE[1].name) == Some(Child(b, true));
    var none: seq<CString> := [];
    assert none + [a] == [a] && a != b;
    assert ListFrom(TABLE, [], 2, [a] + [b]) == [];
    assert ListFrom(TABLE, [], 1, [a]) == [EntryOf(TABLE[1], Child(b, true))] + ListFrom(TABLE, [], 2, [a] + [b]);
    assert ListFrom(TABLE, [], 0, none) == [EntryOf(TABLE[0], Child(a, false))] + ListFrom(TABLE, [], 1, none + [a]);
    assert ListFrom(TABLE, [], 1, [a]) == [Info([98], 0, 1)];
    assert ListFrom(TABLE, [], 0, none) == [Info([97], 1, 0), Info([98], 0, 1)];
    assert Normalize([47], true) == Some([]);
    assert List(TABLE, [47]) == Some(ListFrom(TABLE, [], 0, none));
  }
}
