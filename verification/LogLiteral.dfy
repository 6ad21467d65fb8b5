/** LogFS down to the bytes: the image that one creation and one append leave, written out. */
module LogLiteral {
  import opened Bytes
  import opened LogFormat
  import opened LogChecksum
  import opened BlockIO
  import opened LogVolume
  import opened LogRemount
  import opened LogContents
  import opened LogRun

  const SUPERBLOCK: seq<byte> := [76, 71, 70, 83] + [1, 0, 0, 0] + [0, 2, 0, 0] + [128, 0, 0, 0] + [0, 2, 0, 0]

  /** The record of the creation of "a" with id 1: its magic, kind, id, payload size, two file sizes, checksum
      0xcca91a6c, name length, and the name with its NUL, padded to a multiple of 8. */
  const CREATE_A: seq<byte> :=
    [76, 82, 69, 67] + [1, 0, 0, 0] + [1, 0, 0, 0] + [2, 0, 0, 0]
    + ([0, 0, 0, 0] + [0, 0, 0, 0] + [108, 26, 169, 204] + [1, 0, 0, 0]) + [97, 0] + Zeros(6)

  /** The record of the append of "hi" to it, which has checksum 0xda6dc1fe. */
  const APPEND_HI: seq<byte> :=
    [76, 82, 69, 67] + [2, 0, 0, 0] + [1, 0, 0, 0] + [2, 0, 0, 0]
    + ([0, 0, 0, 0] + [2, 0, 0, 0] + [254, 193, 109, 218] + [0, 0, 0, 0]) + [104, 105] + Zeros(6)

  const IMAGE: seq<byte> := SUPERBLOCK + Zeros(492) + CREATE_A + APPEND_HI + Zeros(64944)

  const OPS: seq<Op> := [CreateOp([97]), AppendOp([97], [104, 105])]

  // ---- The two checksums ----

  lemma Two(seed: u32, a: byte, b: byte)
    ensures Checksum(seed, [a, b]) == ((seed * 33 + a as int) * 33 + b as int) % 0x1_0000_0000
  {
    assert [a, b][..1] == [a] && [a][..0] == [];
    assert Checksum(seed, []) == seed;
    assert Checksum(seed, [a]) == (seed * 33 + a as int) % 0x1_0000_0000;
    StepMod((seed * 33 + a as int) % 0x1_0000_0000, seed * 33 + a as int, b as int);
  }

  lemma FourWords(seed: u32, a: seq<byte>, b: seq<byte>, c: seq<byte>, d: seq<byte>)
    ensures Checksum(seed, a + b + c + d) == Checksum(Checksum(Checksum(Checksum(seed, a), b), c), d)
  {
    hide Checksum;
    ChecksumJoin(seed, a, b);
    ChecksumJoin(seed, a + b, c);
    ChecksumJoin(seed, a + b + c, d);
  }

  lemma Pair(seed: u32, a: byte, b: byte, sum: u32, m: nat)
    requires (seed * 33 + a as int) * 33 + b as int == sum + m * 0x1_0000_0000
    ensures Checksum(seed, [a, b]) == sum
  {
    hide Checksum;
    Two(seed, a, b);
    AddMultiple(sum, m);
  }

  /** Four bytes, with the value half way and the multiples of 2^32 that are dropped. */
  lemma Four(seed: u32, a: byte, b: byte, c: byte, d: byte, half: u32, sum: u32, m: nat, n: nat)
    requires (seed * 33 + a as int) * 33 + b as int == half + m * 0x1_0000_0000
    requires (half * 33 + c as int) * 33 + d as int == sum + n * 0x1_0000_0000
    ensures Checksum(seed, [a, b, c, d]) == sum
  {
    hide Checksum;
    Pair(seed, a, b, half, m);
    Pair(half, c, d, sum, n);
    ChecksumJoin(seed, [a, b], [c, d]);
    assert [a, b] + [c, d] == [a, b, c, d];
  }

  // Half a header at a time, the checksum field zero.

  lemma CreateFront()
    ensures Checksum(0, [76, 82, 69, 67] + [1, 0, 0, 0] + [1, 0, 0, 0] + [2, 0, 0, 0]) == 3356341962
  {
    hide Checksum;
    FourWords(0, [76, 82, 69, 67], [1, 0, 0, 0], [1, 0, 0, 0], [2, 0, 0, 0]);
    Four(0, 76, 82, 69, 67, 2590, 2822854, 0, 0);
    Four(2822854, 1, 0, 0, 0, 3074088039, 1902350887, 0, 779);
    Four(1902350887, 1, 0, 0, 0, 1485879304, 3214858760, 482, 376);
    Four(3214858760, 2, 0, 0, 0, 582843466, 3356341962, 815, 147);
  }

  lemma CreateBack()
    ensures Checksum(3356341962, [0, 0, 0, 0] + [0, 0, 0, 0] + [0, 0, 0, 0] + [1, 0, 0, 0]) == 145135403
  {
    hide Checksum;
    FourWords(3356341962, [0, 0, 0, 0], [0, 0, 0, 0], [0, 0, 0, 0], [1, 0, 0, 0]);
    Four(3356341962, 0, 0, 0, 0, 39227722, 4064283594, 851, 9);
    Four(4064283594, 0, 0, 0, 0, 2188518986, 3885293770, 1030, 554);
    Four(3885293770, 0, 0, 0, 0, 542128970, 1967928778, 985, 137);
    Four(1967928778, 1, 0, 0, 0, 4180725867, 145135403, 498, 1060);
  }

  lemma AppendFront()
    ensures Checksum(0, [76, 82, 69, 67] + [2, 0, 0, 0] + [1, 0, 0, 0] + [2, 0, 0, 0]) == 4177597483
  {
    hide Checksum;
    FourWords(0, [76, 82, 69, 67], [2, 0, 0, 0], [1, 0, 0, 0], [2, 0, 0, 0]);
    Four(0, 76, 82, 69, 67, 2590, 2822854, 0, 0);
    Four(2822854, 2, 0, 0, 0, 3074088072, 1902386824, 0, 779);
    Four(1902386824, 1, 0, 0, 0, 1525014697, 2883628777, 482, 386);
    Four(2883628777, 2, 0, 0, 0, 650644843, 4177597483, 731, 164);
  }

  lemma AppendBack()
    ensures Checksum(4177597483, [0, 0, 0, 0] + [2, 0, 0, 0] + [0, 0, 0, 0] + [0, 0, 0, 0]) == 3978872045
  {
    hide Checksum;
    FourWords(4177597483, [0, 0, 0, 0], [2, 0, 0, 0], [0, 0, 0, 0], [0, 0, 0, 0]);
    Four(4177597483, 0, 0, 0, 0, 1033292523, 4269093291, 1059, 261);
    Four(4269093291, 2, 0, 0, 0, 1887979693, 3015518189, 1082, 478);
    Four(3015518189, 0, 0, 0, 0, 2544293677, 481908333, 764, 645);
    Four(481908333, 0, 0, 0, 0, 812164525, 3978872045, 122, 205);
  }

  lemma HeaderSum(a: seq<byte>, b: seq<byte>, sumA: u32, sumB: u32, x: byte, y: byte)
    requires Checksum(0, a) == sumA && Checksum(sumA, b) == sumB
    ensures Checksum(Checksum(0, a + b), [x, y]) == ((sumB * 33 + x as int) * 33 + y as int) % 0x1_0000_0000
  {
    hide Checksum;
    ChecksumJoin(0, a, b);
    Two(sumB, x, y);
  }

  lemma CreateSum()
    ensures Checksum(Checksum(0, EncodeHeader(RecordHeader(1, 1, 0, 0, 1, 2))), [97, 0]) == 0xcca9_1a6c
  {
    hide Checksum, Le32;
    CreateFront();
    CreateBack();
    HeaderSum([76, 82, 69, 67] + [1, 0, 0, 0] + [1, 0, 0, 0] + [2, 0, 0, 0],
              [0, 0, 0, 0] + [0, 0, 0, 0] + [0, 0, 0, 0] + [1, 0, 0, 0], 3356341962, 145135403, 97, 0);
    Words();
  }

  lemma AppendSum()
    ensures Checksum(Checksum(0, EncodeHeader(RecordHeader(2, 1, 0, 2, 0, 2))), [104, 105]) == 0xda6d_c1fe
  {
    hide Checksum, Le32;
    AppendFront();
    AppendBack();
    HeaderSum([76, 82, 69, 67] + [2, 0, 0, 0] + [1, 0, 0, 0] + [2, 0, 0, 0],
              [0, 0, 0, 0] + [2, 0, 0, 0] + [0, 0, 0, 0] + [0, 0, 0, 0], 4177597483, 3978872045, 104, 105);
    Words();
  }

  /** The words that occur, in little-endian order. */
  lemma Words()
    ensures Le32(0x4345524c) == [76, 82, 69, 67] && Le32(0) == [0, 0, 0, 0] && Le32(1) == [1, 0, 0, 0]
    ensures Le32(2) == [2, 0, 0, 0] && Le32(0xcca9_1a6c) == [108, 26, 169, 204]
    ensures Le32(0xda6d_c1fe) == [254, 193, 109, 218]
    ensures Le32(0x5346474c) == [76, 71, 70, 83] && Le32(512) == [0, 2, 0, 0] && Le32(128) == [128, 0, 0, 0]
  {
  }

  // ---- The two records ----

  lemma CreateBytes()
    ensures RecordBytes(RecordHeader(1, 1, 0, 0, 1, 2), [97, 0]) == CREATE_A && |CREATE_A| == 40
  {
    hide Checksum, Le32;
    CreateSum();
    Words();
    var h := RecordHeader(1, 1, 0, 0, 1, 2);
    assert h.(checksum := 0) == h;
    assert RecordChecksum(h, [97, 0]) == 0xcca9_1a6c;
    assert RecordSize(2) == 40;
  }

  lemma AppendBytes()
    ensures RecordBytes(RecordHeader(2, 1, 0, 2, 0, 2), [104, 105]) == APPEND_HI && |APPEND_HI| == 40
  {
    hide Checksum, Le32;
    AppendSum();
    Words();
    var h := RecordHeader(2, 1, 0, 2, 0, 2);
    assert h.(checksum := 0) == h;
    assert RecordChecksum(h, [104, 105]) == 0xda6d_c1fe;
    assert RecordSize(2) == 40;
  }

  lemma SuperblockBytes()
    ensures FormatImage() == SUPERBLOCK + Zeros(65516) && |SUPERBLOCK| == 20
  {
    hide Le32;
    Words();
  }

  // ---- The run ----

  lemma FirstStep()
    ensures var o := Create(FormatImage(), EmptyVolume(IMAGE_SIZE, LOG_OFFSET), [97]);
      && o.ok && o.disk == Splice(FormatImage(), 512, CREATE_A) && |o.vol.files| == MAX_FILES
      && o.vol.files[0] == File([97], 1, 0, 0) && o.vol.logEnd == 552 && o.vol.segs == []
      && o.vol.capacity == IMAGE_SIZE
  {
    hide FormatImage, RecordBytes, Splice;
    CreateBytes();
    var v := EmptyVolume(IMAGE_SIZE, LOG_OFFSET);
    assert Matches(AnyUnused, v.files[0]);
    assert [97] + [NUL] == [97, 0];
    assert CreateHeader(v, [97]) == RecordHeader(1, 1, 0, 0, 1, 2);
    assert RecordSize(2) == 40;
  }

  lemma SecondStep(disk: seq<byte>, v: Volume)
    requires |v.files| > 0 && v.files[0] == File([97], 1, 0, 0) && v.logEnd == 552 && v.segs == []
    requires v.capacity == IMAGE_SIZE == |disk|
    ensures Append(disk, v, [97], [104, 105]).disk == Splice(disk, 552, APPEND_HI)
  {
    hide RecordBytes, Splice;
    AppendBytes();
    assert Matches(ByName([97]), v.files[0]);
    assert AppendHeader(v.files[0], 2) == RecordHeader(2, 1, 0, 2, 0, 2);
    assert RecordSize(2) == 40;
  }

  lemma TwoSplices()
    ensures Splice(Splice(SUPERBLOCK + Zeros(65516), 512, CREATE_A), 552, APPEND_HI) == IMAGE
  {
    SuperblockBytes();
    CreateBytes();
    AppendBytes();
    var a, b := CREATE_A, APPEND_HI;
    var d := SUPERBLOCK + Zeros(65516);
    assert Splice(d, 512, a) == SUPERBLOCK + Zeros(492) + a + Zeros(64984);
  }

  lemma RunBytes()
    ensures OpsValid(OPS) && |FormatImage()| == BlockStart(BLOCK_COUNT, BLOCK_SIZE)
    ensures Run(FormatImage(), BLOCK_SIZE, BLOCK_COUNT, EmptyVolume(IMAGE_SIZE, LOG_OFFSET), OPS).0 == IMAGE
  {
    hide FormatImage, RecordBytes, Splice, Create, Append, BlockStart, Matching;
    FormatMatching();
    FirstStep();
    SuperblockBytes();
    TwoSplices();
    var v := EmptyVolume(IMAGE_SIZE, LOG_OFFSET);
    var o := Create(FormatImage(), v, [97]);
    SecondStep(o.disk, o.vol);
    var o2 := Append(o.disk, o.vol, [97], [104, 105]);
    assert OPS[1..] == [OPS[1]] && [OPS[1]][1..] == [];
    assert Run(o2.disk, BLOCK_SIZE, BLOCK_COUNT, o2.vol, []).0 == o2.disk;
    assert Run(o.disk, BLOCK_SIZE, BLOCK_COUNT, o.vol, [OPS[1]]).0 == o2.disk;
  }

  lemma SpecResult()
    ensures NoOverflow(Spec(map[], 0), OPS)
    ensures SpecRun(Spec(map[], 0), OPS).0.files == map[[97] := [104, 105]]
  {
    assert OPS[1..] == [OPS[1]] && [OPS[1]][1..] == [];
    var s := SpecStep(Spec(map[], 0), OPS[0]);
    assert NameValid([97]);
    assert s == Spec(map[[97] := []], 0);
    assert [] + [104, 105] == [104, 105];
    assert SpecStep(s, OPS[1]).files == map[[97] := [104, 105]];
    assert NoOverflow(SpecStep(s, OPS[1]), []);
    assert NoOverflow(s, [OPS[1]]);
  }

  /** Creating "a" on the formatted image and appending "hi" to it leaves exactly these bytes, and mounting a
      device with these bytes finds "a" with the contents "hi". */
  lemma LiteralImage()
    ensures |IMAGE| == BlockStart(BLOCK_COUNT, BLOCK_SIZE) && OpsValid(OPS)
    ensures Run(FormatImage(), BLOCK_SIZE, BLOCK_COUNT, EmptyVolume(IMAGE_SIZE, LOG_OFFSET), OPS).0 == IMAGE
    ensures var m := MountVolume(IMAGE, BLOCK_SIZE, BLOCK_COUNT);
      m.Some? && Readable(IMAGE, m.value) && Files(IMAGE, m.value) == map[[97] := [104, 105]]
  {
    hide FormatImage, Run, SpecRun, MountVolume, Files, Readable, NoOverflow, BlockStart;
    SpecResult();
    RunBytes();
    RemountEquivalence(OPS);
  }
}
