/** What the record checksum computes, when a record is accepted in terms of its bytes, and what a changed byte does. */
module LogChecksum {
  import opened Bytes
  import opened BlockIO
  import opened LogFormat
  import opened LogVolume
  import opened LogRemount

  // ---- The closed form ----

  function Pow33(n: nat): nat {
    if n == 0 then 1 else 33 * Pow33(n - 1)
  }

  /** The sum of data[i] * 33^(n - 1 - i) over all n positions. */
  function Weighted(data: seq<byte>): nat {
    if data == [] then 0 else data[0] as int * Pow33(|data| - 1) + Weighted(data[1..])
  }

  lemma {:induction false} WeightedLast(data: seq<byte>)
    requires data != []
    ensures Weighted(data) == 33 * Weighted(data[..|data| - 1]) + data[|data| - 1] as int
    decreases |data|
  {
    var n := |data|;
    if n > 1 {
      var rest, init := data[1..], data[..n - 1];
      assert rest[..n - 2] == init[1..];
      WeightedLast(rest);
      assert Pow33(n - 1) == 33 * Pow33(n - 2);
      assert data[0] as int * Pow33(n - 1) == 33 * (data[0] as int * Pow33(n - 2));
    } else {
      assert data[1..] == [] && data[..0] == [];
    }
  }

  lemma StepMod(a: int, b: int, x: int)
    requires a == b % 0x1_0000_0000
    ensures (a * 33 + x) % 0x1_0000_0000 == (b * 33 + x) % 0x1_0000_0000
  {
    var q := b / 0x1_0000_0000;
    assert b * 33 + x == (a * 33 + x) + (q * 33) * 0x1_0000_0000;
    AddMultiple(a * 33 + x, q * 33);
  }

  lemma AddMultiple(v: int, k: int)
    ensures (v + k * 0x1_0000_0000) % 0x1_0000_0000 == v % 0x1_0000_0000
  {
  }

  lemma TimesOne(v: nat)
    ensures v * Pow33(0) == v
  {
  }

  lemma PowTimes(v: nat, n: nat)
    ensures v * Pow33(n + 1) == 33 * (v * Pow33(n))
  {
  }

  /** The checksum of n bytes is seed * 33^n plus the weighted sum of the bytes, modulo 2^32. */
  lemma {:induction false} ChecksumClosed(seed: u32, data: seq<byte>)
    ensures Checksum(seed, data) == (seed * Pow33(|data|) + Weighted(data)) % 0x1_0000_0000
    decreases |data|
  {
    if data == [] {
      TimesOne(seed);
    } else {
      var init, x := data[..|data| - 1], data[|data| - 1] as int;
      ChecksumClosed(seed, init);
      WeightedLast(data);
      PowTimes(seed, |init|);
      hide Pow33, Weighted;
      StepMod(Checksum(seed, init), seed * Pow33(|init|) + Weighted(init), x);
    }
  }

  /** The checksum of two parts one after the other. */
  lemma {:induction false} ChecksumJoin(seed: u32, a: seq<byte>, b: seq<byte>)
    ensures Checksum(seed, a + b) == Checksum(Checksum(seed, a), b)
    decreases |b|
  {
    if b == [] {
      assert a + b == a;
    } else {
      var n := |b| - 1;
      assert (a + b)[..|a + b| - 1] == a + b[..n];
      ChecksumJoin(seed, a, b[..n]);
    }
  }

  // ---- One byte ----

  /** 33 is odd: a multiple of it is a multiple of 2^32 only if the factor is. */
  lemma NoSmallMultiple(d: int, k: int)
    requires 33 * d == k * 0x1_0000_0000 && -0x1_0000_0000 < d < 0x1_0000_0000
    ensures d == 0
  {
    // 33 * 1041204193 == 8 * 2^32 + 1
    var e := k * 1041204193 - 8 * d;
    assert d == e * 0x1_0000_0000;
  }

  lemma SameRemainder(v: int, w: int)
    requires v % 0x1_0000_0000 == w % 0x1_0000_0000
    ensures v - w == (v / 0x1_0000_0000 - w / 0x1_0000_0000) * 0x1_0000_0000
  {
  }

  /** One more byte keeps different sums different, and different bytes make equal sums different. */
  lemma StepDiffers(a: u32, b: u32, x: byte, y: byte)
    requires a == b <==> x != y
    ensures (a * 33 + x as int) % 0x1_0000_0000 != (b * 33 + y as int) % 0x1_0000_0000
  {
    var v, w := a * 33 + x as int, b * 33 + y as int;
    if v % 0x1_0000_0000 == w % 0x1_0000_0000 {
      SameRemainder(v, w);
      if a != b {
        NoSmallMultiple(a - b, v / 0x1_0000_0000 - w / 0x1_0000_0000);
      }
    }
  }

  /** The strings have the same length and differ in exactly this position. */
  predicate DifferAt(a: seq<byte>, b: seq<byte>, i: nat) {
    && i < |a| == |b| && a[i] != b[i]
    && forall k :: 0 <= k < |a| && k != i ==> a[k] == b[k]
  }

  /** Two strings that differ in exactly one byte have different checksums. */
  lemma {:induction false} OneByteDiffers(seed: u32, a: seq<byte>, b: seq<byte>, i: nat)
    requires DifferAt(a, b, i)
    ensures Checksum(seed, a) != Checksum(seed, b)
    decreases |a|
  {
    var n := |a| - 1;
    if i < n {
      OneByteDiffers(seed, a[..n], b[..n], i);
    } else {
      assert a[..n] == b[..n];
    }
    StepDiffers(Checksum(seed, a[..n]), Checksum(seed, b[..n]), a[n], b[n]);
  }

  // ---- Records in terms of their bytes ----

  /** What the checksum of a record covers: its header with the checksum field zero, and its payload. */
  function Summed(disk: seq<byte>, offset: nat, n: nat): seq<byte>
    requires offset + 32 + n <= |disk|
  {
    disk[offset..offset + 24] + [0, 0, 0, 0] + disk[offset + 28..offset + 32 + n]
  }

  /** A record of n payload bytes lies here: the magic number, a payload that a record can have, room for it up to the
      next multiple of 8, and the right checksum. */
  predicate RecordAt(disk: seq<byte>, offset: nat, capacity: nat, n: nat)
    requires offset + 32 <= capacity <= |disk|
  {
    && U32At(disk, offset) == 0x4345524c && U32At(disk, offset + 12) == n <= 480
    && offset + (32 + n + 7) / 8 * 8 <= capacity
    && U32At(disk, offset + 24) == Checksum(0, Summed(disk, offset, n))
  }

  lemma {:induction false} Le32OfU32At(s: seq<byte>, i: nat)
    requires i + 4 <= |s|
    ensures Le32(U32At(s, i)) == s[i..i + 4]
  {
    var a, b, c, d := s[i] as int, s[i + 1] as int, s[i + 2] as int, s[i + 3] as int;
    var v := U32At(s, i);
    assert v / 0x100 == b + 0x100 * c + 0x1_0000 * d && v % 0x100 == a;
    assert v / 0x100 / 0x100 == c + 0x100 * d && (v / 0x100) % 0x100 == b;
    assert (v / 0x100 / 0x100) / 0x100 == d && (v / 0x100 / 0x100) % 0x100 == c;
  }

  /** Encoding what was decoded gives the bytes back. */
  lemma EncodeDecoded(s: seq<byte>)
    requires |s| == 32
    ensures EncodeHeader(DecodeHeader(s).(checksum := 0)) == s[..24] + [0, 0, 0, 0] + s[28..]
  {
    hide U32At, Le32;
    assert Le32(0) == [0, 0, 0, 0] by { ZeroField(); }
    Le32OfU32At(s, 0);
    Le32OfU32At(s, 4);
    Le32OfU32At(s, 8);
    Le32OfU32At(s, 12);
    Le32OfU32At(s, 16);
    Le32OfU32At(s, 20);
    Le32OfU32At(s, 28);
    assert s[..24] == s[0..4] + s[4..8] + s[8..12] + s[12..16] + s[16..20] + s[20..24];
    assert s[28..] == s[28..32];
  }

  lemma ZeroField()
    ensures Le32(0) == [0, 0, 0, 0]
  {
  }

  lemma FieldInSlice(disk: seq<byte>, offset: nat, i: nat)
    requires offset + 32 <= |disk| && i + 4 <= 32
    ensures U32At(disk[offset..offset + 32], i) == U32At(disk, offset + i)
  {
  }

  /** The checksum that replay computes is that of the covered bytes. */
  lemma SummedChecksum(disk: seq<byte>, offset: nat, n: nat)
    requires offset + 32 + n <= |disk|
    ensures var h := DecodeHeader(disk[offset..offset + 32]);
      RecordChecksum(h, disk[offset + 32..offset + 32 + n]) == Checksum(0, Summed(disk, offset, n))
  {
    hide DecodeHeader, EncodeHeader, Checksum;
    var s, payload := disk[offset..offset + 32], disk[offset + 32..offset + 32 + n];
    var h := DecodeHeader(s);
    EncodeDecoded(s);
    var header := EncodeHeader(h.(checksum := 0));
    assert h.(checksum := 0).(checksum := 0) == h.(checksum := 0);
    ChecksumJoin(0, header, payload);
    SliceOfSlice(disk, offset, offset + 32, 0, 24);
    SliceOfSlice(disk, offset, offset + 32, 28, 32);
    assert s[..24] == s[0..24] && s[28..] == s[28..32];
    assert disk[offset + 28..offset + 32 + n] == disk[offset + 28..offset + 32] + payload;
    assert header + payload == Summed(disk, offset, n);
  }

  /** Replay accepts exactly the records in this sense, takes their fields from the bytes, and sees the end of the log
      where the magic number is 0. */
  lemma IntactIff(disk: seq<byte>, offset: nat, capacity: nat)
    requires offset + 32 <= capacity <= |disk|
    ensures var p := ParseRecord(disk, offset, capacity);
      && (p.Blank? <==> U32At(disk, offset) == 0)
      && (p.Intact? <==> RecordAt(disk, offset, capacity, U32At(disk, offset + 12)))
      && (p.Intact? ==>
            var n := U32At(disk, offset + 12);
            && p.size == (32 + n + 7) / 8 * 8 && p.payload == disk[offset + 32..offset + 32 + n]
            && p.header.kind == U32At(disk, offset + 4) && p.header.fileId == U32At(disk, offset + 8)
            && p.header.payloadSize == n && p.header.sizeBefore == U32At(disk, offset + 16)
            && p.header.sizeAfter == U32At(disk, offset + 20) && p.header.nameLength == U32At(disk, offset + 28))
  {
    hide U32At, Checksum, RecordChecksum, RecordSize, Summed;
    FieldInSlice(disk, offset, 0);
    FieldInSlice(disk, offset, 4);
    FieldInSlice(disk, offset, 8);
    FieldInSlice(disk, offset, 12);
    FieldInSlice(disk, offset, 16);
    FieldInSlice(disk, offset, 20);
    FieldInSlice(disk, offset, 24);
    FieldInSlice(disk, offset, 28);
    var n := U32At(disk, offset + 12);
    if n <= 480 {
      SizeIs(n);
      if offset + 32 + n <= |disk| {
        SummedChecksum(disk, offset, n);
      }
    }
  }

  lemma SizeIs(n: nat)
    requires n <= 480
    ensures RecordSize(n) == (32 + n + 7) / 8 * 8
  {
  }

  // ---- A damaged record ----

  lemma FieldDiffers(a: seq<byte>, b: seq<byte>, i: nat, j: nat)
    requires DifferAt(a, b, j) && i <= j < i + 4 <= |a|
    ensures U32At(a, i) != U32At(b, i)
  {
  }

  lemma FieldSame(a: seq<byte>, b: seq<byte>, i: nat, j: nat)
    requires DifferAt(a, b, j) && i + 4 <= |a| && !(i <= j < i + 4)
    ensures U32At(a, i) == U32At(b, i)
  {
  }

  lemma SummedSame(disk: seq<byte>, disk': seq<byte>, offset: nat, n: nat, j: nat)
    requires DifferAt(disk, disk', j) && offset + 32 + n <= |disk| && offset + 24 <= j < offset + 28
    ensures Summed(disk, offset, n) == Summed(disk', offset, n)
  {
  }

  lemma SummedDiffers(disk: seq<byte>, disk': seq<byte>, offset: nat, n: nat, j: nat)
    requires DifferAt(disk, disk', j) && offset + 32 + n <= |disk|
    requires offset <= j < offset + 32 + n && !(offset + 24 <= j < offset + 28)
    ensures DifferAt(Summed(disk, offset, n), Summed(disk', offset, n), j - offset)
  {
  }

  /** An accepted record with one byte of its header or payload changed is refused. The four bytes of the payload size
      are left out: they decide how much is summed. */
  lemma OneByteRefused(disk: seq<byte>, disk': seq<byte>, offset: nat, capacity: nat, j: nat)
    requires offset + 32 <= capacity <= |disk| && DifferAt(disk, disk', j)
    requires ParseRecord(disk, offset, capacity).Intact?
    requires offset <= j < offset + 32 + |ParseRecord(disk, offset, capacity).payload|
    requires !(offset + 12 <= j < offset + 16)
    ensures !ParseRecord(disk', offset, capacity).Intact?
  {
    hide U32At, Checksum, Summed, ParseRecord;
    IntactIff(disk, offset, capacity);
    IntactIff(disk', offset, capacity);
    FieldSame(disk, disk', offset + 12, j);
    var n := U32At(disk, offset + 12);
    if j < offset + 4 {
      FieldDiffers(disk, disk', offset, j);
    } else if offset + 24 <= j < offset + 28 {
      FieldDiffers(disk, disk', offset + 24, j);
      SummedSame(disk, disk', offset, n, j);
    } else {
      FieldSame(disk, disk', offset + 24, j);
      SummedDiffers(disk, disk', offset, n, j);
      OneByteDiffers(0, Summed(disk, offset, n), Summed(disk', offset, n), j - offset);
    }
  }

  /** Replay from v passes through the state w. */
  ghost predicate Reaches(disk: seq<byte>, v: Volume, w: Volume)
    requires v.capacity <= |disk|
    decreases v.capacity - v.logEnd
  {
    v == w || (ReplayStep(disk, v).Some? && Reaches(disk, ReplayStep(disk, v).value, w))
  }

  lemma {:induction false} ReachesOn(disk: seq<byte>, v: Volume, w: Volume)
    requires v.capacity <= |disk| && Reaches(disk, v, w)
    ensures w.capacity == v.capacity && v.logEnd <= w.logEnd
    decreases v.capacity - v.logEnd
  {
    hide ReplayStep;
    if v != w {
      ReachesOn(disk, ReplayStep(disk, v).value, w);
    }
  }

  lemma {:induction false} ReachesLocal(disk: seq<byte>, disk': seq<byte>, v: Volume, w: Volume)
    requires v.capacity <= |disk| == |disk'| && Reaches(disk, v, w) && w.capacity == v.capacity && w.logEnd <= |disk|
    requires disk[..w.logEnd] == disk'[..w.logEnd]
    ensures Replay(disk', v) == Replay(disk', w)
    decreases v.capacity - v.logEnd
  {
    hide ReplayStep;
    if v != w {
      var v1 := ReplayStep(disk, v).value;
      ReachesOn(disk, v1, w);
      SameFront(disk, disk', w.logEnd, v1.logEnd);
      ReplayStepLocal(disk, disk', v);
      ReachesLocal(disk, disk', v1, w);
    }
  }

  lemma DifferFront(a: seq<byte>, b: seq<byte>, i: nat, n: nat)
    requires DifferAt(a, b, i) && n <= i
    ensures a[..n] == b[..n]
  {
  }

  /** A mount of a device on which one byte of a record has changed stops in front of that record. */
  lemma DamagedMount(disk: seq<byte>, disk': seq<byte>, blockSize: nat, blockCount: nat, w: Volume, j: nat)
    requires |disk| == BlockStart(blockCount, blockSize) && MountVolume(disk, blockSize, blockCount).Some?
    requires StartVolume(disk, blockSize).capacity <= |disk| && Reaches(disk, StartVolume(disk, blockSize), w)
    requires LogApart(w) && w.logEnd + 32 <= w.capacity <= |disk|
    requires ParseRecord(disk, w.logEnd, w.capacity).Intact? && DifferAt(disk, disk', j)
    requires w.logEnd <= j < w.logEnd + 32 + |ParseRecord(disk, w.logEnd, w.capacity).payload|
    requires !(w.logEnd + 12 <= j < w.logEnd + 16)
    ensures MountVolume(disk', blockSize, blockCount) == Some(w)
  {
    hide MountVolume, DecodeSuperblock, ParseRecord, BlockStart, StartVolume, Reaches, ApplyRecord, DifferAt;
    assert |disk'| == |disk| && j < |disk| by { DifferSize(disk, disk', j); }
    DifferFront(disk, disk', j, w.logEnd);
    SameFront(disk, disk', w.logEnd, SUPERBLOCK_SIZE);
    MountAfterWrite(disk, disk', blockSize, blockCount);
    ReachesOn(disk, StartVolume(disk, blockSize), w);
    ReachesLocal(disk, disk', StartVolume(disk, blockSize), w);
    OneByteRefused(disk, disk', w.logEnd, w.capacity, j);
  }

  lemma DifferSize(a: seq<byte>, b: seq<byte>, i: nat)
    requires DifferAt(a, b, i)
    ensures |a| == |b| && i < |a|
  {
  }
}
