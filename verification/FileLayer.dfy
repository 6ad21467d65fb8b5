/** Open files: a static table of handles over the VFS. */
module FileLayer {
  import opened Bytes
  import opened BlockIO
  import opened Paths
  import opened TinyFormat
  import opened VfsTree
  import TinyFS
  import Vfs

  const FILE_TABLE_MAX := 8

  datatype Handle = Handle(path: CString, size: u32, offset: u32, flags: u32, inUse: bool)

  const CLOSED := Handle([], 0, 0, 0, false)

  // ---- Specification ----

  /** The handle that opening `path` prepares; None when stat fails or says directory. */
  function Opened(files: seq<TinyFile>, path: CString): Option<Handle> {
    match Stat(files, path)
    case None => None
    case Some(info) => if IsDirectory(info) then None else Some(Handle(info.name, info.size, 0, info.flags, true))
  }

  /** The first unused handle from i on. */
  function FirstFree(handles: seq<Handle>, i: nat): (r: Option<nat>)
    requires i <= |handles|
    ensures r.Some? ==> i <= r.value < |handles| && !handles[r.value].inUse
    ensures r.Some? ==> forall k :: i <= k < r.value ==> handles[k].inUse
    ensures r.None? ==> forall k :: i <= k < |handles| ==> handles[k].inUse
    decreases |handles| - i
  {
    if i == |handles| then None
    else if !handles[i].inUse then Some(i)
    else FirstFree(handles, i + 1)
  }

  /** The answer of one file_read: the returned int, the bytes put in the buffer, and the handle afterwards. */
  datatype ReadAnswer = ReadAnswer(result: int, data: seq<byte>, after: Handle)

  function Read(disk: seq<byte>, files: seq<TinyFile>, h: Handle, size: u32): (r: ReadAnswer)
    ensures |r.data| <= size
  {
    if !h.inUse then ReadAnswer(-1, [], h)
    else if h.offset >= h.size then ReadAnswer(0, [], h)
    else
      match VfsReadPart(disk, files, h.path, h.offset, Min(size, h.size - h.offset))
      case None => ReadAnswer(-1, [], h)
      case Some(data) =>
        if TinyFS.AsInt(|data|) < 0 then ReadAnswer(-1, data, h)
        else ReadAnswer(|data|, data, h.(offset := h.offset + |data|))
  }

  /** What a caller has received after reads of the given sizes; it stops at the first failure. */
  function ReadAll(disk: seq<byte>, files: seq<TinyFile>, h: Handle, sizes: seq<u32>): Option<(seq<byte>, Handle)>
    decreases |sizes|
  {
    if sizes == [] then Some(([], h))
    else
      var a := Read(disk, files, h, sizes[0]);
      if a.result < 0 then None
      else match ReadAll(disk, files, a.after, sizes[1..])
        case None => None
        case Some(rest) => Some((a.data + rest.0, rest.1))
  }

  /** What a caller receives who opens `path` and reads chunks of the given sizes. */
  function OpenAndRead(disk: seq<byte>, files: seq<TinyFile>, path: CString, sizes: seq<u32>): Option<seq<byte>> {
    match Opened(files, path)
    case None => None
    case Some(h) =>
      match ReadAll(disk, files, h, sizes)
      case None => None
      case Some(received) => Some(received.0)
  }

  function Sum(sizes: seq<u32>): nat {
    if sizes == [] then 0 else sizes[0] + Sum(sizes[1..])
  }

  // ---- Chunked reads return the contents ----

  /** The handle is open on a file with these contents: reads at its path deliver their slices, as long as they start
      below `limit` or deliver nothing. */
  ghost predicate OpenOn(disk: seq<byte>, files: seq<TinyFile>, h: Handle, contents: seq<byte>, limit: nat) {
    && h.inUse && h.size == |contents| && h.offset <= h.size
    && forall o: u32, n: u32 :: o <= |contents| && (o < limit || Min(n, |contents| - o) == 0) ==>
         VfsReadPart(disk, files, h.path, o, n) == Some(contents[o..o + Min(n, |contents| - o)])
  }

  /** One read delivers the next bytes of the file and advances past them, unless the count it would have to return
      does not fit a C int: then it fails, although the bytes are in the buffer. */
  lemma ReadOnce(disk: seq<byte>, files: seq<TinyFile>, h: Handle, contents: seq<byte>, limit: nat, size: u32)
    requires OpenOn(disk, files, h, contents, limit) && (h.offset < limit || Min(size, |contents| - h.offset) == 0)
    ensures var n := Min(size, |contents| - h.offset);
      Read(disk, files, h, size)
      == if n < 0x8000_0000 then ReadAnswer(n, contents[h.offset..h.offset + n], h.(offset := h.offset + n))
         else ReadAnswer(-1, contents[h.offset..h.offset + n], h)
  {
    hide VfsReadPart;
    var o := h.offset;
    if o < h.size {
      var n := Min(size, h.size - o);
      assert Min(n, h.size - o) == n;
      assert VfsReadPart(disk, files, h.path, o, n) == Some(contents[o..o + n]);
    } else {
      assert contents[o..o + 0] == [];
    }
  }

  lemma OpenOnMoves(disk: seq<byte>, files: seq<TinyFile>, h: Handle, contents: seq<byte>, limit: nat, offset: u32)
    requires OpenOn(disk, files, h, contents, limit) && offset <= |contents|
    ensures OpenOn(disk, files, h.(offset := offset), contents, limit)
  {
    hide VfsReadPart;
  }

  /** Every chunk that delivers something starts below `limit`. */
  predicate ChunksBelow(offset: nat, total: nat, limit: nat, sizes: seq<u32>)
    requires offset <= total
    decreases |sizes|
  {
    sizes != [] ==>
      var n := Min(sizes[0], total - offset);
      (offset < limit || n == 0) && ChunksBelow(offset + n, total, limit, sizes[1..])
  }

  /** The count of every chunk fits a C int. */
  predicate ChunksFit(offset: nat, total: nat, sizes: seq<u32>)
    requires offset <= total
    decreases |sizes|
  {
    sizes != [] ==>
      var n := Min(sizes[0], total - offset);
      n < 0x8000_0000 && ChunksFit(offset + n, total, sizes[1..])
  }

  /** Reading in chunks of any sizes returns the contents from the handle's offset on, as far as the chunks reach,
      exactly when the count of every chunk fits a C int. */
  lemma {:induction false} ChunkedRead(disk: seq<byte>, files: seq<TinyFile>, h: Handle, contents: seq<byte>,
                                       limit: nat,
                                       sizes: seq<u32>)
    requires OpenOn(disk, files, h, contents, limit) && ChunksBelow(h.offset, |contents|, limit, sizes)
    ensures var n := Min(Sum(sizes), |contents| - h.offset);
      ReadAll(disk, files, h, sizes)
      == if ChunksFit(h.offset, |contents|, sizes)
         then Some((contents[h.offset..h.offset + n], h.(offset := h.offset + n)))
         else None
    decreases |sizes|
  {
    hide OpenOn, Read;
    assert h.offset <= |contents| && h.inUse by { OpenBounds(disk, files, h, contents, limit); }
    if sizes == [] {
      assert contents[h.offset..h.offset + 0] == [];
    } else {
      var n := Min(sizes[0], |contents| - h.offset);
      ReadOnce(disk, files, h, contents, limit, sizes[0]);
      if n < 0x8000_0000 {
        var next := h.(offset := h.offset + n);
        OpenOnMoves(disk, files, h, contents, limit, h.offset + n);
        ChunkedRead(disk, files, next, contents, limit, sizes[1..]);
        var m := Min(Sum(sizes[1..]), |contents| - next.offset);
        assert contents[h.offset..h.offset + n] + contents[h.offset + n..h.offset + n + m]
          == contents[h.offset..h.offset + n + m];
        assert Min(Sum(sizes), |contents| - h.offset) == n + m;
      }
    }
  }

  lemma OpenBounds(disk: seq<byte>, files: seq<TinyFile>, h: Handle, contents: seq<byte>, limit: nat)
    requires OpenOn(disk, files, h, contents, limit)
    ensures h.offset <= |contents| < TWO_32 && h.inUse
  {
  }

  /** Chunks of any sizes fit on a file below 2 GiB, and chunks below 2 GiB on every file. */
  lemma {:induction false} SmallChunksFit(offset: nat, total: nat, sizes: seq<u32>)
    requires offset <= total
    requires total < 0x8000_0000 || forall k :: 0 <= k < |sizes| ==> sizes[k] < 0x8000_0000
    ensures ChunksFit(offset, total, sizes)
    decreases |sizes|
  {
    if sizes != [] {
      SmallChunksFit(offset + Min(sizes[0], total - offset), total, sizes[1..]);
    }
  }

  /** A file that ends below the limit has no chunk past it. */
  lemma {:induction false} AllChunksBelow(offset: nat, total: nat, limit: nat, sizes: seq<u32>)
    requires offset <= total <= limit
    ensures ChunksBelow(offset, total, limit, sizes)
    decreases |sizes|
  {
    if sizes != [] {
      AllChunksBelow(offset + Min(sizes[0], total - offset), total, limit, sizes[1..]);
    }
  }

  /** Packed, mounted, opened by any spelling of its path and read in chunks that start in the first 4 GiB of the image,
      a file gives back the packed contents, exactly when the count of every chunk fits a C int. */
  lemma {:induction false} PackMountOpenRead(files: seq<Packed>, disk: seq<byte>, path: CString, i: nat,
                                             sizes: seq<u32>)
    requires Packable(files) && PackedNames(files) && |files| <= MAX_FILES && i < |files|
    requires |Image(files)| <= |disk| && disk[..|Image(files)|] == Image(files)
    requires Segments(path) == Segments(files[i].name)
    requires OffsetOf(files, i) < TWO_32 && ChunksBelow(0, |files[i].contents|, TWO_32 - OffsetOf(files, i), sizes)
    ensures MountTiny(disk) == Some(Expected(files, 0))
    ensures OpenAndRead(disk, Expected(files, 0), path, sizes)
         == if ChunksFit(0, |files[i].contents|, sizes)
            then Some(files[i].contents[..Min(Sum(sizes), |files[i].contents|)])
            else None
  {
    hide Segments, Image, Expected, PackedNames, Opened, OpenOn, ReadAll, MountTiny, OffsetOf, Packable, Sum,
         ChunksFit, ChunksBelow;
    MountRoundTrip(files, disk);
    OpenedOn(files, disk, path, i);
    var h := Opened(Expected(files, 0), path).value;
    var c, n := files[i].contents, Min(Sum(sizes), |files[i].contents|);
    assert c[0..n] == c[..n];
    ChunkedRead(disk, Expected(files, 0), h, files[i].contents, TWO_32 - OffsetOf(files, i), sizes);
  }

  /** Files that end in the first 4 GiB, all but the last for certain, and counts below 2 GiB leave nothing to check. */
  lemma {:induction false} PackedReadBack(files: seq<Packed>, disk: seq<byte>, path: CString, i: nat, sizes: seq<u32>)
    requires Packable(files) && PackedNames(files) && |files| <= MAX_FILES && i < |files|
    requires |Image(files)| <= |disk| && disk[..|Image(files)|] == Image(files)
    requires Segments(path) == Segments(files[i].name)
    requires i == |files| - 1 ==> OffsetOf(files, i) + |files[i].contents| <= TWO_32
    requires |files[i].contents| < 0x8000_0000 || forall k :: 0 <= k < |sizes| ==> sizes[k] < 0x8000_0000
    ensures OpenAndRead(disk, Expected(files, 0), path, sizes)
         == Some(files[i].contents[..Min(Sum(sizes), |files[i].contents|)])
  {
    hide Segments, Image, Expected, PackedNames, OpenAndRead, MountTiny, OffsetOf, Packable, Sum, ChunksFit,
         ChunksBelow;
    PackableAt(files, i);
    if i < |files| - 1 {
      OnlyLastReaches(files, i);
    }
    AllChunksBelow(0, |files[i].contents|, TWO_32 - OffsetOf(files, i), sizes);
    SmallChunksFit(0, |files[i].contents|, sizes);
    PackMountOpenRead(files, disk, path, i, sizes);
  }

  lemma {:induction false} OpenedOn(files: seq<Packed>, disk: seq<byte>, path: CString, i: nat)
    requires Packable(files) && PackedNames(files) && |files| <= MAX_FILES && i < |files|
    requires |Image(files)| <= |disk| && disk[..|Image(files)|] == Image(files)
    requires Segments(path) == Segments(files[i].name) && OffsetOf(files, i) < TWO_32
    ensures Opened(Expected(files, 0), path).Some? && Opened(Expected(files, 0), path).value.offset == 0
    ensures OpenOn(disk, Expected(files, 0), Opened(Expected(files, 0), path).value, files[i].contents,
                   TWO_32 - OffsetOf(files, i))
  {
    hide Segments, Image, Expected, PackedNames, Stat, MountTiny, OffsetOf, Packable, VfsReadPart, AllStored,
         VfsReadWhole, At;
    var table, c := Expected(files, 0), files[i].contents;
    PackedNamesMount(files);
    ExpectedAt(files, 0, i);
    StatFile(table, path, i);
    forall o: u32, n: u32 | o <= |c| && (o < TWO_32 - OffsetOf(files, i) || Min(n, |c| - o) == 0)
      ensures VfsReadPart(disk, table, files[i].name, o, n) == Some(c[o..o + Min(n, |c| - o)])
    {
      PackMountRead(files, disk, files[i].name, i, o, n, 0);
      var start := OffsetOf(files, i) + o;
      if Min(n, |c| - o) == 0 {
        assert start >= TWO_32 ==> disk[start - TWO_32..start - TWO_32 + 0] == c[o..o + 0];
      }
    }
  }

  // ---- Handles ----

  /** What opening prepares: a used handle at offset 0 with the name, size and flags that stat reports, exactly when the
      path stats as something that is not a directory. */
  lemma OpenedMeaning(files: seq<TinyFile>, path: CString)
    ensures Opened(files, path).Some? <==> Stat(files, path).Some? && !IsDirectory(Stat(files, path).value)
    ensures Opened(files, path).Some? ==>
      var h, info := Opened(files, path).value, Stat(files, path).value;
      h.inUse && h.offset == 0 && h.path == info.name && h.size == info.size && h.flags == info.flags
  {
    hide Stat;
  }

  /** A closed handle is unused: nothing can be read through it, and the next open can take it. */
  lemma ClosedUnused(disk: seq<byte>, files: seq<TinyFile>, handles: seq<Handle>, i: nat, size: u32)
    requires i < |handles|
    ensures Read(disk, files, CLOSED, size) == ReadAnswer(-1, [], CLOSED)
    ensures var r := FirstFree(handles[i := CLOSED], 0); r.Some? && r.value <= i
    ensures (forall k :: 0 <= k < i ==> handles[k].inUse) ==> FirstFree(handles[i := CLOSED], 0) == Some(i)
  {
    hide FirstFree;
    assert handles[i := CLOSED][i] == CLOSED;
  }

  /** From a fresh table, files open in the slots 0 to 7 in order, and the ninth open fails. */
  lemma SlotsInOrder(used: seq<Handle>)
    requires |used| <= 8 && forall k :: 0 <= k < |used| ==> used[k].inUse
    ensures FirstFree(used + seq(8 - |used|, _ => CLOSED), 0) == if |used| < 8 then Some(|used|) else None
  {
    hide FirstFree;
    var handles := used + seq(8 - |used|, _ => CLOSED);
    assert |used| < 8 ==> handles[|used|] == CLOSED;
  }

  // ---- The table ----

  class Table {
    const vfs: Vfs.Root
    const handles: array<Handle>

    ghost predicate Valid()
      reads vfs, vfs.tiny
    {
      vfs.Valid() && handles.Length == FILE_TABLE_MAX
    }

    constructor (vfs: Vfs.Root)
      requires vfs.Valid()
      ensures this.vfs == vfs && Valid() && fresh(handles)
      ensures forall i :: 0 <= i < FILE_TABLE_MAX ==> handles[i] == CLOSED
    {
      this.vfs := vfs;
      handles := new Handle[FILE_TABLE_MAX](_ => CLOSED);
    }

    /** The files that the VFS reads from: none before its root is mounted. */
    ghost function Shown(): seq<TinyFile>
      requires Valid()
      reads vfs, vfs.tiny, vfs.tiny.files
    {
      if vfs.ready then vfs.Files() else []
    }

    /** file_open: takes the lowest unused handle. */
    method Open(path: CString) returns (r: Option<nat>)
      requires Valid()
      modifies vfs`statInfo, handles
      ensures r == if vfs.ready && Opened(vfs.Files(), path).Some? then FirstFree(old(handles[..]), 0) else None
      ensures handles[..] == if r.None? then old(handles[..])
                             else old(handles[..])[r.value := Opened(vfs.Files(), path).value]
    {
      hide Stat;
      ghost var before := handles[..];
      var found := vfs.Stat(path);
      if !found || IsDirectory(vfs.statInfo) {
        return None;
      }
      var info := vfs.statInfo;
      for index := 0 to FILE_TABLE_MAX
        invariant handles[..] == before
        invariant FirstFree(before, 0) == FirstFree(before, index)
      {
        assert handles[index] == before[index];
        if !handles[index].inUse {
          handles[index] := Handle(info.name, info.size, 0, info.flags, true);
          return Some(index);
        }
      }
      return None;
    }

    /** file_read. Only this handle changes, and only its offset. */
    method ReadFile(index: nat, buffer: array<byte>, size: u32) returns (result: int)
      requires Valid() && index < FILE_TABLE_MAX
      requires size <= buffer.Length && buffer != vfs.tiny.blockBuffer
      requires vfs.tiny.device != null ==> buffer != vfs.tiny.device.storage
      modifies vfs`statInfo, vfs.tiny.blockBuffer, buffer, handles
      ensures result == Read(vfs.tiny.Disk(), Shown(), old(handles[index]), size).result
      ensures handles[..] == old(handles[..])[index := Read(vfs.tiny.Disk(), Shown(), old(handles[index]), size).after]
      ensures result >= 0 ==>
        buffer[..] == Splice(old(buffer[..]), 0, Read(vfs.tiny.Disk(), Shown(), old(handles[index]), size).data)
      ensures buffer[size..] == old(buffer[size..])
    {
      hide VfsReadPart, Splice, TinyFS.AsInt;
      var file := handles[index];
      ghost var before := buffer[..];
      SpliceNothing(before, 0);
      if !file.inUse {
        return -1;
      }
      if file.offset >= file.size {
        return 0;
      }
      var remaining := file.size - file.offset;
      var wanted := if size > remaining then remaining else size;
      NothingToRead(vfs.tiny.Disk(), file.path, file.offset, wanted);
      result := vfs.ReadFilePart(file.path, file.offset, buffer, wanted);
      assert buffer[size..] == buffer[wanted..][size - wanted..];
      assert before[size..] == before[wanted..][size - wanted..];
      if result < 0 {
        return -1;
      }
      handles[index] := file.(offset := file.offset + result);
    }

    /** file_seek. */
    method Seek(index: nat, offset: u32) returns (ok: bool)
      requires Valid() && index < FILE_TABLE_MAX
      modifies handles
      ensures ok <==> old(handles[index]).inUse && offset <= old(handles[index]).size
      ensures handles[..] == if ok then old(handles[..])[index := old(handles[index]).(offset := offset)]
        else old(handles[..])
    {
      if !handles[index].inUse || offset > handles[index].size {
        return false;
      }
      handles[index] := handles[index].(offset := offset);
      return true;
    }

    /** file_close. */
    method Close(index: nat)
      requires Valid() && index < FILE_TABLE_MAX
      modifies handles
      ensures handles[..] == old(handles[..])[index := CLOSED]
    {
      handles[index] := CLOSED;
    }
  }
}
