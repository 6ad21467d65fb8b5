/** The VFS over the mounted TinyFS: path buffers, the table of names already listed, and the static stat result. */
module Vfs {
  import opened Bytes
  import opened Paths
  import opened TinyFormat
  import opened VfsTree
  import TinyFS

  // ---- The table of names already listed ----

  type Row = r: seq<byte> | |r| == PATH_MAX witness Zeros(64)

  /** A row that holds `name` and its NUL; what follows is left over from earlier use of the stack. */
  predicate Holds(row: Row, name: FileName) {
    row[..|name|] == name && row[|name|] == NUL
  }

  /** The rows as the listing finds them: the C array is not initialised, so a caller knows nothing about its bytes. */
  method UninitialisedRows() returns (rows: seq<Row>)
    ensures |rows| == MAX_FILES
  {
    rows := seq(MAX_FILES, _ => Zeros(64));
  }

  /** Testing the terminator and comparing the bytes decides equality, whatever follows the terminator. */
  lemma RowDecides(row: Row, name: FileName, candidate: FileName)
    requires Holds(row, name)
    ensures row[|candidate|] == NUL && row[..|candidate|] == candidate <==> candidate == name
  {
    if |name| < |candidate| {
      assert row[..|candidate|][|name|] == NUL;
    } else if |candidate| < |name| {
      assert row[|candidate|] == row[..|name|][|candidate|];
    }
  }

  function RowWith(row: Row, name: FileName): (r: Row)
    ensures Holds(r, name)
  {
    name + [NUL] + row[|name| + 1..]
  }

  /** The first |names| rows hold the names reported so far. */
  ghost predicate Table(rows: seq<Row>, names: seq<FileName>) {
    |names| <= |rows| && forall k :: 0 <= k < |names| ==> Holds(rows[k], names[k])
  }

  /** vfs_name_seen. */
  method NameSeen(rows: seq<Row>, seenCount: nat, name: FileName, ghost names: seq<FileName>) returns (seen: bool)
    requires seenCount == |names| && Table(rows, names)
    ensures seen <==> name in names
  {
    hide Holds;
    for index := 0 to seenCount
      invariant name !in names[..index]
    {
      RowDecides(rows[index], names[index], name);
      if rows[index][|name|] == NUL && rows[index][..|name|] == name {
        return true;
      }
      assert names[..index + 1] == names[..index] + [names[index]];
    }
    assert names[..seenCount] == names;
    return false;
  }

  lemma TableGrows(rows: seq<Row>, names: seq<FileName>, name: FileName)
    requires Table(rows, names) && |names| < |rows|
    ensures Table(rows[|names| := RowWith(rows[|names|], name)], names + [name])
  {
    hide Holds, RowWith;
  }

  // ---- Children ----

  /** vfs_collect_child_name. */
  method CollectChildName(directory: CString, fileName: FileName) returns (r: Option<Child>)
    ensures r == CollectChild(directory, fileName)
    ensures r.Some? ==> |r.value.name| < PATH_MAX
  {
    hide FirstSegment;
    var remainder: CString := fileName;
    if directory != [] {
      BelowTest(directory, fileName);
      if |directory| >= |fileName| || fileName[..|directory|] != directory || fileName[|directory|] != SLASH {
        return None;
      }
      remainder := fileName[|directory| + 1..];
    }
    if remainder == [] {
      return None;
    }
    var length := SegmentLength(remainder, 0);
    assert remainder[0..] == remainder && remainder[0..0 + length] == remainder[..length];
    return Some(Child(remainder[..length], length < |remainder|));
  }

  lemma BelowTest(directory: CString, fileName: CString)
    ensures directory + [SLASH] <= fileName
       <==> |directory| < |fileName| && fileName[..|directory|] == directory && fileName[|directory|] == SLASH
  {
    if directory + [SLASH] <= fileName {
      var d := directory + [SLASH];
      assert fileName[..|d|] == d && fileName[|directory|] == d[|directory|];
      assert fileName[..|directory|] == d[..|directory|] == directory;
    }
  }

  /** One turn of the listing, read from the front. */
  lemma ListStep(files: seq<TinyFile>, directory: CString, i: nat, seen: seq<CString>)
    requires i < |files|
    ensures var c := CollectChild(directory, files[i].name);
      ListFrom(files, directory, i, seen)
      == if c.None? || c.value.name in seen then ListFrom(files, directory, i + 1, seen)
         else [EntryOf(files[i], c.value)] + ListFrom(files, directory, i + 1, seen + [c.value.name])
  {
    hide CollectChild, EntryOf;
  }

  /** The names of the table as plain strings. */
  function Plain(names: seq<FileName>): (r: seq<CString>)
    ensures |r| == |names| && forall k :: 0 <= k < |names| ==> r[k] == names[k]
  {
    names
  }

  class Root {
    const tiny: TinyFS.Driver
    var ready: bool
    var statInfo: Info

    ghost predicate Valid()
      reads this, tiny
    {
      tiny.Valid()
    }

    /** The files the VFS shows: none before its root is mounted. */
    ghost function Files(): (r: seq<TinyFile>)
      requires Valid()
      reads this, tiny, tiny.files
      ensures |r| <= MAX_FILES
    {
      tiny.Files()
    }

    constructor (tiny: TinyFS.Driver)
      requires tiny.Valid()
      ensures this.tiny == tiny && Valid() && !ready
    {
      this.tiny := tiny;
      ready := false;
      statInfo := Info([], 0, 0);
    }

    /** vfs_mount_root. */
    method MountRoot() returns (ok: bool)
      requires Valid()
      modifies this`ready
      ensures ok == tiny.ready && ready == (old(ready) || ok)
    {
      if !tiny.ready {
        return false;
      }
      ready := true;
      return true;
    }

    /** The path in normal form, by way of a buffer on the stack. */
    method NormalForm(path: CString, allowRoot: bool) returns (r: Option<CString>)
      ensures r == Normalize(path, allowRoot)
    {
      hide Normalize;
      var buffer := new byte[PATH_MAX];
      var ok := NormalizePath(path, buffer, allowRoot);
      if !ok {
        return None;
      }
      return Some(AsCString(buffer[..]));
    }

    /** tinyfs_file_count: zero when nothing is mounted. */
    method FileCount() returns (n: nat)
      requires Valid()
      ensures n == |Files()|
      ensures n > 0 ==> tiny.ready && n == tiny.fileCount
    {
      return if tiny.ready then tiny.fileCount else 0;
    }

    /** The search for any name below `directory`. */
    method AnyChild(directory: CString) returns (found: bool)
      requires Valid()
      ensures found == HasChild(Files(), directory)
    {
      hide CollectChild;
      var n := FileCount();
      ghost var files := Files();
      for index := 0 to n
        invariant forall k :: 0 <= k < index ==> CollectChild(directory, files[k].name).None?
      {
        assert tiny.files[index] == files[index];
        var c := CollectChildName(directory, tiny.files[index].name);
        if c.Some? {
          return true;
        }
      }
      return false;
    }

    /** vfs_directory_exists. */
    method DirectoryExists(directory: CString) returns (found: bool)
      requires Valid()
      ensures found == (directory == [] || HasChild(Files(), directory))
    {
      hide HasChild;
      if directory == [] {
        return true;
      }
      found := AnyChild(directory);
    }

    /** vfs_stat, which leaves its answer in the static result. */
    method Stat(path: CString) returns (found: bool)
      requires Valid()
      modifies this`statInfo
      ensures found <==> ready && VfsTree.Stat(Files(), path).Some?
      ensures statInfo == if found then VfsTree.Stat(Files(), path).value else old(statInfo)
    {
      hide Normalize, Find, HasChild;
      if !ready {
        return false;
      }
      var normalized := NormalForm(path, true);
      if normalized.None? {
        return false;
      }
      var p := normalized.value;
      if p == [] {
        statInfo := Info([SLASH], 0, DIRECTORY);
        return true;
      }
      var file := tiny.FindFile(p);
      if file.Some? {
        assert tiny.files[file.value] == Files()[file.value];
        statInfo := FileInfo(tiny.files[file.value]);
        return true;
      }
      found := AnyChild(p);
      if found {
        statInfo := Info(p, 0, DIRECTORY);
      }
    }

    /** vfs_list_entries, with a callback that asks to stop on its call number `patience` (counting from 0). */
    method ListEntries(path: CString, patience: nat) returns (ok: bool, delivered: seq<Info>)
      requires Valid()
      ensures ok <==> ready && List(Files(), path).Some?
      ensures delivered == if ok then List(Files(), path).value[..Min(patience + 1, |List(Files(), path).value|)]
        else []
    {
      hide Normalize, HasChild, ListFrom;
      delivered := [];
      if !ready {
        return false, delivered;
      }
      var normalized := NormalForm(path, true);
      if normalized.None? {
        return false, delivered;
      }
      ok := DirectoryExists(normalized.value);
      if ok {
        delivered := Report(normalized.value, patience);
      }
    }

    /** The reporting loop of vfs_list_entries. */
    method Report(directory: CString, patience: nat) returns (delivered: seq<Info>)
      requires Valid()
      ensures var all := ListFrom(Files(), directory, 0, []);
        delivered == all[..Min(patience + 1, |all|)]
    {
      hide ListFrom, CollectChild, EntryOf, Holds, RowWith;
      delivered := [];
      var n := FileCount();
      ghost var files := Files();
      ghost var all := ListFrom(files, directory, 0, []);
      ghost var names: seq<FileName> := [];
      var rows: seq<Row> := UninitialisedRows();
      var seenCount := 0;
      assert all == delivered + ListFrom(files, directory, 0, Plain(names));
      for index := 0 to n
        invariant seenCount == |names| <= index && |rows| == MAX_FILES && Table(rows, names)
        invariant |delivered| <= patience
        invariant all == delivered + ListFrom(files, directory, index, Plain(names))
      {
        ListStep(files, directory, index, Plain(names));
        assert tiny.files[index] == files[index];
        var c := CollectChildName(directory, tiny.files[index].name);
        if c.Some? {
          var name: FileName := c.value.name;
          var seen := NameSeen(rows, seenCount, name, names);
          if !seen {
            TableGrows(rows, names, name);
            rows := rows[seenCount := RowWith(rows[seenCount], name)];
            seenCount := seenCount + 1;
            ghost var rest := ListFrom(files, directory, index + 1, Plain(names + [name]));
            assert Plain(names + [name]) == Plain(names) + [name];
            DeliverMore(all, delivered, EntryOf(tiny.files[index], c.value), rest);
            names := names + [name];
            delivered := delivered + [EntryOf(tiny.files[index], c.value)];
            if |delivered| > patience {
              return;
            }
          }
        }
      }
      ListEnd(files, directory, Plain(names));
      assert delivered == all;
    }

    /** vfs_read_file. */
    method ReadFile(path: CString, buffer: array<byte>, maxSize: nat) returns (result: int)
      requires Valid() && maxSize <= buffer.Length && buffer != tiny.blockBuffer
      requires tiny.device != null ==> buffer != tiny.device.storage
      modifies this`statInfo, tiny.blockBuffer, buffer
      ensures buffer[maxSize..] == old(buffer[maxSize..])
      ensures match if ready then VfsReadWhole(tiny.Disk(), Files(), path, maxSize) else None
              case None => result == -1
              case Some(data) =>
                && |data| < TWO_32 && result == TinyFS.AsInt(|data|)
                && buffer[..] == Splice(old(buffer[..]), 0, data)
    {
      hide Normalize, VfsTree.Stat, ReadWhole, Splice;
      if !ready {
        return -1;
      }
      var normalized := NormalForm(path, false);
      if normalized.None? {
        return -1;
      }
      var found := Stat(normalized.value);
      if !found || IsDirectory(statInfo) {
        return -1;
      }
      result := tiny.ReadFile(normalized.value, buffer, maxSize);
    }

    /** vfs_read_file_part. */
    method ReadFilePart(path: CString, offset: u32, buffer: array<byte>, size: u32) returns (result: int)
      requires Valid() && size <= buffer.Length && buffer != tiny.blockBuffer
      requires tiny.device != null ==> buffer != tiny.device.storage
      modifies this`statInfo, tiny.blockBuffer, buffer
      ensures buffer[size..] == old(buffer[size..])
      ensures match if ready then VfsReadPart(tiny.Disk(), Files(), path, offset, size) else None
              case None => result == -1
              case Some(data) =>
                && |data| <= size && result == TinyFS.AsInt(|data|)
                && buffer[..] == Splice(old(buffer[..]), 0, data)
    {
      hide Normalize, VfsTree.Stat, ReadPart, Splice;
      if !ready {
        return -1;
      }
      var normalized := NormalForm(path, false);
      if normalized.None? {
        return -1;
      }
      var found := Stat(normalized.value);
      if !found || IsDirectory(statInfo) {
        return -1;
      }
      result := tiny.ReadFilePart(normalized.value, offset, buffer, size);
    }
  }

  lemma DeliverMore(all: seq<Info>, delivered: seq<Info>, entry: Info, rest: seq<Info>)
    requires all == delivered + ([entry] + rest)
    ensures all == (delivered + [entry]) + rest && all[..|delivered| + 1] == delivered + [entry]
  {
  }

  lemma ListEnd(files: seq<TinyFile>, directory: CString, seen: seq<CString>)
    ensures ListFrom(files, directory, |files|, seen) == []
  {
  }
}
