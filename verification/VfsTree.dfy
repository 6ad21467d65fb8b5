/** The directory tree that the VFS synthesises from the flat list of stored names. */
module VfsTree {
  import opened Bytes
  import opened Paths
  import opened TinyFormat

  const DIRECTORY: u32 := 1

  /** A stat result or a listed entry. */
  datatype Info = Info(name: CString, size: u32, flags: u32)

  predicate IsDirectory(info: Info) {
    info.flags % 2 == 1
  }

  // ---- What the code computes ----

  /** The loop that asks whether any stored name lies below `directory`. */
  predicate HasChild(files: seq<TinyFile>, directory: CString) {
    exists i :: 0 <= i < |files| && CollectChild(directory, files[i].name).Some?
  }

  function FileInfo(f: TinyFile): Info {
    Info(f.name, f.size, f.flags)
  }

  /** vfs_stat after normalisation. */
  function StatNormal(files: seq<TinyFile>, p: CString): Option<Info> {
    if p == [] then Some(Info([SLASH], 0, DIRECTORY))
    else match Find(files, p)
      case Some(i) => Some(FileInfo(files[i]))
      case None => if HasChild(files, p) then Some(Info(p, 0, DIRECTORY)) else None
  }

  /** vfs_stat. */
  function Stat(files: seq<TinyFile>, path: CString): Option<Info> {
    match Normalize(path, true)
    case None => None
    case Some(p) => StatNormal(files, p)
  }

  function EntryOf(f: TinyFile, child: Child): Info {
    Info(child.name, if child.isDirectory then 0 else f.size, if child.isDirectory then DIRECTORY else f.flags)
  }

  /** The entries that the listing loop reports from file i on, given the names already reported. */
  function ListFrom(files: seq<TinyFile>, directory: CString, i: nat, seen: seq<CString>): (r: seq<Info>)
    requires i <= |files|
    ensures |r| <= |files| - i
    decreases |files| - i
  {
    if i == |files| then []
    else match CollectChild(directory, files[i].name)
      case None => ListFrom(files, directory, i + 1, seen)
      case Some(child) =>
        if child.name in seen then ListFrom(files, directory, i + 1, seen)
        else [EntryOf(files[i], child)] + ListFrom(files, directory, i + 1, seen + [child.name])
  }

  /** vfs_list_entries with a callback that never stops it. */
  function List(files: seq<TinyFile>, path: CString): Option<seq<Info>> {
    match Normalize(path, true)
    case None => None
    case Some(p) => if p != [] && !HasChild(files, p) then None else Some(ListFrom(files, p, 0, []))
  }

  /** vfs_read_file_part, which normalises the path, and normalises the result again inside its stat. */
  function VfsReadPart(disk: seq<byte>, files: seq<TinyFile>, path: CString, offset: u32,
                       size: u32): (r: Option<seq<byte>>)
    ensures r.Some? ==> |r.value| <= size
  {
    match Normalize(path, false)
    case None => None
    case Some(p) =>
      var info := Stat(files, p);
      if info.None? || IsDirectory(info.value) then None else ReadPart(disk, files, p, offset, size)
  }

  /** vfs_read_file. */
  function VfsReadWhole(disk: seq<byte>, files: seq<TinyFile>, path: CString, maxSize: nat): Option<seq<byte>> {
    match Normalize(path, false)
    case None => None
    case Some(p) =>
      var info := Stat(files, p);
      if info.None? || IsDirectory(info.value) then None else ReadWhole(disk, files, p, maxSize)
  }

  // ---- The tree it stands for ----

  /** A stored name in normal form, without the directory flag. */
  ghost predicate Stored(f: TinyFile) {
    Normalize(f.name, false) == Some(f.name) && f.flags % 2 == 0
  }

  ghost predicate AllStored(files: seq<TinyFile>) {
    forall i :: 0 <= i < |files| ==> Stored(files[i])
  }

  /** The components of the name of file i. */
  function Place(files: seq<TinyFile>, i: nat): (r: seq<CString>)
    requires i < |files|
    ensures Clean(r)
  {
    Segments(files[i].name)
  }

  /** Some stored name lies properly below the components `ds`. */
  ghost predicate Below(files: seq<TinyFile>, ds: seq<CString>) {
    exists i :: 0 <= i < |files| && ds < Place(files, i)
  }

  /** Some stored name is `ds` or lies below it. */
  ghost predicate AtOrBelow(files: seq<TinyFile>, ds: seq<CString>) {
    exists i :: 0 <= i < |files| && ds <= Place(files, i)
  }

  /** One of the first `n` names is `ds`. */
  ghost predicate At(files: seq<TinyFile>, n: nat, ds: seq<CString>)
    requires n <= |files|
  {
    exists i :: 0 <= i < n && Place(files, i) == ds
  }

  /** No name is a directory of another one. */
  ghost predicate PrefixFree(files: seq<TinyFile>) {
    forall i, j :: 0 <= i < |files| && 0 <= j < |files| ==> !(Place(files, i) < Place(files, j))
  }

  /** Whenever a name lies above an earlier entry, the same name stands before that entry too. */
  ghost predicate Ordered(files: seq<TinyFile>) {
    forall i, j :: 0 <= i < j < |files| && Place(files, j) < Place(files, i) ==> At(files, i, Place(files, j))
  }

  lemma StoredIsJoined(files: seq<TinyFile>, i: nat)
    requires i < |files| && Stored(files[i])
    ensures Join(Place(files, i)) == files[i].name && Place(files, i) != [] && Fits(Place(files, i))
  {
    hide Segments, Join, Fits;
  }

  /** What a directory given by its components sees of file i. */
  lemma SeenOf(files: seq<TinyFile>, ds: seq<CString>, i: nat)
    requires i < |files| && Stored(files[i]) && Clean(ds)
    ensures CollectChild(Join(ds), files[i].name)
         == if ds < Place(files, i) then Some(Child(Place(files, i)[|ds|], |ds| + 1 < |Place(files, i)|)) else None
  {
    hide Segments, Join, CollectChild;
    StoredIsJoined(files, i);
    ChildOfComponents(ds, Place(files, i));
  }

  lemma HasChildIsBelow(files: seq<TinyFile>, ds: seq<CString>)
    requires AllStored(files) && Clean(ds)
    ensures HasChild(files, Join(ds)) <==> Below(files, ds)
  {
    hide Segments, Join, CollectChild, Stored, Place;
    forall i | 0 <= i < |files|
      ensures CollectChild(Join(ds), files[i].name).Some? <==> ds < Place(files, i)
    {
      SeenOf(files, ds, i);
    }
  }

  /** No path leads to a stored name that is not in normal form. */
  lemma OnlyNormalNamesFound(files: seq<TinyFile>, path: CString, allowRoot: bool)
    requires Normalize(path, allowRoot).Some? && Normalize(path, allowRoot).value != []
    ensures var r := Find(files, Normalize(path, allowRoot).value);
      r.Some? ==> Normalize(files[r.value].name, false) == Some(files[r.value].name)
  {
    hide Segments, Fits, FindFrom;
    NormalizeIdempotent(path, allowRoot);
    JoinNothing();
  }

  /** A prefix of components that fit, fits. */
  lemma PrefixFits(ds: seq<CString>, ns: seq<CString>)
    requires Fits(ns) && ds <= ns
    ensures Fits(ds)
  {
    assert ns == ds + ns[|ds|..];
    JoinGrows(ds, ns[|ds|..]);
    assert forall i :: 0 <= i < |ds| ==> ds[i] == ns[i];
  }

  // ---- stat ----

  /** Every spelling of a stored name stats as the first file of that name. */
  lemma StatFile(files: seq<TinyFile>, path: CString, i: nat)
    requires AllStored(files) && i < |files| && Segments(path) == Place(files, i) && !At(files, i, Place(files, i))
    ensures Normalize(path, true) == Normalize(path, false) == Some(files[i].name)
    ensures Find(files, files[i].name) == Some(i)
    ensures Stat(files, path) == Some(FileInfo(files[i]))
  {
    hide Segments, Join, Fits;
    StoredIsJoined(files, i);
    FoundFirst(files, i);
    NoSegments();
  }

  lemma FoundFirst(files: seq<TinyFile>, i: nat)
    requires i < |files| && !At(files, i, Place(files, i))
    ensures Find(files, files[i].name) == Some(i)
  {
    hide Segments, FindFrom;
    var r := Find(files, files[i].name);
    assert r.Some? ==> Place(files, r.value) == Place(files, i);
  }

  /** The first file of a stored name. */
  lemma {:induction false} FirstAt(files: seq<TinyFile>, n: nat, ds: seq<CString>) returns (i: nat)
    requires n <= |files| && At(files, n, ds)
    ensures i < n && Place(files, i) == ds && !At(files, i, ds)
  {
    hide Place;
    if At(files, n - 1, ds) {
      i := FirstAt(files, n - 1, ds);
    } else {
      i := n - 1;
    }
  }

  /** A path that is no stored name stats exactly when it is the root or some stored name lies below it, and then as a
      directory. */
  lemma StatElsewhere(files: seq<TinyFile>, path: CString)
    requires AllStored(files) && !At(files, |files|, Segments(path))
    ensures Stat(files, path).Some? <==> Segments(path) == [] || Below(files, Segments(path))
    ensures Stat(files, path).Some? ==> Stat(files, path).value.flags == DIRECTORY && Stat(files, path).value.size == 0
  {
    hide Segments, Join, Fits, HasChild, Stored, FindFrom, Place;
    var ds := Segments(path);
    JoinNothing();
    RootFits();
    if ds == [] {
      assert Join(ds) == [];
    } else {
      JoinNotEmpty(ds);
      HasChildIsBelow(files, ds);
      if Below(files, ds) {
        BelowFits(files, ds);
      }
      NotFound(files, ds);
    }
  }

  lemma BelowFits(files: seq<TinyFile>, ds: seq<CString>)
    requires AllStored(files) && Below(files, ds)
    ensures Fits(ds)
  {
    hide Segments, Join, Fits, Stored;
    var i :| 0 <= i < |files| && ds < Place(files, i);
    StoredIsJoined(files, i);
    PrefixFits(ds, Place(files, i));
  }

  lemma NotFound(files: seq<TinyFile>, ds: seq<CString>)
    requires Clean(ds) && !At(files, |files|, ds)
    ensures Find(files, Join(ds)) == None
  {
    hide Join, FindFrom, Segments;
    SegmentsOfJoin(ds);
    var r := Find(files, Join(ds));
    assert r.Some? ==> Place(files, r.value) == ds;
  }

  /** stat says "file" exactly for spellings of stored names, and "directory" exactly for the root and the paths below
      which a stored name lies, stored names themselves excepted. */
  lemma StatMeaning(files: seq<TinyFile>, path: CString)
    requires AllStored(files)
    ensures (Stat(files, path).Some? && !IsDirectory(Stat(files, path).value)) <==> At(files, |files|, Segments(path))
    ensures (Stat(files, path).Some? && IsDirectory(Stat(files, path).value))
       <==> (Segments(path) == [] || Below(files, Segments(path))) && !At(files, |files|, Segments(path))
  {
    hide Segments, Stat, Stored, Place, At;
    if At(files, |files|, Segments(path)) {
      var i := FirstAt(files, |files|, Segments(path));
      StatFile(files, path, i);
      FlagOf(files, i);
    } else {
      StatElsewhere(files, path);
    }
  }

  /** stat says "directory" at this path exactly when it is the root or some stored name lies below it. */
  ghost predicate DirectoryAsTree(files: seq<TinyFile>, path: CString) {
    (Stat(files, path).Some? && IsDirectory(Stat(files, path).value))
      <==> Segments(path) == [] || Below(files, Segments(path))
  }

  /** The directories are those of a tree, at every path, exactly when no stored name is a directory of another one. */
  lemma DirectoriesIff(files: seq<TinyFile>)
    requires AllStored(files)
    ensures (forall path: CString :: DirectoryAsTree(files, path)) <==> PrefixFree(files)
  {
    hide Segments, Stat, Stored, Place;
    forall path: CString | PrefixFree(files)
      ensures DirectoryAsTree(files, path)
    {
      StatMeaning(files, path);
      NotAtRoot(files);
    }
    forall i, j | 0 <= i < |files| && 0 <= j < |files| && Place(files, i) < Place(files, j)
      ensures !DirectoryAsTree(files, files[i].name)
    {
      StatMeaning(files, files[i].name);
      PlaceIs(files, i);
    }
  }

  lemma PlaceIs(files: seq<TinyFile>, i: nat)
    requires i < |files|
    ensures Segments(files[i].name) == Place(files, i) && At(files, |files|, Segments(files[i].name))
  {
    hide Segments;
  }

  lemma NotAtRoot(files: seq<TinyFile>)
    requires AllStored(files)
    ensures !At(files, |files|, [])
  {
    hide Segments, Stored, Place;
    if i :| 0 <= i < |files| && Place(files, i) == [] {
      StoredIsJoined(files, i);
      assert false;
    }
  }

  lemma FlagOf(files: seq<TinyFile>, i: nat)
    requires i < |files| && Stored(files[i])
    ensures !IsDirectory(FileInfo(files[i]))
  {
  }

  // ---- list ----

  /** Entry a was made from the first stored name, from file i on, that lies at or below its path. */
  lemma {:induction false} ListedFrom(files: seq<TinyFile>, ds: seq<CString>, i: nat, seen: seq<CString>, a: nat)
    returns (k: nat)
    requires AllStored(files) && Clean(ds) && i <= |files| && a < |ListFrom(files, Join(ds), i, seen)|
    ensures i <= k < |files| && ds < Place(files, k)
    ensures ListFrom(files, Join(ds), i, seen)[a]
      == EntryOf(files[k], Child(Place(files, k)[|ds|], |ds| + 1 < |Place(files, k)|))
    ensures Place(files, k)[|ds|] !in seen
    ensures forall m :: i <= m < k && ds < Place(files, m) ==> Place(files, m)[|ds|] != Place(files, k)[|ds|]
    decreases |files| - i
  {
    hide Join, Place, Stored, CollectChild;
    SeenOf(files, ds, i);
    var c := CollectChild(Join(ds), files[i].name);
    if c.None? || c.value.name in seen {
      k := ListedFrom(files, ds, i + 1, seen, a);
    } else if a == 0 {
      k := i;
    } else {
      k := ListedFrom(files, ds, i + 1, seen + [c.value.name], a - 1);
    }
  }

  /** No name is reported twice. */
  lemma {:induction false} ListDistinct(files: seq<TinyFile>, ds: seq<CString>, i: nat, seen: seq<CString>, a: nat,
                                        b: nat)
    requires AllStored(files) && Clean(ds) && i <= |files| && a < b < |ListFrom(files, Join(ds), i, seen)|
    ensures ListFrom(files, Join(ds), i, seen)[a].name != ListFrom(files, Join(ds), i, seen)[b].name
    decreases |files| - i
  {
    hide Join, Place, Stored, CollectChild, AllStored;
    var c := CollectChild(Join(ds), files[i].name);
    if c.None? || c.value.name in seen {
      ListDistinct(files, ds, i + 1, seen, a, b);
    } else if a == 0 {
      var k := ListedFrom(files, ds, i + 1, seen + [c.value.name], b - 1);
    } else {
      ListDistinct(files, ds, i + 1, seen + [c.value.name], a - 1, b - 1);
    }
  }

  /** Every next component is reported, unless it already was. */
  lemma {:induction false} ListComplete(files: seq<TinyFile>, ds: seq<CString>, i: nat, seen: seq<CString>, k: nat)
    returns (a: nat)
    requires AllStored(files) && Clean(ds) && i <= k < |files| && ds < Place(files, k) && Place(files, k)[|ds|] !in seen
    ensures a < |ListFrom(files, Join(ds), i, seen)|
      && ListFrom(files, Join(ds), i, seen)[a].name == Place(files, k)[|ds|]
    decreases |files| - i
  {
    hide Join, Place, Stored, CollectChild;
    SeenOf(files, ds, i);
    var c := CollectChild(Join(ds), files[i].name);
    if c.None? || c.value.name in seen {
      a := ListComplete(files, ds, i + 1, seen, k);
    } else if c.value.name == Place(files, k)[|ds|] {
      a := 0;
    } else {
      a := ListComplete(files, ds, i + 1, seen + [c.value.name], k);
      a := a + 1;
    }
  }

  /** An entry of that name was listed. */
  predicate Lists(entries: seq<Info>, x: CString) {
    exists a :: 0 <= a < |entries| && entries[a].name == x
  }

  ghost predicate NamesOnce(entries: seq<Info>) {
    forall a, b :: 0 <= a < b < |entries| ==> entries[a].name != entries[b].name
  }

  /** Every entry stats, by its path, with the size and flags it was listed with. */
  ghost predicate ListingStats(files: seq<TinyFile>, path: CString, entries: seq<Info>) {
    forall a :: 0 <= a < |entries| ==> StatsAs(files, path + [SLASH] + entries[a].name, entries[a])
  }

  ghost predicate StatsAs(files: seq<TinyFile>, path: CString, entry: Info) {
    var info := Stat(files, path);
    info.Some? && info.value.size == entry.size && info.value.flags == entry.flags
  }

  /** Listing works exactly on the root and on the paths below which a stored name lies. */
  lemma ListableIff(files: seq<TinyFile>, path: CString)
    requires AllStored(files)
    ensures List(files, path).Some? <==> Segments(path) == [] || Below(files, Segments(path))
    ensures List(files, path).Some? ==> List(files, path) == Some(ListFrom(files, Join(Segments(path)), 0, []))
  {
    hide Segments, Fits, Join, Stored, Place, HasChild, AllStored;
    var ds := Segments(path);
    HasChildIsBelow(files, ds);
    JoinNothing();
    RootFits();
    if ds != [] {
      JoinNotEmpty(ds);
      if Below(files, ds) {
        BelowFits(files, ds);
      }
    }
  }

  /** A listing of a directory reports each immediate child exactly once. */
  lemma ListingMeaning(files: seq<TinyFile>, path: CString)
    requires AllStored(files) && List(files, path).Some?
    ensures NamesOnce(List(files, path).value)
    ensures forall x: CString :: Lists(List(files, path).value, x) <==> AtOrBelow(files, Segments(path) + [x])
    ensures Ordered(files) ==> ListingStats(files, path, List(files, path).value)
  {
    hide Segments, Stat, Join, Stored, Place, HasChild, AllStored, List, ListFrom, StatsAs, Ordered;
    ListableIff(files, path);
    var ds := Segments(path);
    var entries := ListFrom(files, Join(ds), 0, []);
    forall a, b | 0 <= a < b < |entries|
      ensures entries[a].name != entries[b].name
    {
      ListDistinct(files, ds, 0, [], a, b);
    }
    forall x: CString
      ensures Lists(entries, x) <==> AtOrBelow(files, ds + [x])
    {
      ListsIff(files, ds, x);
    }
    forall a | 0 <= a < |entries| && Ordered(files)
      ensures StatsAs(files, path + [SLASH] + entries[a].name, entries[a])
    {
      EntryStats(files, path, ds, entries, a);
    }
  }

  lemma ListsIff(files: seq<TinyFile>, ds: seq<CString>, x: CString)
    requires AllStored(files) && Clean(ds)
    ensures Lists(ListFrom(files, Join(ds), 0, []), x) <==> AtOrBelow(files, ds + [x])
  {
    hide Join, Stored, Place, AllStored, ListFrom;
    var entries := ListFrom(files, Join(ds), 0, []);
    if a :| 0 <= a < |entries| && entries[a].name == x {
      var k := ListedFrom(files, ds, 0, [], a);
      assert ds + [x] <= Place(files, k);
    }
    if k :| 0 <= k < |files| && ds + [x] <= Place(files, k) {
      assert ds < Place(files, k) && Place(files, k)[|ds|] == (ds + [x])[|ds|];
      var a := ListComplete(files, ds, 0, [], k);
    }
  }

  /** The path of a child. */
  lemma ChildPath(path: CString, x: CString)
    requires x != [] && SLASH !in x
    ensures Segments(path + [SLASH] + x) == Segments(path) + [x]
  {
    hide Segments;
    SegmentsConcat(path, x);
    SingleSegment(x);
  }

  /** In an ordered table an entry stats as it was listed. */
  lemma EntryStats(files: seq<TinyFile>, path: CString, ds: seq<CString>, entries: seq<Info>, a: nat)
    requires AllStored(files) && Ordered(files)
    requires ds == Segments(path) && entries == ListFrom(files, Join(ds), 0, []) && a < |entries|
    ensures StatsAs(files, path + [SLASH] + entries[a].name, entries[a])
  {
    hide Join, Stored, Segments, AllStored, ListFrom, Stat, Place, At;
    var k := ListedFrom(files, ds, 0, [], a);
    var x := Place(files, k)[|ds|];
    var child: CString := path + [SLASH] + x;
    ChildPath(path, x);
    assert ds + [x] <= Place(files, k);
    if |ds| + 1 == |Place(files, k)| {
      assert Place(files, k) == ds + [x];
      NotEarlier(files, ds, k);
      StatFile(files, child, k);
    } else {
      NowhereElse(files, ds, k);
      StatElsewhere(files, child);
    }
  }

  /** Nothing before the first file at or below a child's path is at that path. */
  lemma NotEarlier(files: seq<TinyFile>, ds: seq<CString>, k: nat)
    requires k < |files| && ds < Place(files, k)
    requires forall m :: 0 <= m < k && ds < Place(files, m) ==> Place(files, m)[|ds|] != Place(files, k)[|ds|]
    ensures !At(files, k, ds + [Place(files, k)[|ds|]])
  {
    hide Place;
    var p := ds + [Place(files, k)[|ds|]];
    assert ds < p && p[|ds|] == Place(files, k)[|ds|];
    assert forall m :: 0 <= m < k && ds < Place(files, m) ==> Place(files, m) != p;
  }

  lemma NowhereElse(files: seq<TinyFile>, ds: seq<CString>, k: nat)
    requires Ordered(files) && k < |files| && ds < Place(files, k) && |ds| + 1 < |Place(files, k)|
    requires forall m :: 0 <= m < k && ds < Place(files, m) ==> Place(files, m)[|ds|] != Place(files, k)[|ds|]
    ensures Below(files, ds + [Place(files, k)[|ds|]]) && !At(files, |files|, ds + [Place(files, k)[|ds|]])
  {
    hide Place;
    var p := ds + [Place(files, k)[|ds|]];
    NotEarlier(files, ds, k);
    assert p < Place(files, k);
    forall m | 0 <= m < |files|
      ensures Place(files, m) != p
    {
      assert k < m && Place(files, m) < Place(files, k) ==> At(files, k, Place(files, m));
    }
  }

  /** Whatever can be listed here stats as it was listed. */
  ghost predicate Agrees(files: seq<TinyFile>, path: CString) {
    List(files, path).Some? ==> ListingStats(files, path, List(files, path).value)
  }

  /** Listing and stat agree everywhere exactly when the table is ordered: a name that lies above an entry does not
      come after it for the first time. */
  lemma AgreementIff(files: seq<TinyFile>)
    requires AllStored(files)
    ensures (forall path: CString :: Agrees(files, path)) <==> Ordered(files)
  {
    hide Segments, Stat, Stored, Place, AllStored, List, ListingStats, At;
    forall path: CString | Ordered(files)
      ensures Agrees(files, path)
    {
      if List(files, path).Some? {
        ListingMeaning(files, path);
      }
    }
    forall i, j | 0 <= i < j < |files| && Place(files, j) < Place(files, i) && !At(files, i, Place(files, j))
      ensures exists path: CString :: !Agrees(files, path)
    {
      PlaceNotEmpty(files, j);
      LateName(files, i, j);
    }
  }

  lemma PlaceNotEmpty(files: seq<TinyFile>, j: nat)
    requires AllStored(files) && j < |files|
    ensures Place(files, j) != []
  {
    hide Segments, Stored, Place;
    StoredIsJoined(files, j);
  }

  /** A name that first comes after an entry below it is listed as a directory by the directory it is in. */
  lemma LateName(files: seq<TinyFile>, i: nat, j: nat)
    requires AllStored(files) && i < j < |files| && Place(files, j) != []
    requires Place(files, j) < Place(files, i) && !At(files, i, Place(files, j))
    ensures !Agrees(files, Join(Place(files, j)[..|Place(files, j)| - 1]))
  {
    hide Segments, Join, Stat, Stored, Place, AllStored, List, ListFrom, At;
    var p := Place(files, j);
    var ds, x := p[..|p| - 1], p[|p| - 1];
    var path := Join(ds);
    assert p == ds + [x];
    SegmentsOfJoin(ds);
    assert ds < Place(files, j) && ds < Place(files, i) && Place(files, i)[|ds|] == x;
    assert Below(files, ds);
    ListableIff(files, path);
    var a := ListComplete(files, ds, 0, [], i);
    var k := ListedFrom(files, ds, 0, [], a);
    EarlierIsBelow(files, ds, x, i, j, k);
    ChildPath(path, x);
    StatsAsFile(files, path + [SLASH] + x, j);
    assert !StatsAs(files, path + [SLASH] + x, ListFrom(files, Join(ds), 0, [])[a]);
  }

  /** The first file at or below the path lies properly below it. */
  lemma EarlierIsBelow(files: seq<TinyFile>, ds: seq<CString>, x: CString, i: nat, j: nat, k: nat)
    requires i < j < |files| && k < |files| && ds < Place(files, k) && Place(files, k)[|ds|] == x
    requires Place(files, j) == ds + [x] < Place(files, i) && !At(files, i, ds + [x])
    requires forall m :: 0 <= m < k && ds < Place(files, m) ==> Place(files, m)[|ds|] != Place(files, k)[|ds|]
    ensures |ds| + 1 < |Place(files, k)|
  {
    hide Place;
    var pk := Place(files, k);
    assert |pk| == |ds| + 1 ==> pk == ds + [x];
    assert ds < Place(files, i) && Place(files, i)[|ds|] == (ds + [x])[|ds|];
    assert k <= i;
  }

  lemma StatsAsFile(files: seq<TinyFile>, path: CString, j: nat)
    requires AllStored(files) && j < |files| && Segments(path) == Place(files, j)
    ensures Stat(files, path).Some? && !IsDirectory(Stat(files, path).value)
  {
    hide Segments, Stat, Stored, Place;
    StatMeaning(files, path);
  }

  /** An instance: with files "a/b" and "a" the root lists "a" once, as a directory,
      and stat calls it a file. */
  lemma OverlapDisagrees()
    ensures var files := [TinyFile([97, SLASH, 98], 0, 1, 0), TinyFile([97], 512, 1, 0)];
      && List(files, []) == Some([Info([97], 0, DIRECTORY)])
      && Stat(files, [97]) == Some(Info([97], 1, 0))
  {
    var files := [TinyFile([97, SLASH, 98], 0, 1, 0), TinyFile([97], 512, 1, 0)];
    NoSegments();
    JoinNothing();
    RootFits();
    FirstOfJoined([97], [98]);
    assert [97] + [SLASH] + [98] == files[0].name;
    assert CollectChild([], files[0].name) == Some(Child([97], true));
    assert CollectChild([], files[1].name) == Some(Child([97], false));
    var a: CString := [97];
    var none: seq<CString> := [];
    assert none + [a] == [a];
    assert ListFrom(files, [], 1, [a]) == ListFrom(files, [], 2, [a]) == [];
    assert ListFrom(files, [], 0, none) == [EntryOf(files[0], Child(a, true))] + ListFrom(files, [], 1, none + [a]);
    assert ListFrom(files, [], 0, none) == [Info(a, 0, DIRECTORY)];
    assert Normalize([], true) == Some([]);
    assert List(files, []) == Some(ListFrom(files, [], 0, none));
    SingleSegment([97]);
    assert FindFrom(files, [97], 1) == Some(1);
  }

  // ---- read ----

  /** Reading by any spelling of a stored name reads the first file of that name; reading anything else fails. */
  lemma ReadByPath(disk: seq<byte>, files: seq<TinyFile>, path: CString, offset: u32, size: u32, maxSize: nat)
    requires AllStored(files)
    ensures forall i :: 0 <= i < |files| && Place(files, i) == Segments(path) && !At(files, i, Segments(path)) ==>
      && VfsReadPart(disk, files, path, offset, size) == ReadPart(disk, files, files[i].name, offset, size)
      && VfsReadWhole(disk, files, path, maxSize) == ReadWhole(disk, files, files[i].name, maxSize)
    ensures !At(files, |files|, Segments(path)) ==>
      VfsReadPart(disk, files, path, offset, size) == None == VfsReadWhole(disk, files, path, maxSize)
  {
    hide Segments, Stored, Stat, ReadPart, ReadWhole, Normalize;
    forall i | 0 <= i < |files| && Place(files, i) == Segments(path) && !At(files, i, Segments(path))
      ensures VfsReadPart(disk, files, path, offset, size) == ReadPart(disk, files, files[i].name, offset, size)
      ensures VfsReadWhole(disk, files, path, maxSize) == ReadWhole(disk, files, files[i].name, maxSize)
    {
      StatFile(files, path, i);
      StatFile(files, files[i].name, i);
      FlagOf(files, i);
    }
    if !At(files, |files|, Segments(path)) && Normalize(path, false).Some? {
      NormalSegments(path);
      StatMeaning(files, Normalize(path, false).value);
    }
  }

  lemma NormalSegments(path: CString)
    requires Normalize(path, false).Some?
    ensures Segments(Normalize(path, false).value) == Segments(path)
  {
    hide Segments;
    SegmentsOfJoin(Segments(path));
  }

  lemma NothingToRead(disk: seq<byte>, path: CString, offset: u32, size: u32)
    ensures VfsReadPart(disk, [], path, offset, size) == None
  {
    hide Segments, Fits;
    ReadByPath(disk, [], path, offset, size, 0);
  }

  // ---- Packed names ----

  /** The names that the packer collects from a directory: in normal form and each only once. */
  ghost predicate PackedNames(files: seq<Packed>) {
    && NamesDistinct(files)
    && forall i :: 0 <= i < |files| ==> Normalize(files[i].name, false) == Some(files[i].name)
  }

  lemma PackedNamesMount(files: seq<Packed>)
    requires Packable(files) && PackedNames(files)
    ensures AllStored(Expected(files, 0))
    ensures forall i :: 0 <= i < |files| ==> !At(Expected(files, 0), i, Place(Expected(files, 0), i))
  {
    hide Segments, Normalize, Packable, Expected, OffsetOf;
    var table := Expected(files, 0);
    forall i | 0 <= i < |files|
      ensures table[i].name == files[i].name && table[i].flags == 0
    {
      ExpectedAt(files, 0, i);
    }
    forall i | 0 <= i < |files|
      ensures !At(table, i, Place(table, i))
    {
      if m :| 0 <= m < i && Place(table, m) == Place(table, i) {
        StoredIsJoined(table, m);
        StoredIsJoined(table, i);
        assert false;
      }
    }
  }

  /** A packed directory, mounted and read through the VFS by any spelling of a path: the packed contents come back, a
      part of them when it starts in the first 4 GiB of the image. */
  lemma {:induction false} PackMountRead(files: seq<Packed>, disk: seq<byte>, path: CString, i: nat, offset: u32,
                                         size: u32, maxSize: nat)
    requires Packable(files) && PackedNames(files) && |files| <= MAX_FILES && i < |files|
    requires |Image(files)| <= |disk| && disk[..|Image(files)|] == Image(files)
    requires Segments(path) == Segments(files[i].name)
    ensures var c, table := files[i].contents, Expected(files, 0);
      && MountTiny(disk) == Some(table)
      && (offset > |c| ==> VfsReadPart(disk, table, path, offset, size) == None)
      && (offset <= |c| ==>
            var start, n := OffsetOf(files, i) + offset, Min(size, |c| - offset);
            && start + n <= |disk|
            && VfsReadPart(disk, table, path, offset, size)
               == Some(if start < TWO_32 then c[offset..offset + n] else disk[start - TWO_32..start - TWO_32 + n]))
      && VfsReadWhole(disk, table, path, maxSize) == (if |c| > maxSize then None else Some(c))
  {
    hide Segments, AllStored, Expected, Image, MountTiny, VfsReadPart, VfsReadWhole, ReadPart, ReadWhole, OffsetOf,
         Find, At, Packable;
    PackedNamesMount(files);
    ReadRoundTrip(files, disk, i, offset, size, maxSize);
    ExpectedAt(files, 0, i);
    ReadByPath(disk, Expected(files, 0), path, offset, size, maxSize);
    assert Place(Expected(files, 0), i) == Segments(path);
  }
}
