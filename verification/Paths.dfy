/** Paths: normalisation in a fixed buffer, and what a directory sees of a stored name. */
module Paths {
  import opened Bytes
  import opened BlockIO

  const PATH_MAX := 64

  // ---- Paths as lists of components ----

  function SkipSlashes(p: CString): (r: CString)
    ensures |r| <= |p| && (r == [] || r[0] != SLASH)
  {
    if p != [] && p[0] == SLASH then SkipSlashes(p[1..]) else p
  }

  /** The part before the first slash. */
  function FirstSegment(p: CString): (r: CString)
    ensures r <= p && SLASH !in r
    ensures |r| < |p| ==> p[|r|] == SLASH
  {
    if p == [] || p[0] == SLASH then [] else [p[0]] + FirstSegment(p[1..])
  }

  /** The components of a path: its non-empty segments. */
  function Segments(p: CString): (r: seq<CString>)
    ensures Clean(r)
    decreases |p|
  {
    var t := SkipSlashes(p);
    if t == [] then [] else [FirstSegment(t)] + Segments(t[|FirstSegment(t)|..])
  }

  /** Components that a path can have. */
  predicate Clean(segments: seq<CString>) {
    forall i :: 0 <= i < |segments| ==> segments[i] != [] && SLASH !in segments[i]
  }

  function Join(segments: seq<CString>): (r: CString) {
    if segments == [] then []
    else if |segments| == 1 then segments[0]
    else segments[0] + [SLASH] + Join(segments[1..])
  }

  predicate IsDots(segment: CString) {
    segment == [DOT] || segment == [DOT, DOT]
  }

  /** Components that fit the path buffer and name no relative directory. */
  predicate Fits(segments: seq<CString>) {
    && (forall i :: 0 <= i < |segments| ==> !IsDots(segments[i]))
    && |Join(segments)| < PATH_MAX
  }

  /** The components that are refused are "." and "..", and nothing else but the length of the path is. */
  lemma FitsMeaning(segments: seq<CString>)
    ensures Fits(segments) <==> [46] !in segments && [46, 46] !in segments && |Join(segments)| <= 63
  {
  }

  /** vfs_normalize_path. */
  function Normalize(path: CString, allowRoot: bool): (r: Option<CString>) {
    var segments := Segments(path);
    if (segments == [] && !allowRoot) || !Fits(segments) then None else Some(Join(segments))
  }

  // ---- Joining and splitting are inverse ----

  lemma {:induction false} JoinAppend(a: seq<CString>, b: seq<CString>)
    requires a != [] && b != []
    ensures Join(a + b) == Join(a) + [SLASH] + Join(b)
  {
    if |a| == 1 {
      assert (a + b)[1..] == b;
    } else {
      assert (a + b)[1..] == a[1..] + b;
      JoinAppend(a[1..], b);
      assert a[0] + [SLASH] + (Join(a[1..]) + [SLASH] + Join(b)) == (a[0] + [SLASH] + Join(a[1..])) + [SLASH] + Join(b);
    }
  }

  lemma {:induction false} FirstOfJoined(segment: CString, rest: CString)
    requires SLASH !in segment
    ensures FirstSegment(segment + [SLASH] + rest) == segment && FirstSegment(segment) == segment
  {
    if segment != [] {
      FirstOfJoined(segment[1..], rest);
      assert (segment + [SLASH] + rest)[1..] == segment[1..] + [SLASH] + rest;
    }
  }

  lemma SlashSkipped(rest: CString)
    ensures Segments([SLASH] + rest) == Segments(rest)
  {
    assert ([SLASH] + rest)[1..] == rest;
  }

  /** A component followed by a slash is split off whole. */
  lemma SegmentSplit(segment: CString, rest: CString)
    requires segment != [] && SLASH !in segment
    ensures Segments(segment + [SLASH] + rest) == [segment] + Segments(rest)
  {
    var p := segment + [SLASH] + rest;
    FirstOfJoined(segment, rest);
    assert p[0] == segment[0] != SLASH;
    assert SkipSlashes(p) == p;
    assert p[|segment|..] == [SLASH] + rest;
    SlashSkipped(rest);
  }

  lemma SingleSegment(segment: CString)
    requires segment != [] && SLASH !in segment
    ensures Segments(segment) == [segment]
  {
    FirstOfJoined(segment, []);
    assert SkipSlashes(segment) == segment;
    assert segment[|segment|..] == [];
  }

  /** Splitting works on each side of a slash, however the two sides are spelled. */
  lemma {:induction false} SegmentsConcat(path: CString, rest: CString)
    ensures Segments(path + [SLASH] + rest) == Segments(path) + Segments(rest)
    decreases |path|
  {
    hide Segments;
    if path == [] {
      NoSegments();
      SlashSkipped(rest);
      assert path + [SLASH] + rest == [SLASH] + rest;
    } else if path[0] == SLASH {
      SegmentsConcat(path[1..], rest);
      SkipOne(path);
      SkipOne(path + [SLASH] + rest);
      assert (path + [SLASH] + rest)[1..] == path[1..] + [SLASH] + rest;
    } else {
      SegmentsConcatStep(path, rest);
    }
  }

  lemma {:induction false} SegmentsConcatStep(path: CString, rest: CString)
    requires path != [] && path[0] != SLASH
    ensures Segments(path + [SLASH] + rest) == Segments(path) + Segments(rest)
    decreases |path|, 0
  {
    hide Segments;
    SegmentsStep(path);
    var segment := FirstSegment(path);
    var more: CString := path[|segment|..];
    assert path == segment + more;
    if more == [] {
      NoSegments();
      SegmentSplit(segment, rest);
      assert path == segment && Segments(path) == [segment];
    } else {
      SegmentsConcat(more, rest);
      var after: CString := more[1..] + [SLASH] + rest;
      SkipOne(more + [SLASH] + rest);
      assert (more + [SLASH] + rest)[1..] == after;
      assert path + [SLASH] + rest == segment + [SLASH] + after;
      SegmentSplit(segment, after);
    }
  }

  lemma SkipOne(p: CString)
    requires p != [] && p[0] == SLASH
    ensures SkipSlashes(p) == SkipSlashes(p[1..]) && Segments(p) == Segments(p[1..])
  {
  }

  /** What is left after the first component. */
  lemma SegmentsStep(p: CString)
    requires p != [] && p[0] != SLASH
    ensures FirstSegment(p) != [] && Segments(p) == [FirstSegment(p)] + Segments(p[|FirstSegment(p)|..])
  {
  }

  /** Splitting a joined path gives the components back. */
  lemma {:induction false} SegmentsOfJoin(segments: seq<CString>)
    requires Clean(segments)
    ensures Segments(Join(segments)) == segments
  {
    hide Segments;
    if segments == [] {
      NoSegments();
    } else if |segments| == 1 {
      SingleSegment(segments[0]);
      assert segments == [segments[0]];
    } else {
      SegmentsOfJoin(segments[1..]);
      SegmentSplit(segments[0], Join(segments[1..]));
      assert segments == [segments[0]] + segments[1..];
    }
  }

  lemma NoSegments()
    ensures Segments([]) == []
  {
  }

  /** Normalising a second time changes nothing: vfs_read_file relies on it when it hands its result to vfs_stat. */
  lemma NormalizeIdempotent(path: CString, allowRoot: bool)
    ensures var r := Normalize(path, allowRoot);
      r.Some? ==> Normalize(r.value, allowRoot) == r && Normalize(r.value, true) == r
  {
    hide Segments, Fits;
    SegmentsOfJoin(Segments(path));
  }

  /** What a normalised path looks like as text: no empty segment, no slash at either end. */
  lemma NormalForm(path: CString, allowRoot: bool)
    ensures var r := Normalize(path, allowRoot);
      r.Some? ==> |r.value| < PATH_MAX && (r.value == [] ==> allowRoot) && Tidy(r.value)
  {
    hide Segments, Fits;
    assert Normalize(path, allowRoot).Some? ==> Fits(Segments(path));
    var segments := Segments(path);
    TidyJoin(segments);
    FitsIsShort(segments);
    if segments != [] {
      JoinNotEmpty(segments);
    }
  }

  predicate Tidy(p: CString) {
    && (p != [] ==> p[0] != SLASH && p[|p| - 1] != SLASH)
    && forall i :: 0 <= i < |p| - 1 ==> p[i] != SLASH || p[i + 1] != SLASH
  }

  lemma FitsIsShort(segments: seq<CString>)
    ensures Fits(segments) ==> |Join(segments)| < PATH_MAX
  {
  }

  lemma {:induction false} TidyJoin(segments: seq<CString>)
    requires Clean(segments)
    ensures Tidy(Join(segments))
  {
    if |segments| > 1 {
      TidyJoin(segments[1..]);
      JoinNotEmpty(segments[1..]);
      TidyPair(segments[0], Join(segments[1..]));
    }
  }

  lemma TidyPair(a: CString, b: CString)
    requires a != [] && SLASH !in a && Tidy(b) && b != []
    ensures Tidy(a + [SLASH] + b)
  {
    var p := a + [SLASH] + b;
    forall i | 0 <= i < |p| - 1
      ensures p[i] != SLASH || p[i + 1] != SLASH
    {
      if i > |a| {
        assert p[i] == b[i - |a| - 1] && p[i + 1] == b[i - |a|];
      }
    }
  }

  lemma JoinNotEmpty(segments: seq<CString>)
    requires Clean(segments) && segments != []
    ensures Join(segments) != []
  {
  }

  // ---- Normalisation in the path buffer ----

  /** The part of the path before a NUL written at `length`. */
  lemma Terminated(buffer: seq<byte>, s: CString)
    requires |s| < |buffer| && buffer[..|s|] == s && buffer[|s|] == NUL
    ensures AsCString(buffer) == s
  {
    assert buffer == s + [NUL] + buffer[|s| + 1..];
    AsCStringOfTerminated(s, buffer[|s| + 1..]);
  }

  /** The first slash-free run of a path that does not start with a slash. */
  method SegmentLength(path: CString, position: nat) returns (length: nat)
    requires position <= |path|
    ensures position + length <= |path| && path[position..position + length] == FirstSegment(path[position..])
  {
    length := 0;
    ghost var p := path[position..];
    while position + length < |path| && path[position + length] != SLASH
      invariant position + length <= |path| && SLASH !in path[position..position + length]
    {
      assert path[position..position + length + 1] == path[position..position + length] + [path[position + length]];
      length := length + 1;
    }
    var segment := path[position..position + length];
    if position + length < |path| {
      FirstOfJoined(segment, path[position + length + 1..]);
      assert p == segment + [SLASH] + path[position + length + 1..];
    } else {
      FirstOfJoined(segment, []);
      assert p == segment;
    }
  }

  /** `while (*path == '/') path++`. */
  method SkipSlashRun(path: CString, position: nat) returns (next: nat)
    requires position <= |path|
    ensures position <= next <= |path| && (next < |path| ==> path[next] != SLASH)
    ensures Segments(path[next..]) == Segments(path[position..])
  {
    hide Segments, SkipSlashes;
    next := position;
    while next < |path| && path[next] == SLASH
      invariant position <= next <= |path|
      invariant Segments(path[next..]) == Segments(path[position..])
    {
      SkipOne(path[next..]);
      assert path[next..][1..] == path[next + 1..];
      next := next + 1;
    }
  }

  lemma DotsRejected(done: seq<CString>, segment: CString, rest: seq<CString>)
    requires IsDots(segment)
    ensures !Fits(done + [segment] + rest)
  {
    var all := done + [segment] + rest;
    assert all[|done|] == segment;
  }

  /** A prefix of the components joins to no more text than the whole. */
  lemma JoinGrows(a: seq<CString>, b: seq<CString>)
    ensures |Join(a)| <= |Join(a + b)|
  {
    if b == [] {
      assert a + b == a;
    } else if a != [] {
      JoinAppend(a, b);
    }
  }

  lemma TooLong(done: seq<CString>, segment: CString, rest: seq<CString>)
    requires |Join(done + [segment])| >= PATH_MAX
    ensures !Fits(done + [segment] + rest)
  {
    JoinGrows(done + [segment], rest);
  }

  lemma JoinOneMore(done: seq<CString>, segment: CString)
    ensures Join(done + [segment]) == if done == [] then segment else Join(done) + [SLASH] + segment
  {
    if done != [] {
      JoinAppend(done, [segment]);
    }
  }

  /** The buffer after one more component; false when it does not fit. */
  method AppendSegment(buffer: array<byte>, length: nat, segment: CString, ghost done: seq<CString>)
      returns (ok: bool, newLength: nat)
    requires buffer.Length == PATH_MAX && length < PATH_MAX && segment != []
    requires Clean(done) && buffer[..length] == Join(done)
    modifies buffer
    ensures ok <==> |Join(done + [segment])| < PATH_MAX
    ensures ok ==> newLength == |Join(done + [segment])| && buffer[..newLength] == Join(done + [segment])
  {
    hide Splice, Join;
    JoinOneMore(done, segment);
    newLength := length;
    if done != [] {
      JoinNotEmpty(done);
    } else {
      JoinNothing();
    }
    if length != 0 {
      if length + 1 >= PATH_MAX {
        return false, 0;
      }
      buffer[length] := SLASH;
      newLength := length + 1;
      assert buffer[..newLength] == Join(done) + [SLASH];
    }
    if newLength + |segment| >= PATH_MAX {
      return false, 0;
    }
    ghost var before := buffer[..];
    Store(buffer, newLength, segment);
    SpliceEnds(before, newLength, segment);
    assert buffer[..newLength + |segment|] == buffer[..][..newLength + |segment|];
    assert before[..newLength] == if done == [] then [] else Join(done) + [SLASH];
    return true, newLength + |segment|;
  }

  lemma JoinNothing()
    ensures Join([]) == []
  {
  }

  lemma SpliceEnds(before: seq<byte>, offset: nat, data: seq<byte>)
    requires offset + |data| <= |before|
    ensures Splice(before, offset, data)[..offset + |data|] == before[..offset] + data
  {
  }

  /** The pass of vfs_normalize_path over the components of a path with at least one. */
  method JoinSegments(path: CString, start: nat, buffer: array<byte>) returns (ok: bool)
    requires buffer.Length == PATH_MAX && start < |path| && path[start] != SLASH
    modifies buffer
    ensures ok <==> Fits(Segments(path[start..]))
    ensures ok ==> AsCString(buffer[..]) == Join(Segments(path[start..]))
  {
    hide Segments, SkipSlashes, FirstSegment, Join, Fits, AsCString;
    ghost var all := Segments(path[start..]);
    var position := start;
    var length: nat := 0;
    ghost var done: seq<CString> := [];
    JoinNothing();
    RootFits();
    while position < |path|
      invariant position <= |path| && (position < |path| ==> path[position] != SLASH)
      invariant all == done + Segments(path[position..])
      invariant Clean(done) && Fits(done) && length < PATH_MAX && buffer[..length] == Join(done)
      decreases |path| - position
    {
      ghost var rest;
      var segment, next;
      segment, next, rest := NextSegment(path, position);
      assert all == done + [segment] + rest;
      if IsDots(segment) {
        DotsRejected(done, segment, rest);
        return false;
      }
      ok, length := AppendSegment(buffer, length, segment, done);
      if !ok {
        TooLong(done, segment, rest);
        return false;
      }
      FitsMore(done, segment);
      position := next;
      done := done + [segment];
    }
    assert path[position..] == [];
    NoSegments();
    assert all == done;
    buffer[length] := NUL;
    Terminated(buffer[..], Join(done));
    return true;
  }

  /** The component at `position` and the start of the next one. */
  method NextSegment(path: CString, position: nat) returns (segment: CString, next: nat, ghost rest: seq<CString>)
    requires position < |path| && path[position] != SLASH
    ensures position < next <= |path| && (next < |path| ==> path[next] != SLASH)
    ensures segment != [] && SLASH !in segment && rest == Segments(path[next..])
    ensures Segments(path[position..]) == [segment] + rest
  {
    hide Segments, SkipSlashes, FirstSegment;
    var segmentLength := SegmentLength(path, position);
    SegmentsStep(path[position..]);
    segment := path[position..position + segmentLength];
    assert path[position..][segmentLength..] == path[position + segmentLength..];
    next := SkipSlashRun(path, position + segmentLength);
    rest := Segments(path[next..]);
  }

  /** vfs_normalize_path. */
  method NormalizePath(path: CString, buffer: array<byte>, allowRoot: bool) returns (ok: bool)
    requires buffer.Length == PATH_MAX
    modifies buffer
    ensures ok <==> Normalize(path, allowRoot).Some?
    ensures ok ==> AsCString(buffer[..]) == Normalize(path, allowRoot).value
  {
    hide Segments, SkipSlashes, FirstSegment, Join, Fits, AsCString;
    var position := SkipSlashRun(path, 0);
    assert path[0..] == path;
    if position == |path| {
      assert path[position..] == [];
      NoSegments();
      if !allowRoot {
        return false;
      }
      RootFits();
      JoinNothing();
      buffer[0] := NUL;
      Terminated(buffer[..], []);
      return true;
    }
    SegmentsStep(path[position..]);
    ok := JoinSegments(path, position, buffer);
  }

  lemma RootFits()
    ensures Fits([])
  {
  }

  lemma FitsMore(done: seq<CString>, segment: CString)
    requires Fits(done) && !IsDots(segment) && |Join(done + [segment])| < PATH_MAX
    ensures Fits(done + [segment])
  {
  }

  // ---- Directories ----

  datatype Child = Child(name: CString, isDirectory: bool)

  /** vfs_collect_child_name: what `directory` sees of the stored name. */
  function CollectChild(directory: CString, fileName: CString): Option<Child> {
    if directory != [] && !(directory + [SLASH] <= fileName) then None
    else
      var remainder: CString := if directory == [] then fileName else fileName[|directory| + 1..];
      if remainder == [] then None
      else Some(Child(FirstSegment(remainder), |FirstSegment(remainder)| < |remainder|))
  }

  /** The text comparison sees a stored name exactly when the directory's components properly start the name's, and
      then shows the next component, as a directory exactly when more follow. */
  lemma ChildOfComponents(ds: seq<CString>, ns: seq<CString>)
    requires Clean(ds) && Clean(ns)
    ensures CollectChild(Join(ds), Join(ns))
         == if ds < ns then Some(Child(ns[|ds|], |ds| + 1 < |ns|)) else None
  {
    hide CollectChild, Join, Segments;
    if ds < ns {
      SeenBelow(ds, ns[|ds|..]);
      assert ds + ns[|ds|..] == ns;
    } else {
      NotSeen(ds, ns);
    }
  }

  lemma SeenBelow(ds: seq<CString>, es: seq<CString>)
    requires Clean(ds) && Clean(es) && es != []
    ensures CollectChild(Join(ds), Join(ds + es)) == Some(Child(es[0], 1 < |es|))
  {
    hide Segments;
    JoinNotEmpty(es);
    FirstOfJoin(es);
    if ds == [] {
      assert ds + es == es;
    } else {
      JoinNotEmpty(ds);
      JoinAppend(ds, es);
      var name := Join(ds) + [SLASH] + Join(es);
      assert Join(ds) + [SLASH] <= name && name[|Join(ds)| + 1..] == Join(es);
    }
  }

  lemma FirstOfJoin(es: seq<CString>)
    requires Clean(es) && es != []
    ensures FirstSegment(Join(es)) == es[0] && (|es[0]| < |Join(es)| <==> 1 < |es|)
  {
    FirstOfJoined(es[0], Join(es[1..]));
  }

  lemma SeenIsBelow(ds: seq<CString>, ns: seq<CString>)
    requires Clean(ds) && Clean(ns) && ds != [] && Join(ds) + [SLASH] <= Join(ns)
    ensures ds < ns
  {
    hide Segments, Join;
    var directory, name := Join(ds), Join(ns);
    var rest: CString := name[|directory| + 1..];
    assert name == directory + [SLASH] + rest;
    SegmentsConcat(directory, rest);
    SegmentsOfJoin(ds);
    SegmentsOfJoin(ns);
    var more := Segments(rest);
    assert ns == ds + more;
    assert more == [] ==> ns == ds;
  }

  lemma NotSeen(ds: seq<CString>, ns: seq<CString>)
    requires Clean(ds) && Clean(ns) && !(ds < ns)
    ensures CollectChild(Join(ds), Join(ns)) == None
  {
    hide Segments, Join;
    var directory, name := Join(ds), Join(ns);
    if ds == [] {
      assert ns == [];
      JoinNothing();
    } else if directory + [SLASH] <= name {
      SeenIsBelow(ds, ns);
      assert false;
    } else {
      JoinNotEmpty(ds);
    }
  }
}
