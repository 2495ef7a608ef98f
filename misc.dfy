/** The path and file helpers of utils/misc.go (and their earlier copies in
    main.go): the station number, `MoveFile` with its "destination inside
    the source" guard, `writeFile`, `DumpAssets` and `CopyDirectoryTo`. */
module Misc {
  import opened Wrappers
  import opened Text
  import opened Order
  import opened Paths
  import opened Files
  import opened Update

  // ------------------------------------------------------------------
  // The station number

  /** The normalisation in `PromptForStationID` (and
      `promptForStationNumber`): a one-character answer between "1" and "9",
      in Go's string order, gets a leading "0". */
  function PadStationID(s: string): (r: string)
    ensures r == (if |s| == 1 && '1' <= s[0] <= '9' then "0" + s else s)
  {
    if |s| == 1 then
      LessOneChar(s, "1");
      LessOneChar("9", s);
      if !Less(s, "1") && !Less("9", s) then "0" + s else s
    else s
  }

  /** Go's order on one-character strings is the order of the characters. */
  lemma LessOneChar(a: string, b: string)
    requires |a| == 1 && |b| == 1
    ensures Less(a, b) <==> a[0] < b[0]
  {
    assert a[1..] == "" && b[1..] == "";
  }

  /** Padding never changes the number the answer denotes, and padding twice
      is padding once. */
  lemma PadStationIDKeepsNumber(s: string)
    ensures Atoi(PadStationID(s)) == Atoi(s)
    ensures PadStationID(PadStationID(s)) == PadStationID(s)
  {
    if |s| == 1 && '1' <= s[0] <= '9' {
      AtoiLeadingZero(s);
    }
  }

  lemma PadStationIDExamples()
    ensures PadStationID("1") == "01" && PadStationID("9") == "09"
    ensures PadStationID("0") == "0" && PadStationID("10") == "10" && PadStationID("a") == "a"
    ensures PadStationID("") == ""
  {
  }

  /** `PromptForStationID()`: the operator's answer (or the error reading
      it), padded. */
  function PromptForStationID(answer: Result<string>): Result<string>
  {
    match answer
    case Err(e) => Err(e)
    case Ok(s) => Ok(PadStationID(s))
  }

  /** `.station_id`, in the working directory. */
  function StationIDPath(): Path
  {
    [".station_id"]
  }

  lemma StationIDPathOf()
    ensures PathOf(".station_id") == StationIDPath()
  {
    PathOfSingle(".station_id");
  }

  /** The tree after the call and the station ID or the error. */
  datatype Answer = Answer(fs: FileSystem, id: Result<string>)

  /** `GetStationID()`. `os.ReadFile` reports every failure as an
      `*os.PathError`, so any read failure leads to the prompt; the answer is
      written to `.station_id` with mode 0644. */
  function GetStationID(fs: FileSystem, answer: Result<string>): (r: Answer)
    ensures ReadFile(fs, StationIDPath()).Ok? ==> r == Answer(fs, ReadFile(fs, StationIDPath()))
    ensures r.id.Ok? ==> ReadFile(r.fs, StationIDPath()) == r.id
    ensures r.fs != fs ==> ReadFile(fs, StationIDPath()).Err? && answer.Ok? && r.id == Ok(PadStationID(answer.value))
    ensures r.id.Err? ==> r.fs == fs
  {
    match ReadFile(fs, StationIDPath())
    case Ok(data) => Answer(fs, Ok(data))
    case Err(_) =>
      match PromptForStationID(answer)
      case Err(e) => Answer(fs, Err(e))
      case Ok(id) =>
        var w := WriteFile(fs, StationIDPath(), id, Mode644);
        if w.err.Some? then Answer(fs, Err(w.err.value))
        else Answer(w.fs, Ok(id))
  }

  /** Once an ID has been given, every later call returns it without asking
      again and without writing. */
  lemma StationIDStable(fs: FileSystem, first: Result<string>, later: Result<string>)
    ensures var r := GetStationID(fs, first);
      r.id.Ok? ==> GetStationID(r.fs, later) == Answer(r.fs, r.id)
  {
  }

  // ------------------------------------------------------------------
  // The guard of MoveFile and CopyDirectoryTo

  /** `IndexOf` is the first occurrence. */
  lemma IndexOfUnique(s: string, c: char, i: nat)
    requires i <= |s| && (forall j :: 0 <= j < i ==> s[j] != c) && (i < |s| ==> s[i] == c)
    ensures IndexOf(s, c) == i
  {
  }

  /** Comparing two slash-separated strings up to their first slash compares
      their first segments. */
  lemma FirstSegmentPrefix(a: string, x: string, b: string, y: string)
    requires '/' !in a && '/' !in b
    ensures HasPrefix(a + "/" + x, b + "/" + y) <==> a == b && HasPrefix(x, y)
  {
    var s := a + "/" + x;
    var p := b + "/" + y;
    if HasPrefix(s, p) {
      IndexOfUnique(s, '/', |a|);
      IndexOfUnique(p, '/', |b|);
      assert s[..|p|] == p;
      IndexOfUnique(s[..|p|], '/', |a|);
      assert a == s[..|a|] && b == p[..|b|];
      assert x == s[|a| + 1..] && y == p[|b| + 1..];
      assert s[|a| + 1..][..|y|] == y;
    }
    if a == b && HasPrefix(x, y) {
      assert s[..|p|] == a + "/" + x[..|y|];
    }
  }

  /** A segment has no slash, so a slash-terminated string is never its
      prefix. */
  lemma NoSlashNoPrefix(a: string, p: string)
    requires '/' !in a && |p| > 0 && p[|p| - 1] == '/'
    ensures !HasPrefix(a, p)
  {
  }

  ghost predicate Segments(p: Path)
  {
    forall k :: 0 <= k < |p| ==> p[k] != "" && '/' !in p[k]
  }

  /** For joined segment sequences, "starts with S joined, then a slash" is
      "S is a proper prefix". */
  lemma {:induction false} JoinedPrefix(s: Path, d: Path)
    requires |s| >= 1 && Segments(s) && Segments(d)
    ensures HasPrefix(JoinSep(d, '/'), JoinSep(s, '/') + "/") <==> s < d
    decreases |s|
  {
    var js := JoinSep(s, '/');
    var jd := JoinSep(d, '/');
    if |d| == 0 {
      assert jd == "";
    } else if |d| == 1 {
      assert jd == d[0];
      if |s| >= 2 {
        assert js + "/" == s[0] + "/" + (JoinSep(s[1..], '/') + "/");
      }
      NoSlashNoPrefix(d[0], js + "/");
    } else {
      assert jd == d[0] + "/" + JoinSep(d[1..], '/');
      if |s| == 1 {
        assert js + "/" == s[0] + "/" + "";
        FirstSegmentPrefix(d[0], JoinSep(d[1..], '/'), s[0], "");
        if d[0] == s[0] {
          assert d[..1] == s;
        }
      } else {
        assert js + "/" == s[0] + "/" + (JoinSep(s[1..], '/') + "/");
        FirstSegmentPrefix(d[0], JoinSep(d[1..], '/'), s[0], JoinSep(s[1..], '/') + "/");
        JoinedPrefix(s[1..], d[1..]);
        assert s == [s[0]] + s[1..] && d == [d[0]] + d[1..];
        if s < d {
          assert d[1..][..|s| - 1] == s[1..];
        }
        if d[0] == s[0] && s[1..] < d[1..] {
          assert d[..|s|] == [d[0]] + d[1..][..|s| - 1];
        }
      }
    }
  }

  predicate Rooted(s: string)
  {
    |s| > 0 && s[0] == '/'
  }

  /** The segments of a cleaned path hold no slash and are never empty. */
  lemma PathOfSegments(s: string)
    ensures Segments(PathOf(s))
  {
    CleanFromNoSlash([], Split(s, '/'), false);
  }

  /** `filepath.Clean` of a relative path is its cleaned segments joined, or
      "." when there are none. */
  lemma CleanIsJoin(s: string)
    requires !Rooted(s)
    ensures Clean(s) == if PathOf(s) == [] then "." else JoinSep(PathOf(s), '/')
  {
  }

  /** For relative paths whose source is not ".", the string guard is
      containment of segment sequences: it rejects exactly the destinations
      strictly below the source. */
  lemma StrictlyInsideIff(dest: string, src: string)
    requires !Rooted(dest) && !Rooted(src) && PathOf(src) != []
    ensures StrictlyInside(dest, src) <==> PathOf(src) < PathOf(dest)
  {
    var s := PathOf(src);
    var d := PathOf(dest);
    PathOfSegments(src);
    PathOfSegments(dest);
    CleanIsJoin(src);
    CleanIsJoin(dest);
    JoinedPrefix(s, d);
    if d == [] {
      JoinOneOrMoreHead(s, '/');
      assert |JoinSep(s, '/') + "/"| >= 2;
    }
  }

  // ------------------------------------------------------------------
  // MoveFile

  /** `MoveFile(src, dest)`: the guard on the cleaned paths; a source that
      does not exist is reported before anything is made; then the parent
      of the destination is made with mode 0755 and the source renamed. */
  function MoveFile(fs: FileSystem, src: string, dest: string): (r: Outcome)
    ensures StrictlyInside(dest, src) ==> r == Outcome(fs, Some(SubPath))
    ensures !StrictlyInside(dest, src) && StatErr(fs, PathOf(src)) == Some(NotExist) ==> r == Outcome(fs, Some(NotExist))
    ensures r.fs.denied == fs.denied
    ensures r.err.None? ==> PathOf(src) in fs.nodes
  {
    var s := PathOf(src);
    var d := PathOf(dest);
    if StrictlyInside(dest, src) then Outcome(fs, Some(SubPath))
    else if StatErr(fs, s) == Some(NotExist) then Outcome(fs, Some(NotExist))
    else
      var m := MkdirAll(fs, Parent(d), Mode755);
      if m.err.Some? then m
      else Rename(m.fs, s, d)
  }

  /** Past the guard, with the source present and the destination's parent
      an existing directory, `MoveFile` is the rename. */
  lemma MoveFileIsRename(fs: FileSystem, src: string, dest: string)
    requires !StrictlyInside(dest, src) && PathOf(src) in fs.nodes
    requires Parent(PathOf(dest)) != [] ==> Parent(PathOf(dest)) in fs.nodes && fs.nodes[Parent(PathOf(dest))].Dir?
    ensures MoveFile(fs, src, dest) == Rename(fs, PathOf(src), PathOf(dest))
  {
  }

  /** `os.Rename` refuses to move a node onto one of its own ancestors: the
      ancestor is an existing directory. */
  lemma RenameOntoAncestorFails(fs: FileSystem, s: Path, d: Path)
    requires Valid(fs) && s in fs.nodes && d < s
    ensures Rename(fs, s, d).err == Some(AlreadyExists)
  {
    AncestorHasChild(fs, s, d);
  }

  /** A proper ancestor of a node is a directory holding the next node on the
      way down. */
  lemma AncestorHasChild(fs: FileSystem, s: Path, d: Path)
    requires Valid(fs) && s in fs.nodes && d < s
    ensures IsDir(fs, d) && d + [s[|d|]] in fs.nodes
  {
    if |d| + 1 == |s| {
      assert s == d + [s[|d|]];
    } else {
      AncestorIsDir(fs, s, |d| + 1);
      assert s[..|d| + 1] == d + [s[|d|]];
    }
    if d != [] {
      AncestorIsDir(fs, s, |d|);
      assert s[..|d|] == d;
    }
  }

  /** Moving a subtree to a place that is neither inside it nor one of its
      ancestors. */
  lemma MovedApart(fs: FileSystem, s: Path, d: Path)
    requires !(s <= d) && !(d <= s)
    ensures var r := Moved(fs, s, d);
      && (forall q :: q in Below(fs, s) ==> d + q[|s|..] in r.nodes && r.nodes[d + q[|s|..]] == fs.nodes[q])
      && (forall q :: q in r.nodes ==> !(s <= q))
      && (forall q :: q in fs.nodes && !(s <= q) && !(d <= q) ==> q in r.nodes && r.nodes[q] == fs.nodes[q])
  {
    var r := Moved(fs, s, d);
    forall q | q in Below(fs, s)
      ensures d + q[|s|..] in r.nodes && r.nodes[d + q[|s|..]] == fs.nodes[q]
    {
      var q' := d + q[|s|..];
      MovedNodes(fs, s, d, q');
      assert q'[|d|..] == q[|s|..];
      assert s + q[|s|..] == q;
    }
    forall q | q in r.nodes ensures !(s <= q) {
      MovedNodes(fs, s, d, q);
    }
    forall q | q in fs.nodes && !(s <= q) && !(d <= q) ensures q in r.nodes && r.nodes[q] == fs.nodes[q] {
      MovedNodes(fs, s, d, q);
    }
  }

  /** A successful `MoveFile` between relative paths leaves everything that
      was at or below the source at the same relative place below the
      destination, nothing at or below the source, and the destination's
      parent a directory. */
  lemma MoveFileMoves(fs: FileSystem, src: string, dest: string)
    requires Valid(fs) && !Rooted(src) && !Rooted(dest)
    requires MoveFile(fs, src, dest).err.None? && PathOf(src) != PathOf(dest)
    ensures var r := MoveFile(fs, src, dest);
      && (forall q :: q in Below(fs, PathOf(src)) ==>
            PathOf(dest) + q[|PathOf(src)|..] in r.fs.nodes
            && r.fs.nodes[PathOf(dest) + q[|PathOf(src)|..]] == fs.nodes[q])
      && (forall q :: q in r.fs.nodes ==> !(PathOf(src) <= q))
      && IsDir(r.fs, Parent(PathOf(dest)))
  {
    var s := PathOf(src);
    var d := PathOf(dest);
    var m := MkdirAll(fs, Parent(d), Mode755);
    assert MoveFile(fs, src, dest) == Rename(m.fs, s, d);
    assert !(s < d) by {
      StrictlyInsideIff(dest, src);
    }
    PathOfWf(dest);
    MkdirAllValid(fs, Parent(d), Mode755);
    if d < s {
      RenameOntoAncestorFails(m.fs, s, d);
    }
    assert Rename(m.fs, s, d).fs == Moved(m.fs, s, d);
    MovedApart(m.fs, s, d);
    assert Below(fs, s) <= Below(m.fs, s);
  }

  // ------------------------------------------------------------------
  // writeFile

  /** `writeFile(path, data, perm)`: make the parent directory (0755) with
      everything above it, then `os.WriteFile`. A failed write keeps the
      directories already made. */
  function WriteFileDirs(fs: FileSystem, p: Path, data: string, perm: nat): (r: Outcome)
    ensures r.fs.denied == fs.denied
    ensures r.err.None? ==> ReadFile(r.fs, p) == Ok(data)
    ensures r.err.None? && p !in fs.nodes ==> r.fs.nodes[p] == File(data, perm)
  {
    var m := MkdirAll(fs, Parent(p), Mode755);
    if m.err.Some? then m
    else WriteFile(m.fs, p, data, perm)
  }

  /** `writeFile` changes no node but `p`, and what it adds is `p` and, above
      it, directories with mode 0755. */
  lemma WriteFileDirsFrame(fs: FileSystem, p: Path, data: string, perm: nat)
    ensures var r := WriteFileDirs(fs, p, data, perm);
      && (forall q :: q in fs.nodes && q != p ==> q in r.fs.nodes && r.fs.nodes[q] == fs.nodes[q])
      && (forall q :: q in r.fs.nodes && q !in fs.nodes ==> q <= p)
      && (forall q :: q in r.fs.nodes && q !in fs.nodes && q != p ==> r.fs.nodes[q] == Dir(Mode755))
  {
    forall q {
      WriteFileDirsAt(fs, p, data, perm, q);
    }
  }

  /** The same, at one path. */
  lemma WriteFileDirsAt(fs: FileSystem, p: Path, data: string, perm: nat, q: Path)
    ensures var r := WriteFileDirs(fs, p, data, perm);
      && (q in fs.nodes && q != p ==> q in r.fs.nodes && r.fs.nodes[q] == fs.nodes[q])
      && (q in r.fs.nodes && q !in fs.nodes ==> q <= p)
      && (q in r.fs.nodes && q !in fs.nodes && q != p ==> r.fs.nodes[q] == Dir(Mode755))
  {
    var m := MkdirAll(fs, Parent(p), Mode755);
    if m.err.None? {
      var w := WriteFile(m.fs, p, data, perm);
      assert WriteFileDirs(fs, p, data, perm) == w;
      if w.err.None? {
        assert w.fs.nodes == m.fs.nodes[p := w.fs.nodes[p]];
      }
      if q in w.fs.nodes && q !in fs.nodes && q != p {
        assert q in m.fs.nodes;
        assert q <= Parent(p) && Parent(p) <= p;
      }
    }
  }

  /** The parent is made first, so the write succeeds exactly when every
      directory above `p` exists or may be made and `p` itself may be written
      as a file. */
  lemma WriteFileDirsSucceeds(fs: FileSystem, p: Path, data: string, perm: nat)
    requires Valid(fs)
    ensures WriteFileDirs(fs, p, data, perm).err.None? <==>
      p != [] && CanMkdirAll(fs, Parent(p)) && !IsDir(fs, p) && p !in fs.denied
  {
    MkdirAllSucceeds(fs, Parent(p), Mode755);
  }

  // ------------------------------------------------------------------
  // DumpAssets

  /** The embedded asset tree: a tree whose names are never "..", as
      `go:embed` guarantees, so joining a name onto a path appends it. */
  ghost predicate Embedded(efs: FileSystem)
  {
    Valid(efs) && forall q, k :: q in efs.nodes && 0 <= k < |q| ==> q[k] != ".."
  }

  /** No node of `fs` was changed or removed. */
  ghost predicate NeverOverwrites(fs: FileSystem, fs': FileSystem)
  {
    forall q :: q in fs.nodes ==> q in fs'.nodes && fs'.nodes[q] == fs.nodes[q]
  }

  /** Every node that is new lies on the way to `dest` or below it; a new
      directory has mode 0755, and a new file below `dest` holds the data of
      the asset at the same place below `src`, with mode 0644. */
  ghost predicate NewFromAssets(efs: FileSystem, src: Path, fs: FileSystem, fs': FileSystem, dest: Path)
  {
    forall q :: q in fs'.nodes && q !in fs.nodes ==>
      && (q <= dest || dest <= q)
      && (fs'.nodes[q].Dir? ==> fs'.nodes[q] == Dir(Mode755))
      && (fs'.nodes[q].File? ==>
            dest < q && src + q[|dest|..] in efs.nodes && efs.nodes[src + q[|dest|..]].File?
            && fs'.nodes[q] == File(efs.nodes[src + q[|dest|..]].data, Mode644))
  }

  /** The asset at `q` has been dumped to `t`: a directory is there as a
      directory; a file that could be read is there (the one dumped, or one
      that was there before) unless the OS refuses `t`. */
  ghost predicate DumpedAt(efs: FileSystem, fs: FileSystem, fs': FileSystem, q: Path, t: Path)
    requires q in efs.nodes
  {
    && (efs.nodes[q].Dir? ==> IsDir(fs', t))
    && (efs.nodes[q].File? && q !in efs.denied && t !in fs.denied ==> t in fs'.nodes)
  }

  /** Every asset strictly below `src` has been dumped to its place below
      `dest`. */
  ghost predicate DumpedAll(efs: FileSystem, src: Path, fs: FileSystem, fs': FileSystem, dest: Path)
  {
    forall q :: q in efs.nodes && src < q ==> DumpedAt(efs, fs, fs', q, dest + q[|src|..])
  }

  /** One file entry of the walk: skipped when its destination exists;
      otherwise read and written with `writeFile` (0644), a failure of
      either being only logged. */
  method DumpFile(efs: FileSystem, src: Path, fs: FileSystem, a: FileSystem, dest: Path, n: string) returns (w: FileSystem)
    requires Embedded(efs) && src + [n] in efs.nodes && efs.nodes[src + [n]].File?
    requires a.denied == fs.denied && (IsDir(fs, dest) ==> IsDir(a, dest))
    ensures w.denied == fs.denied
    ensures NeverOverwrites(a, w) && NewFromAssets(efs, src, a, w, dest)
    ensures IsDir(fs, dest) ==> IsDir(w, dest) && DumpedEntry(efs, src, fs, w, dest, n)
  {
    var fullSrc := src + [n];
    var fullDest := dest + [n];
    if Exists(a, fullDest) {
      FileEntrySkipped(efs, src, fs, a, dest, n);
      return a;
    }
    var data := ReadFile(efs, fullSrc);
    if data.Err? {
      FileEntrySkipped(efs, src, fs, a, dest, n);
      return a;
    }
    var written := WriteFileDirs(a, fullDest, data.value, Mode644);
    FileEntryKeeps(efs, src, fs, a, dest, n, data.value);
    return written.fs;
  }

  /** Every asset at or below `src + [n]` has been dumped. */
  ghost predicate DumpedEntry(efs: FileSystem, src: Path, fs: FileSystem, fs': FileSystem, dest: Path, n: string)
  {
    forall q :: q in efs.nodes && src + [n] <= q ==> DumpedAt(efs, fs, fs', q, dest + q[|src|..])
  }

  /** `DumpAssets(efs, src, dest)`: walk the embedded tree in the order of its
      listings. A directory is made (0755) and walked, and a failure there
      ends the dump. A file whose destination exists is skipped; otherwise it
      is read and written with `writeFile` (0644), and a failure to read or
      write it is only logged. Nothing that exists is ever overwritten. */
  method DumpAssets(efs: FileSystem, src: Path, fs: FileSystem, dest: Path) returns (fs': FileSystem, err: Option<Error>)
    requires Embedded(efs)
    ensures fs'.denied == fs.denied
    ensures NeverOverwrites(fs, fs')
    ensures NewFromAssets(efs, src, fs, fs', dest)
    ensures ReadDirErr(efs, src).Some? ==> fs' == fs && err == ReadDirErr(efs, src)
    ensures IsDir(fs, dest) && err.None? ==> DumpedAll(efs, src, fs, fs', dest)
    decreases Below(efs, src) + {src}, 0
  {
    err := ReadDirErr(efs, src);
    if err.Some? {
      return fs, err;
    }
    fs' := fs;
    var left := Children(efs, src);
    ghost var names := left;
    while left != {}
      invariant left <= names
      invariant fs'.denied == fs.denied
      invariant NeverOverwrites(fs, fs')
      invariant NewFromAssets(efs, src, fs, fs', dest)
      invariant IsDir(fs, dest) ==> IsDir(fs', dest) && forall n :: n in names - left ==> DumpedEntry(efs, src, fs, fs', dest, n)
      decreases |left|
    {
      FirstNameExists(left);
      var n :| n in left && IsFirst(n, left);
      var fullSrc := src + [n];
      ChildIn(efs, src, n);
      ghost var before := fs';
      if efs.nodes[fullSrc].Dir? {
        BelowChildSmaller(efs, src, n);
        var sub, serr := DumpDir(efs, src, fs, fs', dest, n);
        NewTrans(efs, src, fs, before, sub, dest);
        if serr.Some? {
          return sub, serr;
        }
        fs' := sub;
      } else {
        fs' := DumpFile(efs, src, fs, fs', dest, n);
        NewTrans(efs, src, fs, before, fs', dest);
      }
      EarlierEntriesKept(efs, src, fs, before, fs', dest, names - left);
      left := left - {n};
    }
    if IsDir(fs, dest) {
      DumpedAllFromEntries(efs, src, fs, fs', dest);
    }
    return fs', None;
  }

  /** One directory entry of the walk: the directory is made at its place
      (0755) and walked; a failure of either ends the dump. */
  method DumpDir(efs: FileSystem, src: Path, fs: FileSystem, a: FileSystem, dest: Path, n: string) returns (w: FileSystem, err: Option<Error>)
    requires Embedded(efs) && src + [n] in efs.nodes && efs.nodes[src + [n]].Dir?
    requires a.denied == fs.denied && (IsDir(fs, dest) ==> IsDir(a, dest))
    ensures w.denied == fs.denied
    ensures NeverOverwrites(a, w) && NewFromAssets(efs, src, a, w, dest)
    ensures IsDir(fs, dest) && err.None? ==> IsDir(w, dest) && DumpedEntry(efs, src, fs, w, dest, n)
    decreases Below(efs, src + [n]) + {src + [n]}, 1
  {
    var fullSrc := src + [n];
    var fullDest := dest + [n];
    var m := MkdirAll(a, fullDest, Mode755);
    MkdirNew(efs, src, a, dest, n);
    if m.err.Some? {
      return m.fs, m.err;
    }
    var sub, serr := DumpAssets(efs, fullSrc, m.fs, fullDest);
    NewLift(efs, src, m.fs, sub, dest, n);
    NewTrans(efs, src, a, m.fs, sub, dest);
    if serr.Some? {
      return sub, serr;
    }
    if IsDir(fs, dest) {
      DirEntryDumped(efs, src, fs, m.fs, sub, dest, n);
    }
    return sub, None;
  }

  /** `n` comes first in Go's order among `names`. */
  predicate IsFirst(n: string, names: set<string>)
  {
    forall x :: x in names && x != n ==> Less(n, x)
  }

  /** A listing that is not exhausted has a first name. */
  lemma {:induction false} FirstNameExists(names: set<string>)
    requires names != {}
    ensures exists n :: n in names && IsFirst(n, names)
    decreases |names|
  {
    var y :| y in names;
    if names == {y} {
      assert IsFirst(y, names);
    } else {
      var rest := names - {y};
      FirstNameExists(rest);
      var m :| m in rest && IsFirst(m, rest);
      LessTotal(m, y);
      if Less(m, y) {
        assert IsFirst(m, names);
      } else {
        forall x | x in names && x != y ensures Less(y, x) {
          if x != m {
            LessTransitive(y, m, x);
          }
        }
        assert IsFirst(y, names);
      }
    }
  }

  /** Making the directory for an entry adds only directories with mode 0755
      on the way to its place. */
  lemma MkdirNew(efs: FileSystem, src: Path, a: FileSystem, dest: Path, n: string)
    ensures var m := MkdirAll(a, dest + [n], Mode755).fs;
      NeverOverwrites(a, m) && NewFromAssets(efs, src, a, m, dest)
  {
    var m := MkdirAll(a, dest + [n], Mode755).fs;
    forall q | q in m.nodes && q !in a.nodes ensures q <= dest || dest <= q {
      if |q| <= |dest| {
        assert q == (dest + [n])[..|q|];
      }
    }
  }

  lemma NewTrans(efs: FileSystem, src: Path, a: FileSystem, b: FileSystem, c: FileSystem, dest: Path)
    requires NeverOverwrites(a, b) && NewFromAssets(efs, src, a, b, dest)
    requires NeverOverwrites(b, c) && NewFromAssets(efs, src, b, c, dest)
    ensures NeverOverwrites(a, c) && NewFromAssets(efs, src, a, c, dest)
  {
  }

  /** What a dump of one entry adds is what the dump of its directory may
      add. */
  lemma NewLift(efs: FileSystem, src: Path, a: FileSystem, b: FileSystem, dest: Path, n: string)
    requires NewFromAssets(efs, src + [n], a, b, dest + [n])
    ensures NewFromAssets(efs, src, a, b, dest)
  {
    forall q | q in b.nodes && q !in a.nodes
      ensures (q <= dest || dest <= q)
      ensures b.nodes[q].File? ==>
            dest < q && src + q[|dest|..] in efs.nodes && efs.nodes[src + q[|dest|..]].File?
            && b.nodes[q] == File(efs.nodes[src + q[|dest|..]].data, Mode644)
    {
      if q <= dest + [n] && |q| <= |dest| {
        assert q == (dest + [n])[..|q|];
      }
      if b.nodes[q].File? {
        assert q[|dest|] == n;
        assert src + [n] + q[|dest + [n]|..] == src + q[|dest|..];
      }
    }
  }

  /** The dump of a directory is complete at its place when its own dump
      is. */
  lemma DirEntryDumped(efs: FileSystem, src: Path, fs: FileSystem, m: FileSystem, sub: FileSystem, dest: Path, n: string)
    requires src + [n] in efs.nodes
    requires m.denied == fs.denied && IsDir(m, dest + [n]) && NeverOverwrites(m, sub)
    requires DumpedAll(efs, src + [n], m, sub, dest + [n])
    ensures DumpedEntry(efs, src, fs, sub, dest, n)
  {
    forall q | q in efs.nodes && src + [n] <= q ensures DumpedAt(efs, fs, sub, q, dest + q[|src|..]) {
      if q == src + [n] {
        assert q[|src|..] == [n];
      } else {
        assert (dest + [n]) + q[|src + [n]|..] == dest + q[|src|..];
        assert DumpedAt(efs, m, sub, q, dest + q[|src|..]);
      }
    }
  }

  /** A step that overwrites nothing keeps what earlier steps dumped. */
  lemma EarlierEntriesKept(efs: FileSystem, src: Path, fs: FileSystem, a: FileSystem, b: FileSystem, dest: Path, done: set<string>)
    requires NeverOverwrites(a, b)
    requires IsDir(fs, dest) ==> IsDir(a, dest) && forall n :: n in done ==> DumpedEntry(efs, src, fs, a, dest, n)
    ensures IsDir(fs, dest) ==> IsDir(b, dest) && forall n :: n in done ==> DumpedEntry(efs, src, fs, b, dest, n)
  {
    if IsDir(fs, dest) {
      forall n, q | n in done && q in efs.nodes && src + [n] <= q ensures DumpedAt(efs, fs, b, q, dest + q[|src|..]) {
        assert DumpedAt(efs, fs, a, q, dest + q[|src|..]);
      }
    }
  }

  /** Nothing lies below a file of a tree. */
  lemma NothingBelowFile(efs: FileSystem, p: Path, q: Path)
    requires Valid(efs) && p in efs.nodes && efs.nodes[p].File? && q in efs.nodes && p <= q
    ensures q == p
  {
    if |q| > |p| {
      assert q[..|p|] == p;
      AncestorIsDir(efs, q, |p|);
    }
  }

  /** A file entry written with `writeFile`. */
  lemma FileEntryKeeps(efs: FileSystem, src: Path, fs: FileSystem, a: FileSystem, dest: Path, n: string, data: string)
    requires Valid(efs) && src + [n] in efs.nodes && efs.nodes[src + [n]].File?
    requires ReadFile(efs, src + [n]) == Ok(data) && !Exists(a, dest + [n])
    requires a.denied == fs.denied && (IsDir(fs, dest) ==> IsDir(a, dest))
    ensures var w := WriteFileDirs(a, dest + [n], data, Mode644).fs;
      && NeverOverwrites(a, w) && NewFromAssets(efs, src, a, w, dest)
      && (IsDir(fs, dest) ==> IsDir(w, dest) && DumpedEntry(efs, src, fs, w, dest, n))
  {
    var t := dest + [n];
    var w := WriteFileDirs(a, t, data, Mode644);
    WriteFileDirsFrame(a, t, data, Mode644);
    assert src + t[|dest|..] == src + [n];
    forall q | q in w.fs.nodes && q !in a.nodes ensures q <= dest || dest <= q {
      if |q| <= |dest| {
        assert q == t[..|q|];
      }
    }
    if IsDir(fs, dest) {
      assert Parent(t) == dest;
      assert MkdirAll(a, dest, Mode755) == Outcome(a, None);
      if t !in fs.denied {
        assert CanWrite(a, t);
      }
      forall q | q in efs.nodes && src + [n] <= q ensures DumpedAt(efs, fs, w.fs, q, dest + q[|src|..]) {
        NothingBelowFile(efs, src + [n], q);
      }
    }
  }

  /** A file entry skipped because its place exists or it cannot be read. */
  lemma FileEntrySkipped(efs: FileSystem, src: Path, fs: FileSystem, a: FileSystem, dest: Path, n: string)
    requires Valid(efs) && src + [n] in efs.nodes && efs.nodes[src + [n]].File?
    requires Exists(a, dest + [n]) || ReadFile(efs, src + [n]).Err?
    ensures DumpedEntry(efs, src, fs, a, dest, n)
  {
    forall q | q in efs.nodes && src + [n] <= q ensures DumpedAt(efs, fs, a, q, dest + q[|src|..]) {
      NothingBelowFile(efs, src + [n], q);
      assert q[|src|..] == [n];
    }
  }

  lemma BelowChildSmaller(efs: FileSystem, src: Path, n: string)
    requires src + [n] in efs.nodes
    ensures Below(efs, src + [n]) + {src + [n]} < Below(efs, src) + {src}
  {
    assert src + [n] in Below(efs, src);
    assert src !in Below(efs, src + [n]) + {src + [n]};
  }

  lemma PrefixStep(p: Path, q: Path)
    requires p < q
    ensures q[..|p| + 1] == p + [q[|p|]]
  {
    assert q[..|p|] == p;
  }

  /** Every entry of `src` dumped is every asset below `src` dumped. */
  lemma DumpedAllFromEntries(efs: FileSystem, src: Path, fs: FileSystem, a: FileSystem, dest: Path)
    requires Valid(efs)
    requires forall n :: n in Children(efs, src) ==> DumpedEntry(efs, src, fs, a, dest, n)
    ensures DumpedAll(efs, src, fs, a, dest)
  {
    forall q | q in efs.nodes && src < q ensures DumpedAt(efs, fs, a, q, dest + q[|src|..]) {
      var n := q[|src|];
      var c := src + [n];
      PrefixStep(src, q);
      if |q| > |src| + 1 {
        AncestorIsDir(efs, q, |src| + 1);
      } else {
        assert q == c;
      }
      ChildrenOf(efs, src, n);
      assert DumpedEntry(efs, src, fs, a, dest, n);
    }
  }

  // ------------------------------------------------------------------
  // CopyDirectoryTo

  /** The guard `CopyDirectoryTo` needs: the destination lies strictly inside
      the source. When the source cleans to "." every relative destination
      other than "." that does not climb out with ".." lies inside it, which
      the string test `StrictlyInside` does not see (no cleaned path starts
      with "./"). */
  predicate DestInside(dest: string, src: string)
  {
    if Clean(src) == "." then
      var c := Clean(dest);
      c != "." && !Rooted(c) && Split(c, '/')[0] != ".."
    else StrictlyInside(dest, src)
  }

  /** The string guard as written lets `CopyDirectoryTo(".", "backup")`
      through, although "backup" lies inside the working directory. */
  lemma GuardMissesDot()
    ensures !StrictlyInside("backup", ".")
    ensures PathOf(".") == [] && PathOf("backup") == ["backup"]
    ensures DestInside("backup", ".")
  {
    PathOfSingle("backup");
    assert Split(".", '/') == ["."];
    assert PathOf(".") == CleanFrom([], [], false);
    assert Split("backup", '/') == ["backup"] by {
      NoSepIndex("backup", '/');
    }
    assert Clean("backup") == "backup";
    assert Clean(".") == ".";
  }

  /** A cleaned path of one or more segments never joins to ".". */
  lemma JoinNotDot(p: Path)
    requires |p| >= 1 && WfPath(p)
    ensures JoinSep(p, '/') != "."
  {
    if |p| >= 2 {
      assert JoinSep(p, '/') == p[0] + "/" + JoinSep(p[1..], '/');
    }
  }

  /** For relative paths the corrected guard is containment of segment
      sequences, except that nothing climbing out of the working directory
      with ".." lies inside it. */
  lemma DestInsideIff(dest: string, src: string)
    requires !Rooted(dest) && !Rooted(src)
    ensures DestInside(dest, src) <==>
      PathOf(src) < PathOf(dest) && (PathOf(src) == [] ==> PathOf(dest)[0] != "..")
  {
    var s := PathOf(src);
    var d := PathOf(dest);
    CleanIsJoin(src);
    CleanIsJoin(dest);
    PathOfWf(src);
    PathOfWf(dest);
    if s != [] {
      JoinNotDot(s);
      StrictlyInsideIff(dest, src);
    } else if d != [] {
      JoinNotDot(d);
      PathOfSegments(dest);
      JoinOneOrMoreHead(d, '/');
      SplitJoin(d, '/');
      assert JoinSep(d, '/')[0] == d[0][0];
    }
  }

  /** Paths longer than this many segments exceed the OS's limit on path
      length (4096 bytes), whatever their names: `lstat` fails with
      ENAMETOOLONG. */
  const MaxDepth: nat := 2048

  /** Nothing is removed, the refused paths stay the same, and every new node
      lies on the way to `d` or below it. */
  ghost predicate CopyFramed(a: FileSystem, b: FileSystem, d: Path)
  {
    && b.denied == a.denied
    && (forall q :: q in a.nodes ==> q in b.nodes)
    && (forall q :: q in b.nodes && q !in a.nodes ==> q <= d || d <= q)
  }

  /** Every node that changed is the place below `d` of a path at or below
      `p` (read from `s`). */
  ghost predicate ChangedOnlyAt(a: FileSystem, b: FileSystem, s: Path, d: Path, p: Path)
  {
    forall k :: k in a.nodes && k in b.nodes && b.nodes[k] != a.nodes[k] ==> d <= k && p <= s + k[|d|..]
  }

  /** The node `q` of `fs` has been copied to `t` in `fs'`: a directory as a
      directory, a file as a file with the same content. */
  ghost predicate CopiedAt(fs: FileSystem, fs': FileSystem, q: Path, t: Path)
    requires q in fs.nodes
  {
    && (fs.nodes[q].Dir? ==> IsDir(fs', t))
    && (fs.nodes[q].File? ==> t in fs'.nodes && fs'.nodes[t].File? && fs'.nodes[t].data == fs.nodes[q].data)
  }

  /** Every node at or below `r` has been copied to its place below `d`. */
  ghost predicate Copied(fs: FileSystem, fs': FileSystem, s: Path, d: Path, r: Path)
  {
    forall q :: q in fs.nodes && r <= q && s <= q ==> CopiedAt(fs, fs', q, d + q[|s|..])
  }

  /** The walk at a file: read it and write it at its place below `d`
      (making the directories on the way, 0644 for the file). */
  method CopyFile(fs: FileSystem, s: Path, d: Path, p: Path) returns (fs': FileSystem, err: Option<Error>)
    requires s <= p && Exists(fs, p) && !IsDir(fs, p)
    ensures CopyFramed(fs, fs', d)
    ensures ChangedOnlyAt(fs, fs', s, d, p)
    ensures Valid(fs) && WfPath(d) ==> Valid(fs')
    ensures Valid(fs) && WfPath(d) && Apart(s, d) && err.None? ==> Copied(fs, fs', s, d, p)
  {
    var data := ReadFile(fs, p);
    if data.Err? {
      return fs, Some(data.error);
    }
    var w := WriteFileDirs(fs, d + p[|s|..], data.value, Mode644);
    FileCopied(fs, s, d, p, data.value);
    return w.fs, w.err;
  }

  /** `filepath.Walk(src, fn)` from the node `p`, with the callback of
      `CopyDirectoryTo`: a file is read and written to its place with
      `writeFile` (0644); a directory is listed (before the callback, as the
      walk does), made at its place (0755), and its entries walked in sorted
      order, each looked up again first. The first error ends the walk. The
      walk lists each directory from the tree as it is at that moment, so a
      destination inside the source is walked too. */
  method CopyWalk(fs: FileSystem, s: Path, d: Path, p: Path) returns (fs': FileSystem, err: Option<Error>)
    requires s <= p && Exists(fs, p) && |p| <= MaxDepth
    ensures CopyFramed(fs, fs', d)
    ensures ChangedOnlyAt(fs, fs', s, d, p)
    ensures Valid(fs) && WfPath(d) ==> Valid(fs')
    ensures Valid(fs) && WfPath(d) && Apart(s, d) && err.None? ==> Copied(fs, fs', s, d, p)
    decreases MaxDepth - |p|, 1
  {
    if !IsDir(fs, p) {
      fs', err := CopyFile(fs, s, d, p);
    } else {
      fs', err := CopyDir(fs, s, d, p);
    }
  }

  /** The walk at a directory: list it, make it at its place (0755), and walk
      its entries in sorted order, each looked up again first. */
  method CopyDir(fs: FileSystem, s: Path, d: Path, p: Path) returns (fs': FileSystem, err: Option<Error>)
    requires s <= p && IsDir(fs, p) && |p| <= MaxDepth
    ensures CopyFramed(fs, fs', d)
    ensures ChangedOnlyAt(fs, fs', s, d, p)
    ensures Valid(fs) && WfPath(d) ==> Valid(fs')
    ensures Valid(fs) && WfPath(d) && Apart(s, d) && err.None? ==> Copied(fs, fs', s, d, p)
    decreases MaxDepth - |p|, 0
  {
    var t := d + p[|s|..];
    var left := Children(fs, p);
    err := ReadDirErr(fs, p);
    if err.Some? {
      return fs, err;
    }
    var m := MkdirAll(fs, t, Mode755);
    DirMade(fs, s, d, p);
    if m.err.Some? {
      return m.fs, m.err;
    }
    fs' := m.fs;
    ghost var names := left;
    while left != {}
      invariant left <= names
      invariant CopyFramed(fs, fs', d) && ChangedOnlyAt(fs, fs', s, d, p)
      invariant Valid(fs) && WfPath(d) ==> Valid(fs')
      invariant Valid(fs) && WfPath(d) && Apart(s, d) ==>
        IsDir(fs', t) && forall n :: n in names - left ==> Copied(fs, fs', s, d, p + [n])
      decreases left
    {
      FirstNameExists(left);
      var n :| n in left && IsFirst(n, left);
      var q := p + [n];
      if |q| > MaxDepth {
        return fs', Some(NameTooLong);
      }
      if !Exists(fs', q) {
        return fs', StatErr(fs', q);
      }
      ghost var before := fs';
      var sub, serr := CopyWalk(fs', s, d, q);
      ChildWalked(fs, before, sub, s, d, p, n);
      if serr.Some? {
        return sub, serr;
      }
      if Valid(fs) && WfPath(d) && Apart(s, d) {
        ChildCopied(fs, before, sub, s, d, p, n, names - left);
      }
      fs' := sub;
      left := left - {n};
    }
    if Valid(fs) && WfPath(d) && Apart(s, d) {
      CopiedFromChildren(fs, fs', s, d, p);
    }
    return fs', None;
  }

  /** `CopyDirectoryTo(src, dest)`, with the corrected guard. Whatever
      happens, nothing is removed and only places below `dest` of source
      paths change; when source and destination lie apart and the copy
      succeeds, every node of the source is at its place below `dest`. */
  method CopyDirectoryTo(fs: FileSystem, src: string, dest: string) returns (fs': FileSystem, err: Option<Error>)
    ensures DestInside(dest, src) ==> fs' == fs && err == Some(SubPath)
    ensures !DestInside(dest, src) && |PathOf(src)| <= MaxDepth && !Exists(fs, PathOf(src)) ==>
      fs' == fs && err == StatErr(fs, PathOf(src))
    ensures CopyFramed(fs, fs', PathOf(dest))
    ensures ChangedOnlyAt(fs, fs', PathOf(src), PathOf(dest), PathOf(src))
    ensures Valid(fs) ==> Valid(fs')
    ensures Valid(fs) && Apart(PathOf(src), PathOf(dest)) && err.None? ==>
      Copied(fs, fs', PathOf(src), PathOf(dest), PathOf(src))
  {
    if DestInside(dest, src) {
      return fs, Some(SubPath);
    }
    var s := PathOf(src);
    var d := PathOf(dest);
    if |s| > MaxDepth {
      return fs, Some(NameTooLong);
    }
    if !Exists(fs, s) {
      return fs, StatErr(fs, s);
    }
    PathOfWf(dest);
    fs', err := CopyWalk(fs, s, d, s);
  }

  lemma WriteFileDirsValid(fs: FileSystem, p: Path, data: string, perm: nat)
    requires Valid(fs) && WfPath(p)
    ensures Valid(WriteFileDirs(fs, p, data, perm).fs)
  {
    MkdirAllValid(fs, Parent(p), Mode755);
    var m := MkdirAll(fs, Parent(p), Mode755);
    if m.err.None? {
      WriteFileValid(m.fs, p, data, perm);
    }
  }

  /** The place below `d` of a path at or below `s` leads back to it. */
  lemma PlaceBack(s: Path, d: Path, p: Path)
    requires s <= p
    ensures d <= d + p[|s|..] && s + (d + p[|s|..])[|d|..] == p
  {
    assert (d + p[|s|..])[|d|..] == p[|s|..];
  }

  /** A node on the way to `d + x` lies on the way to `d` or below it. */
  lemma OnTheWay(d: Path, x: Path, q: Path)
    requires q <= d + x
    ensures q <= d || d <= q
  {
    if |q| <= |d| {
      assert q == (d + x)[..|q|];
    }
  }

  /** The callback on a file. */
  lemma FileCopied(fs: FileSystem, s: Path, d: Path, p: Path, data: string)
    requires s <= p && p in fs.nodes && fs.nodes[p].File? && ReadFile(fs, p) == Ok(data)
    ensures var w := WriteFileDirs(fs, d + p[|s|..], data, Mode644);
      && CopyFramed(fs, w.fs, d) && ChangedOnlyAt(fs, w.fs, s, d, p)
      && (Valid(fs) && WfPath(d) ==> Valid(w.fs))
      && (Valid(fs) && w.err.None? ==> Copied(fs, w.fs, s, d, p))
  {
    var t := d + p[|s|..];
    var w := WriteFileDirs(fs, t, data, Mode644);
    FileCopiedFrame(fs, s, d, p, data);
    if Valid(fs) && WfPath(d) {
      PlaceWf(s, d, p);
      WriteFileDirsValid(fs, t, data, Mode644);
    }
    if Valid(fs) && w.err.None? {
      assert ReadFile(w.fs, t) == Ok(data);
      FileCopiedDone(fs, w.fs, s, d, p);
    }
  }

  lemma PlaceWf(s: Path, d: Path, p: Path)
    requires s <= p && WfPath(d) && WfPath(p)
    ensures WfPath(d + p[|s|..])
  {
    assert forall k :: |d| <= k < |d + p[|s|..]| ==> (d + p[|s|..])[k] == p[|s| + k - |d|];
  }

  lemma FileCopiedFrame(fs: FileSystem, s: Path, d: Path, p: Path, data: string)
    requires s <= p
    ensures var w := WriteFileDirs(fs, d + p[|s|..], data, Mode644);
      CopyFramed(fs, w.fs, d) && ChangedOnlyAt(fs, w.fs, s, d, p)
  {
    var t := d + p[|s|..];
    var w := WriteFileDirs(fs, t, data, Mode644);
    WriteFileDirsFrame(fs, t, data, Mode644);
    PlaceBack(s, d, p);
    forall q | q in w.fs.nodes && q !in fs.nodes ensures q <= d || d <= q {
      OnTheWay(d, p[|s|..], q);
    }
  }

  lemma FileCopiedDone(fs: FileSystem, w: FileSystem, s: Path, d: Path, p: Path)
    requires Valid(fs) && s <= p && p in fs.nodes && fs.nodes[p].File?
    requires d + p[|s|..] in w.nodes && w.nodes[d + p[|s|..]] == File(fs.nodes[p].data, w.nodes[d + p[|s|..]].mode)
    ensures Copied(fs, w, s, d, p)
  {
    forall q | q in fs.nodes && p <= q && s <= q ensures CopiedAt(fs, w, q, d + q[|s|..]) {
      NothingBelowFile(fs, p, q);
    }
  }

  /** The callback on a directory. */
  lemma DirMade(fs: FileSystem, s: Path, d: Path, p: Path)
    requires s <= p && Exists(fs, p)
    ensures var m := MkdirAll(fs, d + p[|s|..], Mode755);
      && CopyFramed(fs, m.fs, d) && ChangedOnlyAt(fs, m.fs, s, d, p)
      && (Valid(fs) && WfPath(d) ==> Valid(m.fs))
  {
    var t := d + p[|s|..];
    var m := MkdirAll(fs, t, Mode755);
    forall q | q in m.fs.nodes && q !in fs.nodes ensures q <= d || d <= q {
      OnTheWay(d, p[|s|..], q);
    }
    if Valid(fs) && WfPath(d) {
      assert WfPath(p);
      PlaceWf(s, d, p);
      MkdirAllValid(fs, t, Mode755);
    }
  }

  /** Walking an entry keeps the frame of walking its directory. */
  lemma ChildWalked(fs: FileSystem, a: FileSystem, b: FileSystem, s: Path, d: Path, p: Path, n: string)
    requires CopyFramed(fs, a, d) && ChangedOnlyAt(fs, a, s, d, p)
    requires CopyFramed(a, b, d) && ChangedOnlyAt(a, b, s, d, p + [n])
    ensures CopyFramed(fs, b, d) && ChangedOnlyAt(fs, b, s, d, p)
  {
  }

  /** With source and destination apart, walking one entry keeps what the
      walk of the earlier entries copied, and adds its own copy. */
  lemma ChildCopied(fs: FileSystem, a: FileSystem, b: FileSystem, s: Path, d: Path, p: Path, n: string, done: set<string>)
    requires Apart(s, d) && s <= p
    requires CopyFramed(fs, a, d) && ChangedOnlyAt(fs, a, s, d, p)
    requires CopyFramed(a, b, d) && ChangedOnlyAt(a, b, s, d, p + [n])
    requires IsDir(a, d + p[|s|..]) && forall m :: m in done ==> Copied(fs, a, s, d, p + [m])
    requires n !in done && Copied(a, b, s, d, p + [n])
    ensures IsDir(b, d + p[|s|..]) && forall m :: m in done + {n} ==> Copied(fs, b, s, d, p + [m])
  {
    var t := d + p[|s|..];
    PlaceBack(s, d, p);
    assert !(p + [n] <= p);
    forall m, q | m in done + {n} && q in fs.nodes && p + [m] <= q && s <= q
      ensures CopiedAt(fs, b, q, d + q[|s|..])
    {
      ApartPaths(s, d, q);
      assert q in a.nodes && a.nodes[q] == fs.nodes[q];
      if m == n {
        assert CopiedAt(a, b, q, d + q[|s|..]);
      } else {
        var k := d + q[|s|..];
        PlaceBack(s, d, q);
        assert !(p + [n] <= q) by {
          assert q[|p|] == m;
        }
        assert CopiedAt(fs, a, q, k);
      }
    }
  }

  /** Every entry of a directory copied, and the directory made, is the
      directory copied. */
  lemma CopiedFromChildren(fs: FileSystem, b: FileSystem, s: Path, d: Path, p: Path)
    requires Valid(fs) && s <= p && IsDir(fs, p)
    requires IsDir(b, d + p[|s|..]) && forall n :: n in Children(fs, p) ==> Copied(fs, b, s, d, p + [n])
    ensures Copied(fs, b, s, d, p)
  {
    forall q | q in fs.nodes && p <= q && s <= q ensures CopiedAt(fs, b, q, d + q[|s|..]) {
      if q != p {
        EntryOf(fs, p, q);
        assert Copied(fs, b, s, d, p + [q[|p|]]);
      }
    }
  }

  /** A node strictly below a directory lies below one of its entries. */
  lemma EntryOf(fs: FileSystem, p: Path, q: Path)
    requires Valid(fs) && q in fs.nodes && p < q
    ensures q[|p|] in Children(fs, p) && p + [q[|p|]] <= q
  {
    var n := q[|p|];
    PrefixStep(p, q);
    if |q| > |p| + 1 {
      AncestorIsDir(fs, q, |p| + 1);
    } else {
      assert q == p + [n];
    }
    ChildrenOf(fs, p, n);
  }

}
