/** The self-update (utils/update.go): `Update` stages the allow-listed part
    of the repository zip in a fresh temporary directory and schedules the
    copy over the working directory for after the process exits; `Update0`
    extracts in place. `moveFiles` and `copyFile` move a tree file by file. */
module Update {
  import opened Wrappers
  import opened Text
  import opened Paths
  import opened Files
  import opened Archive
  import opened Http
  import opened Detect

  // ------------------------------------------------------------------
  // copyFile and moveFiles

  /** `copyFile(src, dst)`: open and read `src`, create (0666) or truncate
      `dst` with its content, then give `dst` the mode of `src`. The source's
      closing `os.Stat(src)` is read from the same tree: nothing else changes
      the tree between the read and the stat, so that stat cannot fail here. */
  function CopyFile(fs: FileSystem, s: Path, d: Path): (r: Outcome)
    ensures r.err.None? ==> IsFile(fs, s) && d in r.fs.nodes && r.fs.nodes[d] == fs.nodes[s]
    ensures r.err.None? ==> r.fs.nodes == fs.nodes[d := fs.nodes[s]]
    ensures r.err.Some? ==> forall q :: q in fs.nodes ==> q in r.fs.nodes && (q != d ==> r.fs.nodes[q] == fs.nodes[q])
    ensures r.err.Some? ==> forall q :: q in r.fs.nodes ==> q in fs.nodes
    ensures r.fs.denied == fs.denied
  {
    match ReadFile(fs, s)
    case Err(e) => Outcome(fs, Some(e))
    case Ok(data) =>
      var w := WriteFile(fs, d, data, Mode666);
      if w.err.Some? then w
      else Chmod(w.fs, d, fs.nodes[s].mode)
  }

  /** The source and the destination of a move lie apart: neither is inside
      the other. */
  ghost predicate Apart(src: Path, dest: Path)
  {
    !(src <= dest) && !(dest <= src)
  }

  /** Where `filepath.Join(destDir, filepath.Rel(srcDir, q))` resolves. */
  function DestOf(src: Path, dest: Path, q: Path): Path
    requires src <= q
  {
    dest + q[|src|..]
  }

  /** For a well-formed path below `src` that is the joined string. */
  lemma DestOfIsJoin(src: Path, dest: Path, q: Path)
    requires src <= q && WfPath(q) && IsClean(dest, false)
    requires forall k :: |src| <= k < |q| ==> q[k] != ".."
    ensures JoinPath(dest, Rel(src, q)) == DestOf(src, dest, q)
  {
    var s := q[|src|..];
    if |q| == |src| {
      assert Split(".", '/') == ["."];
      assert CleanFrom(dest, ["."], false) == CleanFrom(dest, [], false);
      assert s == [];
    } else {
      assert forall k :: 0 <= k < |s| ==> s[k] == q[|src| + k];
      SplitJoin(s, '/');
      assert IsClean(dest + s, false) by {
        forall k | 0 <= k < |dest + s| && (dest + s)[k] == ".."
          ensures forall j :: 0 <= j < k ==> (dest + s)[j] == ".."
        {
          assert k < |dest|;
        }
      }
      CleanFromClean(dest, s);
    }
  }

  /** One call of the walk's callback for the node at `p`: a directory that
      cannot be listed ends the walk; a directory is recreated at its place
      below `dest` (0777); a file is copied there and then removed. */
  function MoveStep(fs: FileSystem, src: Path, dest: Path, p: Path): (r: Outcome)
    requires src <= p
    ensures r.fs.denied == fs.denied
  {
    var d := DestOf(src, dest, p);
    if !Exists(fs, p) then Outcome(fs, StatErr(fs, p))
    else if IsDir(fs, p) then
      if ReadDirErr(fs, p).Some? then Outcome(fs, ReadDirErr(fs, p))
      else MkdirAll(fs, d, ModePerm)
    else
      var c := CopyFile(fs, p, d);
      if c.err.Some? then c else Remove(c.fs, p)
  }

  /** Every node of `done` has been moved: a file is gone from the source
      and its content and mode are at its place below `dest`; a directory is
      still in the source, as it was, and is a directory below `dest`. */
  ghost predicate MovedAll(fs0: FileSystem, fs: FileSystem, src: Path, dest: Path, done: set<Path>)
  {
    forall p :: p in done ==>
      && src <= p && p in fs0.nodes
      && (fs0.nodes[p].File? ==> p !in fs.nodes && DestOf(src, dest, p) in fs.nodes && fs.nodes[DestOf(src, dest, p)] == fs0.nodes[p])
      && (fs0.nodes[p].Dir? ==> p in fs.nodes && fs.nodes[p] == fs0.nodes[p] && IsDir(fs, DestOf(src, dest, p)))
  }

  /** Every node of `todo` is as it was. */
  ghost predicate Untouched(fs0: FileSystem, fs: FileSystem, todo: set<Path>)
  {
    forall p :: p in todo ==> p in fs0.nodes && p in fs.nodes && fs.nodes[p] == fs0.nodes[p]
  }

  /** Nodes outside the source and the destination are as they were, and
      nodes that are new lie below the destination or on the way to it. */
  ghost predicate Framed(fs0: FileSystem, fs: FileSystem, src: Path, dest: Path)
  {
    && (forall q :: q in fs0.nodes && !(src <= q) && !(dest <= q) ==> q in fs.nodes && fs.nodes[q] == fs0.nodes[q])
    && (forall q :: q in fs.nodes && q !in fs0.nodes ==> q <= dest || dest <= q)
  }

  ghost predicate MoveInv(fs0: FileSystem, fs: FileSystem, src: Path, dest: Path, done: set<Path>, todo: set<Path>)
  {
    && Apart(src, dest)
    && (forall p :: p in todo ==> src <= p)
    && done !! todo
    && MovedAll(fs0, fs, src, dest, done)
    && Untouched(fs0, fs, todo)
    && Framed(fs0, fs, src, dest)
  }

  /** A path below the source is never below the destination. */
  lemma ApartPaths(src: Path, dest: Path, q: Path)
    requires Apart(src, dest) && src <= q
    ensures !(dest <= q)
  {

  }

  /** Distinct paths below the source have distinct places. */
  lemma DestOfInjective(src: Path, dest: Path, p: Path, q: Path)
    requires src <= p && src <= q && DestOf(src, dest, p) == DestOf(src, dest, q)
    ensures p == q
  {
    assert DestOf(src, dest, p)[|dest|..] == p[|src|..];
    assert DestOf(src, dest, q)[|dest|..] == q[|src|..];
    assert p == src + p[|src|..] && q == src + q[|src|..];
  }

  /** Recreating a directory keeps the invariant. */
  lemma DirStep(fs0: FileSystem, fs: FileSystem, src: Path, dest: Path, done: set<Path>, todo: set<Path>, p: Path)
    requires MoveInv(fs0, fs, src, dest, done, todo) && p in todo && fs0.nodes[p].Dir?
    requires MkdirAll(fs, DestOf(src, dest, p), ModePerm).err.None?
    ensures MoveInv(fs0, MkdirAll(fs, DestOf(src, dest, p), ModePerm).fs, src, dest, done + {p}, todo - {p})
  {
    var fs' := MkdirAll(fs, DestOf(src, dest, p), ModePerm).fs;
    DirMoved(fs0, fs, fs', src, dest, done, todo, p);
    DirFramed(fs0, fs, fs', src, dest, todo, p);
  }

  /** A path below the source lies on no way to a place below the
      destination. */
  lemma OffTheWay(src: Path, dest: Path, q: Path, d: Path)
    requires Apart(src, dest) && src <= q && dest <= d
    ensures !(q <= d)
  {
  }

  /** After a directory's place is made, every node of `done + {p}` has been
      moved. */
  lemma DirMoved(fs0: FileSystem, fs: FileSystem, fs': FileSystem, src: Path, dest: Path, done: set<Path>, todo: set<Path>, p: Path)
    requires MoveInv(fs0, fs, src, dest, done, todo) && p in todo && fs0.nodes[p].Dir?
    requires forall q :: q in fs.nodes ==> q in fs'.nodes && fs'.nodes[q] == fs.nodes[q]
    requires forall q :: q in fs'.nodes && q !in fs.nodes ==> q <= DestOf(src, dest, p)
    requires IsDir(fs', DestOf(src, dest, p))
    ensures MovedAll(fs0, fs', src, dest, done + {p})
  {
    var d := DestOf(src, dest, p);
    assert dest <= d;
    forall q | q in done && fs0.nodes[q].File? ensures q !in fs'.nodes {
      OffTheWay(src, dest, q, d);
    }
  }

  /** After a directory's place is made, the rest of `todo` is untouched and
      the frame holds. */
  lemma DirFramed(fs0: FileSystem, fs: FileSystem, fs': FileSystem, src: Path, dest: Path, todo: set<Path>, p: Path)
    requires Apart(src, dest) && src <= p && Untouched(fs0, fs, todo) && Framed(fs0, fs, src, dest)
    requires forall q :: q in fs.nodes ==> q in fs'.nodes && fs'.nodes[q] == fs.nodes[q]
    requires forall q :: q in fs'.nodes && q !in fs.nodes ==> q <= DestOf(src, dest, p)
    ensures Untouched(fs0, fs', todo - {p}) && Framed(fs0, fs', src, dest)
  {
    FramedAfter(fs0, fs, fs', src, dest, p);
  }

  /** Copying a file to its place and removing it keeps the invariant. */
  lemma FileStep(fs0: FileSystem, fs: FileSystem, src: Path, dest: Path, done: set<Path>, todo: set<Path>, p: Path)
    requires MoveInv(fs0, fs, src, dest, done, todo) && p in todo && fs0.nodes[p].File?
    requires var c := CopyFile(fs, p, DestOf(src, dest, p)); c.err.None? && Remove(c.fs, p).err.None?
    ensures var c := CopyFile(fs, p, DestOf(src, dest, p));
      MoveInv(fs0, Remove(c.fs, p).fs, src, dest, done + {p}, todo - {p})
  {
    var d := DestOf(src, dest, p);
    var c := CopyFile(fs, p, d);
    var fs' := Remove(c.fs, p).fs;
    assert fs'.nodes == fs.nodes[d := fs.nodes[p]] - {p};
    FileMoved(fs0, fs, fs', src, dest, done, todo, p);
    FileFramed(fs0, fs, fs', src, dest, todo, p);
  }

  /** After the move of the file at `p`, every node of `done + {p}` has been
      moved. */
  lemma FileMoved(fs0: FileSystem, fs: FileSystem, fs': FileSystem, src: Path, dest: Path, done: set<Path>, todo: set<Path>, p: Path)
    requires MoveInv(fs0, fs, src, dest, done, todo) && p in todo && fs0.nodes[p].File?
    requires fs'.nodes == fs.nodes[DestOf(src, dest, p) := fs.nodes[p]] - {p}
    ensures MovedAll(fs0, fs', src, dest, done + {p})
  {
    var d := DestOf(src, dest, p);
    ApartPaths(src, dest, p);
    forall q | q in done ensures DestOf(src, dest, q) != d && q != p {
      if DestOf(src, dest, q) == d {
        DestOfInjective(src, dest, q, p);
      }
    }
    forall q | q in done && DestOf(src, dest, q) in fs.nodes ensures DestOf(src, dest, q) != p {
      assert dest <= DestOf(src, dest, q);
    }
  }

  /** After the move of the file at `p`, the rest of `todo` is untouched and
      the frame holds. */
  lemma FileFramed(fs0: FileSystem, fs: FileSystem, fs': FileSystem, src: Path, dest: Path, todo: set<Path>, p: Path)
    requires Apart(src, dest) && (forall q :: q in todo ==> src <= q) && p in todo
    requires Untouched(fs0, fs, todo) && Framed(fs0, fs, src, dest)
    requires fs'.nodes == fs.nodes[DestOf(src, dest, p) := fs.nodes[p]] - {p}
    ensures Untouched(fs0, fs', todo - {p}) && Framed(fs0, fs', src, dest)
  {
    var d := DestOf(src, dest, p);
    assert dest <= d;
    forall q | q in todo - {p} ensures q != d {
      ApartPaths(src, dest, q);
    }
  }

  /** A callback that succeeds keeps the invariant. */
  lemma StepKeeps(fs0: FileSystem, fs: FileSystem, src: Path, dest: Path, done: set<Path>, todo: set<Path>, p: Path)
    requires MoveInv(fs0, fs, src, dest, done, todo) && p in todo
    requires MoveStep(fs, src, dest, p).err.None?
    ensures MoveInv(fs0, MoveStep(fs, src, dest, p).fs, src, dest, done + {p}, todo - {p})
  {
    if fs0.nodes[p].Dir? {
      DirStep(fs0, fs, src, dest, done, todo, p);
    } else {
      FileStep(fs0, fs, src, dest, done, todo, p);
    }
  }

  /** The next node of a visiting order without repetitions has not been
      visited yet. */
  lemma NextInTodo(fs: FileSystem, src: Path, order: seq<Path>, i: nat)
    requires (set p | p in order) == Below(fs, src)
    requires forall i, j :: 0 <= i < j < |order| ==> order[i] != order[j]
    requires i < |order|
    ensures order[i] in Below(fs, src) - (set p | p in order[..i])
  {
    assert order[i] in (set p | p in order);
  }

  /** Whatever one callback does, even when it fails partway, stays within
      the source and the destination. */
  lemma StepFramed(fs0: FileSystem, fs: FileSystem, src: Path, dest: Path, p: Path)
    requires Apart(src, dest) && src <= p && Framed(fs0, fs, src, dest)
    ensures Framed(fs0, MoveStep(fs, src, dest, p).fs, src, dest)
  {
    var d := DestOf(src, dest, p);
    if Exists(fs, p) && IsDir(fs, p) && ReadDirErr(fs, p).None? {
      FramedAfter(fs0, fs, MkdirAll(fs, d, ModePerm).fs, src, dest, p);
    } else if Exists(fs, p) && !IsDir(fs, p) {
      var c := CopyFile(fs, p, d);
      FramedAfter(fs0, fs, c.fs, src, dest, p);
      if c.err.None? {
        FramedAfter(fs0, c.fs, Remove(c.fs, p).fs, src, dest, p);
      }
    }
  }

  /** A change that keeps every node outside the source and the destination
      and adds nodes only on the way to a place below the destination keeps
      the frame. */
  lemma FramedAfter(fs0: FileSystem, fs: FileSystem, fs': FileSystem, src: Path, dest: Path, p: Path)
    requires Apart(src, dest) && src <= p && Framed(fs0, fs, src, dest)
    requires forall q :: q in fs.nodes && !(src <= q) && !(dest <= q) ==> q in fs'.nodes && fs'.nodes[q] == fs.nodes[q]
    requires forall q :: q in fs'.nodes && q !in fs.nodes ==> q <= DestOf(src, dest, p)
    ensures Framed(fs0, fs', src, dest)
  {
    var d := DestOf(src, dest, p);
    assert dest <= d;
    forall q | q in fs'.nodes && q !in fs0.nodes ensures q <= dest || dest <= q {
      if q !in fs.nodes && |q| <= |dest| {
        assert q == dest[..|q|];
      }
    }
  }

  /** `done` is the set of the first `i` nodes of the visiting order. */
  ghost predicate Visited(done: set<Path>, order: seq<Path>, i: nat)
    requires i <= |order|
  {
    done == set p | p in order[..i]
  }

  /** One successful pass of the walk keeps the loop's invariant. */
  lemma LoopStep(fs: FileSystem, fs': FileSystem, src: Path, dest: Path, order: seq<Path>, i: nat, done: set<Path>, todo: set<Path>)
    requires i < |order| && src <= order[i]
    requires MoveInv(fs, fs', src, dest, done, todo) && order[i] in todo
    requires Visited(done, order, i)
    requires todo == Below(fs, src) - done
    requires MoveStep(fs', src, dest, order[i]).err.None?
    ensures MoveInv(fs, MoveStep(fs', src, dest, order[i]).fs, src, dest, done + {order[i]}, todo - {order[i]})
    ensures Visited(done + {order[i]}, order, i + 1)
    ensures todo - {order[i]} == Below(fs, src) - (done + {order[i]})
  {
    StepKeeps(fs, fs', src, dest, done, todo, order[i]);
    assert order[..i + 1] == order[..i] + [order[i]];
  }

  /** `moveFiles(srcDir, destDir)`. The walk visits every node at or below
      `src` once, in the order `order`; the results hold for any order, the
      walk's lexical one among them. When the move finishes without error
      every file of the source is at its place below `dest` with its content
      and mode and is gone from the source, and every directory of the
      source is still there and is a directory below `dest`. On every path
      nothing outside the source and the destination changes. */
  method MoveFiles(fs: FileSystem, src: Path, dest: Path, order: seq<Path>) returns (fs': FileSystem, err: Option<Error>)
    requires Apart(src, dest)
    requires (set p | p in order) == Below(fs, src)
    requires forall i, j :: 0 <= i < j < |order| ==> order[i] != order[j]
    ensures !Exists(fs, src) ==> fs' == fs && err == StatErr(fs, src)
    ensures err.None? ==> MovedAll(fs, fs', src, dest, Below(fs, src))
    ensures Framed(fs, fs', src, dest)
  {
    if !Exists(fs, src) {
      return fs, StatErr(fs, src);
    }
    fs' := fs;
    ghost var done: set<Path> := {};
    ghost var todo := Below(fs, src);
    for i := 0 to |order|
      invariant MoveInv(fs, fs', src, dest, done, todo)
      invariant Visited(done, order, i)
      invariant todo == Below(fs, src) - done
      invariant fs'.denied == fs.denied
    {
      var p := order[i];
      NextInTodo(fs, src, order, i);
      var o := MoveStep(fs', src, dest, p);
      if o.err.Some? {
        StepFramed(fs, fs', src, dest, p);
        return o.fs, o.err;
      }
      LoopStep(fs, fs', src, dest, order, i, done, todo);
      fs' := o.fs;
      done := done + {p};
      todo := todo - {p};
    }
    assert order[..|order|] == order;
    return fs', None;
  }

  // ------------------------------------------------------------------
  // Update and Update0

  /** The allow-list both updaters extract. */
  const Targets: seq<string> := ["iceslab", "assets"]

  lemma TargetsAreSegments()
    ensures forall j :: 0 <= j < |Targets| ==> Targets[j] != "" && Targets[j] != "." && Targets[j] != ".." && '/' !in Targets[j]
  {
  }

  /** `os.MkdirTemp` creates its directory with mode 0700. */
  const TempMode: nat := 448

  /** What `os.MkdirTemp` guarantees of the name it picks: a new, well-formed
      path in an existing directory, whose subtree the OS does not refuse,
      and which is not the ETag file. */
  ghost predicate FreshTemp(fs: FileSystem, t: Path)
  {
    && t != [] && WfPath(t) && IsClean(t, false) && t !in fs.nodes && IsDir(fs, Parent(t))
    && t != ETagPath()
    && forall q :: q in fs.denied ==> !(t <= q)
  }

  /** The tree after the call, its error, whether the zip was requested, and
      the temporary directory whose copy was scheduled, if any. */
  datatype Run = Run(fs: FileSystem, err: Option<Error>, downloaded: bool, scheduled: Option<Path>)

  /** `Update()`, step by step: the ETag check; the download; the temporary
      directory; the selective extraction below it, removed again on failure;
      the scheduling of the copy, whose failure also removes it. `mkdirTemp`
      is what `os.MkdirTemp` returned and `start` the error of `cmd.Start`;
      the scheduled command itself runs outside the process. */
  function UpdateSpec(fs: FileSystem, etagResp: Transport, zipResp: Transport, unzip: string -> Zip,
                      mkdirTemp: Result<Path>, start: Option<Error>): (r: Run)
    requires mkdirTemp.Ok? ==> IsClean(mkdirTemp.value, false)
    ensures var c := CompareRemoteManifestETag(fs, etagResp);
      !r.downloaded <==> c.err.Some? || !c.update
    ensures !r.downloaded ==> r == Run(CompareRemoteManifestETag(fs, etagResp).fs, CompareRemoteManifestETag(fs, etagResp).err, false, None)
    ensures r.scheduled.Some? <==> r.downloaded && r.err.None?
    ensures r.scheduled.Some? ==> mkdirTemp.Ok? && r.scheduled.value == mkdirTemp.value
  {
    var c := CompareRemoteManifestETag(fs, etagResp);
    if c.err.Some? then Run(c.fs, c.err, false, None)
    else if !c.update then Run(c.fs, None, false, None)
    else match DownloadRepoZip(zipResp)
      case Err(e) => Run(c.fs, Some(e), true, None)
      case Ok(data) =>
        match mkdirTemp
        case Err(e) => Run(c.fs, Some(e), true, None)
        case Ok(t) =>
          var u := Unzip(Staged(c.fs, t), unzip(data), Targets, Under(t));
          if u.err.Some? then Run(RemoveAll(u.fs, t).fs, u.err, true, None)
          else if start.Some? then Run(RemoveAll(u.fs, t).fs, start, true, None)
          else Run(u.fs, None, true, Some(t))
  }

  /** `(*Client).Update()` step by step; its run is `UpdateSpec`, about which
      `FailureLeavesTree` and `SuccessStagesOnly` are proved. */
  method Update(fs: FileSystem, etagResp: Transport, zipResp: Transport, unzip: string -> Zip,
                mkdirTemp: Result<Path>, start: Option<Error>) returns (r: Run)
    requires mkdirTemp.Ok? ==> IsClean(mkdirTemp.value, false)
    ensures r == UpdateSpec(fs, etagResp, zipResp, unzip, mkdirTemp, start)
  {
    var c := CompareRemoteManifestETag(fs, etagResp);
    if c.err.Some? {
      return Run(c.fs, c.err, false, None);
    }
    if !c.update {
      return Run(c.fs, None, false, None);
    }
    var zipData := DownloadRepoZip(zipResp);
    if zipData.Err? {
      return Run(c.fs, Some(zipData.error), true, None);
    }
    if mkdirTemp.Err? {
      return Run(c.fs, Some(mkdirTemp.error), true, None);
    }
    var tempDir := mkdirTemp.value;
    var fs', err := UnzipRepoZip(Staged(c.fs, tempDir), unzip(zipData.value), Targets, tempDir);
    if err.Some? {
      var cleaned := RemoveAll(fs', tempDir);
      return Run(cleaned.fs, err, true, None);
    }
    if start.Some? {
      var cleaned := RemoveAll(fs', tempDir);
      return Run(cleaned.fs, start, true, None);
    }
    return Run(fs', None, true, Some(tempDir));
  }

  /** Two trees that agree everywhere outside the subtree at `t`. */
  ghost predicate SameOutside(a: FileSystem, b: FileSystem, t: Path)
  {
    forall q :: !(t <= q) ==> (q in a.nodes <==> q in b.nodes) && (q in a.nodes ==> a.nodes[q] == b.nodes[q])
  }

  /** The ETag check keeps the tree valid and a fresh temporary name fresh. */
  lemma CheckKeeps(fs: FileSystem, resp: Transport, t: Path)
    requires Valid(fs) && FreshTemp(fs, t)
    ensures Valid(CompareRemoteManifestETag(fs, resp).fs)
    ensures FreshTemp(CompareRemoteManifestETag(fs, resp).fs, t)
  {
    var c := CompareRemoteManifestETag(fs, resp);
    if c.fs != fs {
      var w := WriteFile(fs, ETagPath(), FetchManifestETag(resp).value, Mode644);
      assert c.fs == w.fs;
      ETagPathWf();
      WriteFileValid(fs, ETagPath(), FetchManifestETag(resp).value, Mode644);
      assert w.err.None?;
      assert Parent(t) != ETagPath();
      assert IsDir(c.fs, Parent(t));
    }
  }

  /** The ETag check keeps the tree valid. */
  lemma CheckValidAlone(fs: FileSystem, resp: Transport)
    requires Valid(fs)
    ensures Valid(CompareRemoteManifestETag(fs, resp).fs)
  {
    var c := CompareRemoteManifestETag(fs, resp);
    if c.fs != fs {
      ETagPathWf();
      WriteFileValid(fs, ETagPath(), FetchManifestETag(resp).value, Mode644);
    }
  }

  /** A fresh name has nothing below it in a valid tree. */
  lemma NothingBelowFresh(fs: FileSystem, t: Path, q: Path)
    requires Valid(fs) && t != [] && t !in fs.nodes && q in fs.nodes
    ensures !(t <= q)
  {
    if t <= q && q != t {
      assert q[..|t|] == t;
      AncestorIsDir(fs, q, |t|);
    }
  }

  /** `fs` with the temporary directory made. */
  function Staged(fs: FileSystem, t: Path): (r: FileSystem)
    ensures r.denied == fs.denied
    ensures r.nodes.Keys == fs.nodes.Keys + {t}
  {
    fs.(nodes := fs.nodes[t := Dir(TempMode)])
  }

  lemma StagedValid(fs: FileSystem, t: Path)
    requires Valid(fs) && FreshTemp(fs, t)
    ensures Valid(Staged(fs, t)) && IsDir(Staged(fs, t), t)
  {
    var s := Staged(fs, t);
    forall p | p in s.nodes ensures WfPath(p) && IsDir(s, Parent(p)) {
      if p != t {
        assert p in fs.nodes;
        assert IsDir(fs, Parent(p));
      }
    }
  }

  /** Extraction below `t` agrees with the staged tree outside `t`. */
  lemma ExtractOutside(fs: FileSystem, es: seq<ZipEntry>, t: Path)
    requires Valid(fs) && FreshTemp(fs, t)
    requires forall k :: 0 <= k < |es| && Picked(es[k], Targets) ==> NoDotDot(es[k])
    ensures SameOutside(ExtractAll(Staged(fs, t), es, Targets, Under(t)).fs, Staged(fs, t), t)
  {
    var staged := Staged(fs, t);
    StagedValid(fs, t);
    var u := ExtractAll(staged, es, Targets, Under(t));
    forall q | !(t <= q)
      ensures (q in u.fs.nodes <==> q in staged.nodes) && (q in u.fs.nodes ==> u.fs.nodes[q] == staged.nodes[q])
    {
      if Touched(staged, u.fs, q) {
        ExtractAllStaysUnder(staged, es, Targets, t, q);
      }
    }
  }
  /** No selected entry of the archive has a ".." segment in its name. */
  ghost predicate SafeNames(z: Zip)
  {
    z.Zip? ==> forall k :: 0 <= k < |z.entries| && Picked(z.entries[k], Targets) ==> NoDotDot(z.entries[k])
  }

  /** A tree that agrees with `fs` outside `t`, from which the subtree at
      `t` can be removed, gives back `fs` when `fs` has nothing there. */
  lemma RemoveRestores(fs: FileSystem, u: FileSystem, t: Path)
    requires t != [] && SameOutside(u, fs, t) && u.denied == fs.denied
    requires forall q :: q in fs.nodes ==> !(t <= q)
    requires forall q :: q in fs.denied ==> !(t <= q)
    ensures RemoveAll(u, t).fs == fs
  {
    assert Below(u, t) * u.denied == {};
    var rm := RemoveAll(u, t);
    assert rm.fs.nodes == u.nodes - Below(u, t);
    forall q ensures q in rm.fs.nodes <==> q in fs.nodes {
      if t <= q {
        assert q !in rm.fs.nodes;
      }
    }
    assert rm.fs.nodes.Keys == fs.nodes.Keys;
    forall q | q in fs.nodes ensures rm.fs.nodes[q] == fs.nodes[q] {
      assert !(t <= q);
    }
    assert rm.fs.nodes == fs.nodes;
  }

  /** Removing the temporary directory after the extraction gives back the
      tree from before it was made. */
  lemma StagingUndone(fs: FileSystem, z: Zip, t: Path)
    requires Valid(fs) && FreshTemp(fs, t) && SafeNames(z)
    ensures SameOutside(Unzip(Staged(fs, t), z, Targets, Under(t)).fs, fs, t)
    ensures RemoveAll(Unzip(Staged(fs, t), z, Targets, Under(t)).fs, t).fs == fs
  {
    var u := Unzip(Staged(fs, t), z, Targets, Under(t));
    if z.Zip? {
      ExtractOutside(fs, z.entries, t);
    }
    assert u.fs.denied == fs.denied;
    forall q | q in fs.nodes ensures !(t <= q) {
      NothingBelowFresh(fs, t, q);
    }
    RemoveRestores(fs, u.fs, t);
  }

  /** A staged update that fails, in the extraction or in the scheduling,
      leaves the tree exactly as the ETag check left it: the temporary
      directory is gone and nothing outside it was written. This needs the
      temporary directory to be new, and no selected entry name to hold "..". */
  lemma FailureLeavesTree(fs: FileSystem, etagResp: Transport, zipResp: Transport, unzip: string -> Zip,
                          mkdirTemp: Result<Path>, start: Option<Error>)
    requires Valid(fs) && (mkdirTemp.Ok? ==> FreshTemp(fs, mkdirTemp.value))
    requires DownloadRepoZip(zipResp).Ok? ==> SafeNames(unzip(DownloadRepoZip(zipResp).value))
    ensures var r := UpdateSpec(fs, etagResp, zipResp, unzip, mkdirTemp, start);
      r.err.Some? ==> r.fs == CompareRemoteManifestETag(fs, etagResp).fs
  {
    var c := CompareRemoteManifestETag(fs, etagResp);
    if c.err.None? && c.update && DownloadRepoZip(zipResp).Ok? && mkdirTemp.Ok? {
      CheckKeeps(fs, etagResp, mkdirTemp.value);
      StagingUndone(c.fs, unzip(DownloadRepoZip(zipResp).value), mkdirTemp.value);
    }
  }

  /** A staged update that succeeds has written only inside the temporary
      directory, which is what the scheduled copy takes from. */
  lemma SuccessStagesOnly(fs: FileSystem, etagResp: Transport, zipResp: Transport, unzip: string -> Zip,
                          mkdirTemp: Result<Path>, start: Option<Error>)
    requires Valid(fs) && (mkdirTemp.Ok? ==> FreshTemp(fs, mkdirTemp.value))
    requires DownloadRepoZip(zipResp).Ok? ==> SafeNames(unzip(DownloadRepoZip(zipResp).value))
    ensures var r := UpdateSpec(fs, etagResp, zipResp, unzip, mkdirTemp, start);
      r.scheduled.Some? ==> SameOutside(r.fs, CompareRemoteManifestETag(fs, etagResp).fs, r.scheduled.value)
  {
    var c := CompareRemoteManifestETag(fs, etagResp);
    if c.err.None? && c.update && DownloadRepoZip(zipResp).Ok? && mkdirTemp.Ok? {
      CheckKeeps(fs, etagResp, mkdirTemp.value);
      StagingUndone(c.fs, unzip(DownloadRepoZip(zipResp).value), mkdirTemp.value);
    }
  }

  /** `Update0()`, the earlier updater: the ETag check, the download, and the
      selective extraction straight into the working directory. */
  function Update0Spec(fs: FileSystem, etagResp: Transport, zipResp: Transport, unzip: string -> Zip): (r: Run)
    ensures var c := CompareRemoteManifestETag(fs, etagResp);
      !r.downloaded <==> c.err.Some? || !c.update
    ensures !r.downloaded ==> r == Run(CompareRemoteManifestETag(fs, etagResp).fs, CompareRemoteManifestETag(fs, etagResp).err, false, None)
    ensures r.scheduled.None?
  {
    var c := CompareRemoteManifestETag(fs, etagResp);
    if c.err.Some? then Run(c.fs, c.err, false, None)
    else if !c.update then Run(c.fs, None, false, None)
    else match DownloadRepoZip(zipResp)
      case Err(e) => Run(c.fs, Some(e), true, None)
      case Ok(data) =>
        var u := Unzip(c.fs, unzip(data), Targets, InPlace);
        Run(u.fs, u.err, true, None)
  }

  /** `(*Client).Update0()` step by step; its run is `Update0Spec`, about which
      `Update0InTargets` is proved. */
  method Update0(fs: FileSystem, etagResp: Transport, zipResp: Transport, unzip: string -> Zip) returns (r: Run)
    ensures r == Update0Spec(fs, etagResp, zipResp, unzip)
  {
    var c := CompareRemoteManifestETag(fs, etagResp);
    if c.err.Some? {
      return Run(c.fs, c.err, false, None);
    }
    if !c.update {
      return Run(c.fs, None, false, None);
    }
    var zipData := DownloadRepoZip(zipResp);
    if zipData.Err? {
      return Run(c.fs, Some(zipData.error), true, None);
    }
    var fs', err := UnzipRepoZip0(c.fs, unzip(zipData.value), Targets);
    return Run(fs', err, true, None);
  }

  /** With no ".." in the selected names, the earlier updater creates and
      changes nodes only inside `iceslab` and `assets`, whether it succeeds or
      stops half-way. */
  lemma Update0InTargets(fs: FileSystem, etagResp: Transport, zipResp: Transport, unzip: string -> Zip, q: Path)
    requires Valid(fs)
    requires DownloadRepoZip(zipResp).Ok? ==> SafeNames(unzip(DownloadRepoZip(zipResp).value))
    requires Touched(CompareRemoteManifestETag(fs, etagResp).fs, Update0Spec(fs, etagResp, zipResp, unzip).fs, q)
    ensures q != [] && (q[0] == "iceslab" || q[0] == "assets")
  {
    var c := CompareRemoteManifestETag(fs, etagResp);
    var z := unzip(DownloadRepoZip(zipResp).value);
    assert z.Zip? && Update0Spec(fs, etagResp, zipResp, unzip).fs == ExtractAll(c.fs, z.entries, Targets, InPlace).fs;
    CheckValidAlone(fs, etagResp);
    TargetsAreSegments();
    ExtractAllInTargets(c.fs, z.entries, Targets, q);
  }
}

