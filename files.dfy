/** The part of the operating system's file tree the core touches (`os` and
    `filepath` on Unix), as a value: each operation takes a tree and returns
    the new tree and the error, if any. */
module Files {
  import opened Wrappers
  import opened Text
  import opened Paths

  datatype Node = Dir(mode: nat) | File(data: string, mode: nat)

  /** `nodes` maps every path below the root to what is there; `denied` holds
      the paths the OS refuses to create, open, write or remove (permissions,
      read-only mounts): the only source of failure besides the tree's shape. */
  datatype FileSystem = FileSystem(nodes: map<Path, Node>, denied: set<Path>)

  /** The tree after an operation and the error it returned, if any. */
  datatype Outcome = Outcome(fs: FileSystem, err: Option<Error>)

  const ModePerm: nat := 511  // 0o777
  const Mode755: nat := 493   // 0o755
  const Mode644: nat := 420   // 0o644
  const Mode666: nat := 438   // 0o666, what os.Create uses

  predicate IsDir(fs: FileSystem, p: Path)
  {
    p == [] || (p in fs.nodes && fs.nodes[p].Dir?)
  }

  predicate IsFile(fs: FileSystem, p: Path)
  {
    p != [] && p in fs.nodes && fs.nodes[p].File?
  }

  predicate Exists(fs: FileSystem, p: Path)
  {
    p == [] || p in fs.nodes
  }

  /** A segment a cleaned path can hold. */
  ghost predicate Segment(s: string)
  {
    s != "" && s != "." && '/' !in s
  }

  ghost predicate WfPath(p: Path)
  {
    forall k :: 0 <= k < |p| ==> Segment(p[k])
  }

  lemma CleanIsWf(p: Path)
    requires IsClean(p, false) && NoSlash(p)
    ensures WfPath(p)
  {
  }

  /** Every path a relative path string resolves to is well formed. */
  lemma PathOfWf(s: string)
    ensures WfPath(PathOf(s))
  {
    CleanFromNoSlash([], Split(s, '/'), false);
  }

  lemma JoinPathWf(dir: Path, rel: string)
    requires IsClean(dir, false) && WfPath(dir)
    ensures WfPath(JoinPath(dir, rel))
  {
    JoinPathNoSlash(dir, rel);
  }

  lemma DirOfWf(s: string)
    ensures WfPath(DirOf(s))
  {
    var segs := Split(s, '/');
    CleanFromNoSlash([], segs[..|segs| - 1], false);
  }

  /** A tree: the root is implicit, every path is well formed, and the parent
      of every node is a directory. */
  ghost predicate Valid(fs: FileSystem)
  {
    && [] !in fs.nodes
    && (forall p :: p in fs.nodes ==> WfPath(p))
    && (forall p {:trigger Parent(p)} :: p in fs.nodes ==> IsDir(fs, Parent(p)))
  }

  /** The root is implicit and every node's path is well formed: the part of
      `Valid` that paths alone decide. */
  ghost predicate WfNodes(fs: FileSystem)
  {
    [] !in fs.nodes && forall p :: p in fs.nodes ==> WfPath(p)
  }

  /** Every node at or below `p`. */
  function Below(fs: FileSystem, p: Path): set<Path>
  {
    set q | q in fs.nodes && p <= q
  }

  /** The names directly inside directory `d`. */
  function Children(fs: FileSystem, d: Path): set<string>
  {
    set q | q in fs.nodes && |q| == |d| + 1 && d <= q :: q[|d|]
  }

  lemma ChildIn(fs: FileSystem, d: Path, n: string)
    requires n in Children(fs, d)
    ensures d + [n] in fs.nodes
  {
    var q :| q in fs.nodes && |q| == |d| + 1 && d <= q && q[|d|] == n;
    assert q == d + [n];
  }

  lemma ChildrenOf(fs: FileSystem, d: Path, n: string)
    requires d + [n] in fs.nodes
    ensures n in Children(fs, d)
  {
    var q := d + [n];
    assert |q| == |d| + 1 && d <= q && q[|d|] == n;
  }

  // ------------------------------------------------------------------
  // os.Stat, os.ReadFile, os.ReadDir

  /** The error of `os.Stat(p)`: none when `p` exists, ENOTDIR when a proper
      prefix is a regular file, ENOENT otherwise. */
  function StatErr(fs: FileSystem, p: Path): (r: Option<Error>)
    ensures r.None? <==> Exists(fs, p)
    ensures r.Some? ==> r.value == NotExist || r.value == NotADirectory
    decreases |p|
  {
    if Exists(fs, p) then None
    else
      var pe := StatErr(fs, Parent(p));
      if pe.Some? then pe
      else if IsFile(fs, Parent(p)) then Some(NotADirectory)
      else Some(NotExist)
  }

  /** `os.ReadFile(p)`. */
  function ReadFile(fs: FileSystem, p: Path): (r: Result<string>)
    ensures r.Ok? <==> IsFile(fs, p) && p !in fs.denied
    ensures r.Ok? ==> r.value == fs.nodes[p].data
  {
    if !Exists(fs, p) then Err(NotExist)
    else if p in fs.denied then Err(PermissionDenied)
    else if IsDir(fs, p) then Err(IsADirectory)
    else Ok(fs.nodes[p].data)
  }

  /** Whether `os.ReadDir(d)` succeeds; its entries are `Children(fs, d)` in
      sorted order. */
  function ReadDirErr(fs: FileSystem, d: Path): (r: Option<Error>)
    ensures r.None? <==> IsDir(fs, d) && d !in fs.denied
  {
    if !Exists(fs, d) then Some(NotExist)
    else if !IsDir(fs, d) then Some(NotADirectory)
    else if d in fs.denied then Some(PermissionDenied)
    else None
  }

  // ------------------------------------------------------------------
  // os.MkdirAll

  /** The condition under which `MkdirAll(p)` succeeds: every prefix of `p` is
      a directory already, or is absent and may be created. */
  ghost predicate CanMkdirAll(fs: FileSystem, p: Path)
  {
    forall k :: 1 <= k <= |p| ==>
      (p[..k] in fs.nodes ==> fs.nodes[p[..k]].Dir?) && (p[..k] !in fs.nodes ==> p[..k] !in fs.denied)
  }

  /** `os.MkdirAll(p, mode)`: create every missing prefix of `p`, in order from
      the root, with `mode`; stop at the first failure, keeping what was made. */
  function MkdirAll(fs: FileSystem, p: Path, mode: nat): (r: Outcome)
    ensures r.fs.denied == fs.denied
    ensures forall q :: q in fs.nodes ==> q in r.fs.nodes && r.fs.nodes[q] == fs.nodes[q]
    ensures forall q :: q in r.fs.nodes && q !in fs.nodes ==> |q| >= 1 && q <= p && r.fs.nodes[q] == Dir(mode)
    ensures r.err.None? ==> IsDir(r.fs, p)
    decreases |p|
  {
    if p == [] then Outcome(fs, None)
    else if p in fs.nodes then
      if fs.nodes[p].Dir? then Outcome(fs, None) else Outcome(fs, Some(NotADirectory))
    else
      var r1 := MkdirAll(fs, Parent(p), mode);
      if r1.err.Some? then r1
      else if p in fs.denied then Outcome(r1.fs, Some(PermissionDenied))
      else Outcome(r1.fs.(nodes := r1.fs.nodes[p := Dir(mode)]), None)
  }

  /** `MkdirAll` fails exactly when some prefix is a file or may not be
      created. */
  lemma {:induction false} MkdirAllSucceeds(fs: FileSystem, p: Path, mode: nat)
    requires Valid(fs)
    ensures MkdirAll(fs, p, mode).err.None? <==> CanMkdirAll(fs, p)
    decreases |p|
  {
    if p != [] && p !in fs.nodes {
      MkdirAllSucceeds(fs, Parent(p), mode);
      CanMkdirAllMissing(fs, p);
    } else if p != [] {
      CanMkdirAllPresent(fs, p);
    }
  }

  /** A missing path may be made exactly when its parent may and it is not
      refused. */
  lemma CanMkdirAllMissing(fs: FileSystem, p: Path)
    requires p != [] && p !in fs.nodes
    ensures CanMkdirAll(fs, p) <==> CanMkdirAll(fs, Parent(p)) && p !in fs.denied
  {
    assert p[..|p|] == p;
    forall k | 1 <= k <= |Parent(p)| ensures Parent(p)[..k] == p[..k] { }
    if CanMkdirAll(fs, Parent(p)) && p !in fs.denied {
      forall k | 1 <= k <= |p| ensures
        (p[..k] in fs.nodes ==> fs.nodes[p[..k]].Dir?) && (p[..k] !in fs.nodes ==> p[..k] !in fs.denied)
      {
        if k < |p| { assert Parent(p)[..k] == p[..k]; }
      }
    }
  }

  /** In a valid tree an existing path may be made exactly when it is a
      directory. */
  lemma CanMkdirAllPresent(fs: FileSystem, p: Path)
    requires Valid(fs) && p != [] && p in fs.nodes
    ensures CanMkdirAll(fs, p) <==> fs.nodes[p].Dir?
  {
    if fs.nodes[p].Dir? {
      forall k | 1 <= k <= |p| ensures p[..k] in fs.nodes && fs.nodes[p[..k]].Dir? {
        AncestorIsDir(fs, p, k);
      }
    } else {
      assert p[..|p|] == p;
    }
  }

  /** In a valid tree every prefix of a node is a directory node. */
  lemma {:induction false} AncestorIsDir(fs: FileSystem, p: Path, k: nat)
    requires Valid(fs) && p in fs.nodes && 1 <= k <= |p|
    requires k == |p| ==> fs.nodes[p].Dir?
    ensures p[..k] in fs.nodes && fs.nodes[p[..k]].Dir?
    decreases |p|
  {
    if k == |p| {
      assert p[..k] == p;
    } else {
      var q := p[..|p| - 1];
      assert q in fs.nodes && fs.nodes[q].Dir? by {
        assert Parent(p) == q;
        assert IsDir(fs, Parent(p));
      }
      assert q[..k] == p[..k];
      AncestorIsDir(fs, q, k);
    }
  }

  lemma MkdirAllValid(fs: FileSystem, p: Path, mode: nat)
    requires Valid(fs) && WfPath(p)
    ensures Valid(MkdirAll(fs, p, mode).fs)
    decreases |p|
  {
    if p != [] && p !in fs.nodes {
      MkdirAllValid(fs, Parent(p), mode);
    }
  }

  // ------------------------------------------------------------------
  // os.WriteFile

  /** When `os.WriteFile(p, …)` succeeds: `p` is not a directory, its parent is
      one, and the OS lets it be written. */
  predicate CanWrite(fs: FileSystem, p: Path)
  {
    p != [] && !IsDir(fs, p) && IsDir(fs, Parent(p)) && p !in fs.denied
  }

  /** `os.WriteFile(p, data, perm)`: create or truncate. A new file gets
      `perm`; an existing file keeps its mode. */
  function WriteFile(fs: FileSystem, p: Path, data: string, perm: nat): (r: Outcome)
    ensures r.err.None? <==> CanWrite(fs, p)
    ensures r.err.Some? ==> r.fs == fs
    ensures r.err.None? ==> r.fs.denied == fs.denied
    ensures r.err.None? ==>
      r.fs.nodes == fs.nodes[p := File(data, if IsFile(fs, p) then fs.nodes[p].mode else perm)]
  {
    if IsDir(fs, p) then Outcome(fs, Some(IsADirectory))
    else if !IsDir(fs, Parent(p)) then
      Outcome(fs, Some(if Exists(fs, Parent(p)) then NotADirectory else NotExist))
    else if p in fs.denied then Outcome(fs, Some(PermissionDenied))
    else
      var mode := if IsFile(fs, p) then fs.nodes[p].mode else perm;
      Outcome(fs.(nodes := fs.nodes[p := File(data, mode)]), None)
  }

  lemma WriteFileValid(fs: FileSystem, p: Path, data: string, perm: nat)
    requires Valid(fs) && WfPath(p)
    ensures Valid(WriteFile(fs, p, data, perm).fs)
  {
  }

  /** `os.Chmod(p, mode)` on a node of the tree. */
  function Chmod(fs: FileSystem, p: Path, mode: nat): (r: Outcome)
    ensures r.err.None? <==> p in fs.nodes && p !in fs.denied
    ensures r.err.Some? ==> r.fs == fs
    ensures r.err.None? ==> r.fs == fs.(nodes := fs.nodes[p := fs.nodes[p].(mode := mode)])
  {
    if p !in fs.nodes then Outcome(fs, Some(NotExist))
    else if p in fs.denied then Outcome(fs, Some(PermissionDenied))
    else Outcome(fs.(nodes := fs.nodes[p := fs.nodes[p].(mode := mode)]), None)
  }

  /** What `os.WriteFile` wrote, `os.ReadFile` reads back. */
  lemma WriteFileReads(fs: FileSystem, p: Path, data: string, perm: nat)
    requires CanWrite(fs, p)
    ensures ReadFile(WriteFile(fs, p, data, perm).fs, p) == Ok(data)
  {
  }

  /** A chmod changes no file's contents and is invisible to `os.ReadFile`. */
  lemma ChmodKeepsData(fs: FileSystem, p: Path, mode: nat, q: Path)
    ensures ReadFile(Chmod(fs, p, mode).fs, q) == ReadFile(fs, q)
  {
  }

  // ------------------------------------------------------------------
  // os.Remove, os.RemoveAll

  /** `os.Remove(p)`: a regular file or an empty directory. */
  function Remove(fs: FileSystem, p: Path): (r: Outcome)
    ensures r.err.None? ==> r.fs == fs.(nodes := fs.nodes - {p})
    ensures r.err.Some? ==> r.fs == fs
  {
    if p == [] then Outcome(fs, Some(InvalidArgument))
    else if p !in fs.nodes then Outcome(fs, Some(NotExist))
    else if p in fs.denied then Outcome(fs, Some(PermissionDenied))
    else if fs.nodes[p].Dir? && Children(fs, p) != {} then Outcome(fs, Some(NotEmpty))
    else Outcome(fs.(nodes := fs.nodes - {p}), None)
  }

  /** `os.RemoveAll(p)`: `p` and everything below it. A missing `p` is not an
      error. When the OS refuses one of the paths the tree is left as it was
      (a simplification: the real call removes what it can). */
  function RemoveAll(fs: FileSystem, p: Path): (r: Outcome)
    ensures r.err.None? ==> r.fs == fs.(nodes := fs.nodes - Below(fs, p))
    ensures r.err.Some? ==> r.fs == fs
  {
    if p == [] then Outcome(fs, Some(InvalidArgument))
    else if Below(fs, p) * fs.denied != {} then Outcome(fs, Some(PermissionDenied))
    else Outcome(fs.(nodes := fs.nodes - Below(fs, p)), None)
  }

  lemma RemoveAllValid(fs: FileSystem, p: Path)
    requires Valid(fs)
    ensures Valid(RemoveAll(fs, p).fs)
  {
    var r := RemoveAll(fs, p);
    if r.err.None? {
      forall q | q in r.fs.nodes ensures IsDir(r.fs, Parent(q)) {
      }
    }
  }

  // ------------------------------------------------------------------
  // os.Rename

  /** The paths the move lands on: the subtree at `src`, re-rooted at `dst`. */
  function Landed(fs: FileSystem, src: Path, dst: Path): set<Path>
  {
    set q | q in Below(fs, src) :: dst + q[|src|..]
  }

  lemma LandedFrom(fs: FileSystem, src: Path, dst: Path, q: Path)
    ensures q in Landed(fs, src, dst) <==> dst <= q && src + q[|dst|..] in fs.nodes
  {
    if dst <= q && src + q[|dst|..] in fs.nodes {
      var q0 := src + q[|dst|..];
      assert q0 in Below(fs, src);
      assert q == dst + q0[|src|..];
    }
    if q in Landed(fs, src, dst) {
      var q0 :| q0 in Below(fs, src) && q == dst + q0[|src|..];
      assert q0 == src + q[|dst|..];
    }
  }

  /** The tree with the subtree at `src` moved to `dst` (replacing `dst`). */
  function Moved(fs: FileSystem, src: Path, dst: Path): (r: FileSystem)
    ensures r.denied == fs.denied
  {
    var keys := (set q | q in fs.nodes && !(src <= q) && !(dst <= q)) + Landed(fs, src, dst);
    assert forall q :: q in keys && dst <= q ==> src + q[|dst|..] in fs.nodes by {
      forall q | q in keys && dst <= q ensures src + q[|dst|..] in fs.nodes {
        LandedFrom(fs, src, dst, q);
      }
    }
    fs.(nodes := map q | q in keys :: if dst <= q then fs.nodes[src + q[|dst|..]] else fs.nodes[q])
  }

  /** After the move, a path inside `dst` holds what was at the same
      relative place inside `src`, and any other path holds what it held,
      unless it was inside `src`. */
  lemma MovedNodes(fs: FileSystem, src: Path, dst: Path, q: Path)
    ensures dst <= q ==>
      (q in Moved(fs, src, dst).nodes <==> src + q[|dst|..] in fs.nodes)
      && (q in Moved(fs, src, dst).nodes ==> Moved(fs, src, dst).nodes[q] == fs.nodes[src + q[|dst|..]])
    ensures !(dst <= q) ==>
      (q in Moved(fs, src, dst).nodes <==> q in fs.nodes && !(src <= q))
      && (q in Moved(fs, src, dst).nodes ==> Moved(fs, src, dst).nodes[q] == fs.nodes[q])
  {
    LandedFrom(fs, src, dst, q);
  }

  /** A move leaves a path inside neither end as it was. */
  lemma MovedFrame(fs: FileSystem, src: Path, dst: Path, q: Path)
    requires !(src <= q) && !(dst <= q)
    ensures q in Moved(fs, src, dst).nodes <==> q in fs.nodes
    ensures q in fs.nodes ==> Moved(fs, src, dst).nodes[q] == fs.nodes[q]
  {
    MovedNodes(fs, src, dst, q);
  }

  /** `os.Rename(src, dst)` on Linux. Go first looks at `dst`: when it is an
      existing directory, empty or not, the call fails with EEXIST without
      reaching the system call. Otherwise rename(2): a file replaces a file,
      a directory cannot replace a file, and nothing moves into itself. */
  function Rename(fs: FileSystem, src: Path, dst: Path): (r: Outcome)
    ensures r.err.Some? ==> r.fs == fs
    ensures r.err.None? && src != dst ==> r.fs == Moved(fs, src, dst)
    ensures r.err.None? ==> src in fs.nodes && !IsDir(fs, dst)
  {
    if src == [] then Outcome(fs, Some(InvalidArgument))
    else if src !in fs.nodes then Outcome(fs, Some(NotExist))
    else if IsDir(fs, dst) then Outcome(fs, Some(AlreadyExists))
    else if src in fs.denied || dst in fs.denied then Outcome(fs, Some(PermissionDenied))
    else if !IsDir(fs, Parent(dst)) then
      Outcome(fs, Some(if Exists(fs, Parent(dst)) then NotADirectory else NotExist))
    else if src == dst then Outcome(fs, None)
    else if src <= dst then Outcome(fs, Some(InvalidArgument))
    else if Exists(fs, dst) && fs.nodes[src].Dir? then Outcome(fs, Some(NotADirectory))
    else Outcome(Moved(fs, src, dst), None)
  }

  /** A rename leaves a path inside neither end as it was. */
  lemma RenameFrame(fs: FileSystem, src: Path, dst: Path, q: Path)
    requires !(src <= q) && !(dst <= q)
    ensures q in Rename(fs, src, dst).fs.nodes <==> q in fs.nodes
    ensures q in fs.nodes ==> Rename(fs, src, dst).fs.nodes[q] == fs.nodes[q]
  {
    if Rename(fs, src, dst).err.None? && src != dst {
      MovedFrame(fs, src, dst, q);
    }
  }

  /** A rename onto a free place under an existing directory moves the
      subtree. */
  lemma RenameSucceeds(fs: FileSystem, src: Path, dst: Path)
    requires src != [] && src in fs.nodes && dst != [] && dst !in fs.nodes
    requires src !in fs.denied && dst !in fs.denied
    requires IsDir(fs, Parent(dst)) && !(src <= dst)
    ensures Rename(fs, src, dst) == Outcome(Moved(fs, src, dst), None)
  {
  }

  /** A rename onto an existing directory is refused with EEXIST. */
  lemma RenameOntoDir(fs: FileSystem, src: Path, dst: Path)
    requires src != [] && src in fs.nodes && IsDir(fs, dst)
    ensures Rename(fs, src, dst) == Outcome(fs, Some(AlreadyExists))
  {
  }

  /** `MkdirAll` of an existing directory changes nothing. */
  lemma MkdirAllExisting(fs: FileSystem, p: Path, mode: nat)
    requires IsDir(fs, p)
    ensures MkdirAll(fs, p, mode) == Outcome(fs, None)
  {
  }

  /** `MkdirAll` of a missing directory whose parent exists makes just it. */
  lemma MkdirAllOne(fs: FileSystem, p: Path, mode: nat)
    requires p != [] && p !in fs.nodes && p !in fs.denied && IsDir(fs, Parent(p))
    ensures MkdirAll(fs, p, mode) == Outcome(fs.(nodes := fs.nodes[p := Dir(mode)]), None)
  {
    MkdirAllExisting(fs, Parent(p), mode);
  }
}
