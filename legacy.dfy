/** The earlier updater, `FetchUpdates` in utils/updateOld.go and its copy
    `fetchUpdates` in main.go: ask GitHub for the latest commit of the
    branch, compare its SHA with the one in the name of the directory the
    binary runs from, and when they differ unpack the tarball of the branch
    into `iceslab-<sha>`, record the SHA in `.last_commit` and make the new
    binary executable. */
module Legacy {
  import opened Wrappers
  import opened Text
  import opened Paths
  import opened Files
  import opened Http
  import opened Tarball

  /** The prefix of the directories the updater creates. */
  const TagPrefix: string := "iceslab-"

  /** `strings.TrimPrefix(s, prefix)`. */
  function TrimPrefix(s: string, prefix: string): (r: string)
    ensures HasPrefix(s, prefix) ==> prefix + r == s
    ensures !HasPrefix(s, prefix) ==> r == s
  {
    if HasPrefix(s, prefix) then s[|prefix|..] else s
  }

  /** Trimming a prefix that was put in front gives back what followed it. */
  lemma TrimPrefixConcat(prefix: string, x: string)
    ensures TrimPrefix(prefix + x, prefix) == x
  {
    assert (prefix + x)[..|prefix|] == prefix;
  }

  /** `filepath.Base(filepath.Dir(p))`: the last element of everything
      before the last slash, cleaned; "/" for the root and "." for an empty
      directory part. */
  function ParentName(p: string): string
  {
    var rooted := |p| > 0 && p[0] == '/';
    var segs := Split(p, '/');
    var dir := CleanFrom([], segs[..|segs| - 1], rooted);
    if |dir| == 0 then (if rooted then "/" else ".") else dir[|dir| - 1]
  }

  /** The local SHA: the name of the binary's directory without the leading
      `iceslab-`. The conversion to `[]byte` never gives nil, so the
      "first run" case of the source's switch on it cannot be taken. */
  function LocalSHA(execPath: string): string
  {
    TrimPrefix(ParentName(execPath), TagPrefix)
  }

  /** `.last_commit`, in the working directory. */
  function LastCommitPath(): Path
  {
    [".last_commit"]
  }

  lemma LastCommitPathOf()
    ensures PathOf(".last_commit") == LastCommitPath()
  {
    PathOfSingle(".last_commit");
  }

  /** `filepath.Join("iceslab-" + remoteSHA)`. */
  function NewDir(remote: string): Path
  {
    PathOf(TagPrefix + remote)
  }

  /** What a run leaves: the tree, the error, and whether the tarball was
      asked for. */
  datatype Run = Run(fs: FileSystem, err: Option<Error>, requestedTarball: bool)

  /** The inputs the network and the OS supply: the response to the commit
      request, the decoding of its JSON body to the `sha` field, the result
      of `os.Executable`, the response to the tarball request, and the
      gzip/tar reading of its body. */
  datatype World = World(
    commit: Transport,
    decodeSHA: string -> Result<string>,
    execPath: Result<string>,
    tarball: Transport,
    ungzip: string -> TarStream)

  /** The remote SHA, or the error that ends the run before it. */
  function RemoteSHA(w: World): (r: Result<string>)
    ensures w.commit.Err? ==> r == Err(w.commit.error)
    ensures w.commit.Ok? && w.commit.value.status != StatusOK ==> r == Err(HttpStatus(w.commit.value.status))
    ensures r.Ok? ==>
      (w.commit.Ok? && w.commit.value.status == StatusOK && w.commit.value.body.Some?
       && w.decodeSHA(w.commit.value.body.value) == Ok(r.value))
  {
    match w.commit
    case Err(e) => Err(e)
    case Ok(res) =>
      if res.status != StatusOK then Err(HttpStatus(res.status))
      else if res.body.None? then Err(Malformed)
      else match w.decodeSHA(res.body.value)
        case Err(_) => Err(Malformed)
        case Ok(sha) => Ok(sha)
  }

  /** The stream `extractTarGz` reads: a body that cannot be read fails in
      the gzip reader like one that is not gzip. */
  function TarOf(t: Response, w: World): TarStream
  {
    if t.body.None? then NotGzip else w.ungzip(t.body.value)
  }

  /** `filepath.Join(newDir, "iceslab")`: the new binary. */
  function BinaryPath(remote: string): Path
  {
    JoinPath(NewDir(remote), "iceslab")
  }

  /** The tarball of a 200 response unpacked into the new directory. */
  function Unpacked(fs: FileSystem, remote: string, t: Response, w: World): Outcome
  {
    ExtractTarGzSpec(fs, NewDir(remote), TarOf(t, w))
  }

  /** The steps after the new directory exists: fetch and unpack the
      tarball, write `.last_commit`, then make `iceslab` executable. */
  function Install(fs: FileSystem, remote: string, w: World): (r: Outcome)
  {
    match w.tarball
    case Err(e) => Outcome(fs, Some(e))
    case Ok(t) =>
      if t.status != StatusOK then Outcome(fs, Some(HttpStatus(t.status)))
      else
        var x := Unpacked(fs, remote, t, w);
        if x.err.Some? then x
        else
          var lc := WriteFile(x.fs, LastCommitPath(), remote, Mode644);
          if lc.err.Some? then lc
          else Chmod(lc.fs, BinaryPath(remote), Mode755)
  }

  /** `FetchUpdates()`: any failure before the SHAs are compared changes
      nothing; equal SHAs change nothing and fetch nothing; otherwise the new
      directory is made (0755) and the tarball installed into it. */
  function FetchUpdatesSpec(fs: FileSystem, w: World): (r: Run)
    ensures RemoteSHA(w).Err? ==> r == Run(fs, Some(RemoteSHA(w).error), false)
    ensures RemoteSHA(w).Ok? && w.execPath.Err? ==> r == Run(fs, Some(w.execPath.error), false)
    ensures r.requestedTarball ==> RemoteSHA(w).Ok? && w.execPath.Ok? && LocalSHA(w.execPath.value) != RemoteSHA(w).value
    ensures !r.requestedTarball && r.err.None? ==> r.fs == fs
  {
    match RemoteSHA(w)
    case Err(e) => Run(fs, Some(e), false)
    case Ok(remote) =>
      match w.execPath
      case Err(e) => Run(fs, Some(e), false)
      case Ok(exe) =>
        if LocalSHA(exe) == remote then Run(fs, None, false)
        else
          var m := MkdirAll(fs, NewDir(remote), Mode755);
          if m.err.Some? then Run(m.fs, m.err, false)
          else
            var i := Install(m.fs, remote, w);
            Run(i.fs, i.err, true)
  }

  /** `FetchUpdates()` step by step; its run is `FetchUpdatesSpec`. */
  method FetchUpdates(fs: FileSystem, w: World) returns (r: Run)
    ensures r == FetchUpdatesSpec(fs, w)
  {
    if w.commit.Err? {
      return Run(fs, Some(w.commit.error), false);
    }
    var resp := w.commit.value;
    if resp.status != StatusOK {
      return Run(fs, Some(HttpStatus(resp.status)), false);
    }
    if resp.body.None? {
      return Run(fs, Some(Malformed), false);
    }
    var commit := w.decodeSHA(resp.body.value);
    if commit.Err? {
      return Run(fs, Some(Malformed), false);
    }
    var remoteSHA := commit.value;
    if w.execPath.Err? {
      return Run(fs, Some(w.execPath.error), false);
    }
    var localSHA := LocalSHA(w.execPath.value);
    if localSHA == remoteSHA {
      return Run(fs, None, false);
    }
    var newDir := NewDir(remoteSHA);
    var m := MkdirAll(fs, newDir, Mode755);
    if m.err.Some? {
      return Run(m.fs, m.err, false);
    }
    var fs' := m.fs;
    if w.tarball.Err? {
      return Run(fs', Some(w.tarball.error), true);
    }
    var tarResp := w.tarball.value;
    if tarResp.status != StatusOK {
      return Run(fs', Some(HttpStatus(tarResp.status)), true);
    }
    var stream := if tarResp.body.None? then NotGzip else w.ungzip(tarResp.body.value);
    var xerr: Option<Error>;
    fs', xerr := ExtractTarGz(fs', newDir, stream);
    if xerr.Some? {
      return Run(fs', xerr, true);
    }
    var lc := WriteFile(fs', LastCommitPath(), remoteSHA, Mode644);
    if lc.err.Some? {
      return Run(lc.fs, lc.err, true);
    }
    var c := Chmod(lc.fs, BinaryPath(remoteSHA), Mode755);
    return Run(c.fs, c.err, true);
  }

  /** When the local SHA equals the remote one the run ends without error,
      fetches no tarball and leaves the tree as it was, whatever the
      tarball would have been. */
  lemma UpToDateDoesNothing(fs: FileSystem, w: World, tarball: Transport, ungzip: string -> TarStream)
    requires RemoteSHA(w).Ok? && w.execPath.Ok? && LocalSHA(w.execPath.value) == RemoteSHA(w).value
    ensures FetchUpdatesSpec(fs, w) == Run(fs, None, false)
    ensures FetchUpdatesSpec(fs, w.(tarball := tarball, ungzip := ungzip)) == FetchUpdatesSpec(fs, w)
  {
  }

  /** A tarball request that fails or answers with a status other than 200
      is an error, and leaves only the new directory behind. */
  lemma TarballStatusChecked(fs: FileSystem, w: World)
    requires RemoteSHA(w).Ok? && w.execPath.Ok? && LocalSHA(w.execPath.value) != RemoteSHA(w).value
    requires MkdirAll(fs, NewDir(RemoteSHA(w).value), Mode755).err.None?
    requires w.tarball.Err? || w.tarball.value.status != StatusOK
    ensures var r := FetchUpdatesSpec(fs, w);
      && r.err.Some? && r.requestedTarball
      && r.fs == MkdirAll(fs, NewDir(RemoteSHA(w).value), Mode755).fs
      && (w.tarball.Ok? ==> r.err == Some(HttpStatus(w.tarball.value.status)))
  {
  }

  /** After a good unpacking and an allowed write, `.last_commit` holds the
      SHA whatever the chmod does, and a chmod that succeeds leaves the new
      binary with mode 0755. */
  lemma InstallWritesLastCommit(fs: FileSystem, remote: string, w: World)
    requires w.tarball.Ok? && w.tarball.value.status == StatusOK
    requires var x := Unpacked(fs, remote, w.tarball.value, w);
      x.err.None? && CanWrite(x.fs, LastCommitPath())
    ensures var r := Install(fs, remote, w);
      && ReadFile(r.fs, LastCommitPath()) == Ok(remote)
      && (r.err.None? ==> BinaryPath(remote) in r.fs.nodes && r.fs.nodes[BinaryPath(remote)].mode == Mode755)
  {
    var x := Unpacked(fs, remote, w.tarball.value, w);
    var lc := WriteFile(x.fs, LastCommitPath(), remote, Mode644);
    assert lc.err.None?;
    assert Install(fs, remote, w) == Chmod(lc.fs, BinaryPath(remote), Mode755);
    WriteFileReads(x.fs, LastCommitPath(), remote, Mode644);
    ChmodKeepsData(lc.fs, BinaryPath(remote), Mode755, LastCommitPath());
  }

  /** `.last_commit` is written before the chmod: once the tarball has been
      unpacked and the write allowed, the file holds the remote SHA whether
      or not the chmod then fails; a successful run also leaves
      `iceslab-<sha>/iceslab` with mode 0755. */
  lemma LastCommitBeforeChmod(fs: FileSystem, w: World)
    requires RemoteSHA(w).Ok? && w.execPath.Ok? && LocalSHA(w.execPath.value) != RemoteSHA(w).value
    requires var m := MkdirAll(fs, NewDir(RemoteSHA(w).value), Mode755);
      && m.err.None? && w.tarball.Ok? && w.tarball.value.status == StatusOK
      && var x := Unpacked(m.fs, RemoteSHA(w).value, w.tarball.value, w);
      x.err.None? && CanWrite(x.fs, LastCommitPath())
    ensures var r := FetchUpdatesSpec(fs, w);
      && r.requestedTarball
      && ReadFile(r.fs, LastCommitPath()) == Ok(RemoteSHA(w).value)
      && (r.err.None? ==> BinaryPath(RemoteSHA(w).value) in r.fs.nodes && r.fs.nodes[BinaryPath(RemoteSHA(w).value)].mode == Mode755)
  {
    var remote := RemoteSHA(w).value;
    var m := MkdirAll(fs, NewDir(remote), Mode755);
    InstallWritesLastCommit(m.fs, remote, w);
    var i := Install(m.fs, remote, w);
    assert FetchUpdatesSpec(fs, w) == Run(i.fs, i.err, true);
  }

  // ------------------------------------------------------------------
  // The next run

  /** A segment that cleaning leaves as it is. */
  predicate Plain(s: string)
  {
    '/' !in s && s != "" && s != "." && s != ".."
  }

  /** Cleaning a sequence of plain segments appends them. */
  lemma {:induction false} CleanFromPlain(acc: seq<string>, segs: seq<string>, rooted: bool)
    requires IsClean(acc, rooted)
    requires forall k :: 0 <= k < |segs| ==> Plain(segs[k])
    ensures CleanFrom(acc, segs, rooted) == acc + segs
    decreases |segs|
  {
    if |segs| > 0 {
      var a := Push(acc, segs[0], rooted);
      var rest := segs[1..];
      assert a == acc + [segs[0]] by {
        assert Plain(segs[0]);
      }
      assert forall k :: 0 <= k < |rest| ==> Plain(rest[k]) by {
        forall k | 0 <= k < |rest| ensures Plain(rest[k]) {
          assert rest[k] == segs[k + 1];
        }
      }
      CleanFromPlain(a, rest, rooted);
      assert CleanFrom(acc, segs, rooted) == CleanFrom(a, rest, rooted);
      AppendHead(acc, segs);
    }
  }

  /** Appending the head and then the tail appends the whole sequence. */
  lemma AppendHead(acc: seq<string>, segs: seq<string>)
    requires |segs| > 0
    ensures acc + [segs[0]] + segs[1..] == acc + segs
  {
    assert [segs[0]] + segs[1..] == segs;
  }

  /** The name of the directory the updater makes is a plain segment. */
  lemma TagIsPlain(remote: string)
    requires '/' !in remote
    ensures Plain(TagPrefix + remote)
  {
    var t := TagPrefix + remote;
    forall k | 0 <= k < |t| ensures t[k] != '/' {
      if k < |TagPrefix| { assert t[k] == TagPrefix[k]; } else { assert t[k] == remote[k - |TagPrefix|]; }
    }
  }

  lemma NoSlashParts(dirs: seq<string>, last: string, name: string)
    requires forall k :: 0 <= k < |dirs| ==> Plain(dirs[k])
    requires '/' !in last && '/' !in name
    ensures var parts := [""] + dirs + [last, name];
      forall k :: 0 <= k < |parts| ==> '/' !in parts[k]
  {
    var parts := [""] + dirs + [last, name];
    forall k | 0 <= k < |parts| ensures '/' !in parts[k] {
      if k == 0 {
        assert parts[k] == "";
      } else if k <= |dirs| {
        assert parts[k] == dirs[k - 1];
      } else if k == |dirs| + 1 {
        assert parts[k] == last;
      } else {
        assert parts[k] == name;
      }
    }
  }

  /** The parent name of a rooted path whose directory segments are plain
      is the last of them. */
  lemma ParentNameRooted(p: string, dirs: seq<string>, last: string, name: string)
    requires |p| > 0 && p[0] == '/'
    requires Split(p, '/') == [""] + dirs + [last, name]
    requires forall k :: 0 <= k < |dirs| ==> Plain(dirs[k])
    requires Plain(last)
    ensures ParentName(p) == last
  {
    var segs := Split(p, '/');
    var front := dirs + [last];
    assert segs[..|segs| - 1] == [""] + front;
    assert forall k :: 0 <= k < |front| ==> Plain(front[k]) by {
      forall k | 0 <= k < |front| ensures Plain(front[k]) {
        if k < |dirs| { assert front[k] == dirs[k]; }
      }
    }
    CleanFromPlain([], front, true);
    assert CleanFrom([], [""] + front, true) == front by {
      assert Push([], "", true) == [];
      assert ([""] + front)[1..] == front;
    }
  }

  /** The parent name of `/d1/.../dn/<last>/<name>` is `<last>`. */
  lemma ParentNameOfJoin(dirs: seq<string>, last: string, name: string)
    requires forall k :: 0 <= k < |dirs| ==> Plain(dirs[k])
    requires Plain(last) && '/' !in name
    ensures ParentName(JoinSep([""] + dirs + [last, name], '/')) == last
  {
    var parts := [""] + dirs + [last, name];
    var exe := JoinSep(parts, '/');
    assert Split(exe, '/') == parts by {
      NoSlashParts(dirs, last, name);
      SplitJoin(parts, '/');
    }
    assert exe[0] == '/' by {
      JoinOneOrMore(parts, '/');
    }
    ParentNameRooted(exe, dirs, last, name);
  }

  /** The directory of a run is named after its SHA: a binary at
      `/d1/.../dn/iceslab-<sha>/<name>` reads its local SHA back as `<sha>`. */
  lemma SHAFromDirectory(dirs: seq<string>, remote: string, name: string)
    requires forall k :: 0 <= k < |dirs| ==> Plain(dirs[k])
    requires '/' !in remote && '/' !in name
    ensures LocalSHA(JoinSep([""] + dirs + [TagPrefix + remote, name], '/')) == remote
  {
    TagIsPlain(remote);
    ParentNameOfJoin(dirs, TagPrefix + remote, name);
    TrimPrefixConcat(TagPrefix, remote);
  }

  /** A run started from the binary it installed finds the same remote SHA
      up to date: it fetches nothing and changes nothing. */
  lemma NextRunUpToDate(fs: FileSystem, w: World, dirs: seq<string>, name: string)
    requires RemoteSHA(w).Ok? && '/' !in RemoteSHA(w).value
    requires forall k :: 0 <= k < |dirs| ==> Plain(dirs[k])
    requires '/' !in name
    requires w.execPath == Ok(JoinSep([""] + dirs + [TagPrefix + RemoteSHA(w).value, name], '/'))
    ensures FetchUpdatesSpec(fs, w) == Run(fs, None, false)
  {
    SHAFromDirectory(dirs, RemoteSHA(w).value, name);
  }
}
