/** `unzipInto` (utils/fs.go): every entry of a zip, unfiltered and unstripped,
    below a destination, directories with mode 0755 and files with 0644. */
module ZipInto {
  import opened Wrappers
  import opened Paths
  import opened Files
  import opened Archive

  /** Where `filepath.Join(dest, entry.Name)` resolves. */
  function Place(dest: Path, e: ZipEntry): (p: Path)
    requires IsClean(dest, false)
    ensures IsClean(p, false)
  {
    JoinPath(dest, e.name)
  }

  /** One pass of the loop: the parent directory first (0777), then either the
      directory itself (0755) or the file's content (0644); any failure ends
      the extraction. */
  function IntoEntry(fs: FileSystem, dest: Path, e: ZipEntry): (r: Outcome)
    requires IsClean(dest, false)
    ensures r.fs.denied == fs.denied
    ensures Grows(fs, r.fs)
    ensures [] !in fs.nodes ==> [] !in r.fs.nodes
  {
    var full := Place(dest, e);
    var m := MkdirAll(fs, Parent(full), ModePerm);
    if m.err.Some? then m
    else if e.isDir then MkdirAll(m.fs, full, Mode755)
    else if e.data.None? then Outcome(m.fs, Some(Malformed))
    else WriteFile(m.fs, full, e.data.value, Mode644)
  }

  /** A file entry that succeeds is at its place with its content, and with
      mode 0644 unless a file was there already; a directory entry that
      succeeds is a directory, with mode 0755 if it is new. */
  lemma IntoEntryWrites(fs: FileSystem, dest: Path, e: ZipEntry)
    requires IsClean(dest, false)
    requires IntoEntry(fs, dest, e).err.None?
    ensures var r := IntoEntry(fs, dest, e).fs;
      var full := Place(dest, e);
      && (!e.isDir ==> e.data.Some? && r.nodes[full] == File(e.data.value, if IsFile(fs, full) then fs.nodes[full].mode else Mode644))
      && (e.isDir ==> IsDir(r, full) && (full !in fs.nodes && full != [] ==> r.nodes[full] == Dir(Mode755)))
  {
    var full := Place(dest, e);
    var m := MkdirAll(fs, Parent(full), ModePerm);
    if !e.isDir {
      assert CanWrite(m.fs, full);
    }
  }

  /** The loop over `zr.File`, in archive order, up to the first failure. */
  function IntoAll(fs: FileSystem, dest: Path, es: seq<ZipEntry>): (r: Outcome)
    requires IsClean(dest, false)
    ensures r.fs.denied == fs.denied
    ensures Grows(fs, r.fs)
    ensures [] !in fs.nodes ==> [] !in r.fs.nodes
    decreases |es|
  {
    if |es| == 0 then Outcome(fs, None)
    else
      var o := IntoEntry(fs, dest, es[0]);
      if o.err.Some? then o else IntoAll(o.fs, dest, es[1..])
  }

  /** `unzipInto(dest, zipData)`. */
  function UnzipIntoSpec(fs: FileSystem, dest: Path, z: Zip): (r: Outcome)
    requires IsClean(dest, false)
  {
    match z
    case Unreadable => Outcome(fs, Some(Malformed))
    case Zip(es) => IntoAll(fs, dest, es)
  }

  /** `unzipInto(dest, zipData)` step by step; its outcome is `UnzipIntoSpec`,
      about which the `IntoAll` lemmas are proved. */
  method UnzipInto(fs: FileSystem, dest: Path, z: Zip) returns (fs': FileSystem, err: Option<Error>)
    requires IsClean(dest, false)
    ensures Outcome(fs', err) == UnzipIntoSpec(fs, dest, z)
    ensures z.Unreadable? ==> fs' == fs && err.Some?
  {
    if z.Unreadable? {
      return fs, Some(Malformed);
    }
    var es := z.entries;
    fs' := fs;
    for i := 0 to |es|
      invariant IntoAll(fs, dest, es) == IntoAll(fs', dest, es[i..])
    {
      assert es[i..][1..] == es[i + 1..];
      var e := es[i];
      var full := JoinPath(dest, e.name);
      var m := MkdirAll(fs', Parent(full), ModePerm);
      if m.err.Some? {
        return m.fs, m.err;
      }
      if e.isDir {
        var d := MkdirAll(m.fs, full, Mode755);
        if d.err.Some? {
          return d.fs, d.err;
        }
        fs' := d.fs;
        continue;
      }
      if e.data.None? {
        return m.fs, Some(Malformed);
      }
      var w := WriteFile(m.fs, full, e.data.value, Mode644);
      if w.err.Some? {
        return w.fs, w.err;
      }
      fs' := w.fs;
    }
    return fs', None;
  }

  /** Extracting `a + b` is extracting `a` and then, if that succeeded, `b`. */
  lemma {:induction false} IntoAllAppend(fs: FileSystem, dest: Path, a: seq<ZipEntry>, b: seq<ZipEntry>)
    requires IsClean(dest, false)
    ensures var o := IntoAll(fs, dest, a);
      IntoAll(fs, dest, a + b) == if o.err.Some? then o else IntoAll(o.fs, dest, b)
    decreases |a|
  {
    if |a| == 0 {
      assert a + b == b;
    } else {
      assert (a + b)[0] == a[0] && (a + b)[1..] == a[1..] + b;
      var o := IntoEntry(fs, dest, a[0]);
      if o.err.None? {
        IntoAllAppend(o.fs, dest, a[1..], b);
      }
    }
  }

  /** Entries are applied in archive order: when the last entry is a file and
      the extraction succeeds, its content is what its place holds, whatever
      earlier entries wrote there. */
  lemma LastWriteWins(fs: FileSystem, dest: Path, es: seq<ZipEntry>, e: ZipEntry)
    requires IsClean(dest, false)
    requires !e.isDir
    requires IntoAll(fs, dest, es + [e]).err.None?
    ensures e.data.Some?
    ensures IsFile(IntoAll(fs, dest, es + [e]).fs, Place(dest, e))
    ensures IntoAll(fs, dest, es + [e]).fs.nodes[Place(dest, e)].data == e.data.value
  {
    IntoAllAppend(fs, dest, es, [e]);
    var o := IntoAll(fs, dest, es);
    assert [e][1..] == [];
    IntoEntryWrites(o.fs, dest, e);
    assert CanWrite(MkdirAll(o.fs, Parent(Place(dest, e)), ModePerm).fs, Place(dest, e));
  }

  /** A failure aborts: the entries after the failing one are not looked at,
      and the earlier ones stay extracted. */
  lemma IntoAllAbort(fs: FileSystem, dest: Path, a: seq<ZipEntry>, b: seq<ZipEntry>)
    requires IsClean(dest, false)
    requires IntoAll(fs, dest, a).err.Some?
    ensures IntoAll(fs, dest, a + b) == IntoAll(fs, dest, a)
  {
    IntoAllAppend(fs, dest, a, b);
  }

  /** The extraction keeps the tree well formed. */
  lemma {:induction false} IntoAllValid(fs: FileSystem, dest: Path, es: seq<ZipEntry>)
    requires Valid(fs) && IsClean(dest, false) && WfPath(dest)
    ensures Valid(IntoAll(fs, dest, es).fs)
    decreases |es|
  {
    if |es| > 0 {
      var e := es[0];
      var full := Place(dest, e);
      JoinPathWf(dest, e.name);
      var m := MkdirAll(fs, Parent(full), ModePerm);
      MkdirAllValid(fs, Parent(full), ModePerm);
      if m.err.None? {
        if e.isDir {
          MkdirAllValid(m.fs, full, Mode755);
        } else if e.data.Some? {
          WriteFileValid(m.fs, full, e.data.value, Mode644);
        }
      }
      var o := IntoEntry(fs, dest, e);
      if o.err.None? {
        IntoAllValid(o.fs, dest, es[1..]);
      }
    }
  }
}
