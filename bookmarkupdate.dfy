/** The bookmarks sync (utils/update_bookmarks.go): a conditional `GET` of the
    bookmarks release with the validator kept in `.etag_bookmarks`
    (section 13.1.2 of RFC 9110), then, when a new zip arrived, a backup of
    `assets/bookmarks/`, the extraction, a restore when the extraction fails,
    the removal of the backup and the save of the new validator. */
module BookmarkUpdate {
  import opened Wrappers
  import opened Text
  import opened Paths
  import opened Files
  import opened Archive
  import opened Http
  import opened ZipInto
  import opened Misc
  import Bookmarks

  const BookmarksDir: string := "assets" + "/" + "bookmarks" + "/"
  const BackupDir: string := "assets" + "/" + "bookmarks_old" + "/"
  const ETagFile: string := ".etag_bookmarks"

  lemma CleanTwo(a: string, b: string)
    requires a != "" && a != "." && a != ".."
    requires b != "" && b != "." && b != ".."
    ensures CleanFrom([], [a, b, ""], false) == [a, b]
  {
    assert Push([], a, false) == [a];
    assert Push([a], b, false) == [a, b];
    assert Push([a, b], "", false) == [a, b];
    assert [a, b, ""][1..] == [b, ""] && [b, ""][1..] == [""] && [""][1..] == [];
    assert CleanFrom([a, b], [], false) == [a, b];
    assert CleanFrom([a, b], [""], false) == [a, b];
    assert CleanFrom([a], [b, ""], false) == [a, b];
  }

  lemma SplitTwo(a: string, b: string)
    requires '/' !in a && '/' !in b
    ensures Split(a + "/" + b + "/", '/') == [a, b, ""]
  {
    var t := b + "/";
    assert Split(t, '/') == [b, ""] by {
      assert t == b + ['/'] + "";
      SplitCut(b, "", '/');
      assert Split("", '/') == [""];
    }
    assert Split(a + "/" + b + "/", '/') == [a] + Split(t, '/') by {
      assert a + "/" + b + "/" == a + ['/'] + t;
      SplitCut(a, t, '/');
    }
  }

  /** A relative path of two plain segments with a trailing slash. */
  lemma TwoSegments(a: string, b: string)
    requires '/' !in a && a != "" && a != "." && a != ".."
    requires '/' !in b && b != "" && b != "." && b != ".."
    ensures PathOf(a + "/" + b + "/") == [a, b]
    ensures Clean(a + "/" + b + "/") == a + "/" + b
  {
    var s := a + "/" + b + "/";
    SplitTwo(a, b);
    CleanTwo(a, b);
    assert s[0] == a[0] != '/';
    assert JoinSep([a, b], '/') == a + "/" + JoinSep([b], '/');
  }

  /** `assets/bookmarks/`, the extraction target. */
  function BookmarksPath(): (p: Path)
    ensures IsClean(p, false)
  {
    ["assets", "bookmarks"]
  }

  /** `assets/bookmarks_old/`, where the previous bookmarks wait. */
  function BackupPath(): Path
  {
    ["assets", "bookmarks_old"]
  }

  function ETagPath(): Path
  {
    [ETagFile]
  }

  /** The three names as paths, and the two directories cleaned. */
  lemma PathsOfNames()
    ensures PathOf(BookmarksDir) == BookmarksPath() && Clean(BookmarksDir) == "assets" + "/" + "bookmarks"
    ensures PathOf(BackupDir) == BackupPath() && Clean(BackupDir) == "assets" + "/" + "bookmarks_old"
    ensures PathOf(ETagFile) == ETagPath()
  {
    TwoSegments("assets", "bookmarks");
    TwoSegments("assets", "bookmarks_old");
    PathOfSingle(ETagFile);
  }

  /** Neither directory lies inside the other, so `MoveFile`'s guard lets
      both the backup and the restore through. */
  lemma GuardsPass()
    ensures !StrictlyInside(BackupDir, BookmarksDir)
    ensures !StrictlyInside(BookmarksDir, BackupDir)
  {
    BackupNotUnder("assets" + "/" + "bookmarks_old", "assets" + "/" + "bookmarks" + "/");
    PathsOfNames();
  }

  lemma BackupNotUnder(s: string, p: string)
    requires s == "assets" + "/" + "bookmarks_old" && p == "assets" + "/" + "bookmarks" + "/"
    ensures !HasPrefix(s, p)
  {
    assert s[16] == '_' && p[16] == '/';
    assert s[..17][16] == s[16];
  }

  // ------------------------------------------------------------------
  // FetchLatestBookmarks

  /** The part of the request that varies: its `If-None-Match` header. */
  datatype Request = Request(ifNoneMatch: Option<string>)

  /** The release server as the client sees it: the answer, or the transport
      failure, for each request. */
  type Server = Request -> Transport

  /** The request `FetchLatestBookmarks` sends: conditional exactly when a
      validator is known. */
  function BookmarksRequest(localETag: string): (q: Request)
    ensures q.ifNoneMatch.Some? <==> localETag != ""
    ensures q.ifNoneMatch.Some? ==> q.ifNoneMatch.value == localETag
  {
    Request(if localETag != "" then Some(localETag) else None)
  }

  predicate NotModified(t: Transport)
  {
    t.Ok? && t.value.status == StatusNotModified
  }

  /** What `FetchLatestBookmarks` returns: the zip (`nil` in Go when there is
      none), the ETag to keep, and the error. */
  datatype Fetched = Fetched(zip: Option<string>, etag: string, err: Option<Error>)

  /** `FetchLatestBookmarks(localETag)`: a 200 whose body can be read gives
      the body and the response's ETag; a 304 gives no zip and no error; a
      transport failure, an unreadable body or any other status is an error.
      Whenever no zip comes back the ETag handed back is the local one. */
  function FetchLatestBookmarks(localETag: string, server: Server): (r: Fetched)
    ensures var t := server(BookmarksRequest(localETag));
      && (r.zip.Some? <==> t.Ok? && t.value.status == StatusOK && t.value.body.Some?)
      && (r.zip.Some? ==> r.zip.value == t.value.body.value && r.etag == t.value.etag && r.err.None?)
      && (r.zip.None? ==> r.etag == localETag)
      && (r.zip.None? && r.err.None? <==> NotModified(t))
      && (t.Err? ==> r.err == Some(t.error))
      && (t.Ok? && t.value.status != StatusOK && t.value.status != StatusNotModified ==> r.err == Some(HttpStatus(t.value.status)))
  {
    match server(BookmarksRequest(localETag))
    case Err(e) => Fetched(None, localETag, Some(e))
    case Ok(res) =>
      if res.status == StatusNotModified then Fetched(None, localETag, None)
      else if res.status == StatusOK then
        match res.body
        case None => Fetched(None, localETag, Some(ReadBody))
        case Some(body) => Fetched(Some(body), res.etag, None)
      else Fetched(None, localETag, Some(HttpStatus(res.status)))
  }

  /** A server that evaluates `If-None-Match` as section 13.1.2 of RFC 9110
      asks: "not modified" exactly for the current validator, and never for
      an unconditional request. */
  ghost predicate HonoursIfNoneMatch(server: Server, current: string)
  {
    && (forall v :: NotModified(server(Request(Some(v)))) <==> v == current)
    && !NotModified(server(Request(None)))
  }

  /** Against such a server nothing is downloaded exactly when the stored
      validator is the current one; a first run (no validator) always gets
      the zip or an error. */
  lemma NotModifiedIffCurrent(localETag: string, server: Server, current: string)
    requires HonoursIfNoneMatch(server, current) && current != ""
    ensures var r := FetchLatestBookmarks(localETag, server);
      r.zip.None? && r.err.None? <==> localETag == current
  {
    if localETag != "" {
      assert BookmarksRequest(localETag) == Request(Some(localETag));
    }
  }

  // ------------------------------------------------------------------
  // UpdateBookmarks

  /** What `zip.NewReader` makes of the downloaded bytes. */
  type Unpack = string -> Zip

  /** The validator read from `.etag_bookmarks`; "" when it cannot be read. */
  function LocalETag(fs: FileSystem): string
  {
    match ReadFile(fs, ETagPath())
    case Ok(s) => s
    case Err(_) => ""
  }

  /** The tree after the backup step, whether the backup was attempted (the
      flag `backedUpOldBookmarks`), and whether its `MoveFile` succeeded. */
  datatype Backup = Backup(fs: FileSystem, attempted: bool, moved: bool)

  /** `os.Stat("assets/bookmarks/")` succeeds exactly on a directory (the
      trailing slash demands one); then `MoveFile` to the backup, whose
      failure is only logged. */
  function BackUp(fs: FileSystem): (b: Backup)
    ensures b.attempted <==> IsDir(fs, BookmarksPath())
    ensures b.moved ==> b.attempted
    ensures !b.attempted ==> b.fs == fs
    ensures b.fs.denied == fs.denied
  {
    if IsDir(fs, BookmarksPath()) then
      var m := MoveFile(fs, BookmarksDir, BackupDir);
      Backup(m.fs, true, m.err.None?)
    else Backup(fs, false, false)
  }

  /** The extraction into `assets/bookmarks/` after the backup step. */
  function Extraction(fs: FileSystem, data: string, unpack: Unpack): Outcome
  {
    UnzipIntoSpec(BackUp(fs).fs, BookmarksPath(), unpack(data))
  }

  /** How a failed extraction is rolled back: as the code does it (move the
      backup onto `assets/bookmarks/` whenever a backup was attempted), or
      corrected (only when the backup was made, and after removing what the
      failed extraction left in `assets/bookmarks/`). */
  datatype Rollback = AsWritten | RemoveFirst

  function Restore(fs: FileSystem, b: Backup, mode: Rollback): (r: FileSystem)
    ensures r.denied == fs.denied
    ensures !b.attempted ==> r == fs
  {
    match mode
    case AsWritten =>
      if b.attempted then MoveFile(fs, BackupDir, BookmarksDir).fs else fs
    case RemoveFirst =>
      if b.attempted && b.moved then
        var c := RemoveAll(fs, BookmarksPath());
        if c.err.Some? then fs else MoveFile(c.fs, BackupDir, BookmarksDir).fs
      else fs
  }

  /** What follows the extraction `u` after the backup `b`: a failed
      extraction returns its error after the rollback (whose own failure is
      only logged); otherwise the backup is removed (failure only logged) and
      the new ETag written with mode 0644, whose failure is returned. */
  function Finish(b: Backup, u: Outcome, etag: string, mode: Rollback): (r: Outcome)
    ensures r.fs.denied == u.fs.denied
    ensures u.err.Some? ==> r.err == u.err
    ensures r.err.None? ==> ReadFile(r.fs, ETagPath()) == Ok(etag)
  {
    if u.err.Some? then Outcome(Restore(u.fs, b, mode), u.err)
    else
      var c := if b.attempted then RemoveAll(u.fs, BackupPath()).fs else u.fs;
      WriteFile(c, ETagPath(), etag, Mode644)
  }

  /** `(*Client).UpdateBookmarks()` with the given rollback. A failed fetch
      returns its error and a 304 returns nil, both with the tree untouched;
      otherwise the backup, the extraction and what follows it. */
  function UpdateBookmarksSpec(fs: FileSystem, server: Server, unpack: Unpack, mode: Rollback): (r: Outcome)
    ensures r.fs.denied == fs.denied
  {
    var f := FetchLatestBookmarks(LocalETag(fs), server);
    if f.err.Some? then Outcome(fs, f.err)
    else if f.zip.None? then Outcome(fs, None)
    else Finish(BackUp(fs), Extraction(fs, f.zip.value, unpack), f.etag, mode)
  }

  /** The outcomes of an update: a failed fetch and a 304 leave the tree
      alone, a failed extraction's error is the update's, and an update
      that succeeds after a download leaves the response's ETag stored. */
  lemma UpdateOutcomes(fs: FileSystem, server: Server, unpack: Unpack, mode: Rollback)
    ensures var r := UpdateBookmarksSpec(fs, server, unpack, mode);
      var f := FetchLatestBookmarks(LocalETag(fs), server);
      && (f.err.Some? ==> r == Outcome(fs, f.err))
      && (f.zip.None? && f.err.None? ==> r == Outcome(fs, None))
      && (f.zip.Some? && Extraction(fs, f.zip.value, unpack).err.Some? ==> r.err == Extraction(fs, f.zip.value, unpack).err)
      && (f.zip.Some? && r.err.None? ==> ReadFile(r.fs, ETagPath()) == Ok(f.etag))
  {
  }

  /** `(*Client).UpdateBookmarks()` as written, step by step; its outcome is
      `UpdateBookmarksSpec` with the rollback `AsWritten`. */
  method UpdateBookmarks(fs: FileSystem, server: Server, unpack: Unpack) returns (fs': FileSystem, err: Option<Error>)
    ensures Outcome(fs', err) == UpdateBookmarksSpec(fs, server, unpack, AsWritten)
  {
    var localETag := "";
    var read := ReadFile(fs, ETagPath());
    if read.Ok? {
      localETag := read.value;
    }
    var fetched := FetchLatestBookmarks(localETag, server);
    if fetched.err.Some? {
      return fs, fetched.err;
    }
    if fetched.zip.None? {
      return fs, None;
    }
    fs' := fs;
    var backedUp := false;
    if StatErr(fs', BookmarksPath()).None? && IsDir(fs', BookmarksPath()) {
      var moved := MoveFile(fs', BookmarksDir, BackupDir);
      fs' := moved.fs;
      backedUp := true;
    }
    var unzipErr;
    fs', unzipErr := UnzipInto(fs', BookmarksPath(), unpack(fetched.zip.value));
    if unzipErr.Some? {
      if backedUp {
        var restored := MoveFile(fs', BackupDir, BookmarksDir);
        fs' := restored.fs;
      }
      return fs', unzipErr;
    }
    if backedUp {
      var removed := RemoveAll(fs', BackupPath());
      fs' := removed.fs;
    }
    var w := WriteFile(fs', ETagPath(), fetched.etag, Mode644);
    return w.fs, w.err;
  }

  /** Against a server that honours `If-None-Match`, an update whose stored
      validator is current changes nothing and reports nothing. */
  lemma UpToDateLeavesTree(fs: FileSystem, server: Server, unpack: Unpack, mode: Rollback, current: string)
    requires HonoursIfNoneMatch(server, current) && current != ""
    requires ReadFile(fs, ETagPath()) == Ok(current)
    ensures UpdateBookmarksSpec(fs, server, unpack, mode) == Outcome(fs, None)
  {
    NotModifiedIffCurrent(current, server, current);
  }

  // ------------------------------------------------------------------
  // What an update can reach

  /** `fs` and `fs'` agree at `q`. */
  ghost predicate Agree(fs: FileSystem, fs': FileSystem, q: Path)
  {
    && (q in fs.nodes <==> q in fs'.nodes)
    && (q in fs.nodes ==> fs'.nodes[q] == fs.nodes[q])
  }

  /** Off both bookmark trees and off the way to them. */
  ghost predicate OffBookmarks(q: Path)
  {
    !(q <= BookmarksPath()) && !(BookmarksPath() <= q) && !(BackupPath() <= q)
  }

  /** Every name of the zip is free of "..". */
  ghost predicate SafeNames(z: Zip)
  {
    z.Zip? ==> forall k :: 0 <= k < |z.entries| ==> NoDotDot(z.entries[k])
  }

  /** Two prefixes of one path are comparable. */
  lemma Comparable(a: Path, b: Path, c: Path)
    requires a <= c && b <= c
    ensures a <= b || b <= a
  {
    if |a| <= |b| {
      assert a == c[..|a|] == b[..|a|];
    } else {
      assert b == c[..|b|] == a[..|b|];
    }
  }

  /** `MoveFile` reaches only the source tree, the destination tree and the
      way to the destination's parent. */
  lemma MoveFileFrame(fs: FileSystem, src: string, dest: string, q: Path)
    requires !(PathOf(src) <= q) && !(PathOf(dest) <= q) && !(q <= Parent(PathOf(dest)))
    ensures Agree(fs, MoveFile(fs, src, dest).fs, q)
  {
    var s := PathOf(src);
    var d := PathOf(dest);
    if !StrictlyInside(dest, src) && StatErr(fs, s) != Some(NotExist) {
      var m := MkdirAll(fs, Parent(d), Mode755);
      assert Agree(fs, m.fs, q);
      if m.err.None? {
        assert MoveFile(fs, src, dest) == Rename(m.fs, s, d);
        RenameFrame(m.fs, s, d, q);
      }
    }
  }

  /** One entry reaches only the way to its own path and what lies below. */
  lemma IntoEntryOff(fs: FileSystem, dest: Path, e: ZipEntry, q: Path)
    requires IsClean(dest, false) && !(q <= Place(dest, e))
    ensures Agree(fs, IntoEntry(fs, dest, e).fs, q)
  {
    var full := Place(dest, e);
    assert !(q <= Parent(full)) by {
      assert Parent(full) <= full;
    }
    var m := MkdirAll(fs, Parent(full), ModePerm);
    assert Agree(fs, m.fs, q);
    if m.err.None? {
      if e.isDir {
        assert Agree(m.fs, MkdirAll(m.fs, full, Mode755).fs, q);
      } else if e.data.Some? {
        assert Agree(m.fs, WriteFile(m.fs, full, e.data.value, Mode644).fs, q);
      }
    }
  }

  /** One entry reaches only paths comparable with the destination. */
  lemma IntoEntryFrame(fs: FileSystem, dest: Path, e: ZipEntry, q: Path)
    requires IsClean(dest, false) && NoDotDot(e)
    requires !(q <= dest) && !(dest <= q)
    ensures Agree(fs, IntoEntry(fs, dest, e).fs, q)
  {
    var full := Place(dest, e);
    assert dest <= full by {
      CleanFromExtends(dest, Split(e.name, '/'));
    }
    assert !(q <= full) by {
      if q <= full {
        Comparable(q, dest, full);
      }
    }
    IntoEntryOff(fs, dest, e, q);
  }

  lemma {:induction false} IntoAllFrame(fs: FileSystem, dest: Path, es: seq<ZipEntry>, q: Path)
    requires IsClean(dest, false) && forall k :: 0 <= k < |es| ==> NoDotDot(es[k])
    requires !(q <= dest) && !(dest <= q)
    ensures Agree(fs, IntoAll(fs, dest, es).fs, q)
    decreases |es|
  {
    if |es| > 0 {
      IntoEntryFrame(fs, dest, es[0], q);
      var o := IntoEntry(fs, dest, es[0]);
      if o.err.None? {
        IntoAllFrame(o.fs, dest, es[1..], q);
      }
    }
  }

  lemma BackUpFrame(fs: FileSystem, q: Path)
    requires OffBookmarks(q)
    ensures Agree(fs, BackUp(fs).fs, q)
  {
    if IsDir(fs, BookmarksPath()) {
      assert Agree(fs, MoveFile(fs, BookmarksDir, BackupDir).fs, q) by {
        PathsOfNames();
        assert !(q <= ["assets"]) by {
          assert ["assets"] <= BookmarksPath();
        }
        MoveFileFrame(fs, BookmarksDir, BackupDir, q);
      }
    }
  }

  lemma ExtractionFrame(fs: FileSystem, z: Zip, q: Path)
    requires OffBookmarks(q) && SafeNames(z)
    ensures Agree(fs, UnzipIntoSpec(fs, BookmarksPath(), z).fs, q)
  {
    if z.Zip? {
      assert forall k :: 0 <= k < |z.entries| ==> NoDotDot(z.entries[k]);
      assert !(q <= BookmarksPath()) && !(BookmarksPath() <= q);
      IntoAllFrame(fs, BookmarksPath(), z.entries, q);
    }
  }

  lemma RestoreFrame(fs: FileSystem, b: Backup, mode: Rollback, q: Path)
    requires OffBookmarks(q)
    ensures Agree(fs, Restore(fs, b, mode), q)
  {
    PathsOfNames();
    assert !(q <= ["assets"]) by {
      assert ["assets"] <= BookmarksPath();
    }
    MoveFileFrame(fs, BackupDir, BookmarksDir, q);
    MoveFileFrame(RemoveAll(fs, BookmarksPath()).fs, BackupDir, BookmarksDir, q);
  }

  /** The backup, the extraction and then either the restore or the removal
      of the backup all leave a path off the bookmark trees alone. */
  lemma StepsFrame(fs: FileSystem, data: string, unpack: Unpack, mode: Rollback, q: Path)
    requires OffBookmarks(q) && SafeNames(unpack(data))
    ensures Agree(fs, Extraction(fs, data, unpack).fs, q)
    ensures Agree(fs, Restore(Extraction(fs, data, unpack).fs, BackUp(fs), mode), q)
    ensures Agree(fs, RemoveAll(Extraction(fs, data, unpack).fs, BackupPath()).fs, q)
  {
    var b := BackUp(fs);
    BackUpFrame(fs, q);
    ExtractionFrame(b.fs, unpack(data), q);
    var u := Extraction(fs, data, unpack);
    RestoreFrame(u.fs, b, mode, q);
  }

  /** What follows the extraction changes, off the paths the steps before it
      leave alone, only `.etag_bookmarks`, and that only when it succeeds. */
  lemma FinishFrame(fs: FileSystem, b: Backup, u: Outcome, etag: string, mode: Rollback, q: Path)
    requires Agree(fs, u.fs, q) && Agree(fs, Restore(u.fs, b, mode), q) && Agree(fs, RemoveAll(u.fs, BackupPath()).fs, q)
    ensures var r := Finish(b, u, etag, mode);
      && (q != ETagPath() ==> Agree(fs, r.fs, q))
      && (r.err.Some? ==> Agree(fs, r.fs, q))
  {
    if u.err.None? {
      var c := if b.attempted then RemoveAll(u.fs, BackupPath()).fs else u.fs;
      assert Agree(fs, c, q);
      var w := WriteFile(c, ETagPath(), etag, Mode644);
      assert Finish(b, u, etag, mode) == w;
      if w.err.None? && q != ETagPath() {
        assert w.fs.nodes == c.nodes[ETagPath() := w.fs.nodes[ETagPath()]];
      }
    }
  }

  /** With no ".." in the names, an update changes nothing off the two bookmark
      trees and the way to them, except `.etag_bookmarks`; and an update that
      fails leaves `.etag_bookmarks` as it was too. */
  lemma UpdateFrame(fs: FileSystem, server: Server, unpack: Unpack, mode: Rollback)
    requires forall s :: SafeNames(unpack(s))
    ensures var r := UpdateBookmarksSpec(fs, server, unpack, mode);
      && (forall q :: OffBookmarks(q) && q != ETagPath() ==> Agree(fs, r.fs, q))
      && (r.err.Some? ==> forall q :: OffBookmarks(q) ==> Agree(fs, r.fs, q))
  {
    var f := FetchLatestBookmarks(LocalETag(fs), server);
    if f.err.None? && f.zip.Some? {
      var z := unpack(f.zip.value);
      assert SafeNames(z);
      var b := BackUp(fs);
      var u := Extraction(fs, f.zip.value, unpack);
      forall q | OffBookmarks(q)
        ensures q != ETagPath() ==> Agree(fs, Finish(b, u, f.etag, mode).fs, q)
        ensures Finish(b, u, f.etag, mode).err.Some? ==> Agree(fs, Finish(b, u, f.etag, mode).fs, q)
      {
        StepsFrame(fs, f.zip.value, unpack, mode, q);
        FinishFrame(fs, b, u, f.etag, mode, q);
      }
    }
  }

  // ------------------------------------------------------------------
  // The rollback

  /** `MkdirAll` creates no path the OS refuses. */
  lemma {:induction false} MkdirAllNotDenied(fs: FileSystem, p: Path, mode: nat)
    ensures forall q :: q in MkdirAll(fs, p, mode).fs.nodes && q !in fs.nodes ==> q !in fs.denied
    decreases |p|
  {
    if p != [] && p !in fs.nodes {
      MkdirAllNotDenied(fs, Parent(p), mode);
    }
  }

  lemma {:induction false} IntoAllNotDenied(fs: FileSystem, dest: Path, es: seq<ZipEntry>)
    requires IsClean(dest, false)
    ensures forall q :: q in IntoAll(fs, dest, es).fs.nodes && q !in fs.nodes ==> q !in fs.denied
    decreases |es|
  {
    if |es| > 0 {
      var o := IntoEntry(fs, dest, es[0]);
      IntoEntryNotDenied(fs, dest, es[0]);
      if o.err.None? {
        IntoAllNotDenied(o.fs, dest, es[1..]);
      }
    }
  }

  /** One entry creates no path the OS refuses. */
  lemma IntoEntryNotDenied(fs: FileSystem, dest: Path, e: ZipEntry)
    requires IsClean(dest, false)
    ensures forall q :: q in IntoEntry(fs, dest, e).fs.nodes && q !in fs.nodes ==> q !in fs.denied
  {
    var full := Place(dest, e);
    var m := MkdirAll(fs, Parent(full), ModePerm);
    MkdirAllNotDenied(fs, Parent(full), ModePerm);
    if m.err.None? {
      if e.isDir {
        var r := MkdirAll(m.fs, full, Mode755);
        MkdirAllNotDenied(m.fs, full, Mode755);
        NewNotDenied(fs, m.fs, r.fs);
      } else if e.data.Some? {
        var w := WriteFile(m.fs, full, e.data.value, Mode644);
        NewNotDenied(fs, m.fs, w.fs);
      }
    }
  }

  /** Two steps that each create no refused path create none together. */
  lemma NewNotDenied(a: FileSystem, b: FileSystem, c: FileSystem)
    requires b.denied == a.denied
    requires forall q :: q in a.nodes ==> q in b.nodes
    requires forall q :: q in b.nodes && q !in a.nodes ==> q !in a.denied
    requires forall q :: q in c.nodes && q !in b.nodes ==> q !in b.denied
    ensures forall q :: q in c.nodes && q !in a.nodes ==> q !in a.denied
  {
  }

  /** With both paths allowed and nothing at the backup path, the backup moves
      `assets/bookmarks` to `assets/bookmarks_old` as a whole. */
  lemma BackUpMoves(fs: FileSystem)
    requires Valid(fs) && IsDir(fs, BookmarksPath()) && BackupPath() !in fs.nodes
    requires BookmarksPath() !in fs.denied && BackupPath() !in fs.denied
    ensures BackUp(fs).moved && BackUp(fs).fs == Moved(fs, BookmarksPath(), BackupPath())
  {
    var b := BookmarksPath();
    var o := BackupPath();
    assert Parent(o) == ["assets"] == Parent(b);
    assert MoveFile(fs, BookmarksDir, BackupDir) == Rename(fs, b, o) by {
      GuardsPass();
      PathsOfNames();
      MoveFileIsRename(fs, BookmarksDir, BackupDir);
    }
    assert Rename(fs, b, o) == Outcome(Moved(fs, b, o), None) by {
      assert !(b <= o);
      RenameSucceeds(fs, b, o);
    }
  }

  /** The state a failed extraction leaves behind, in the terms the proofs use. */
  ghost predicate AfterFailedExtraction(fs: FileSystem, u: FileSystem)
  {
    var b := BookmarksPath();
    var fs1 := Moved(fs, b, BackupPath());
    && Grows(fs1, u) && [] !in u.nodes && u.denied == fs.denied
    && (forall q :: !(q <= b) && !(b <= q) ==> Agree(fs1, u, q))
    && (forall q :: q in u.nodes && q !in fs1.nodes ==> q !in fs.denied)
  }

  /** `assets/bookmarks` and everything below it removed. */
  function Cleared(u: FileSystem): (c: FileSystem)
    ensures c.denied == u.denied
    ensures forall q :: q in c.nodes <==> q in u.nodes && !(BookmarksPath() <= q)
    ensures forall q :: q in c.nodes ==> c.nodes[q] == u.nodes[q]
  {
    u.(nodes := u.nodes - Below(u, BookmarksPath()))
  }

  /** Below `assets/bookmarks`, the restore brings back what the backup took. */
  lemma RestoredBelow(fs: FileSystem, u: FileSystem, q: Path)
    requires AfterFailedExtraction(fs, u)
    requires BookmarksPath() <= q
    ensures Agree(fs, Moved(Cleared(u), BackupPath(), BookmarksPath()), q)
  {
    var b := BookmarksPath();
    var o := BackupPath();
    var x := q[|b|..];
    var q' := o + x;
    assert q == b + x;
    assert q'[|o|..] == x;
    MovedNodes(Cleared(u), o, b, q);
    assert !(b <= q') by {
      assert q'[1] == "bookmarks_old";
    }
    assert !(q' <= b);
    assert Agree(Moved(fs, b, o), u, q');
    MovedNodes(fs, b, o, q');
  }

  /** Nothing was at or below the backup path before, and nothing is after. */
  lemma RestoredBackup(fs: FileSystem, u: FileSystem, q: Path)
    requires Valid(fs) && BackupPath() !in fs.nodes
    requires !(BookmarksPath() <= q) && BackupPath() <= q
    ensures Agree(fs, Moved(Cleared(u), BackupPath(), BookmarksPath()), q)
  {
    var o := BackupPath();
    MovedNodes(Cleared(u), o, BookmarksPath(), q);
    if q in fs.nodes && q != o {
      assert q[..|o|] == o;
      AncestorIsDir(fs, q, |o|);
    }
  }

  /** Elsewhere neither the move nor the restore changed anything, and the
      extraction touched only the way to `assets/bookmarks`, which it keeps. */
  lemma RestoredElsewhere(fs: FileSystem, u: FileSystem, q: Path)
    requires Valid(fs) && IsDir(fs, BookmarksPath())
    requires AfterFailedExtraction(fs, u)
    requires !(BookmarksPath() <= q) && !(BackupPath() <= q)
    ensures Agree(fs, Moved(Cleared(u), BackupPath(), BookmarksPath()), q)
  {
    var b := BookmarksPath();
    var o := BackupPath();
    MovedNodes(Cleared(u), o, b, q);
    MovedNodes(fs, b, o, q);
    if q <= b {
      assert q == [] || q == ["assets"] by {
        if |q| == 1 {
          assert q == b[..1];
        }
      }
      if q == ["assets"] {
        assert Parent(b) == q;
      }
    } else {
      assert Agree(Moved(fs, b, o), u, q);
    }
  }

  /** With no ".." in the names, what a failed extraction after the backup leaves. */
  lemma ExtractionLeaves(fs: FileSystem, z: Zip)
    requires Valid(fs) && SafeNames(z)
    ensures AfterFailedExtraction(fs, UnzipIntoSpec(Moved(fs, BookmarksPath(), BackupPath()), BookmarksPath(), z).fs)
  {
    var b := BookmarksPath();
    var fs1 := Moved(fs, b, BackupPath());
    if z.Zip? {
      forall q | !(q <= b) && !(b <= q) ensures Agree(fs1, IntoAll(fs1, b, z.entries).fs, q) {
        IntoAllFrame(fs1, b, z.entries, q);
      }
      IntoAllNotDenied(fs1, b, z.entries);
    }
  }

  /** Nothing the extraction made is refused, so it can all be removed. */
  lemma ClearSucceeds(fs: FileSystem, u: FileSystem)
    requires AfterFailedExtraction(fs, u)
    ensures RemoveAll(u, BookmarksPath()) == Outcome(Cleared(u), None)
  {
    var b := BookmarksPath();
    var o := BackupPath();
    forall q | q in Below(u, b) ensures q !in u.denied {
      MovedNodes(fs, b, o, q);
      assert !(o <= q) by {
        assert q[1] == "bookmarks";
      }
    }
    assert Below(u, b) * u.denied == {};
  }

  /** The restore's `MoveFile` finds the backup and an empty place. */
  lemma RestoreMoves(fs: FileSystem, u: FileSystem)
    requires Valid(fs) && IsDir(fs, BookmarksPath())
    requires BookmarksPath() !in fs.denied && BackupPath() !in fs.denied
    requires AfterFailedExtraction(fs, u)
    ensures MoveFile(Cleared(u), BackupDir, BookmarksDir).fs == Moved(Cleared(u), BackupPath(), BookmarksPath())
  {
    var b := BookmarksPath();
    var o := BackupPath();
    var c := Cleared(u);
    var fs1 := Moved(fs, b, o);
    MovedNodes(fs, b, o, o);
    assert o + o[|o|..] == o && b + o[|o|..] == b;
    assert Agree(fs1, u, o);
    assert o in fs1.nodes && o in u.nodes;
    assert !(b <= o) by {
      assert o[1] != b[1];
    }
    assert o in c.nodes;
    var a := ["assets"];
    assert a == Parent(b);
    assert IsDir(fs, Parent(b));
    MovedNodes(fs, b, o, a);
    assert a in fs1.nodes && fs1.nodes[a].Dir?;
    assert a in c.nodes && c.nodes[a].Dir?;
    assert b !in c.nodes;
    GuardsPass();
    PathsOfNames();
    MoveFileIsRename(c, BackupDir, BookmarksDir);
    assert !(o <= b);
    RenameSucceeds(c, o, b);
  }

  /** Two trees that agree everywhere have the same nodes. */
  lemma AgreeAll(a: FileSystem, c: FileSystem)
    requires forall q :: Agree(a, c, q)
    ensures a.nodes == c.nodes
  {
    forall q | q in a.nodes || q in c.nodes
      ensures q in a.nodes && q in c.nodes && a.nodes[q] == c.nodes[q]
    {
      assert Agree(a, c, q);
    }
    assert a.nodes.Keys == c.nodes.Keys;
  }

  lemma RestoredTree(fs: FileSystem, u: FileSystem)
    requires Valid(fs) && IsDir(fs, BookmarksPath()) && BackupPath() !in fs.nodes
    requires AfterFailedExtraction(fs, u)
    ensures Moved(Cleared(u), BackupPath(), BookmarksPath()) == fs
  {
    var res := Moved(Cleared(u), BackupPath(), BookmarksPath());
    forall q ensures Agree(fs, res, q) {
      if BookmarksPath() <= q {
        RestoredBelow(fs, u, q);
      } else if BackupPath() <= q {
        RestoredBackup(fs, u, q);
      } else {
        RestoredElsewhere(fs, u, q);
      }
    }
    AgreeAll(fs, res);
  }

  /** When a zip arrived and its extraction failed, the update's outcome is
      the rollback and the extraction's error. */
  lemma OnFailedExtraction(fs: FileSystem, server: Server, unpack: Unpack, mode: Rollback)
    requires FetchLatestBookmarks(LocalETag(fs), server).zip.Some?
    requires Extraction(fs, FetchLatestBookmarks(LocalETag(fs), server).zip.value, unpack).err.Some?
    ensures var u := Extraction(fs, FetchLatestBookmarks(LocalETag(fs), server).zip.value, unpack);
      UpdateBookmarksSpec(fs, server, unpack, mode) == Outcome(Restore(u.fs, BackUp(fs), mode), u.err)
  {
  }

  /** The corrected rollback, once its removal succeeds, is the move back. */
  lemma RemoveFirstIsMoveBack(u: FileSystem, b: Backup)
    requires b.attempted && b.moved
    requires RemoveAll(u, BookmarksPath()) == Outcome(Cleared(u), None)
    ensures Restore(u, b, RemoveFirst) == MoveFile(Cleared(u), BackupDir, BookmarksDir).fs
  {
  }

  /** The corrected rollback after a successful backup gives the tree back. */
  lemma RemoveFirstRestores(fs: FileSystem, z: Zip)
    requires Valid(fs) && SafeNames(z)
    requires IsDir(fs, BookmarksPath()) && BackupPath() !in fs.nodes
    requires BookmarksPath() !in fs.denied && BackupPath() !in fs.denied
    ensures Restore(UnzipIntoSpec(BackUp(fs).fs, BookmarksPath(), z).fs, BackUp(fs), RemoveFirst) == fs
  {
    BackUpMoves(fs);
    var u := UnzipIntoSpec(Moved(fs, BookmarksPath(), BackupPath()), BookmarksPath(), z).fs;
    ExtractionLeaves(fs, z);
    ClearSucceeds(fs, u);
    RestoreMoves(fs, u);
    RestoredTree(fs, u);
    RemoveFirstIsMoveBack(u, BackUp(fs));
  }

  /** The corrected rollback restores the tree exactly: a failed extraction
      after a successful backup returns its error and leaves the tree as it
      was before the update. */
  lemma RollbackRestoresTree(fs: FileSystem, server: Server, unpack: Unpack)
    requires Valid(fs)
    requires FetchLatestBookmarks(LocalETag(fs), server).zip.Some?
    requires IsDir(fs, BookmarksPath()) && BackupPath() !in fs.nodes
    requires BookmarksPath() !in fs.denied && BackupPath() !in fs.denied
    requires SafeNames(unpack(FetchLatestBookmarks(LocalETag(fs), server).zip.value))
    requires Extraction(fs, FetchLatestBookmarks(LocalETag(fs), server).zip.value, unpack).err.Some?
    ensures UpdateBookmarksSpec(fs, server, unpack, RemoveFirst)
      == Outcome(fs, Extraction(fs, FetchLatestBookmarks(LocalETag(fs), server).zip.value, unpack).err)
  {
    OnFailedExtraction(fs, server, unpack, RemoveFirst);
    RemoveFirstRestores(fs, unpack(FetchLatestBookmarks(LocalETag(fs), server).zip.value));
  }

  /** The tree after the backup with an empty `assets/bookmarks` made again. */
  function Remade(fs: FileSystem): FileSystem
  {
    var fs1 := Moved(fs, BookmarksPath(), BackupPath());
    fs1.(nodes := fs1.nodes[BookmarksPath() := Dir(ModePerm)])
  }

  /** A plain name that cannot be read: its entry fails after its parent
      directory has been made. */
  predicate UnreadableFirst(es: seq<ZipEntry>)
  {
    && |es| > 0 && !es[0].isDir && es[0].data.None?
    && '/' !in es[0].name && es[0].name != "" && es[0].name != "." && es[0].name != ".."
  }

  /** After the backup, an unreadable first entry stops the extraction with
      `assets/bookmarks` made again as an empty directory. */
  lemma FirstEntryRemakes(fs: FileSystem, es: seq<ZipEntry>)
    requires Valid(fs) && IsDir(fs, BookmarksPath()) && BackupPath() !in fs.nodes
    requires BookmarksPath() !in fs.denied
    requires UnreadableFirst(es)
    ensures IntoAll(Moved(fs, BookmarksPath(), BackupPath()), BookmarksPath(), es) == Outcome(Remade(fs), Some(Malformed))
  {
    var b := BookmarksPath();
    var e := es[0];
    var fs1 := Moved(fs, b, BackupPath());
    assert Place(b, e) == b + [e.name] by {
      NoSepIndex(e.name, '/');
      assert Split(e.name, '/') == [e.name];
      assert CleanFrom(b, [e.name], false) == CleanFrom(b + [e.name], [], false);
    }
    assert Parent(b + [e.name]) == b;
    assert MkdirAll(fs1, b, ModePerm) == Outcome(Remade(fs), None) by {
      BackupKeepsAssets(fs);
      MkdirAllOne(fs1, b, ModePerm);
    }
  }

  /** The backup leaves `assets` a directory and `assets/bookmarks` free. */
  lemma BackupKeepsAssets(fs: FileSystem)
    requires Valid(fs) && IsDir(fs, BookmarksPath()) && BookmarksPath() !in fs.denied
    ensures var fs1 := Moved(fs, BookmarksPath(), BackupPath());
      && IsDir(fs1, ["assets"]) && BookmarksPath() !in fs1.nodes && BookmarksPath() !in fs1.denied
      && Parent(BookmarksPath()) == ["assets"]
  {
    var b := BookmarksPath();
    var o := BackupPath();
    assert Parent(b) == ["assets"];
    MovedNodes(fs, b, o, b);
    MovedNodes(fs, b, o, ["assets"]);
  }

  /** After the backup and the remade directory, `assets/bookmarks_old` holds
      what `assets/bookmarks` held and `assets` is a directory. */
  lemma RemadeBackup(fs: FileSystem)
    requires Valid(fs) && IsDir(fs, BookmarksPath())
    ensures BackupPath() in Remade(fs).nodes
    ensures IsDir(Remade(fs), ["assets"]) && IsDir(Remade(fs), BookmarksPath())
  {
    var b := BookmarksPath();
    var o := BackupPath();
    assert Parent(b) == ["assets"];
    MovedNodes(fs, b, o, o);
    MovedNodes(fs, b, o, ["assets"]);
    assert o + o[|o|..] == o && b + o[|o|..] == b;
  }

  /** The restore as written: the rename onto the remade directory fails, so
      the tree stays as the extraction left it. */
  lemma RestoreRefused(fs: FileSystem)
    requires Valid(fs) && IsDir(fs, BookmarksPath()) && BackupPath() !in fs.nodes
    requires BookmarksPath() !in fs.denied && BackupPath() !in fs.denied
    ensures Restore(Remade(fs), BackUp(fs), AsWritten) == Remade(fs)
  {
    var b := BookmarksPath();
    var o := BackupPath();
    var m := Remade(fs);
    BackUpMoves(fs);
    assert MoveFile(m, BackupDir, BookmarksDir) == Rename(m, o, b) by {
      RemadeBackup(fs);
      assert Parent(b) == ["assets"];
      GuardsPass();
      PathsOfNames();
      MoveFileIsRename(m, BackupDir, BookmarksDir);
    }
    assert Rename(m, o, b) == Outcome(m, Some(AlreadyExists)) by {
      RemadeBackup(fs);
      RenameOntoDir(m, o, b);
    }
  }

  /** Nothing is left below the remade `assets/bookmarks`. */
  lemma RemadeEmpty(fs: FileSystem)
    requires Valid(fs) && IsDir(fs, BookmarksPath())
    ensures Below(Remade(fs), BookmarksPath()) == {BookmarksPath()}
  {
    var b := BookmarksPath();
    var o := BackupPath();
    var m := Remade(fs);
    forall q | q in m.nodes && b <= q ensures q == b {
      if q != b {
        assert !(o <= q) by {
          assert q[1] == b[1];
        }
        MovedNodes(fs, b, o, q);
      }
    }
  }

  /** Everything that was at or below `assets/bookmarks` is now at the same
      place below `assets/bookmarks_old`. */
  lemma RemadeKeepsOld(fs: FileSystem)
    requires Valid(fs) && IsDir(fs, BookmarksPath())
    ensures forall q :: BookmarksPath() <= q ==> (q in fs.nodes <==> BackupPath() + q[|BookmarksPath()|..] in Remade(fs).nodes)
  {
    var b := BookmarksPath();
    var o := BackupPath();
    var m := Remade(fs);
    forall q | b <= q ensures q in fs.nodes <==> o + q[|b|..] in m.nodes {
      var q' := o + q[|b|..];
      assert q' != b by {
        assert q'[1] == "bookmarks_old";
      }
      MovedNodes(fs, b, o, q');
      assert q'[|o|..] == q[|b|..];
      assert b + q[|b|..] == q;
    }
  }

  /** As written, the same failure loses the bookmarks' place: once the
      extraction has made `assets/bookmarks` (its first entry's parent
      directory is made before the entry itself is read), the restore's
      rename refuses the existing directory. A zip whose first entry is a
      file that cannot be read shows it: the update returns the extraction's
      error, `assets/bookmarks` is left an empty directory, and the previous
      bookmarks stay under `assets/bookmarks_old`. */
  lemma BookmarksLostAsWritten(fs: FileSystem, server: Server, unpack: Unpack, es: seq<ZipEntry>)
    requires Valid(fs)
    requires FetchLatestBookmarks(LocalETag(fs), server).zip.Some?
    requires IsDir(fs, BookmarksPath()) && BackupPath() !in fs.nodes
    requires BookmarksPath() !in fs.denied && BackupPath() !in fs.denied
    requires unpack(FetchLatestBookmarks(LocalETag(fs), server).zip.value) == Zip(es)
    requires UnreadableFirst(es)
    ensures var r := UpdateBookmarksSpec(fs, server, unpack, AsWritten);
      && r.err == Some(Malformed)
      && r.fs != fs
      && Below(r.fs, BookmarksPath()) == {BookmarksPath()}
      && (forall q :: BookmarksPath() <= q ==> (q in fs.nodes <==> BackupPath() + q[|BookmarksPath()|..] in r.fs.nodes))
  {
    BackUpMoves(fs);
    FirstEntryRemakes(fs, es);
    assert Extraction(fs, FetchLatestBookmarks(LocalETag(fs), server).zip.value, unpack) == Outcome(Remade(fs), Some(Malformed));
    OnFailedExtraction(fs, server, unpack, AsWritten);
    RestoreRefused(fs);
    RemadeBackup(fs);
    RemadeEmpty(fs);
    RemadeKeepsOld(fs);
  }

  // ------------------------------------------------------------------
  // InstallBookmarks

  /** `assets/etc/firefox/policies/policies.json` */
  function FirefoxPolicies(): Path
  {
    ["assets", "etc", "firefox", "policies", "policies.json"]
  }

  /** `assets/etc/chromium/policies/managed/policies.json` */
  function ChromiumPolicies(): Path
  {
    ["assets", "etc", "chromium", "policies", "managed", "policies.json"]
  }

  /** `b` differs from `a` at most at the paths `ps`. */
  ghost predicate SameExcept(a: FileSystem, b: FileSystem, ps: set<Path>)
  {
    && a.denied == b.denied
    && forall q :: q !in ps ==> (q in a.nodes <==> q in b.nodes) && (q in a.nodes ==> a.nodes[q] == b.nodes[q])
  }

  /** `InstallBookmarks(stationID)`: collect the bookmarks below
      `assets/bookmarks/` (failing only when that cannot be listed), insert
      them into the firefox policies and, when that succeeds, into the
      chromium policies. Nothing but the two policy files changes. */
  ghost function InstallBookmarksSpec(fs: FileSystem, station: string, decode: Bookmarks.BookmarkDecoder,
                                      codec: Bookmarks.JsonCodec): (r: Outcome)
    ensures SameExcept(fs, r.fs, {FirefoxPolicies(), ChromiumPolicies()})
    ensures ReadDirErr(fs, BookmarksPath()).Some? ==> r == Outcome(fs, ReadDirErr(fs, BookmarksPath()))
  {
    var c := Bookmarks.Collected(fs, BookmarksPath(), station, false, decode);
    if c.Err? then Outcome(fs, Some(c.error))
    else
      var f := Bookmarks.InsertBookmarks(fs, "firefox", FirefoxPolicies(), c.value, codec);
      if f.err.Some? then f
      else Bookmarks.InsertBookmarks(f.fs, "chromium", ChromiumPolicies(), c.value, codec)
  }

  /** `InstallBookmarks(stationID)` step by step; its outcome is
      `InstallBookmarksSpec`, about which `InstallBookmarksInsertsBoth` is proved. */
  method InstallBookmarks(fs: FileSystem, station: string, decode: Bookmarks.BookmarkDecoder, codec: Bookmarks.JsonCodec)
    returns (fs': FileSystem, err: Option<Error>)
    ensures Outcome(fs', err) == InstallBookmarksSpec(fs, station, decode, codec)
  {
    var bms, cerr := Bookmarks.CollectBookmarks(fs, BookmarksPath(), station, false, decode);
    if cerr.Some? {
      return fs, cerr;
    }
    var f := Bookmarks.InsertBookmarks(fs, "firefox", FirefoxPolicies(), bms, codec);
    if f.err.Some? {
      return f.fs, f.err;
    }
    var c := Bookmarks.InsertBookmarks(f.fs, "chromium", ChromiumPolicies(), bms, codec);
    return c.fs, c.err;
  }

  /** With a codec that round-trips, a successful installation leaves each
      policy file decoding to what it held with the collected bookmarks
      inserted for its browser. */
  lemma InstallBookmarksInsertsBoth(fs: FileSystem, station: string, decode: Bookmarks.BookmarkDecoder, codec: Bookmarks.JsonCodec)
    requires forall p :: codec.encode(p).Ok? ==> codec.decode(codec.encode(p).value) == Ok(p)
    requires InstallBookmarksSpec(fs, station, decode, codec).err.None?
    ensures Bookmarks.Collected(fs, BookmarksPath(), station, false, decode).Ok?
    ensures var bms := Bookmarks.Collected(fs, BookmarksPath(), station, false, decode).value;
      var r := InstallBookmarksSpec(fs, station, decode, codec).fs;
      && ReadFile(fs, FirefoxPolicies()).Ok? && codec.decode(ReadFile(fs, FirefoxPolicies()).value).Ok?
      && ReadFile(fs, ChromiumPolicies()).Ok? && codec.decode(ReadFile(fs, ChromiumPolicies()).value).Ok?
      && ReadFile(r, FirefoxPolicies()).Ok?
      && codec.decode(ReadFile(r, FirefoxPolicies()).value)
         == Bookmarks.Insert(codec.decode(ReadFile(fs, FirefoxPolicies()).value).value, "firefox", bms)
      && ReadFile(r, ChromiumPolicies()).Ok?
      && codec.decode(ReadFile(r, ChromiumPolicies()).value)
         == Bookmarks.Insert(codec.decode(ReadFile(fs, ChromiumPolicies()).value).value, "chromium", bms)
  {
    var bms := Bookmarks.Collected(fs, BookmarksPath(), station, false, decode).value;
    var f := Bookmarks.InsertBookmarks(fs, "firefox", FirefoxPolicies(), bms, codec);
    Bookmarks.InsertBookmarksRoundTrip(fs, "firefox", FirefoxPolicies(), bms, codec);
    Bookmarks.InsertBookmarksRoundTrip(f.fs, "chromium", ChromiumPolicies(), bms, codec);
    var c := Bookmarks.InsertBookmarks(f.fs, "chromium", ChromiumPolicies(), bms, codec);
    assert ReadFile(f.fs, ChromiumPolicies()) == ReadFile(fs, ChromiumPolicies());
    assert ReadFile(c.fs, FirefoxPolicies()) == ReadFile(f.fs, FirefoxPolicies());
  }
}
