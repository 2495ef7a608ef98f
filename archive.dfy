/** Extraction of decoded archives into the file tree: the selective
    extraction of a repository zip (`unzipRepoZip`, `unzipRepoZip0`), the
    unfiltered extraction of the bookmarks zip (`unzipInto`) and the tarball
    extraction of the older updater (`extractTarGz`). The container formats
    themselves are not modelled: an archive arrives decoded, or as a format
    failure. */
module Archive {
  import opened Wrappers
  import opened Text
  import opened Paths
  import opened Files

  /** One member of a zip archive as `archive/zip` presents it: its name,
      whether `FileInfo().IsDir()` holds, its content (`None` when `Open` or
      reading it fails, e.g. on a checksum mismatch) and its mode. */
  datatype ZipEntry = ZipEntry(name: string, isDir: bool, data: Option<string>, mode: nat)

  /** What `zip.NewReader` makes of the downloaded bytes. */
  datatype Zip = Unreadable | Zip(entries: seq<ZipEntry>)

  // ------------------------------------------------------------------
  // Tree growth

  /** Nothing present in `fs` is missing from `fs'`, and every directory is
      as it was; files may have been rewritten. */
  ghost predicate Grows(fs: FileSystem, fs': FileSystem)
  {
    forall q :: q in fs.nodes ==> q in fs'.nodes && (fs.nodes[q].Dir? ==> fs'.nodes[q] == fs.nodes[q])
  }

  /** ...except, possibly, at `q`: a node that is new or different. */
  ghost predicate Touched(fs: FileSystem, fs': FileSystem, q: Path)
  {
    q in fs'.nodes && (q !in fs.nodes || fs'.nodes[q] != fs.nodes[q])
  }

  lemma TouchedStep(fs0: FileSystem, fs1: FileSystem, fs2: FileSystem, q: Path)
    requires Touched(fs0, fs2, q)
    requires forall p :: p in fs0.nodes ==> p in fs1.nodes
    ensures Touched(fs0, fs1, q) || Touched(fs1, fs2, q)
  {
  }

  // ------------------------------------------------------------------
  // Root stripping and the allow-list

  /** `strings.Join(strings.Split(name, "/")[1:], "/")` when there are at
      least two pieces: whatever follows the first slash. A name without a
      slash is skipped. */
  function StripRoot(name: string): (r: Option<string>)
    ensures r.None? <==> '/' !in name
    ensures r.Some? ==> r.value == name[IndexOf(name, '/') + 1..]
  {
    SplitTail(name, '/');
    var parts := Split(name, '/');
    if |parts| < 2 then None else Some(JoinSep(parts[1..], '/'))
  }

  /** The segments of the stripped name are the name's segments after the
      first. */
  lemma StripRootSegments(name: string)
    requires '/' in name
    ensures Split(StripRoot(name).value, '/') == Split(name, '/')[1..]
  {
    SplitTail(name, '/');
    var parts := Split(name, '/');
    SplitJoin(parts[1..], '/');
  }

  /** The test inside the `matchesTarget` loop. */
  predicate Matches(rel: string, target: string)
  {
    HasPrefix(rel, target + "/") || rel == target
  }

  /** For a target without a slash the match is on whole path components: it
      holds exactly when the first segment of `rel` is the target. */
  lemma MatchesFirstSegment(rel: string, target: string)
    requires '/' !in target
    ensures Matches(rel, target) <==> Split(rel, '/')[0] == target
  {
    SplitHead(rel, '/');
    var i := IndexOf(rel, '/');
    if HasPrefix(rel, target + "/") {
      assert rel[|target|] == '/';
      assert forall j :: 0 <= j < |target| ==> rel[j] == target[j];
      assert i == |target|;
    }
    if rel == target {
      NoSepIndex(rel, '/');
    }
    if rel[..i] == target && i < |rel| {
      assert rel[..|target| + 1] == target + "/";
    }
  }

  /** A name that merely starts with a target's letters is not selected. */
  lemma MatchExamples()
    ensures !Matches("iceslabX", "iceslab") && !Matches("iceslabX/run.sh", "iceslab")
    ensures Matches("iceslab", "iceslab") && Matches("assets/etc/motd", "assets")
  {
    assert ("iceslabX")[7] == 'X';
    assert ("iceslabX/run.sh")[7] == 'X';
    assert ("assets/etc/motd")[..7] == "assets/";
  }

  /** The value of `matchesTarget` after the inner loop. */
  predicate AnyMatch(rel: string, targets: seq<string>)
  {
    exists k :: 0 <= k < |targets| && Matches(rel, targets[k])
  }

  /** The entry survives the root stripping and the allow-list. */
  predicate Picked(e: ZipEntry, targets: seq<string>)
  {
    StripRoot(e.name).Some? && AnyMatch(StripRoot(e.name).value, targets)
  }

  /** Where selective extraction writes: below a destination directory
      (`unzipRepoZip`), or at the relative path itself, that is in the working
      directory (`unzipRepoZip0`). */
  datatype Placement = Under(dest: Path) | InPlace

  ghost predicate ValidPlacement(pl: Placement)
  {
    pl.Under? ==> IsClean(pl.dest, false)
  }

  /** The path an entry with relative path `rel` is written to. */
  function Target(pl: Placement, rel: string): (p: Path)
    requires ValidPlacement(pl)
    ensures IsClean(p, false)
    ensures pl.Under? ==> p == JoinPath(pl.dest, rel)
    ensures pl.InPlace? ==> p == PathOf(rel)
  {
    match pl
    case Under(dest) => JoinPath(dest, rel)
    case InPlace => PathOf(rel)
  }

  /** The directory made before a file is written: `filepath.Dir` of the
      target. */
  function TargetDir(pl: Placement, rel: string): (p: Path)
    requires ValidPlacement(pl)
    ensures pl.Under? ==> p <= Target(pl, rel)
  {
    match pl
    case Under(dest) => Parent(JoinPath(dest, rel))
    case InPlace => DirOf(rel)
  }

  /** What extracting one selected entry may create or change: the prefixes
      of its target and of the target's directory. */
  ghost predicate Reaches(pl: Placement, rel: string, q: Path)
    requires ValidPlacement(pl)
  {
    q <= Target(pl, rel) || q <= TargetDir(pl, rel)
  }

  // ------------------------------------------------------------------
  // Selective extraction: unzipRepoZip and unzipRepoZip0

  /** One pass of the loop over `zr.File`. An entry that is skipped changes
      nothing; a directory is made and its error ignored; a file needs its
      directory, its content and a successful write, and the first of these
      that fails ends the extraction with that error. */
  function ExtractEntry(fs: FileSystem, e: ZipEntry, targets: seq<string>, pl: Placement): (r: Outcome)
    requires ValidPlacement(pl)
    ensures r.fs.denied == fs.denied
    ensures Grows(fs, r.fs)
    ensures [] !in fs.nodes ==> [] !in r.fs.nodes
    ensures !Picked(e, targets) ==> r == Outcome(fs, None)
    ensures e.isDir ==> r.err.None?
  {
    if !Picked(e, targets) then Outcome(fs, None)
    else
      var rel := StripRoot(e.name).value;
      var full := Target(pl, rel);
      if e.isDir then Outcome(MkdirAll(fs, full, ModePerm).fs, None)
      else
        var m := MkdirAll(fs, TargetDir(pl, rel), ModePerm);
        if m.err.Some? then m
        else if e.data.None? then Outcome(m.fs, Some(Malformed))
        else WriteFile(m.fs, full, e.data.value, e.mode)
  }

  /** Extracting one entry creates or changes only prefixes of its target and
      of the target's directory. */
  lemma ExtractEntryTouches(fs: FileSystem, e: ZipEntry, targets: seq<string>, pl: Placement, q: Path)
    requires ValidPlacement(pl)
    requires Touched(fs, ExtractEntry(fs, e, targets, pl).fs, q)
    ensures Picked(e, targets) && Reaches(pl, StripRoot(e.name).value, q)
  {
    var rel := StripRoot(e.name).value;
    if !e.isDir {
      var m := MkdirAll(fs, TargetDir(pl, rel), ModePerm);
      if m.err.None? && e.data.Some? {
        TouchedStep(fs, m.fs, ExtractEntry(fs, e, targets, pl).fs, q);
      }
    }
  }

  /** A selected file entry that extracts without error is at its target with
      the entry's content, and with the entry's mode unless a file was there
      already (which keeps its own). */
  lemma ExtractEntryWrites(fs: FileSystem, e: ZipEntry, targets: seq<string>, pl: Placement)
    requires ValidPlacement(pl)
    requires Picked(e, targets) && !e.isDir
    requires ExtractEntry(fs, e, targets, pl).err.None?
    ensures e.data.Some?
    ensures var full := Target(pl, StripRoot(e.name).value);
      && IsDir(ExtractEntry(fs, e, targets, pl).fs, Parent(full))
      && ExtractEntry(fs, e, targets, pl).fs.nodes[full]
         == File(e.data.value, if IsFile(fs, full) then fs.nodes[full].mode else e.mode)
  {
    var rel := StripRoot(e.name).value;
    var full := Target(pl, rel);
    var m := MkdirAll(fs, TargetDir(pl, rel), ModePerm);
    assert CanWrite(m.fs, full);
    assert IsFile(m.fs, full) <==> IsFile(fs, full);
  }

  /** The loop over all entries, stopping at the first error. */
  function ExtractAll(fs: FileSystem, es: seq<ZipEntry>, targets: seq<string>, pl: Placement): (r: Outcome)
    requires ValidPlacement(pl)
    ensures r.fs.denied == fs.denied
    ensures Grows(fs, r.fs)
    ensures [] !in fs.nodes ==> [] !in r.fs.nodes
    decreases |es|
  {
    if |es| == 0 then Outcome(fs, None)
    else
      var o := ExtractEntry(fs, es[0], targets, pl);
      if o.err.Some? then o else ExtractAll(o.fs, es[1..], targets, pl)
  }

  /** Extracting `a + b` is extracting `a` and then, if that succeeded, `b`. */
  lemma {:induction false} ExtractAllAppend(fs: FileSystem, a: seq<ZipEntry>, b: seq<ZipEntry>, targets: seq<string>, pl: Placement)
    requires ValidPlacement(pl)
    ensures var o := ExtractAll(fs, a, targets, pl);
      ExtractAll(fs, a + b, targets, pl) == if o.err.Some? then o else ExtractAll(o.fs, b, targets, pl)
    decreases |a|
  {
    if |a| == 0 {
      assert a + b == b;
    } else {
      assert (a + b)[0] == a[0] && (a + b)[1..] == a[1..] + b;
      var o := ExtractEntry(fs, a[0], targets, pl);
      if o.err.None? {
        ExtractAllAppend(o.fs, a[1..], b, targets, pl);
      }
    }
  }

  /** The entries that survive root stripping and the allow-list, in order. */
  function Selection(es: seq<ZipEntry>, targets: seq<string>): (r: seq<ZipEntry>)
    ensures |r| <= |es|
    ensures forall k :: 0 <= k < |r| ==> Picked(r[k], targets)
    ensures forall e :: e in es && Picked(e, targets) ==> e in r
    ensures forall e :: e in r ==> e in es
  {
    if |es| == 0 then []
    else if Picked(es[0], targets) then [es[0]] + Selection(es[1..], targets)
    else Selection(es[1..], targets)
  }

  /** Entries that are skipped have no effect at all: extracting the whole
      archive is extracting its selection. */
  lemma {:induction false} ExtractAllSelection(fs: FileSystem, es: seq<ZipEntry>, targets: seq<string>, pl: Placement)
    requires ValidPlacement(pl)
    ensures ExtractAll(fs, es, targets, pl) == ExtractAll(fs, Selection(es, targets), targets, pl)
    decreases |es|
  {
    if |es| > 0 {
      var o := ExtractEntry(fs, es[0], targets, pl);
      if o.err.None? {
        ExtractAllSelection(o.fs, es[1..], targets, pl);
      }
      if Picked(es[0], targets) {
        var r := [es[0]] + Selection(es[1..], targets);
        assert r[0] == es[0] && r[1..] == Selection(es[1..], targets);
      }
    }
  }

  /** Every node the extraction creates or changes is a prefix of the target
      (or the target's directory) of a selected entry. */
  lemma {:induction false} ExtractAllTouches(fs: FileSystem, es: seq<ZipEntry>, targets: seq<string>, pl: Placement, q: Path)
    requires ValidPlacement(pl)
    requires Touched(fs, ExtractAll(fs, es, targets, pl).fs, q)
    ensures exists k :: 0 <= k < |es| && Picked(es[k], targets) && Reaches(pl, StripRoot(es[k].name).value, q)
    decreases |es|
  {
    var o := ExtractEntry(fs, es[0], targets, pl);
    if o.err.Some? {
      ExtractEntryTouches(fs, es[0], targets, pl, q);
    } else {
      TouchedStep(fs, o.fs, ExtractAll(o.fs, es[1..], targets, pl).fs, q);
      if Touched(fs, o.fs, q) {
        ExtractEntryTouches(fs, es[0], targets, pl, q);
      } else {
        ExtractAllTouches(o.fs, es[1..], targets, pl, q);
        var k :| 0 <= k < |es[1..]| && Picked(es[1..][k], targets) && Reaches(pl, StripRoot(es[1..][k].name).value, q);
        assert es[1..][k] == es[k + 1];
      }
    }
  }

  /** The first step of the loop. */
  lemma ExtractAllCons(fs: FileSystem, e: ZipEntry, rest: seq<ZipEntry>, targets: seq<string>, pl: Placement)
    requires ValidPlacement(pl)
    ensures var o := ExtractEntry(fs, e, targets, pl);
      ExtractAll(fs, [e] + rest, targets, pl) == if o.err.Some? then o else ExtractAll(o.fs, rest, targets, pl)
  {
    assert ([e] + rest)[0] == e && ([e] + rest)[1..] == rest;
  }

  /** The state after the first `i` entries, when none of them failed. */
  ghost predicate StopsAt(fs: FileSystem, es: seq<ZipEntry>, targets: seq<string>, pl: Placement, i: nat)
    requires ValidPlacement(pl)
  {
    && i < |es|
    && ExtractAll(fs, es[..i], targets, pl).err.None?
    && ExtractAll(fs, es, targets, pl) == ExtractEntry(ExtractAll(fs, es[..i], targets, pl).fs, es[i], targets, pl)
  }

  /** A failed extraction failed at one entry: everything before it was
      extracted without error and stays extracted, and nothing after it was
      looked at. */
  lemma {:induction false} ExtractAllStops(fs: FileSystem, es: seq<ZipEntry>, targets: seq<string>, pl: Placement)
    returns (i: nat)
    requires ValidPlacement(pl)
    requires ExtractAll(fs, es, targets, pl).err.Some?
    ensures StopsAt(fs, es, targets, pl, i)
    decreases |es|
  {
    var o := ExtractEntry(fs, es[0], targets, pl);
    if o.err.Some? {
      assert es[..0] == [];
      i := 0;
    } else {
      var j := ExtractAllStops(o.fs, es[1..], targets, pl);
      StopsLater(fs, es, targets, pl, j);
      i := j + 1;
    }
  }

  /** A stop in the tail after a first entry that succeeded is a stop one
      place later in the whole sequence. */
  lemma StopsLater(fs: FileSystem, es: seq<ZipEntry>, targets: seq<string>, pl: Placement, j: nat)
    requires ValidPlacement(pl) && |es| > 0
    requires ExtractEntry(fs, es[0], targets, pl).err.None?
    requires StopsAt(ExtractEntry(fs, es[0], targets, pl).fs, es[1..], targets, pl, j)
    ensures StopsAt(fs, es, targets, pl, j + 1)
  {
    var o := ExtractEntry(fs, es[0], targets, pl);
    PrefixAfterFirst(fs, es, targets, pl, j);
    assert es[1..][j] == es[j + 1];
    assert ExtractAll(fs, es, targets, pl) == ExtractAll(o.fs, es[1..], targets, pl);
  }

  /** The first `j + 1` entries, after a first entry that succeeded, are
      that entry and the first `j` of the rest. */
  lemma PrefixAfterFirst(fs: FileSystem, es: seq<ZipEntry>, targets: seq<string>, pl: Placement, j: nat)
    requires ValidPlacement(pl) && j < |es|
    requires ExtractEntry(fs, es[0], targets, pl).err.None?
    ensures ExtractAll(fs, es[..j + 1], targets, pl) == ExtractAll(ExtractEntry(fs, es[0], targets, pl).fs, es[1..][..j], targets, pl)
  {
    var p := es[..j + 1];
    assert p[0] == es[0];
    assert p[1..] == es[1..][..j];
  }

  /** The segments an entry's relative path resolves through contain no
      "..". */
  predicate NoDotDot(e: ZipEntry)
  {
    forall k :: 0 <= k < |Split(e.name, '/')| ==> Split(e.name, '/')[k] != ".."
  }

  lemma TargetExtends(e: ZipEntry, dest: Path)
    requires IsClean(dest, false) && '/' in e.name && NoDotDot(e)
    ensures dest <= Target(Under(dest), StripRoot(e.name).value)
  {
    StripRootSegments(e.name);
    CleanFromExtends(dest, Split(e.name, '/')[1..]);
  }

  /** Extracting one entry keeps the tree well formed. */
  lemma ExtractEntryValid(fs: FileSystem, e: ZipEntry, targets: seq<string>, pl: Placement)
    requires Valid(fs) && ValidPlacement(pl) && (pl.Under? ==> WfPath(pl.dest))
    ensures Valid(ExtractEntry(fs, e, targets, pl).fs)
  {
    if Picked(e, targets) {
      var rel := StripRoot(e.name).value;
      if pl.Under? {
        JoinPathWf(pl.dest, rel);
      } else {
        PathOfWf(rel);
        DirOfWf(rel);
      }
      var full := Target(pl, rel);
      if e.isDir {
        MkdirAllValid(fs, full, ModePerm);
      } else {
        var m := MkdirAll(fs, TargetDir(pl, rel), ModePerm);
        MkdirAllValid(fs, TargetDir(pl, rel), ModePerm);
        if m.err.None? && e.data.Some? {
          WriteFileValid(m.fs, full, e.data.value, e.mode);
        }
      }
    }
  }

  /** Extraction keeps the tree well formed. */
  lemma {:induction false} ExtractAllValid(fs: FileSystem, es: seq<ZipEntry>, targets: seq<string>, pl: Placement)
    requires Valid(fs) && ValidPlacement(pl) && (pl.Under? ==> WfPath(pl.dest))
    ensures Valid(ExtractAll(fs, es, targets, pl).fs)
    decreases |es|
  {
    if |es| > 0 {
      ExtractEntryValid(fs, es[0], targets, pl);
      var o := ExtractEntry(fs, es[0], targets, pl);
      if o.err.None? {
        ExtractAllValid(o.fs, es[1..], targets, pl);
      }
    }
  }

  /** A tree that only grows keeps the ancestors of an existing directory
      as they were. */
  lemma AncestorUntouched(fs: FileSystem, fs': FileSystem, dest: Path, q: Path)
    requires Valid(fs) && IsDir(fs, dest) && Grows(fs, fs') && [] !in fs'.nodes
    requires q < dest
    ensures !Touched(fs, fs', q)
  {
    if q != [] {
      AncestorIsDir(fs, dest, |q|);
      assert dest[..|q|] == q;
    }
  }

  /** Cleaning segments that start with a real segment `s` and hold no ".."
      keeps `s` in front. */
  lemma CleanKeepsHead(segs: seq<string>, s: string)
    requires |segs| >= 1 && segs[0] == s && s != "" && s != "." && s != ".."
    requires forall k :: 0 <= k < |segs| ==> segs[k] != ".."
    ensures [s] <= CleanFrom([], segs, false)
  {
    assert Push([], s, false) == [s];
    CleanFromExtends([s], segs[1..]);
  }

  /** In place, writing an entry whose relative path starts with the segment
      `s` reaches only paths that start with `s`. */
  lemma InPlaceReachesHead(rel: string, s: string, q: Path)
    requires Split(rel, '/')[0] == s && s != "" && s != "." && s != ".."
    requires forall k :: 0 <= k < |Split(rel, '/')| ==> Split(rel, '/')[k] != ".."
    requires q != [] && Reaches(InPlace, rel, q)
    ensures q[0] == s
  {
    var segs := Split(rel, '/');
    CleanKeepsHead(segs, s);
    if |segs| >= 2 {
      CleanKeepsHead(segs[..|segs| - 1], s);
    }
  }

  /** In place, with no ".." in the selected names, extraction creates and
      changes nodes only in the trees named by the allow-list: each such node's
      first segment is one of the targets (for targets that are single
      segments). */
  lemma ExtractAllInTargets(fs: FileSystem, es: seq<ZipEntry>, targets: seq<string>, q: Path)
    requires [] !in fs.nodes
    requires forall j :: 0 <= j < |targets| ==> targets[j] != "" && targets[j] != "." && targets[j] != ".." && '/' !in targets[j]
    requires forall k :: 0 <= k < |es| && Picked(es[k], targets) ==> NoDotDot(es[k])
    requires Touched(fs, ExtractAll(fs, es, targets, InPlace).fs, q)
    ensures q != [] && q[0] in targets
  {
    ExtractAllTouches(fs, es, targets, InPlace, q);
    var k :| 0 <= k < |es| && Picked(es[k], targets) && Reaches(InPlace, StripRoot(es[k].name).value, q);
    PickedReachesTarget(es[k], targets, q);
  }

  /** A node a selected entry without ".." reaches in place starts with the
      target it matched. */
  lemma PickedReachesTarget(e: ZipEntry, targets: seq<string>, q: Path)
    requires forall j :: 0 <= j < |targets| ==> targets[j] != "" && targets[j] != "." && targets[j] != ".." && '/' !in targets[j]
    requires Picked(e, targets) && NoDotDot(e) && q != []
    requires Reaches(InPlace, StripRoot(e.name).value, q)
    ensures q[0] in targets
  {
    var rel := StripRoot(e.name).value;
    var j :| 0 <= j < |targets| && Matches(rel, targets[j]);
    MatchesFirstSegment(rel, targets[j]);
    StripRootSegments(e.name);
    InPlaceReachesHead(rel, targets[j], q);
  }

  /** When the destination directory exists and no selected entry's name has
      a ".." segment, extraction creates and changes nodes only below the
      destination. */
  lemma ExtractAllStaysUnder(fs: FileSystem, es: seq<ZipEntry>, targets: seq<string>, dest: Path, q: Path)
    requires Valid(fs) && IsClean(dest, false) && IsDir(fs, dest)
    requires forall k :: 0 <= k < |es| && Picked(es[k], targets) ==> NoDotDot(es[k])
    requires Touched(fs, ExtractAll(fs, es, targets, Under(dest)).fs, q)
    ensures dest <= q
  {
    ExtractAllTouches(fs, es, targets, Under(dest), q);
    var k :| 0 <= k < |es| && Picked(es[k], targets) && Reaches(Under(dest), StripRoot(es[k].name).value, q);
    TargetExtends(es[k], dest);
    if !(dest <= q) {
      AncestorUntouched(fs, ExtractAll(fs, es, targets, Under(dest)).fs, dest, q);
    }
  }

  /** Without that condition the destination does not contain the writes: a
      selected entry `assets/../../x` is written two levels above it. */
  lemma ZipSlipExample(rel: string, dest: Path)
    requires rel == "assets/../../x"
    requires dest == ["tmp", "u"]
    ensures AnyMatch(rel, ["iceslab", "assets"])
    ensures Target(Under(dest), rel) == ["tmp", "x"]
    ensures !(dest <= Target(Under(dest), rel))
  {
    assert Matches(rel, "assets") by {
      assert rel[..7] == "assets/";
    }
    var targets := ["iceslab", "assets"];
    assert targets[1] == "assets";
    SlipSplit();
    SlipClean();
    assert dest[1] != ["tmp", "x"][1];
  }

  /** Stripping the root folder off `root/rest` gives `rest`. */
  lemma StripRootOf(root: string, rest: string)
    requires '/' !in root
    ensures StripRoot(root + "/" + rest) == Some(rest)
  {
    var name := root + "/" + rest;
    assert name[|root|] == '/';
    assert forall j :: 0 <= j < |root| ==> name[j] == root[j];
    assert IndexOf(name, '/') == |root|;
    assert name[|root| + 1..] == rest;
  }

  lemma SlipClean()
    ensures CleanFrom(["tmp", "u"], ["assets", "..", "..", "x"], false) == ["tmp", "x"]
  {
    var segs := ["assets", "..", "..", "x"];
    assert Push(["tmp", "u", "assets"], "..", false) == ["tmp", "u"] by {
      assert ["tmp", "u", "assets"][..2] == ["tmp", "u"];
    }
    assert Push(["tmp", "u"], "..", false) == ["tmp"] by {
      assert ["tmp", "u"][..1] == ["tmp"];
    }
    assert CleanFrom(["tmp"], segs[3..], false) == ["tmp", "x"];
    assert CleanFrom(["tmp", "u"], segs[2..], false) == CleanFrom(["tmp"], segs[3..], false);
    assert CleanFrom(["tmp", "u", "assets"], segs[1..], false) == CleanFrom(["tmp", "u"], segs[2..], false);
  }

  lemma SlipSplit()
    ensures Split("assets/../../x", '/') == ["assets", "..", "..", "x"]
  {
    SplitJoin(["assets", "..", "..", "x"], '/');
    assert JoinSep(["x"], '/') == "x";
    assert JoinSep(["..", "x"], '/') == "../x";
    assert JoinSep(["..", "..", "x"], '/') == "../../x";
    assert JoinSep(["assets", "..", "..", "x"], '/') == "assets/../../x";
  }

  /** `unzipRepoZip` (placement `Under(destDir)`) and `unzipRepoZip0`
      (placement `InPlace`). */
  function Unzip(fs: FileSystem, z: Zip, targets: seq<string>, pl: Placement): (r: Outcome)
    requires ValidPlacement(pl)
    ensures z.Unreadable? ==> r == Outcome(fs, Some(Malformed))
  {
    match z
    case Unreadable => Outcome(fs, Some(Malformed))
    case Zip(es) => ExtractAll(fs, es, targets, pl)
  }

  /** One pass of the outer loop, with the inner loop that sets
      `matchesTarget`. */
  method ExtractOne(fs: FileSystem, e: ZipEntry, targets: seq<string>, pl: Placement)
    returns (fs': FileSystem, err: Option<Error>)
    requires ValidPlacement(pl)
    ensures Outcome(fs', err) == ExtractEntry(fs, e, targets, pl)
  {
    var parts := Split(e.name, '/');
    if |parts| < 2 {
      assert !Picked(e, targets);
      return fs, None;
    }
    var rel := JoinSep(parts[1..], '/');
    assert StripRoot(e.name) == Some(rel);
    var matchesTarget := false;
    for k := 0 to |targets|
      invariant !matchesTarget
      invariant forall j :: 0 <= j < k ==> !Matches(rel, targets[j])
    {
      if HasPrefix(rel, targets[k] + "/") || rel == targets[k] {
        assert Matches(rel, targets[k]);
        matchesTarget := true;
        break;
      }
    }
    if !matchesTarget {
      assert !Picked(e, targets);
      return fs, None;
    }
    assert Picked(e, targets);
    var full := Target(pl, rel);
    if e.isDir {
      var made := MkdirAll(fs, full, ModePerm);
      return made.fs, None;
    }
    var m := MkdirAll(fs, TargetDir(pl, rel), ModePerm);
    if m.err.Some? {
      return m.fs, m.err;
    }
    if e.data.None? {
      return m.fs, Some(Malformed);
    }
    var w := WriteFile(m.fs, full, e.data.value, e.mode);
    return w.fs, w.err;
  }

  /** The loops of `unzipRepoZip` and `unzipRepoZip0`, shared: the outer loop
      over the entries and the inner loop that sets `matchesTarget`. */
  method ExtractSelected(fs: FileSystem, z: Zip, targets: seq<string>, pl: Placement)
    returns (fs': FileSystem, err: Option<Error>)
    requires ValidPlacement(pl)
    ensures Outcome(fs', err) == Unzip(fs, z, targets, pl)
  {
    if z.Unreadable? {
      return fs, Some(Malformed);
    }
    var es := z.entries;
    fs' := fs;
    for i := 0 to |es|
      invariant ExtractAll(fs, es, targets, pl) == ExtractAll(fs', es[i..], targets, pl)
    {
      assert es[i..][1..] == es[i + 1..];
      var o, e := ExtractOne(fs', es[i], targets, pl);
      if e.Some? {
        return o, e;
      }
      fs' := o;
    }
    return fs', None;
  }

  /** `unzipRepoZip(zipData, targets, destDir)`. */
  method UnzipRepoZip(fs: FileSystem, z: Zip, targets: seq<string>, destDir: Path)
    returns (fs': FileSystem, err: Option<Error>)
    requires IsClean(destDir, false)
    ensures Outcome(fs', err) == Unzip(fs, z, targets, Under(destDir))
  {
    fs', err := ExtractSelected(fs, z, targets, Under(destDir));
  }

  /** `unzipRepoZip0(zipData, targets)`: the same loop, writing in place. */
  method UnzipRepoZip0(fs: FileSystem, z: Zip, targets: seq<string>)
    returns (fs': FileSystem, err: Option<Error>)
    ensures Outcome(fs', err) == Unzip(fs, z, targets, InPlace)
  {
    fs', err := ExtractSelected(fs, z, targets, InPlace);
  }
}
