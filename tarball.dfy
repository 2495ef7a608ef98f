/** `extractTarGz` (utils/updateOld.go, and its copy in main.go): a gzipped
    tarball below a destination, with the top-level folder cut off. */
module Tarball {
  import opened Wrappers
  import opened Text
  import opened Paths
  import opened Files
  import opened Archive

  datatype TarKind = TypeDir | TypeReg | TypeOther

  /** A header as `tar.Reader.Next` returns it, with the body that follows it.
      `complete` is false when copying the body fails partway; `data` is then
      what was copied before the failure. */
  datatype TarHeader = TarHeader(name: string, kind: TarKind, data: string, complete: bool)

  /** A gzip stream: `NotGzip` when `gzip.NewReader` fails; otherwise the
      headers `Next` returns before it reports `io.EOF` (`broken` false) or
      another error (`broken` true). */
  datatype TarStream = NotGzip | TarStream(headers: seq<TarHeader>, broken: bool)

  /** `filepath.Join(dest, filepath.Join(parts[1:]...))`, resolved. */
  function TarTarget(dest: Path, name: string): (p: Path)
    requires IsClean(dest, false)
    requires '/' in name
    ensures IsClean(p, false)
    ensures p == CleanFrom(dest, Split(JoinAll(Split(name, '/')[1..]), '/'), false)
  {
    var parts := Split(name, '/');
    assert NoSlash(parts[1..]);
    JoinAllResolves(dest, parts[1..]);
    CleanFrom(dest, parts[1..], false)
  }

  /** One header: names with at most one segment are skipped; a directory is
      made with 0755; a regular file gets its directory (0755) and is then
      created (0666, or truncated) and filled; other types are ignored. */
  function TarEntry(fs: FileSystem, dest: Path, h: TarHeader): (r: Outcome)
    requires IsClean(dest, false)
    ensures r.fs.denied == fs.denied
    ensures Grows(fs, r.fs)
    ensures [] !in fs.nodes ==> [] !in r.fs.nodes
    ensures '/' !in h.name || h.kind == TypeOther ==> r == Outcome(fs, None)
  {
    SplitTail(h.name, '/');
    var parts := Split(h.name, '/');
    if |parts| <= 1 then Outcome(fs, None)
    else
      var target := TarTarget(dest, h.name);
      match h.kind
      case TypeDir => MkdirAll(fs, target, Mode755)
      case TypeReg =>
        var m := MkdirAll(fs, Parent(target), Mode755);
        if m.err.Some? then m
        else
          var w := WriteFile(m.fs, target, h.data, Mode666);
          if w.err.Some? || h.complete then w else Outcome(w.fs, Some(Malformed))
      case TypeOther => Outcome(fs, None)
  }

  /** A regular file whose header was processed holds the body as far as it
      was copied, even when the copy failed. */
  lemma TarEntryWrites(fs: FileSystem, dest: Path, h: TarHeader)
    requires IsClean(dest, false) && '/' in h.name && h.kind == TypeReg
    requires var m := MkdirAll(fs, Parent(TarTarget(dest, h.name)), Mode755);
      m.err.None? && CanWrite(m.fs, TarTarget(dest, h.name))
    ensures var r := TarEntry(fs, dest, h);
      && (r.err.None? <==> h.complete)
      && IsFile(r.fs, TarTarget(dest, h.name))
      && r.fs.nodes[TarTarget(dest, h.name)].data == h.data
  {
    SplitTail(h.name, '/');
  }

  /** The loop over `tarReader.Next()` up to the first error. */
  function TarAll(fs: FileSystem, dest: Path, hs: seq<TarHeader>): (r: Outcome)
    requires IsClean(dest, false)
    ensures r.fs.denied == fs.denied
    ensures Grows(fs, r.fs)
    decreases |hs|
  {
    if |hs| == 0 then Outcome(fs, None)
    else
      var o := TarEntry(fs, dest, hs[0]);
      if o.err.Some? then o else TarAll(o.fs, dest, hs[1..])
  }

  /** `extractTarGz(stream, dest)`: a stream that is not gzip writes nothing;
      a stream that breaks after its headers reports the error after them. */
  function ExtractTarGzSpec(fs: FileSystem, dest: Path, s: TarStream): (r: Outcome)
    requires IsClean(dest, false)
  {
    match s
    case NotGzip => Outcome(fs, Some(Malformed))
    case TarStream(hs, broken) =>
      var o := TarAll(fs, dest, hs);
      if o.err.None? && broken then Outcome(o.fs, Some(Malformed)) else o
  }

  /** `extractTarGz(gzipStream, dest)` step by step; its outcome is `ExtractTarGzSpec`,
      about which the `TarAll` lemmas are proved. */
  method ExtractTarGz(fs: FileSystem, dest: Path, s: TarStream) returns (fs': FileSystem, err: Option<Error>)
    requires IsClean(dest, false)
    ensures Outcome(fs', err) == ExtractTarGzSpec(fs, dest, s)
    ensures s.NotGzip? ==> fs' == fs && err.Some?
  {
    if s.NotGzip? {
      return fs, Some(Malformed);
    }
    var hs := s.headers;
    fs' := fs;
    var i := 0;
    while true
      invariant 0 <= i <= |hs|
      invariant TarAll(fs, dest, hs) == TarAll(fs', dest, hs[i..])
      decreases |hs| - i
    {
      if i == |hs| {
        if s.broken {
          return fs', Some(Malformed);
        }
        break;
      }
      assert hs[i..][1..] == hs[i + 1..];
      var h := hs[i];
      i := i + 1;
      var parts := Split(h.name, '/');
      if |parts| <= 1 {
        continue;
      }
      var target := JoinPath(dest, JoinAll(parts[1..]));
      assert target == TarTarget(dest, h.name);
      match h.kind {
        case TypeDir =>
          var m := MkdirAll(fs', target, Mode755);
          if m.err.Some? {
            return m.fs, m.err;
          }
          fs' := m.fs;
        case TypeReg =>
          var m := MkdirAll(fs', Parent(target), Mode755);
          if m.err.Some? {
            return m.fs, m.err;
          }
          var w := WriteFile(m.fs, target, h.data, Mode666);
          if w.err.Some? {
            return w.fs, w.err;
          }
          if !h.complete {
            return w.fs, Some(Malformed);
          }
          fs' := w.fs;
        case TypeOther =>
      }
    }
    return fs', None;
  }

  /** One header creates or changes only prefixes of its target. */
  lemma TarEntryTouches(fs: FileSystem, dest: Path, h: TarHeader, q: Path)
    requires IsClean(dest, false)
    requires Touched(fs, TarEntry(fs, dest, h).fs, q)
    ensures '/' in h.name && q <= TarTarget(dest, h.name)
  {
    SplitTail(h.name, '/');
    var target := TarTarget(dest, h.name);
    var r := TarEntry(fs, dest, h);
    if h.kind == TypeDir {
      assert r == MkdirAll(fs, target, Mode755);
    } else if h.kind == TypeReg {
      var m := MkdirAll(fs, Parent(target), Mode755);
      if m.err.None? {
        var w := WriteFile(m.fs, target, h.data, Mode666);
        assert r.fs == w.fs;
        TouchedStep(fs, m.fs, w.fs, q);
      } else {
        assert r == m;
      }
    }
  }

  /** Every node the extraction creates or changes is a prefix of some
      header's target. */
  lemma {:induction false} TarAllTouches(fs: FileSystem, dest: Path, hs: seq<TarHeader>, q: Path)
    returns (k: nat)
    requires IsClean(dest, false)
    requires Touched(fs, TarAll(fs, dest, hs).fs, q)
    ensures k < |hs| && '/' in hs[k].name && q <= TarTarget(dest, hs[k].name)
    decreases |hs|
  {
    var o := TarEntry(fs, dest, hs[0]);
    if o.err.Some? {
      TarEntryTouches(fs, dest, hs[0], q);
      k := 0;
    } else {
      TouchedStep(fs, o.fs, TarAll(o.fs, dest, hs[1..]).fs, q);
      if Touched(fs, o.fs, q) {
        TarEntryTouches(fs, dest, hs[0], q);
        k := 0;
      } else {
        var j := TarAllTouches(o.fs, dest, hs[1..], q);
        k := j + 1;
        assert hs[1..][j] == hs[k];
      }
    }
  }

  /** With no ".." in a name, its target is at or below the destination. */
  lemma TarTargetExtends(dest: Path, name: string)
    requires IsClean(dest, false) && '/' in name && ".." !in Split(name, '/')
    ensures dest <= TarTarget(dest, name)
  {
    var parts := Split(name, '/');
    assert forall k :: 0 <= k < |parts[1..]| ==> parts[1..][k] != ".." by {
      forall k | 0 <= k < |parts[1..]| ensures parts[1..][k] != ".." {
        assert parts[1..][k] == parts[k + 1];
      }
    }
    CleanFromExtends(dest, parts[1..]);
  }

  /** With no ".." in any entry name, every node the extraction creates or
      changes is below the destination or on the way to it. */
  lemma TarAllReaches(fs: FileSystem, dest: Path, hs: seq<TarHeader>, q: Path)
    requires IsClean(dest, false)
    requires forall k :: 0 <= k < |hs| ==> ".." !in Split(hs[k].name, '/')
    requires Touched(fs, TarAll(fs, dest, hs).fs, q)
    ensures q <= dest || dest <= q
  {
    var k := TarAllTouches(fs, dest, hs, q);
    TarTargetExtends(dest, hs[k].name);
  }
}
