/** Go's `path/filepath` on Unix, as far as the core uses it. A model path is a
    sequence of cleaned segments read from the root of the modelled tree (the
    working directory); `[]` is that root. */
module Paths {
  import opened Text

  type Path = seq<string>

  /** A segment sequence as `filepath.Clean` leaves it: no empty or "."
      segment, ".." only before every other segment, and none at all in a
      rooted path. */
  ghost predicate IsClean(segs: seq<string>, rooted: bool)
  {
    && (forall k :: 0 <= k < |segs| ==> segs[k] != "" && segs[k] != ".")
    && (forall k :: 0 <= k < |segs| && segs[k] == ".." ==> !rooted && forall j :: 0 <= j < k ==> segs[j] == "..")
  }

  /** One step of `filepath.Clean`: empty and "." segments vanish, ".." takes
      back the previous real segment, or stays (relative path) or vanishes
      (rooted path) when there is none. */
  function Push(acc: seq<string>, seg: string, rooted: bool): (r: seq<string>)
    requires IsClean(acc, rooted)
    ensures IsClean(r, rooted)
  {
    if seg == "" || seg == "." then acc
    else if seg == ".." then
      if |acc| > 0 && acc[|acc| - 1] != ".." then acc[..|acc| - 1]
      else if rooted then acc
      else acc + [".."]
    else acc + [seg]
  }

  /** `filepath.Clean` as a left fold of `Push` over the segments. */
  function CleanFrom(acc: seq<string>, segs: seq<string>, rooted: bool): (r: seq<string>)
    requires IsClean(acc, rooted)
    ensures IsClean(r, rooted)
    decreases |segs|
  {
    if |segs| == 0 then acc else CleanFrom(Push(acc, segs[0], rooted), segs[1..], rooted)
  }

  /** Folding over two pieces is folding over the first and then the second. */
  lemma {:induction false} CleanFromAppend(acc: seq<string>, a: seq<string>, b: seq<string>, rooted: bool)
    requires IsClean(acc, rooted)
    ensures CleanFrom(acc, a + b, rooted) == CleanFrom(CleanFrom(acc, a, rooted), b, rooted)
    decreases |a|
  {
    if |a| > 0 {
      assert (a + b)[0] == a[0] && (a + b)[1..] == a[1..] + b;
      CleanFromAppend(Push(acc, a[0], rooted), a[1..], b, rooted);
    } else {
      assert a + b == b;
    }
  }

  /** Cleaning an already clean sequence changes nothing. */
  lemma {:induction false} CleanFromClean(acc: seq<string>, segs: seq<string>)
    requires IsClean(acc, false) && IsClean(acc + segs, false)
    requires forall k :: 0 <= k < |segs| ==> segs[k] != ".."
    ensures CleanFrom(acc, segs, false) == acc + segs
    decreases |segs|
  {
    if |segs| > 0 {
      assert acc + segs == (acc + [segs[0]]) + segs[1..];
      assert Push(acc, segs[0], false) == acc + [segs[0]] by {
        assert (acc + segs)[|acc|] == segs[0];
      }
      assert IsClean(acc + [segs[0]], false) by {
        forall k | 0 <= k < |acc| + 1 ensures (acc + [segs[0]])[k] == (acc + segs)[k] { }
      }
      CleanFromClean(acc + [segs[0]], segs[1..]);
    }
  }

  /** The segments of a path string, cleaned: what the OS resolves a relative
      path to (no symbolic links). */
  function PathOf(s: string): (p: Path)
    ensures IsClean(p, false)
  {
    CleanFrom([], Split(s, '/'), false)
  }

  /** A name without a slash is a path of one segment. */
  lemma PathOfSingle(s: string)
    requires '/' !in s && s != "" && s != "." && s != ".."
    ensures PathOf(s) == [s]
  {
    NoSepIndex(s, '/');
    assert Split(s, '/') == [s];
    assert Push([], s, false) == [s];
    assert [s][1..] == [];
    assert CleanFrom([], [s], false) == CleanFrom([s], [], false);
  }

  /** `filepath.Join(dir, rel)` for a model directory `dir`: the cleaned
      concatenation. */
  function JoinPath(dir: Path, rel: string): (p: Path)
    requires IsClean(dir, false)
    ensures IsClean(p, false)
  {
    CleanFrom(dir, Split(rel, '/'), false)
  }

  /** `filepath.Clean` on a path string. */
  function Clean(s: string): string
  {
    var rooted := |s| > 0 && s[0] == '/';
    var segs := CleanFrom([], Split(s, '/'), rooted);
    if rooted then "/" + JoinSep(segs, '/')
    else if |segs| == 0 then "."
    else JoinSep(segs, '/')
  }

  /** `filepath.Dir` of an already cleaned path: drop the last segment. */
  function Parent(p: Path): (q: Path)
    ensures |p| > 0 ==> q + [p[|p| - 1]] == p
    ensures |p| == 0 ==> q == []
  {
    if |p| == 0 then [] else p[..|p| - 1]
  }

  /** `filepath.Dir(s)` of a path string that may not be clean: everything
      before the last slash, cleaned. */
  function DirOf(s: string): Path
  {
    var segs := Split(s, '/');
    CleanFrom([], segs[..|segs| - 1], false)
  }

  /** `filepath.Rel(root, p)` for `p` inside `root`, as a string. */
  function Rel(root: Path, p: Path): string
    requires root <= p
  {
    if |p| == |root| then "." else JoinSep(p[|root|..], '/')
  }

  /** The guard of `MoveFile` and `CopyDirectoryTo`:
      `strings.HasPrefix(Clean(dest), Clean(src) + "/")`. */
  predicate StrictlyInside(dest: string, src: string)
  {
    HasPrefix(Clean(dest), Clean(src) + "/")
  }

  ghost predicate NoSlash(segs: seq<string>)
  {
    forall k :: 0 <= k < |segs| ==> '/' !in segs[k]
  }

  /** Cleaning never puts a slash into a segment. */
  lemma {:induction false} CleanFromNoSlash(acc: seq<string>, segs: seq<string>, rooted: bool)
    requires IsClean(acc, rooted) && NoSlash(acc) && NoSlash(segs)
    ensures NoSlash(CleanFrom(acc, segs, rooted))
    decreases |segs|
  {
    if |segs| > 0 {
      var next := Push(acc, segs[0], rooted);
      assert NoSlash(next) by {
        var seg := segs[0];
        if seg == "" || seg == "." {
        } else if seg == ".." {
          if |acc| > 0 && acc[|acc| - 1] != ".." {
            assert forall k :: 0 <= k < |next| ==> next[k] == acc[k];
          } else if !rooted {
            assert forall k :: 0 <= k < |next| ==> next[k] == (acc + [".."])[k];
          }
        } else {
          assert forall k :: 0 <= k < |next| ==> next[k] == (acc + [seg])[k];
        }
      }
      CleanFromNoSlash(next, segs[1..], rooted);
    }
  }

  lemma JoinPathNoSlash(dir: Path, rel: string)
    requires IsClean(dir, false) && NoSlash(dir)
    ensures NoSlash(JoinPath(dir, rel))
  {
    CleanFromNoSlash(dir, Split(rel, '/'), false);
  }

  /** With no ".." to take segments back, cleaning only appends to `acc`. */
  lemma {:induction false} CleanFromExtends(acc: seq<string>, segs: seq<string>)
    requires IsClean(acc, false)
    requires forall k :: 0 <= k < |segs| ==> segs[k] != ".."
    ensures acc <= CleanFrom(acc, segs, false)
    decreases |segs|
  {
    if |segs| > 0 {
      CleanFromExtends(Push(acc, segs[0], false), segs[1..]);
    }
  }

  /** In a clean relative sequence a trailing ".." means every segment is
      "..". */
  lemma AllDotDot(a: seq<string>)
    requires IsClean(a, false) && |a| > 0 && a[|a| - 1] == ".."
    ensures forall k :: 0 <= k < |a| ==> a[k] == ".."
  {
  }

  /** One more segment commutes with cleaning onto a base `d`. */
  lemma PushCleanFrom(d: seq<string>, a: seq<string>, x: string)
    requires IsClean(d, false) && IsClean(a, false)
    ensures Push(CleanFrom(d, a, false), x, false) == CleanFrom(d, Push(a, x, false), false)
  {
    if x == "" || x == "." {
    } else if x == ".." && |a| > 0 && a[|a| - 1] != ".." {
      var a' := a[..|a| - 1];
      assert a == a' + [a[|a| - 1]];
      assert IsClean(a', false);
      CleanFromAppend(d, a', [a[|a| - 1]], false);
      assert Push(a, x, false) == a';
    } else {
      CleanFromAppend(d, a, [x], false);
      if x == ".." && |a| > 0 {
        AllDotDot(a);
      }
      assert Push(a, x, false) == a + [x];
    }
  }

  /** Cleaning onto `CleanFrom(d, a)` is cleaning onto `d` the cleaned
      concatenation. */
  lemma {:induction false} CleanFromCompose(d: seq<string>, a: seq<string>, xs: seq<string>)
    requires IsClean(d, false) && IsClean(a, false)
    ensures CleanFrom(CleanFrom(d, a, false), xs, false) == CleanFrom(d, CleanFrom(a, xs, false), false)
    decreases |xs|
  {
    if |xs| > 0 {
      PushCleanFrom(d, a, xs[0]);
      CleanFromCompose(d, Push(a, xs[0], false), xs[1..]);
    }
  }

  /** Cleaning twice is cleaning once. */
  lemma CleanFromTwice(d: seq<string>, xs: seq<string>)
    requires IsClean(d, false)
    ensures CleanFrom(d, CleanFrom([], xs, false), false) == CleanFrom(d, xs, false)
  {
    CleanFromCompose(d, [], xs);
  }

  /** The non-empty elements, which `filepath.Join` keeps. */
  function NonEmpty(elems: seq<string>): (r: seq<string>)
    ensures forall k :: 0 <= k < |r| ==> r[k] != ""
    ensures forall x :: x in r ==> x in elems
  {
    if |elems| == 0 then []
    else if elems[0] == "" then NonEmpty(elems[1..])
    else [elems[0]] + NonEmpty(elems[1..])
  }

  /** Empty segments are no-ops for cleaning. */
  lemma {:induction false} CleanFromNonEmpty(d: seq<string>, xs: seq<string>, rooted: bool)
    requires IsClean(d, rooted)
    ensures CleanFrom(d, xs, rooted) == CleanFrom(d, NonEmpty(xs), rooted)
    decreases |xs|
  {
    if |xs| > 0 {
      CleanFromNonEmpty(Push(d, xs[0], rooted), xs[1..], rooted);
      if xs[0] != "" {
        var r := [xs[0]] + NonEmpty(xs[1..]);
        assert r[0] == xs[0] && r[1..] == NonEmpty(xs[1..]);
      }
    }
  }

  /** `filepath.Join(elems...)`: the non-empty elements joined with "/" and
      cleaned, or "" when there are none. */
  function JoinAll(elems: seq<string>): string
  {
    var ne := NonEmpty(elems);
    if |ne| == 0 then "" else Clean(JoinSep(ne, '/'))
  }

  /** Resolving `filepath.Join(elems...)` below `d` is cleaning the elements
      onto `d`: the intermediate cleaning and the dropped empty elements make
      no difference. */
  lemma JoinAllResolves(d: seq<string>, elems: seq<string>)
    requires IsClean(d, false) && NoSlash(elems)
    ensures CleanFrom(d, Split(JoinAll(elems), '/'), false) == CleanFrom(d, elems, false)
  {
    CleanFromNonEmpty(d, elems, false);
    var ne := NonEmpty(elems);
    if |ne| > 0 {
      var j := JoinSep(ne, '/');
      assert NoSlash(ne) by {
        forall k | 0 <= k < |ne| ensures '/' !in ne[k] {
          assert ne[k] in elems;
          var j :| 0 <= j < |elems| && elems[j] == ne[k];
        }
      }
      SplitJoin(ne, '/');
      JoinOneOrMoreHead(ne, '/');
      assert !(|j| > 0 && j[0] == '/');
      var segs := CleanFrom([], Split(j, '/'), false);
      CleanFromNoSlash([], ne, false);
      if |segs| > 0 {
        SplitJoin(segs, '/');
      }
      CleanFromTwice(d, ne);
    }
  }
}
