/** The content fingerprint (utils/hash.go): the digest of one file, and the
    digest of a whole tree as the digest of its files' sorted
    `(relative path, file digest)` records. SHA-256 followed by hex encoding
    is the parameter `digest`; nothing about it is assumed. */
module Fingerprint {
  import opened Wrappers
  import opened Text
  import opened Paths
  import opened Files
  import opened Order

  /** `hex.EncodeToString(sha256.Sum(·))` */
  type Digest = string -> string

  /** `fileHash{path, hash}` */
  datatype FileRecord = FileRecord(path: string, hash: string)

  function PathKey(r: FileRecord): string
  {
    r.path
  }

  /** `HashFile(p)`: the digest of the content, or the error of opening or
      reading it. */
  function HashFile(fs: FileSystem, p: Path, digest: Digest): (r: Result<string>)
    ensures r.Ok? <==> IsFile(fs, p) && p !in fs.denied
    ensures r.Ok? ==> r.value == digest(fs.nodes[p].data)
    ensures r.Err? ==> r.error == ReadFile(fs, p).error
  {
    var data :- ReadFile(fs, p);
    Ok(digest(data))
  }

  /** When the walk of `root` meets no error: the root exists and the OS lets
      every directory be listed and every file be read. */
  ghost predicate Hashable(fs: FileSystem, root: Path)
  {
    Exists(fs, root) && root !in fs.denied && forall q :: q in Below(fs, root) ==> q !in fs.denied
  }

  /** The record the walk makes for the file at `q`. */
  function RecordAt(fs: FileSystem, root: Path, q: Path, digest: Digest): FileRecord
    requires root <= q && q in fs.nodes && fs.nodes[q].File?
  {
    FileRecord(Rel(root, q), digest(fs.nodes[q].data))
  }

  /** The files at or below `root`. */
  function FilesBelow(fs: FileSystem, root: Path): set<Path>
  {
    set q | q in Below(fs, root) && fs.nodes[q].File?
  }

  /** The records of a set of files below `root`. */
  ghost function RecordsOf(fs: FileSystem, root: Path, ps: set<Path>, digest: Digest): set<FileRecord>
    requires ps <= FilesBelow(fs, root)
  {
    set q | q in ps :: RecordAt(fs, root, q, digest)
  }

  /** The relative path splits back into the segments below the root, or is
      "." for the root itself. */
  lemma RelSplit(root: Path, q: Path)
    requires root <= q && WfPath(q)
    ensures Split(Rel(root, q), '/') == if |q| == |root| then ["."] else q[|root|..]
  {
    if |q| == |root| {
      assert Split(".", '/') == ["."];
    } else {
      var s := q[|root|..];
      assert forall k :: 0 <= k < |s| ==> s[k] == q[|root| + k];
      SplitJoin(s, '/');
    }
  }

  /** Different paths below a root have different relative paths. */
  lemma RelInjective(root: Path, q1: Path, q2: Path)
    requires root <= q1 && root <= q2 && WfPath(q1) && WfPath(q2)
    requires Rel(root, q1) == Rel(root, q2)
    ensures q1 == q2
  {
    RelSplit(root, q1);
    RelSplit(root, q2);
    if |q1| > |root| && |q2| > |root| {
      assert q1 == root + q1[|root|..] && q2 == root + q2[|root|..];
    }
  }

  /** In a valid tree two records of files below `root` never share a path. */
  lemma RecordsInjective(fs: FileSystem, root: Path, ps: set<Path>, digest: Digest)
    requires WfNodes(fs) && ps <= FilesBelow(fs, root)
    ensures InjectiveOn(RecordsOf(fs, root, ps, digest), PathKey)
  {
    forall x, y | x in RecordsOf(fs, root, ps, digest) && y in RecordsOf(fs, root, ps, digest) && PathKey(x) == PathKey(y)
      ensures x == y
    {
      var qx :| qx in ps && x == RecordAt(fs, root, qx, digest);
      var qy :| qy in ps && y == RecordAt(fs, root, qy, digest);
      RelInjective(root, qx, qy);
    }
  }

  /** The records of every file at or below `root`. */
  ghost function Records(fs: FileSystem, root: Path, digest: Digest): set<FileRecord>
  {
    RecordsOf(fs, root, FilesBelow(fs, root), digest)
  }

  /** What the combined hasher is fed: each record's path, then its hash. */
  function Combined(s: seq<FileRecord>): string
  {
    if |s| == 0 then "" else Combined(s[..|s| - 1]) + s[|s| - 1].path + s[|s| - 1].hash
  }

  /** The fingerprint of the tree at `root`: the digest of its records in
      increasing byte order of their paths. */
  ghost function TreeDigest(fs: FileSystem, root: Path, digest: Digest): string
    requires WfNodes(fs)
  {
    RecordsInjective(fs, root, FilesBelow(fs, root), digest);
    digest(Combined(SortedSetBy(Records(fs, root, digest), PathKey)))
  }

  /** A directory the OS refuses to list. */
  function DeniedDirs(fs: FileSystem, root: Path): set<Path>
  {
    set q | q in Below(fs, root) && fs.nodes[q].Dir? && q in fs.denied
  }

  /** The collected records, in collection order, are those of the files
      `ps`, visited once each. */
  ghost predicate Collected(fs: FileSystem, root: Path, ps: seq<Path>, hashes: seq<FileRecord>, digest: Digest)
  {
    && |ps| == |hashes|
    && forall k :: 0 <= k < |ps| ==> ps[k] in FilesBelow(fs, root) && hashes[k] == RecordAt(fs, root, ps[k], digest)
  }

  /** A record of a file not yet visited has a path none of the collected
      records has. */
  lemma FreshKey(fs: FileSystem, root: Path, ps: seq<Path>, hashes: seq<FileRecord>, q: Path, digest: Digest)
    requires WfNodes(fs) && Collected(fs, root, ps, hashes, digest)
    requires q in FilesBelow(fs, root) && q !in ps
    ensures forall k :: 0 <= k < |hashes| ==> PathKey(hashes[k]) != PathKey(RecordAt(fs, root, q, digest))
  {
    forall k | 0 <= k < |hashes| ensures PathKey(hashes[k]) != PathKey(RecordAt(fs, root, q, digest)) {
      if PathKey(hashes[k]) == PathKey(RecordAt(fs, root, q, digest)) {
        RelInjective(root, ps[k], q);
      }
    }
  }

  /** Once every file is visited, the collected records are the tree's. */
  lemma CollectedAll(fs: FileSystem, root: Path, ps: seq<Path>, hashes: seq<FileRecord>, digest: Digest)
    requires Collected(fs, root, ps, hashes, digest)
    requires forall q :: q in FilesBelow(fs, root) ==> q in ps
    ensures (set x | x in hashes) == Records(fs, root, digest)
  {
    forall r | r in Records(fs, root, digest) ensures r in hashes {
      var q :| q in FilesBelow(fs, root) && r == RecordAt(fs, root, q, digest);
      var k :| 0 <= k < |ps| && ps[k] == q;
      assert hashes[k] == r;
    }
  }

  /** A tree can be hashed when it exists and neither a directory nor a file
      below it is refused. */
  lemma HashableSplit(fs: FileSystem, root: Path)
    ensures Hashable(fs, root) <==>
      && Exists(fs, root) && root !in fs.denied && DeniedDirs(fs, root) == {}
      && forall q :: q in FilesBelow(fs, root) ==> q !in fs.denied
  {
    if Exists(fs, root) && root !in fs.denied && DeniedDirs(fs, root) == {}
      && forall q :: q in FilesBelow(fs, root) ==> q !in fs.denied
    {
      forall q | q in Below(fs, root) ensures q !in fs.denied {
        if fs.nodes[q].Dir? {
          assert q !in DeniedDirs(fs, root);
        } else {
          assert q in FilesBelow(fs, root);
        }
      }
    }
  }

  /** The walk's callback over every file at or below `root`, in whatever
      order the walk visits them: the first file that cannot be read ends the
      walk with its error; otherwise each file gives one record. */
  method CollectRecords(fs: FileSystem, root: Path, digest: Digest) returns (hashes: seq<FileRecord>, err: Option<Error>)
    requires WfNodes(fs)
    ensures err.None? <==> forall q :: q in FilesBelow(fs, root) ==> q !in fs.denied
    ensures err.None? ==> (set x | x in hashes) == Records(fs, root, digest) && DistinctKeys(hashes, PathKey)
  {
    var files := FilesBelow(fs, root);
    var left := files;
    hashes := [];
    ghost var ps: seq<Path> := [];
    while left != {}
      invariant left <= files
      invariant Collected(fs, root, ps, hashes, digest)
      invariant forall q :: q in files ==> (q in ps <==> q !in left)
      invariant forall q :: q in ps ==> q !in fs.denied
      invariant DistinctKeys(hashes, PathKey)
      decreases left
    {
      var q :| q in left;
      var fh := HashFile(fs, q, digest);
      if fh.Err? {
        assert q in files && q in fs.denied;
        return hashes, Some(fh.error);
      }
      FreshKey(fs, root, ps, hashes, q, digest);
      hashes := hashes + [FileRecord(Rel(root, q), fh.value)];
      ps := ps + [q];
      left := left - {q};
    }
    CollectedAll(fs, root, ps, hashes, digest);
    return hashes, None;
  }

  /** The combined hasher's input, record by record. */
  method Combine(sorted: seq<FileRecord>) returns (combined: string)
    ensures combined == Combined(sorted)
  {
    combined := "";
    for i := 0 to |sorted|
      invariant combined == Combined(sorted[..i])
    {
      assert sorted[..i + 1][..i] == sorted[..i];
      combined := combined + sorted[i].path + sorted[i].hash;
    }
    assert sorted[..|sorted|] == sorted;
  }

  /** `HashDirectory(root)`: a missing root, a directory that cannot be
      listed or a file that cannot be read is an error and gives "";
      otherwise the digest of the sorted records. Directories contribute no
      record. */
  method HashDirectory(fs: FileSystem, root: Path, digest: Digest) returns (h: string, err: Option<Error>)
    requires WfNodes(fs)
    ensures err.None? <==> Hashable(fs, root)
    ensures err.Some? ==> h == ""
    ensures err.None? ==> h == TreeDigest(fs, root, digest)
  {
    HashableSplit(fs, root);
    if !Exists(fs, root) {
      return "", StatErr(fs, root);
    }
    if root in fs.denied || DeniedDirs(fs, root) != {} {
      return "", Some(PermissionDenied);
    }
    var hashes, walkErr := CollectRecords(fs, root, digest);
    if walkErr.Some? {
      return "", walkErr;
    }
    RecordsInjective(fs, root, FilesBelow(fs, root), digest);
    DistinctMultiset(hashes, PathKey);
    var sorted := SortBy(hashes, PathKey);
    SortByCanonical(hashes, Records(fs, root, digest), PathKey);
    var combined := Combine(sorted);
    return digest(combined), None;
  }

  /** Once sorted, any order of the same records with distinct paths gives the
      same digest. */
  lemma DigestOrderIndependent(a: seq<FileRecord>, b: seq<FileRecord>, digest: Digest)
    requires DistinctKeys(a, PathKey) && DistinctKeys(b, PathKey)
    requires multiset(a) == multiset(b)
    ensures digest(Combined(SortBy(a, PathKey))) == digest(Combined(SortBy(b, PathKey)))
  {
    SortBySorted(a, PathKey);
    SortBySorted(b, PathKey);
    SortByMultiset(a, PathKey);
    SortByMultiset(b, PathKey);
    SortedUnique(SortBy(a, PathKey), SortBy(b, PathKey), PathKey);
  }

  /** The fingerprint depends only on the files below the root and their
      contents: modes and directories play no part. */
  lemma SameFilesSameDigest(fs: FileSystem, fs': FileSystem, root: Path, digest: Digest)
    requires WfNodes(fs) && WfNodes(fs')
    requires FilesBelow(fs', root) == FilesBelow(fs, root)
    requires forall q :: q in FilesBelow(fs, root) ==> fs'.nodes[q].data == fs.nodes[q].data
    ensures TreeDigest(fs', root, digest) == TreeDigest(fs, root, digest)
  {
    forall q | q in FilesBelow(fs, root) ensures RecordAt(fs', root, q, digest) == RecordAt(fs, root, q, digest) {
    }
    assert Records(fs', root, digest) == Records(fs, root, digest);
  }

  /** Creating directories leaves the fingerprint of every tree as it was. */
  lemma MkdirAllNeutral(fs: FileSystem, root: Path, d: Path, mode: nat, digest: Digest)
    requires WfNodes(fs) && WfPath(d)
    ensures WfNodes(MkdirAll(fs, d, mode).fs)
    ensures TreeDigest(MkdirAll(fs, d, mode).fs, root, digest) == TreeDigest(fs, root, digest)
  {
    var fs' := MkdirAll(fs, d, mode).fs;
    assert FilesBelow(fs', root) == FilesBelow(fs, root);
    SameFilesSameDigest(fs, fs', root, digest);
  }

  /** Rewriting a file below the root changes the input of the digest only in
      that file's record. */
  lemma RecordsAfterWrite(fs: FileSystem, root: Path, q: Path, data: string, digest: Digest)
    requires WfNodes(fs) && IsFile(fs, q) && root <= q
    ensures var fs' := fs.(nodes := fs.nodes[q := File(data, fs.nodes[q].mode)]);
      Records(fs', root, digest)
      == Records(fs, root, digest) - {RecordAt(fs, root, q, digest)} + {FileRecord(Rel(root, q), digest(data))}
  {
    var fs' := fs.(nodes := fs.nodes[q := File(data, fs.nodes[q].mode)]);
    var files := FilesBelow(fs, root);
    assert FilesBelow(fs', root) == files;
    var old_r := RecordAt(fs, root, q, digest);
    var new_r := RecordAt(fs', root, q, digest);
    assert Records(fs', root, digest) == RecordsOf(fs', root, files - {q}, digest) + {new_r};
    assert Records(fs, root, digest) == RecordsOf(fs, root, files - {q}, digest) + {old_r};
    assert RecordsOf(fs', root, files - {q}, digest) == RecordsOf(fs, root, files - {q}, digest) by {
      forall p | p in files - {q} ensures RecordAt(fs', root, p, digest) == RecordAt(fs, root, p, digest) { }
    }
    assert old_r !in RecordsOf(fs, root, files - {q}, digest) by {
      if old_r in RecordsOf(fs, root, files - {q}, digest) {
        var p :| p in files - {q} && old_r == RecordAt(fs, root, p, digest);
        RelInjective(root, p, q);
      }
    }
  }
}
