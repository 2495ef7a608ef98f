/** The manifest (utils/manifest.go): the fingerprints of the binary and of
    the asset tree, generated locally, saved and loaded as YAML, or fetched
    from the repository. The YAML codec is a pair of parameters. */
module Manifest {
  import opened Wrappers
  import opened Text
  import opened Paths
  import opened Files
  import opened Fingerprint
  import opened Http

  /** `Manifest{BinaryHash, AssetsHash}`: two fields and nothing else. */
  datatype Manifest = Manifest(binaryHash: string, assetsHash: string)

  /** The zero value `Manifest{}`. */
  const Zero := Manifest("", "")

  /** What a field holds when its hash cannot be computed. */
  const Sentinel := "error"

  /** `yaml.Marshal`: the encoding, or the codec's error. */
  type Encoder = Manifest -> Result<string>

  /** `yaml.Unmarshal` into a zero manifest: what it filled in, and its error
      (a failing decode may have filled in part of the fields). */
  type Decoder = string -> (Manifest, Option<Error>)

  /** The binary and the asset tree, relative to the working directory. */
  function BinaryPath(): Path
  {
    ["iceslab"]
  }

  lemma BinaryPathOf()
    ensures PathOf("iceslab") == BinaryPath()
  {
    PathOfSingle("iceslab");
  }

  function AssetsPath(): Path
  {
    ["assets"]
  }

  lemma AssetsPathOf()
    ensures PathOf("assets") == AssetsPath()
  {
    PathOfSingle("assets");
  }

  /** A hash, or the sentinel when it failed. */
  function OrSentinel(r: Result<string>): (s: string)
    ensures r.Ok? ==> s == r.value
    ensures r.Err? ==> s == Sentinel
  {
    if r.Ok? then r.value else Sentinel
  }

  /** The manifest `GenerateManifest` computes for the tree `fs`. */
  ghost function LocalManifest(fs: FileSystem, digest: Digest): Manifest
    requires WfNodes(fs)
  {
    Manifest(
      OrSentinel(HashFile(fs, BinaryPath(), digest)),
      if Hashable(fs, AssetsPath()) then TreeDigest(fs, AssetsPath(), digest) else Sentinel)
  }

  /** `GenerateManifest()`: never fails; each field that cannot be hashed holds
      the sentinel. */
  method GenerateManifest(fs: FileSystem, digest: Digest) returns (m: Manifest, err: Option<Error>)
    requires WfNodes(fs)
    ensures err.None?
    ensures m == LocalManifest(fs, digest)
  {
    var binaryHash := "";
    var fh := HashFile(fs, BinaryPath(), digest);
    if fh.Err? {
      binaryHash := Sentinel;
    } else {
      binaryHash := fh.value;
    }
    var assetsHash, derr := HashDirectory(fs, AssetsPath(), digest);
    if derr.Some? {
      assetsHash := Sentinel;
    }
    return Manifest(binaryHash, assetsHash), None;
  }

  /** With a digest that always gives 64 hex characters, a field holds the
      sentinel exactly when its hash failed, and otherwise that hash. */
  lemma SentinelExact(fs: FileSystem, digest: Digest)
    requires WfNodes(fs)
    requires forall s :: |digest(s)| == 64
    ensures LocalManifest(fs, digest).binaryHash == Sentinel <==> HashFile(fs, BinaryPath(), digest).Err?
    ensures HashFile(fs, BinaryPath(), digest).Ok? ==> LocalManifest(fs, digest).binaryHash == HashFile(fs, BinaryPath(), digest).value
    ensures LocalManifest(fs, digest).assetsHash == Sentinel <==> !Hashable(fs, AssetsPath())
    ensures Hashable(fs, AssetsPath()) ==> LocalManifest(fs, digest).assetsHash == TreeDigest(fs, AssetsPath(), digest)
  {
    var h := HashFile(fs, BinaryPath(), digest);
    if h.Ok? {
      assert |h.value| == 64;
    }
    if Hashable(fs, AssetsPath()) {
      assert |TreeDigest(fs, AssetsPath(), digest)| == 64;
    }
  }

  /** The binary's field depends only on the binary: two trees that agree on
      it have the same binary hash, whatever their assets. */
  lemma BinaryFieldIndependent(fs1: FileSystem, fs2: FileSystem, digest: Digest)
    requires WfNodes(fs1) && WfNodes(fs2)
    requires BinaryPath() in fs1.nodes <==> BinaryPath() in fs2.nodes
    requires BinaryPath() in fs1.nodes ==> fs1.nodes[BinaryPath()] == fs2.nodes[BinaryPath()]
    requires BinaryPath() in fs1.denied <==> BinaryPath() in fs2.denied
    ensures LocalManifest(fs1, digest).binaryHash == LocalManifest(fs2, digest).binaryHash
  {
  }

  /** The assets' field depends only on the asset tree: two trees that agree
      at and below `assets` have the same assets hash, whatever the binary. */
  lemma AssetsFieldIndependent(fs1: FileSystem, fs2: FileSystem, digest: Digest)
    requires WfNodes(fs1) && WfNodes(fs2)
    requires Below(fs1, AssetsPath()) == Below(fs2, AssetsPath())
    requires forall q :: q in Below(fs1, AssetsPath()) ==> fs1.nodes[q] == fs2.nodes[q]
    requires Below(fs1, AssetsPath()) * fs1.denied == Below(fs2, AssetsPath()) * fs2.denied
    requires AssetsPath() in fs1.denied <==> AssetsPath() in fs2.denied
    ensures LocalManifest(fs1, digest).assetsHash == LocalManifest(fs2, digest).assetsHash
  {
    var a := AssetsPath();
    assert FilesBelow(fs1, a) == FilesBelow(fs2, a);
    assert Exists(fs1, a) <==> Exists(fs2, a) by {
      assert Exists(fs1, a) <==> a in Below(fs1, a);
      assert Exists(fs2, a) <==> a in Below(fs2, a);
    }
    assert Hashable(fs1, a) <==> Hashable(fs2, a) by {
      forall q | q in Below(fs1, a) ensures q in fs1.denied <==> q in fs2.denied {
        assert q in fs1.denied <==> q in Below(fs1, a) * fs1.denied;
        assert q in fs2.denied <==> q in Below(fs2, a) * fs2.denied;
      }
    }
    SameFilesSameDigest(fs1, fs2, a, digest);
  }

  /** `SaveManifest(m, path)`: the codec's error, or the write of the
      encoding with mode 0644. */
  function SaveManifest(fs: FileSystem, m: Manifest, path: Path, encode: Encoder): (r: Outcome)
    ensures encode(m).Err? ==> r == Outcome(fs, Some(encode(m).error))
    ensures encode(m).Ok? ==> r == WriteFile(fs, path, encode(m).value, Mode644)
  {
    match encode(m)
    case Err(e) => Outcome(fs, Some(e))
    case Ok(data) => WriteFile(fs, path, data, Mode644)
  }

  /** `LoadManifest(path)`: an unreadable file gives the zero manifest and the
      read error; otherwise whatever the decoder gives. */
  function LoadManifest(fs: FileSystem, path: Path, decode: Decoder): (r: (Manifest, Option<Error>))
    ensures ReadFile(fs, path).Err? ==> r == (Zero, Some(ReadFile(fs, path).error))
    ensures ReadFile(fs, path).Ok? ==> r == decode(ReadFile(fs, path).value)
  {
    match ReadFile(fs, path)
    case Err(e) => (Zero, Some(e))
    case Ok(data) => decode(data)
  }

  /** A saved manifest loads back when the codec round-trips. */
  lemma SaveLoad(fs: FileSystem, m: Manifest, path: Path, encode: Encoder, decode: Decoder)
    requires encode(m).Ok? && decode(encode(m).value) == (m, None)
    requires SaveManifest(fs, m, path, encode).err.None?
    ensures LoadManifest(SaveManifest(fs, m, path, encode).fs, path, decode) == (m, None)
  {
    var w := SaveManifest(fs, m, path, encode);
    assert CanWrite(fs, path);
    assert ReadFile(w.fs, path) == Ok(encode(m).value);
  }

  /** `FetchRemoteManifest()`: a transport failure or a status other than 200
      gives the zero manifest and an error; so does a failing decode; otherwise
      the decoded manifest. */
  function FetchRemoteManifest(resp: Transport, decode: Decoder): (r: (Manifest, Option<Error>))
    ensures resp.Err? ==> r == (Zero, Some(resp.error))
    ensures resp.Ok? && resp.value.status != StatusOK ==> r == (Zero, Some(HttpStatus(resp.value.status)))
    ensures r.1.None? <==> resp.Ok? && resp.value.status == StatusOK && resp.value.body.Some? && decode(resp.value.body.value).1.None?
    ensures r.1.None? ==> r.0 == decode(resp.value.body.value).0
    ensures r.1.Some? ==> r.0 == Zero
  {
    match resp
    case Err(e) => (Zero, Some(e))
    case Ok(res) =>
      if res.status != StatusOK then (Zero, Some(HttpStatus(res.status)))
      else match res.body
        case None => (Zero, Some(ReadBody))
        case Some(body) =>
          var (m, err) := decode(body);
          if err.Some? then (Zero, err) else (m, None)
  }
}
