/** The change detectors (utils/archived_functions.go) and the two requests
    the update makes (utils/update.go): a field-wise comparison of manifests,
    and the validator kept in `.manifest_etag`, compared with the `ETag` the
    server reports for the manifest (section 8.8.3 of RFC 9110). */
module Detect {
  import opened Wrappers
  import opened Text
  import opened Paths
  import opened Files
  import opened Fingerprint
  import opened Manifest
  import opened Http

  /** `FetchManifestETag()`: the `ETag` header of a 200 response ("" when the
      header is absent); a transport failure or any other status is an
      error. */
  function FetchManifestETag(resp: Transport): (r: Result<string>)
    ensures r.Ok? <==> resp.Ok? && resp.value.status == StatusOK
    ensures r.Ok? ==> r.value == resp.value.etag
    ensures resp.Err? ==> r == Err(resp.error)
    ensures resp.Ok? && resp.value.status != StatusOK ==> r == Err(HttpStatus(resp.value.status))
  {
    match resp
    case Err(e) => Err(e)
    case Ok(res) => if res.status != StatusOK then Err(HttpStatus(res.status)) else Ok(res.etag)
  }

  /** `DownloadRepoZip()`: the body of a 200 response; a transport failure,
      another status or a body that cannot be read is an error. */
  function DownloadRepoZip(resp: Transport): (r: Result<string>)
    ensures r.Ok? <==> resp.Ok? && resp.value.status == StatusOK && resp.value.body.Some?
    ensures r.Ok? ==> r.value == resp.value.body.value
    ensures resp.Err? ==> r == Err(resp.error)
    ensures resp.Ok? && resp.value.status != StatusOK ==> r == Err(HttpStatus(resp.value.status))
  {
    match resp
    case Err(e) => Err(e)
    case Ok(res) =>
      if res.status != StatusOK then Err(HttpStatus(res.status))
      else if res.body.None? then Err(ReadBody)
      else Ok(res.body.value)
  }

  // ------------------------------------------------------------------
  // CheckForUpdatesByComparingHashes

  /** Which parts differ, field by field: (binary changed, assets changed). */
  function Changes(local: Manifest, remote: Manifest): (bool, bool)
  {
    (local.binaryHash != remote.binaryHash, local.assetsHash != remote.assetsHash)
  }

  /** A manifest has no field besides the two hashes, so no change is reported
      exactly when the manifests are equal. */
  lemma NoChangeIffEqual(local: Manifest, remote: Manifest)
    ensures Changes(local, remote) == (false, false) <==> local == remote
  {
  }

  /** Each flag is decided by its own field: changing one field of the remote
      manifest leaves the other flag as it was. */
  lemma ChangesIndependent(local: Manifest, remote: Manifest, h: string)
    ensures Changes(local, remote.(assetsHash := h)).0 == Changes(local, remote).0
    ensures Changes(local, remote.(binaryHash := h)).1 == Changes(local, remote).1
  {
  }

  /** `CheckForUpdatesByComparingHashes()`. `GenerateManifest` never fails,
      so its error check cannot fire; a failure to fetch the remote manifest
      gives `(false, false, err)`. */
  method CheckForUpdatesByComparingHashes(fs: FileSystem, digest: Digest, resp: Transport, decode: Decoder)
    returns (binary: bool, assets: bool, err: Option<Error>)
    requires WfNodes(fs)
    ensures err == FetchRemoteManifest(resp, decode).1
    ensures err.Some? ==> !binary && !assets
    ensures err.None? ==> (binary, assets) == Changes(LocalManifest(fs, digest), FetchRemoteManifest(resp, decode).0)
  {
    var local, lerr := GenerateManifest(fs, digest);
    var (remote, rerr) := FetchRemoteManifest(resp, decode);
    if rerr.Some? {
      return false, false, rerr;
    }
    binary := local.binaryHash != remote.binaryHash;
    assets := local.assetsHash != remote.assetsHash;
    err := None;
  }

  // ------------------------------------------------------------------
  // CompareRemoteManifestETag

  /** `.manifest_etag`, in the working directory. */
  function ETagPath(): Path
  {
    [".manifest_etag"]
  }

  lemma ETagPathOf()
    ensures PathOf(".manifest_etag") == ETagPath()
  {
    PathOfSingle(".manifest_etag");
  }

  lemma ETagPathWf()
    ensures WfPath(ETagPath())
  {
    ETagPathOf();
    PathOfWf(".manifest_etag");
  }

  /** The tree after the check, whether an update should be made, and the
      error. */
  datatype Check = Check(fs: FileSystem, update: bool, err: Option<Error>)

  /** `CompareRemoteManifestETag()`. A failed `HEAD` reports an update and the
      error. With no readable `.manifest_etag` the remote ETag is stored (a
      failed write is only logged) and an update is reported. Otherwise an
      update is reported exactly when the stored and the remote ETag
      differ; the stored one is left as it is. */
  function CompareRemoteManifestETag(fs: FileSystem, resp: Transport): (r: Check)
    ensures r.err.Some? <==> FetchManifestETag(resp).Err?
    ensures r.err.Some? ==> r.update && r.fs == fs && r.err == Some(FetchManifestETag(resp).error)
    ensures r.fs != fs ==> FetchManifestETag(resp).Ok? && ReadFile(fs, ETagPath()).Err?
    ensures !r.update <==> FetchManifestETag(resp).Ok? && ReadFile(fs, ETagPath()) == Ok(FetchManifestETag(resp).value)
  {
    match FetchManifestETag(resp)
    case Err(e) => Check(fs, true, Some(e))
    case Ok(remote) =>
      match ReadFile(fs, ETagPath())
      case Err(_) => Check(WriteFile(fs, ETagPath(), remote, Mode644).fs, true, None)
      case Ok(local) => Check(fs, local != remote, None)
  }

  /** On a first run the remote ETag is stored, when the OS lets it be
      written; a write it refuses changes nothing and is not reported. */
  lemma Bootstrap(fs: FileSystem, resp: Transport)
    requires FetchManifestETag(resp).Ok? && ReadFile(fs, ETagPath()).Err?
    ensures var r := CompareRemoteManifestETag(fs, resp);
      && r.update && r.err.None?
      && (CanWrite(fs, ETagPath()) ==> ReadFile(r.fs, ETagPath()) == Ok(resp.value.etag))
      && (!CanWrite(fs, ETagPath()) ==> r.fs == fs)
  {
    var r := CompareRemoteManifestETag(fs, resp);
    if CanWrite(fs, ETagPath()) {
      assert r.fs.nodes[ETagPath()] == File(resp.value.etag, Mode644);
    }
  }

  /** After a first-run bootstrap, asking again while the server reports the
      same ETag gives no update and no write. */
  lemma SecondCallNoUpdate(fs: FileSystem, resp: Transport, resp2: Transport)
    requires FetchManifestETag(resp).Ok? && ReadFile(fs, ETagPath()).Err?
    requires CanWrite(fs, ETagPath())
    requires FetchManifestETag(resp2) == FetchManifestETag(resp)
    ensures var first := CompareRemoteManifestETag(fs, resp);
      CompareRemoteManifestETag(first.fs, resp2) == Check(first.fs, false, None)
  {
    Bootstrap(fs, resp);
  }

  /** The stored ETag is never replaced: once the server reports one that
      differs from it, the check reports an update and leaves the tree as it
      was, so every later check with that response does the same. */
  lemma MismatchPersists(fs: FileSystem, resp: Transport)
    requires FetchManifestETag(resp).Ok? && ReadFile(fs, ETagPath()).Ok?
    requires ReadFile(fs, ETagPath()).value != FetchManifestETag(resp).value
    ensures var r := CompareRemoteManifestETag(fs, resp);
      r == Check(fs, true, None) && ReadFile(r.fs, ETagPath()) == ReadFile(fs, ETagPath())
  {
  }
}
