# iceslab self-update and asset sync, modelled in Dafny

iceslab is a Go tool that sets up and updates a lab station. This project models the part of it that updates the tool and syncs its assets:

- **Selective archive extraction.** `unzipRepoZip` and `unzipRepoZip0` strip the archive's root folder and keep only entries on the allow-list (`iceslab`, `assets`). `unzipInto` extracts without filtering. The older `extractTarGz` does the same for a gzipped tarball.
- **The staged self-update.** It checks for a change, downloads, extracts into a fresh temporary directory and schedules the copy into the working directory. The walk `moveFiles` copies and then removes.
- **The bookmarks sync.** A conditional `GET` keyed by `.etag_bookmarks` fetches the bookmarks. The old `assets/bookmarks/` is backed up to `assets/bookmarks_old/`. The zip is extracted, and a failure is rolled back.
- **The change detectors.** One compares two manifests field by field. The other is the ETag bootstrap on `.manifest_etag`.
- **The directory fingerprint.** It collects `(relative path, file hash)` records, sorts them and folds them into one digest.
- **Manifest generation.** A failed hash becomes the sentinel `"error"`.
- **Bookmarks.** This covers resolving a bookmark's URL for a station, collecting bookmark files from a tree, and inserting them into the Firefox and Chromium policy documents.
- **The path and file helpers.** These are station-ID padding, `GetStationID`, `MoveFile` and `CopyDirectoryTo` with their "destination inside the source" guard, `writeFile`, and `DumpAssets`, which never overwrites.
- **The older copies.** `utils/updateOld.go` holds the older `FetchUpdates` with its commit-SHA comparison. `main.go` repeats `GetURL`, `promptForStationNumber`, `dumpAssets`, `writeFile`, `CollectBookmarks`, `insertBookmarks`, `fetchUpdates` and `extractTarGz`. The `main.go` functions follow the same rules as their `utils/` counterparts, so the same members model them: `Misc.PadStationID`, `Misc.DumpAssets`, `Misc.WriteFileDirs`, `Bookmarks.CollectBookmarks`, `Bookmarks.InsertBookmarks`, `Legacy.FetchUpdates` and `Tarball.ExtractTarGz`. The exception is the older `GetURL`, which is modelled on its own as `Bookmarks.GetURLOld`.

## The file tree

The operating system's file tree is a value, `Files.FileSystem`:

- `nodes` maps each path below the working directory to a directory or a file. A file has its data and mode.
- `denied` is the set of paths the OS refuses.

A path is a sequence of cleaned segments. The empty path is the working directory.

Go's `os` calls become functions from one tree to an `Outcome`, which is the new tree and the error, if any. These calls are `Stat`, `ReadFile`, `ReadDir`, `MkdirAll`, `WriteFile`, `Chmod`, `Remove`, `RemoveAll` and `Rename`. Each has a contract taken from Go's documented behaviour on Linux. `path/filepath` and `strings` become `Paths` and `Text`. Go's byte-wise string order and `sort.Slice` become `Order`.

Code that loops or walks is written as methods with loops and invariants. Each method is proved against a function that states its result. Code that only computes is written as functions and lemmas. The tree is threaded through as a value, not held in a class, because the Go code keeps no object state of its own: its state is the file tree.

## Inputs that are parameters

Transport, codecs, hashing and the operator are parameters of the model:

- HTTP responses are `Http.Response(status, etag, body)` records or a transport error.
- Decoded archives are supplied. The zip is a sequence of entries or a decode failure. The tar stream is a sequence of headers, with a flag for a broken stream.
- SHA-256 with hex encoding is a function parameter `digest`.
- The YAML and JSON codecs are function parameters.
- The operator's answer to the station prompt is a parameter.
- The name `os.MkdirTemp` picks, and the path `os.Executable` returns, are parameters.
- The embedded asset tree is a second `FileSystem`.

## What is proved

Beyond each operation's own contract, the model proves these properties:

- Extraction writes only what the allow-list selects. The match is per path component, so `iceslabX` does not match `iceslab`; `Archive.MatchExamples` gives concrete matches and non-matches. Skipped entries have no effect, and a failure leaves the earlier writes in place.
- When no selected entry name has a ".." segment, and the temporary directory is a new one as `os.MkdirTemp` promises, a failed self-update leaves the tree exactly as the ETag check left it. On a first run the check may already have written `.manifest_etag`.
- The fingerprint does not depend on the order in which the walk found the files.
- Against a server that honours `If-None-Match`, the bookmarks are downloaded exactly when the stored ETag is not the current one.
- When no name in the bookmarks zip has a ".." segment, an update changes nothing off the two bookmark trees except `.etag_bookmarks`.
- `DumpAssets` never changes or removes an existing node.
- `CopyDirectoryTo`, with its guard corrected, copies every node of the source below the destination when the two lie apart.
- Station-ID padding keeps the number the answer denotes; `Misc.PadStationIDExamples` and `Text.AtoiExamples` show it on the single-digit, multi-digit, non-digit and empty inputs.
- The two `GetURL` versions differ only on lists; `Bookmarks.ListVersionsDiffer` gives a list on which they disagree.
- The extraction frame results need names free of "..": `unzipRepoZip` and `unzipInto` join an entry name to the destination without checking containment, and `Archive.ZipSlipExample` shows `assets/../../x` written outside the destination.

## Model

| member | source | states |
|---|---|---|
| Archive.StripRoot | utils/update.go:195-199 | no result exactly when the name has no "/" (fewer than two segments: the entry is skipped); otherwise the text after the first "/" |
| Archive.StripRootSegments | utils/update.go:195-199 | the segments of the stripped name are the name's segments after the first, so `Join(parts[1:], "/")` drops exactly the root folder |
| Archive.StripRootOf | utils/update.go:195-199 | stripping `root/rest` (root without "/") gives `rest` |
| Archive.MatchesFirstSegment | utils/update.go:202-208 | for a target without "/", the allow-list test holds if and only if the first component of the relative path equals the target |
| Archive.MatchExamples | utils/update.go:204 | `iceslabX` and `iceslabX/run.sh` do not match target `iceslab`; `iceslab` and `assets/etc/motd` match their targets |
| Archive.Target | utils/update.go:214 | the destination of an entry is `filepath.Join(destDir, rel)` below a destination and the cleaned `rel` in place, always a clean path |
| Archive.TargetDir | utils/update.go:221 | the directory made before a file is a prefix of the file's target |
| Archive.ExtractEntry | utils/update.go:191-239 | a skipped entry (no root folder, or no target matches) changes nothing and is no error; a directory entry never fails (its `MkdirAll` error is ignored); nothing present disappears and no directory changes |
| Archive.ExtractEntryTouches | utils/update.go:209-236 | a node one entry creates or changes exists only for a selected entry, and is a prefix of its target or of the target's directory |
| Archive.ExtractEntryWrites | utils/update.go:221-239 | a selected file entry that succeeds had data, its parent directory exists, and its target holds the entry's content with the entry's mode (a file already there keeps its mode) |
| Archive.ExtractAll | utils/update.go:191-242 | the loop keeps the refused paths, loses no present node and changes no directory |
| Archive.ExtractAllAppend | utils/update.go:191-240 | extracting `a + b` is extracting `a` and, only if that succeeded, `b` |
| Archive.ExtractAllCons | utils/update.go:191-240 | the first pass of the loop: an error ends the loop with that error, otherwise the rest follow |
| Archive.Selection | utils/update.go:195-211 | the selected entries are exactly the entries of the archive that survive stripping and the allow-list, in archive order |
| Archive.ExtractAllSelection | utils/update.go:209-211 | extracting the whole archive is the same as extracting only its selected entries: skipped entries have no effect at all |
| Archive.ExtractAllTouches | utils/update.go:209-236 | every node the loop creates or changes is reached by some selected entry of the archive |
| Archive.ExtractAllStops | utils/update.go:221-239 | a failed extraction failed at one entry: the entries before it succeeded and their writes remain, and the failing entry's result is the loop's result |
| Archive.StopsLater | utils/update.go:191-240 | a stop at entry `j` of the tail after a successful first entry is a stop at entry `j + 1` |
| Archive.PrefixAfterFirst | utils/update.go:191-240 | extracting the first `j + 1` entries is extracting the first and then `j` of the tail |
| Archive.TargetExtends | utils/update.go:214 | without ".." segments an entry's target lies below the destination |
| Archive.ExtractEntryValid | utils/update.go:213-239 | one entry keeps the tree well formed (every node's parent is a directory) |
| Archive.ExtractAllValid | utils/update.go:191-242 | extraction keeps the tree well formed |
| Archive.AncestorUntouched | utils/update.go:221 | a tree that only grows leaves the ancestors of an existing directory as they were |
| Archive.ExtractAllInTargets | utils/update.go:128-183 | in place (`unzipRepoZip0`), with slash-free targets and no ".." in selected names, every node created or changed starts with one of the targets |
| Archive.PickedReachesTarget | utils/update.go:142-161 | in place, what a selected entry without ".." reaches starts with a target |
| Archive.InPlaceReachesHead | utils/update.go:157-161 | in place, an entry whose path starts with segment `s` reaches only paths starting with `s` |
| Archive.ExtractAllStaysUnder | utils/update.go:185-243 | below an existing destination, with no ".." in selected names, every node created or changed lies below the destination |
| Archive.ZipSlipExample | utils/update.go:204-214 | the allow-list lets `assets/../../x` through, and it is written at `tmp/x`, outside the destination `tmp/u` |
| Archive.Unzip | utils/update.go:129-132 | an archive `zip.NewReader` cannot read is an error and writes nothing |
| Archive.ExtractOne | utils/update.go:191-239 | one pass of the outer loop, with the inner `matchesTarget` loop, computes exactly `ExtractEntry` |
| Archive.ExtractSelected | utils/update.go:186-242 | the loops of `unzipRepoZip` and `unzipRepoZip0` compute exactly `Unzip` |
| Archive.UnzipRepoZip | utils/update.go:185-243 | `unzipRepoZip(zipData, targets, destDir)` is `Unzip` below `destDir` |
| Archive.UnzipRepoZip0 | utils/update.go:128-183 | `unzipRepoZip0(zipData, targets)` is `Unzip` in place |
| ZipInto.Place | utils/fs.go:21 | an entry's place is `filepath.Join(dest, entry.Name)`, resolved and clean, with no root stripping |
| ZipInto.IntoEntry | utils/fs.go:20-54 | one entry keeps the refused paths, loses no present node and changes no directory |
| ZipInto.IntoEntryWrites | utils/fs.go:23-51 | an entry that succeeds: a file is at its place with its content and mode 0644 unless a file was already there (the archive's mode is not used); a directory is a directory, with mode 0755 if it is new |
| ZipInto.IntoAll | utils/fs.go:20-56 | the loop over the entries keeps the refused paths, loses no present node and changes no directory |
| ZipInto.UnzipInto | utils/fs.go:14-57 | the loop computes exactly `UnzipIntoSpec`; an unreadable archive is an error and writes nothing |
| ZipInto.IntoAllAppend | utils/fs.go:20-55 | extracting `a + b` is extracting `a` and, only if that succeeded, `b`: entries go in archive order |
| ZipInto.LastWriteWins | utils/fs.go:20-48 | when the last entry is a file and everything succeeds, its place holds that entry's content, whatever earlier entries wrote there |
| ZipInto.IntoAllAbort | utils/fs.go:23-53 | after the first failure the later entries are not looked at and earlier writes remain |
| ZipInto.IntoAllValid | utils/fs.go:20-56 | extraction keeps the tree well formed |
| Tarball.TarTarget | utils/updateOld.go:129-134 | the target is `filepath.Join(dest, filepath.Join(parts[1:]...))`, resolved and clean |
| Tarball.TarEntry | utils/updateOld.go:129-154 | a name with at most one segment, or an entry neither directory nor regular file, changes nothing and is no error; nothing present disappears and no directory changes |
| Tarball.TarEntryWrites | utils/updateOld.go:141-153 | a regular file whose directory could be made ends up a file at its target holding the body, and the entry fails exactly when the body could not be read to the end |
| Tarball.TarAll | utils/updateOld.go:118-156 | the loop over the headers keeps the refused paths, loses no present node and changes no directory |
| Tarball.ExtractTarGz | utils/updateOld.go:109-157 | the loop computes exactly `ExtractTarGzSpec`; a stream `gzip.NewReader` refuses is an error and writes nothing |
| Tarball.TarEntryTouches | utils/updateOld.go:129-154 | a node one header creates or changes is a prefix of that header's target |
| Tarball.TarAllTouches | utils/updateOld.go:118-156 | every node the loop creates or changes is a prefix of the target of one of the headers |
| Tarball.TarTargetExtends | utils/updateOld.go:133-134 | a name without ".." has its target at or below the destination |
| Tarball.TarAllReaches | utils/updateOld.go:118-156 | with no ".." in any name, every node created or changed lies on the way to the destination or below it |
| Update.CopyFile | utils/update.go:267-291 | a copy that succeeds puts the source file's content and mode at the destination and changes nothing else; a failed copy loses no node and changes none but the destination |
| Update.DestOfIsJoin | utils/update.go:250-254 | for a well-formed path below the source, `filepath.Join(destDir, filepath.Rel(srcDir, path))` is the path with the source prefix replaced by the destination |
| Update.MoveStep | utils/update.go:246-263 | one callback of the walk never changes which paths the OS refuses |
| Update.DestOfInjective | utils/update.go:250-254 | distinct paths below the source have distinct places below the destination |
| Update.DirStep | utils/update.go:255-257 | recreating a directory at its place keeps the walk's invariant: everything visited is moved, what is left is untouched, and nothing outside source and destination changes |
| Update.DirMoved | utils/update.go:255-257 | after a directory's place is made, every visited node counts as moved |
| Update.DirFramed | utils/update.go:255-257 | after a directory's place is made, the unvisited nodes are untouched and the frame holds |
| Update.FileStep | utils/update.go:259-262 | copying a file to its place and removing it keeps the walk's invariant |
| Update.FileMoved | utils/update.go:259-262 | after a file is copied and removed, every visited node counts as moved |
| Update.FileFramed | utils/update.go:259-262 | after a file is copied and removed, the unvisited nodes are untouched and the frame holds |
| Update.StepKeeps | utils/update.go:246-263 | a callback that succeeds keeps the walk's invariant |
| Update.StepFramed | utils/update.go:246-263 | whatever one callback does, even when it fails partway, changes nothing outside the source and the destination |
| Update.FramedAfter | utils/update.go:254-262 | a change that keeps every node outside source and destination, and adds only nodes on the way to a place below the destination, keeps the frame |
| Update.NextInTodo | utils/update.go:246 | the walk's next node has not been visited yet |
| Update.LoopStep | utils/update.go:246-263 | one successful pass keeps the invariant and the record of what was visited |
| Update.MoveFiles | utils/update.go:245-264 | a missing source is the walk's error and changes nothing; a move that finishes leaves every file of the source at its place below the destination with its content and mode and gone from the source, and every directory still there and recreated below the destination; on every path nothing outside the source and the destination changes |
| Update.TargetsAreSegments | utils/update.go:81 | the allow-list `iceslab`, `assets` consists of plain path components |
| Update.UpdateSpec | utils/update.go:67-106 | nothing is downloaded exactly when the ETag check fails or reports no change, and then the result is the check's; a copy is scheduled exactly when the download happened and no error followed, and it takes from the directory `os.MkdirTemp` made |
| Update.Update | utils/update.go:67-106 | the method computes exactly `UpdateSpec` |
| Update.CheckKeeps | utils/archived_functions.go:41-52 | the ETag check keeps the tree well formed and a fresh temporary name fresh |
| Update.Staged | utils/update.go:84 | making the temporary directory adds exactly that path |
| Update.StagedValid | utils/update.go:84-87 | the staged tree is well formed and holds the temporary directory |
| Update.ExtractOutside | utils/update.go:90 | extraction below the temporary directory, with no ".." in selected names, changes nothing outside it |
| Update.RemoveRestores | utils/update.go:92-100 | removing the temporary directory from a tree that differs only inside it gives back the tree before it was made |
| Update.StagingUndone | utils/update.go:84-100 | when the temporary directory is new and no selected entry name has a ".." segment, removing the temporary directory after the extraction, failed or not, gives back the tree the ETag check left |
| Update.FailureLeavesTree | utils/update.go:90-102 | when the temporary directory is new and no selected entry name has a ".." segment, an update that fails in the extraction or the scheduling leaves the tree exactly as the ETag check left it |
| Update.SuccessStagesOnly | utils/update.go:90-105 | when the temporary directory is new and no selected entry name has a ".." segment, an update that schedules the copy has written nothing outside the temporary directory the copy takes from |
| Update.Update0Spec | utils/update.go:42-65 | nothing is downloaded exactly when the ETag check fails or reports no change, and then the result is the check's; nothing is ever scheduled |
| Update.Update0 | utils/update.go:42-65 | the method computes exactly `Update0Spec` |
| Update.Update0InTargets | utils/update.go:42-65 | with no ".." in selected names, every node the earlier updater creates or changes after the ETag check starts with `iceslab` or `assets` |
| Detect.FetchManifestETag | utils/update.go:293-313 | succeeds exactly on a 200 response, with its `ETag` header; a transport failure is returned as it is and another status becomes a status error |
| Detect.DownloadRepoZip | utils/update.go:108-126 | succeeds exactly on a 200 response whose body can be read, with that body; a transport failure is returned as it is and another status becomes a status error |
| Detect.NoChangeIffEqual | utils/archived_functions.go:26-29 | no change is reported exactly when the two manifests are equal |
| Detect.ChangesIndependent | utils/archived_functions.go:26-29 | each flag depends only on its own field |
| Detect.CheckForUpdatesByComparingHashes | utils/archived_functions.go:9-30 | the error is the remote manifest's; with an error both flags are false; otherwise the flags are the field-wise differences of the local and the remote manifest |
| Detect.ETagPathOf | utils/archived_functions.go:41 | `.manifest_etag` names a single file in the working directory |
| Detect.CompareRemoteManifestETag | utils/archived_functions.go:32-63 | an error exactly when the ETag request fails, and then an update is reported and nothing written; the tree changes only on a first run; no update is reported exactly when the stored ETag equals the remote one |
| Detect.Bootstrap | utils/archived_functions.go:41-52 | with no stored ETag an update is reported without error, the remote ETag is stored when the OS lets it be written, and a failed write changes nothing |
| Detect.SecondCallNoUpdate | utils/archived_functions.go:41-59 | after a first-run bootstrap a second check with the same remote ETag reports no update and writes nothing |
| Detect.MismatchPersists | utils/archived_functions.go:56-62 | a stored ETag that differs from the remote one gives an update, without error, and is left as it was |
| Fingerprint.HashFile | utils/hash.go:17-30 | succeeds exactly on a file the OS lets be opened, with the digest of its content; otherwise the error of opening it |
| Fingerprint.RelSplit | utils/hash.go:43 | the relative path `filepath.Rel(root, path)` splits back into the segments below the root, or is "." for the root itself |
| Fingerprint.RelInjective | utils/hash.go:43 | different paths below a root have different relative paths |
| Fingerprint.RecordsInjective | utils/hash.go:43-53 | in a well-formed tree no two records of files below the root share a path |
| Fingerprint.FreshKey | utils/hash.go:43-53 | a file not yet visited gets a path that no collected record has |
| Fingerprint.CollectedAll | utils/hash.go:35-55 | once every file is visited the collected records are exactly the records of the tree |
| Fingerprint.HashableSplit | utils/hash.go:35-59 | the walk meets no error exactly when the root exists, the OS refuses neither it, nor any directory to be listed, nor any file to be opened |
| Fingerprint.CollectRecords | utils/hash.go:35-55 | the callback fails exactly when some file below the root cannot be opened; otherwise the records are those of every file (directories contribute none), one per path |
| Fingerprint.Combine | utils/hash.go:65-69 | the combined hasher is fed each record's path and then its hash, in order |
| Fingerprint.HashDirectory | utils/hash.go:32-72 | succeeds exactly when the walk meets no error, with the digest of the records sorted by path; any error gives "" and no partial digest |
| Fingerprint.DigestOrderIndependent | utils/hash.go:61-71 | any two orders of the same records with distinct paths give the same digest once sorted |
| Fingerprint.SameFilesSameDigest | utils/hash.go:32-72 | the fingerprint depends only on which files are below the root and on their contents |
| Fingerprint.MkdirAllNeutral | utils/hash.go:39-41 | creating directories leaves every fingerprint as it was |
| Fingerprint.RecordsAfterWrite | utils/hash.go:43-53 | rewriting a file below the root changes the digest's input only in that file's record |
| Manifest.BinaryPathOf | utils/manifest.go:17 | `iceslab` names one file in the working directory |
| Manifest.AssetsPathOf | utils/manifest.go:22 | `assets` names one directory in the working directory |
| Manifest.OrSentinel | utils/manifest.go:17-25 | a hash that failed is replaced by `"error"`, any other is kept |
| Manifest.GenerateManifest | utils/manifest.go:16-31 | never fails; the manifest holds the binary's hash and the asset tree's fingerprint, each replaced on its own by `"error"` when it fails |
| Manifest.SentinelExact | utils/manifest.go:17-25 | with a digest of 64 hex characters, `BinaryHash` is `"error"` exactly when `HashFile("iceslab")` fails and is otherwise that hash, and `AssetsHash` is `"error"` exactly when `HashDirectory("assets")` fails and is otherwise that fingerprint |
| Manifest.BinaryFieldIndependent | utils/manifest.go:17-20 | the binary's field depends only on the binary |
| Manifest.AssetsFieldIndependent | utils/manifest.go:22-25 | the assets' field depends only on the asset tree |
| Manifest.SaveManifest | utils/manifest.go:33-39 | a codec error is returned with nothing written; otherwise the encoding is written with mode 0644 |
| Manifest.LoadManifest | utils/manifest.go:41-49 | an unreadable file gives the zero manifest and the read error; otherwise what the codec makes of the content |
| Manifest.SaveLoad | utils/manifest.go:33-49 | a manifest saved without error loads back when the codec round-trips |
| Manifest.FetchRemoteManifest | utils/manifest.go:51-78 | a transport failure or a status other than 200 gives the zero manifest and an error; success exactly when a 200 body decodes, with what it decodes to; every error gives the zero manifest |
| Bookmarks.GetURL | utils/bookmarks.go:19-58 | a success keeps the bookmark's name and gives a string URL; every failure is the zero bookmark with the "invalid bookmark URL format" error |
| Bookmarks.FirstString | utils/bookmarks.go:21-56 | the first string among the candidate values, present exactly when one of them is a string |
| Bookmarks.GetURLFirstCandidate | utils/bookmarks.go:21-57 | `GetURL` gives the first string among the places the URL value offers, in the order the code tries them, and fails exactly when there is none |
| Bookmarks.StringURLKept | utils/bookmarks.go:22-23 | a string URL comes back unchanged with the same name and no error |
| Bookmarks.MappingResolves | utils/bookmarks.go:24-38 | a mapping resolves exactly when the string key `stationNum` or the integer key `Atoi(stationNum)` holds a string; the string key wins; there is no fallback |
| Bookmarks.PaddedStationFindsIntKey | utils/bookmarks.go:31-37 | the padded station `"0d"` finds the integer key `d` when no string key `"0d"` holds a string |
| Bookmarks.ListResolves | utils/bookmarks.go:39-55 | a list gives element `n-1` when `Atoi(stationNum) = n` is in range and that element is a string, otherwise element 0 when it is a string, and fails exactly when neither holds |
| Bookmarks.GetURLOld | main.go:111-139 | the older resolution: a success keeps the name and gives a string URL; every failure is the zero bookmark with the error |
| Bookmarks.OldAndNewGetURL | main.go:111-139 | the two resolutions agree except on lists, where the older one ignores the station number and takes element 0; they agree on a list whenever the station number does not point at a string |
| Bookmarks.ListVersionsDiffer | main.go:130-136 | station 2 of the list `["a", "b"]`: the newer resolution gives "b", the older "a" |
| Bookmarks.Resolve | utils/bookmarks.go:88 | the resolution a walk applies (the newer or the older one) keeps the name and gives a string URL, or fails with the zero bookmark |
| Bookmarks.FileBookmarks | utils/bookmarks.go:76-93 | a file contributes at most one bookmark, exactly when it can be read, decoded and resolved, and then its resolved bookmark |
| Bookmarks.Collected | utils/bookmarks.go:60-102 | the only error is a failure to list the directory itself, and it is that error |
| Bookmarks.EntryBookmarks | utils/bookmarks.go:68-94 | an entry of the listing is a node of the tree |
| Bookmarks.EntryOfDir | utils/bookmarks.go:68-74 | a subdirectory entry gives what the subdirectory collects, or nothing when that fails |
| Bookmarks.EntryOfFile | utils/bookmarks.go:75-93 | a file entry gives the file's resolved bookmark, if any |
| Bookmarks.EntriesFromFirst | utils/bookmarks.go:67-95 | the entries are taken in listing order: the first name's bookmarks come before the rest |
| Bookmarks.CollectBookmarks | utils/bookmarks.go:60-102 | an error exactly when the directory cannot be listed, and then no bookmarks; otherwise the bookmarks of its entries in listing order, subdirectories expanded in place (with `older`, the copy at main.go 141-183) |
| Bookmarks.CollectedFromFiles | utils/bookmarks.go:60-102 | every collected bookmark is the resolved bookmark of some readable, decodable file below the directory, with a string URL |
| Bookmarks.EntriesFromFiles | utils/bookmarks.go:67-95 | every bookmark an entry range gives comes from a file below the directory |
| Bookmarks.EntryFromFiles | utils/bookmarks.go:68-94 | every bookmark one entry gives comes from a file below the directory |
| Bookmarks.EntryIncluded | utils/bookmarks.go:67-95 | whatever an entry gives ends up among the directory's bookmarks |
| Bookmarks.CollectedIncludes | utils/bookmarks.go:62-95 | a resolvable file directly inside a listable directory is collected, and so is everything a listable subdirectory collects; a subdirectory that cannot be listed contributes nothing and does not stop the walk |
| Bookmarks.Insert | utils/bookmarks.go:118-123 | a browser other than firefox and chromium leaves the policies as they were; the only failure is the panic of a nil map or a `policies` field that is not an object |
| Bookmarks.InsertFirefox | utils/bookmarks.go:119-120 | firefox succeeds exactly when `policies` is an object, and then sets `policies.ManagedBookmarks` to the bookmarks and changes no other key at either level |
| Bookmarks.InsertChromium | utils/bookmarks.go:121-122 | chromium succeeds exactly on a non-nil map, and then sets top-level `ManagedBookmarks` and changes no other key |
| Bookmarks.InsertIdempotent | utils/bookmarks.go:118-123 | inserting the same bookmarks again changes nothing more |
| Bookmarks.InsertBookmarks | utils/bookmarks.go:104-133 | an unreadable file is that error with nothing written; the tree changes only at `path`, only when it was read and can be written |
| Bookmarks.InsertBookmarksRoundTrip | utils/bookmarks.go:104-133 | with a codec that round-trips, a successful insertion leaves a file that decodes to the policies with the bookmarks inserted, and an unknown browser writes back what it read |
| BookmarkUpdate.CleanTwo | utils/update_bookmarks.go:13 | two plain segments with a trailing empty one clean to the two segments |
| BookmarkUpdate.SplitTwo | utils/update_bookmarks.go:13 | "a/b/" splits into "a", "b" and an empty segment |
| BookmarkUpdate.TwoSegments | utils/update_bookmarks.go:13 | a two-segment directory name with a trailing slash names the two segments and cleans to them joined |
| BookmarkUpdate.BookmarksPath | utils/update_bookmarks.go:13 | `assets/bookmarks` is a cleaned relative path |
| BookmarkUpdate.PathsOfNames | utils/update_bookmarks.go:61 | `assets/bookmarks/`, `assets/bookmarks_old/` and `.etag_bookmarks` name the intended paths, and the two directories clean to themselves without the slash |
| BookmarkUpdate.GuardsPass | utils/update_bookmarks.go:67 | neither bookmark directory lies inside the other, so `MoveFile`'s guard lets the backup and the restore through |
| BookmarkUpdate.BackupNotUnder | utils/update_bookmarks.go:78 | the cleaned backup directory does not start with `assets/bookmarks/` |
| BookmarkUpdate.BookmarksRequest | utils/update_bookmarks.go:113-115 | `If-None-Match` is sent exactly when a stored ETag exists, and carries it |
| BookmarkUpdate.FetchLatestBookmarks | utils/update_bookmarks.go:105-136 | a zip exactly for a 200 whose body was read, with the response's ETag; otherwise the stored ETag; no zip and no error exactly for a 304; a transport error and any other status are errors |
| BookmarkUpdate.NotModifiedIffCurrent | utils/update_bookmarks.go:113-125 | against a server that evaluates `If-None-Match`, nothing is downloaded and nothing fails exactly when the stored ETag is the current one |
| BookmarkUpdate.BackUp | utils/update_bookmarks.go:64-72 | the backup is attempted exactly when `assets/bookmarks` is a directory, and a move counts only then; otherwise nothing changes |
| BookmarkUpdate.Restore | utils/update_bookmarks.go:76-84 | without an attempted backup the rollback changes nothing; refused paths never change |
| BookmarkUpdate.Finish | utils/update_bookmarks.go:75-103 | a failed extraction's error is returned; a success leaves `.etag_bookmarks` holding the new ETag |
| BookmarkUpdate.UpdateBookmarksSpec | utils/update_bookmarks.go:41-103 | the update never changes which paths the OS refuses |
| BookmarkUpdate.UpdateOutcomes | utils/update_bookmarks.go:41-103 | a failed fetch returns its error and a 304 returns nothing, both with the tree unchanged; a failed extraction returns its error; a successful update stores the new ETag |
| BookmarkUpdate.UpdateBookmarks | utils/update_bookmarks.go:41-103 | the step-by-step update ends in the outcome of the specification with the rollback as written |
| BookmarkUpdate.UpToDateLeavesTree | utils/update_bookmarks.go:51-59 | with the current ETag stored and a server that honours it, the update changes nothing and succeeds |
| BookmarkUpdate.Comparable | utils/update_bookmarks.go:64-99 | two prefixes of one path are comparable |
| BookmarkUpdate.MoveFileFrame | utils/update_bookmarks.go:67 | `MoveFile` does not touch paths off the source, the destination and the way to the destination's parent |
| BookmarkUpdate.IntoEntryOff | utils/update_bookmarks.go:74 | one zip entry changes nothing off the way to its own path and what lies below |
| BookmarkUpdate.IntoEntryFrame | utils/update_bookmarks.go:74 | with no ".." in its name, one entry changes nothing at paths incomparable with the target |
| BookmarkUpdate.IntoAllFrame | utils/update_bookmarks.go:74 | with no ".." in the names, the whole extraction changes nothing at paths incomparable with the target |
| BookmarkUpdate.BackUpFrame | utils/update_bookmarks.go:64-72 | the backup changes nothing off the two bookmark trees |
| BookmarkUpdate.ExtractionFrame | utils/update_bookmarks.go:74 | the extraction changes nothing off the two bookmark trees |
| BookmarkUpdate.RestoreFrame | utils/update_bookmarks.go:76-84 | the rollback changes nothing off the two bookmark trees |
| BookmarkUpdate.StepsFrame | utils/update_bookmarks.go:64-94 | backup, extraction, rollback and removal of the backup change nothing off the two bookmark trees |
| BookmarkUpdate.FinishFrame | utils/update_bookmarks.go:75-99 | what follows the extraction changes nothing else but `.etag_bookmarks`, and nothing else at all on failure |
| BookmarkUpdate.UpdateFrame | utils/update_bookmarks.go:41-103 | with no ".." in the zip's names, an update changes nothing off the bookmark trees but `.etag_bookmarks`, and a failed update not even that |
| BookmarkUpdate.MkdirAllNotDenied | utils/update_bookmarks.go:74 | `os.MkdirAll` creates no path the OS refuses |
| BookmarkUpdate.IntoAllNotDenied | utils/update_bookmarks.go:74 | the extraction creates no path the OS refuses |
| BookmarkUpdate.IntoEntryNotDenied | utils/update_bookmarks.go:74 | one entry creates no path the OS refuses |
| BookmarkUpdate.NewNotDenied | utils/update_bookmarks.go:74 | two steps that each create no refused path create none together |
| BookmarkUpdate.BackUpMoves | utils/update_bookmarks.go:64-72 | with both paths allowed and no backup present, the backup moves `assets/bookmarks` to `assets/bookmarks_old` |
| BookmarkUpdate.Cleared | utils/update_bookmarks.go:89-94 | the tree with `assets/bookmarks` and everything below it gone and every other node kept |
| BookmarkUpdate.RestoredBelow | utils/update_bookmarks.go:78 | below `assets/bookmarks`, clearing and moving back brings back what the backup took |
| BookmarkUpdate.RestoredBackup | utils/update_bookmarks.go:78 | nothing was at the backup path before and nothing is after moving back |
| BookmarkUpdate.RestoredElsewhere | utils/update_bookmarks.go:78 | elsewhere neither the backup, the extraction nor the move back changed anything |
| BookmarkUpdate.ExtractionLeaves | utils/update_bookmarks.go:74 | what a failed extraction after the backup leaves: changes only under `assets/bookmarks` and no refused path created |
| BookmarkUpdate.ClearSucceeds | utils/update_bookmarks.go:89-94 | removing what the failed extraction made succeeds and leaves exactly the cleared tree |
| BookmarkUpdate.RestoreMoves | utils/update_bookmarks.go:78 | after clearing, the restore's `MoveFile` finds the backup and an empty place and moves it back |
| BookmarkUpdate.AgreeAll | utils/update_bookmarks.go:78 | two trees that agree at every path have the same nodes |
| BookmarkUpdate.RestoredTree | utils/update_bookmarks.go:64-86 | clearing after a failed extraction and moving the backup back gives exactly the tree before the update's backup |
| BookmarkUpdate.OnFailedExtraction | utils/update_bookmarks.go:74-86 | when a zip arrived and its extraction failed, the update returns that error over the rolled-back tree |
| BookmarkUpdate.RemoveFirstIsMoveBack | utils/update_bookmarks.go:78 | the corrected rollback, once its removal succeeds, is `MoveFile` of the backup onto the cleared place |
| BookmarkUpdate.RemoveFirstRestores | utils/update_bookmarks.go:64-86 | the corrected rollback after a successful backup gives the tree back exactly |
| BookmarkUpdate.RollbackRestoresTree | utils/update_bookmarks.go:41-86 | with the corrected rollback, a failed extraction after a successful backup returns its error with the tree exactly as before |
| BookmarkUpdate.FirstEntryRemakes | utils/update_bookmarks.go:74 | after the backup, an unreadable first entry stops the extraction with an empty `assets/bookmarks` made again |
| BookmarkUpdate.BackupKeepsAssets | utils/update_bookmarks.go:67 | the backup leaves `assets` a directory and `assets/bookmarks` free |
| BookmarkUpdate.RemadeBackup | utils/update_bookmarks.go:78 | after the backup and the remade directory both `assets/bookmarks_old` and `assets/bookmarks` are present |
| BookmarkUpdate.RestoreRefused | utils/update_bookmarks.go:78-80 | the restore as written fails onto the remade directory and changes nothing |
| BookmarkUpdate.RemadeEmpty | utils/update_bookmarks.go:74 | nothing lies below the remade `assets/bookmarks` |
| BookmarkUpdate.RemadeKeepsOld | utils/update_bookmarks.go:67 | everything that was below `assets/bookmarks` is at its same place below `assets/bookmarks_old` |
| BookmarkUpdate.BookmarksLostAsWritten | utils/update_bookmarks.go:74-86 | as written, an unreadable first entry returns the error with `assets/bookmarks` left empty and the bookmarks stranded in `assets/bookmarks_old` |
| BookmarkUpdate.InstallBookmarksSpec | utils/update_bookmarks.go:18-39 | only the two policy files can change; a bookmarks directory that cannot be listed returns its error with nothing changed |
| BookmarkUpdate.InstallBookmarks | utils/update_bookmarks.go:18-39 | the step-by-step installation ends in the outcome of its specification |
| BookmarkUpdate.InstallBookmarksInsertsBoth | utils/update_bookmarks.go:18-39 | with a codec that round-trips, a successful installation leaves each policy file decoding to what it held with the station's bookmarks inserted for its browser |
| Misc.PadStationID | utils/misc.go:72-74 | a one-character answer from "1" to "9" gets a leading "0"; every other answer is kept as typed |
| Misc.LessOneChar | utils/misc.go:72 | Go's string comparison of one-character strings is the comparison of their characters |
| Misc.PadStationIDKeepsNumber | utils/misc.go:72-74 | padding never changes the number the answer denotes, and padding twice pads once |
| Misc.PadStationIDExamples | utils/misc.go:72-74 | "1" and "9" become "01" and "09"; "0", "10", "a" and "" stay as they are |
| Misc.StationIDPathOf | utils/misc.go:42 | `.station_id` is a single file in the working directory |
| Misc.GetStationID | utils/misc.go:41-63 | a readable `.station_id` is returned with nothing changed; a returned ID is what the file holds afterwards; the tree changes only when the file was unreadable and the operator gave an answer, which is saved padded; on an error nothing changed |
| Misc.StationIDStable | utils/misc.go:41-63 | once an ID has been returned, every later call returns it without prompting or writing |
| Misc.FirstSegmentPrefix | utils/misc.go:83 | comparing two slash-separated strings as prefixes compares their first segments and then the rest |
| Misc.JoinedPrefix | utils/misc.go:83 | for joined segment sequences, "starts with the source and a slash" is exactly "the source segments are a proper prefix" |
| Misc.PathOfSegments | utils/misc.go:80-81 | the segments of a cleaned path hold no slash and are never empty |
| Misc.CleanIsJoin | utils/misc.go:80-81 | `filepath.Clean` of a relative path is its cleaned segments joined by "/", or "." when there are none |
| Misc.StrictlyInsideIff | utils/misc.go:83-85 | for relative paths whose source is not ".", the string guard holds exactly when the destination lies strictly inside the source |
| Misc.MoveFile | utils/misc.go:78-104 | a destination inside the source is refused with nothing changed; a missing source is a not-exist error with nothing changed; a success had its source present |
| Misc.MoveFileIsRename | utils/misc.go:91-100 | past the guard, with the source present and the destination's parent a directory, the move is `os.Rename` of the cleaned paths |
| Misc.RenameOntoAncestorFails | utils/misc.go:97-100 | renaming a node onto one of its own ancestors fails because the ancestor exists |
| Misc.AncestorHasChild | utils/misc.go:97-100 | a proper ancestor of a node is a directory holding the next node on the way down |
| Misc.MovedApart | utils/misc.go:97 | moving a subtree to a place neither inside it nor above it puts every node at its same relative place, leaves nothing at the source and keeps every other node |
| Misc.MoveFileMoves | utils/misc.go:78-104 | a successful move between relative paths leaves every node of the source at its relative place below the destination, nothing at the source, and the destination's parent a directory |
| Misc.WriteFileDirs | utils/misc.go:151-159 | refused paths stay the same; on success the file reads back the data, and a new file has the given mode |
| Misc.WriteFileDirsFrame | utils/misc.go:151-159 | no node but the target changes, and the new nodes are the target and 0755 directories above it |
| Misc.WriteFileDirsAt | utils/misc.go:151-159 | the frame of `writeFile` at one given path |
| Misc.WriteFileDirsSucceeds | utils/misc.go:151-159 | the write succeeds exactly when the parent can be made, the target is not a directory and may be written |
| Misc.WriteFileDirsValid | utils/misc.go:151-159 | writing a well-formed path keeps the tree well formed |
| Misc.DumpFile | utils/misc.go:123-144 | a file entry never overwrites anything, adds only files copied from the assets and 0755 directories, and once the parent exists leaves the entry dumped |
| Misc.DumpDir | utils/misc.go:114-122 | a directory entry is made and dumped recursively, never overwriting anything and adding only assets' copies |
| Misc.DumpAssets | utils/misc.go:106-149 | no existing node is changed or removed; every new node is an asset's copy or a 0755 directory; an unlistable source returns its error with nothing changed; on success with the destination a directory every asset below the source is at its place |
| Misc.FirstNameExists | utils/misc.go:107 | a non-empty listing has a first name in Go's order, so the sorted walk can always take one |
| Misc.MkdirNew | utils/misc.go:115 | making an entry's directory adds only 0755 directories on the way to it |
| Misc.NewTrans | utils/misc.go:111-146 | two steps that each overwrite nothing and add only assets' copies together do the same |
| Misc.NewLift | utils/misc.go:119 | what the dump of an entry adds is allowed for the dump of its directory |
| Misc.DirEntryDumped | utils/misc.go:114-122 | a directory whose recursive dump is complete is dumped as an entry |
| Misc.EarlierEntriesKept | utils/misc.go:111-146 | a step that overwrites nothing keeps what earlier entries dumped |
| Misc.NothingBelowFile | utils/misc.go:123 | nothing lies below a file of a well-formed tree |
| Misc.FileEntryKeeps | utils/misc.go:131-143 | writing a missing file entry overwrites nothing, adds only its copy and 0755 directories, and dumps the entry |
| Misc.FileEntrySkipped | utils/misc.go:124-135 | an entry whose place exists or which cannot be read counts as dumped |
| Misc.BelowChildSmaller | utils/misc.go:119 | the subtree of an entry is smaller than that of its directory, so the recursion ends |
| Misc.DumpedAllFromEntries | utils/misc.go:111-146 | every entry dumped means every asset below the source dumped |
| Misc.GuardMissesDot | utils/misc.go:207-209 | the string guard does not refuse `CopyDirectoryTo(".", "backup")`, although "backup" lies inside "." |
| Misc.JoinNotDot | utils/misc.go:204-205 | a cleaned path of one or more segments never joins to "." |
| Misc.DestInsideIff | utils/misc.go:207-209 | the corrected guard holds exactly when the destination's segments extend the source's, not climbing out with ".." when the source is "." |
| Misc.CopyFile | utils/misc.go:223-227 | a file is read and written at its place below the destination; nothing is removed and only that place changes; on success it is copied |
| Misc.CopyWalk | utils/misc.go:211-228 | the walk from a node removes nothing, changes only places below the destination of nodes it visits, keeps the tree well formed and on success copies every node it visits |
| Misc.CopyDir | utils/misc.go:220-222 | a directory is made at its place and its entries walked in order, with the walk's frame and on success everything below it copied |
| Misc.CopyDirectoryTo | utils/misc.go:203-229 | a destination inside the source is refused with nothing changed; a missing source returns the stat error with nothing changed; nothing is removed; only places below the destination change; success with the two apart copies every node of the source |
| Misc.PlaceBack | utils/misc.go:215-219 | the place below the destination of a source path leads back to it through `filepath.Rel` |
| Misc.OnTheWay | utils/misc.go:227 | a node on the way to a place below the destination lies on the way to the destination or below it |
| Misc.FileCopied | utils/misc.go:223-227 | the walk callback on a file keeps the copy's frame and on success copies the file |
| Misc.PlaceWf | utils/misc.go:219 | the place of a well-formed path below a well-formed destination is well formed |
| Misc.FileCopiedFrame | utils/misc.go:227 | writing a file's copy changes only its place and 0755 directories on the way |
| Misc.FileCopiedDone | utils/misc.go:227 | a file whose data is at its place has been copied |
| Misc.DirMade | utils/misc.go:220-222 | the walk callback on a directory keeps the copy's frame and the tree well formed |
| Misc.ChildWalked | utils/misc.go:211 | walking an entry keeps the frame of walking its directory |
| Misc.ChildCopied | utils/misc.go:211 | with source and destination apart, walking one entry keeps what earlier entries copied and adds its own |
| Misc.CopiedFromChildren | utils/misc.go:211 | a directory made and every entry copied is the directory copied |
| Misc.EntryOf | utils/misc.go:211 | a node strictly below a directory lies below one of its entries |
| Misc.IndexOfUnique | utils/misc.go:83 | the index found is the first occurrence of the character |
| Misc.NoSlashNoPrefix | utils/misc.go:83 | a segment, having no slash, never starts with a slash-terminated string |
| Misc.PrefixStep | utils/misc.go:111-146 | a path strictly below another extends it by its next segment |
| Legacy.TrimPrefix | utils/updateOld.go:55 | `strings.TrimPrefix`: with the prefix present, prefix and result make up the input; otherwise the input is returned |
| Legacy.TrimPrefixConcat | utils/updateOld.go:55 | trimming a prefix that was put in front gives back what followed it |
| Legacy.LastCommitPathOf | utils/updateOld.go:95 | `.last_commit` names a single file in the working directory |
| Legacy.RemoteSHA | utils/updateOld.go:32-47 | a transport failure is returned as it is; a status other than 200 is an error; a SHA is found only in a 200 body that decodes to it |
| Legacy.FetchUpdatesSpec | utils/updateOld.go:21-107 | any failure before the SHAs are compared returns it with nothing changed; the tarball is requested only when the local SHA differs from the remote one; a run that fetched nothing and failed in nothing changed nothing |
| Legacy.FetchUpdates | utils/updateOld.go:21-107 | the method computes exactly `FetchUpdatesSpec` |
| Legacy.UpToDateDoesNothing | utils/updateOld.go:54-63 | when the local SHA equals the remote one the run ends without error and writes nothing, whatever the tarball request would have answered |
| Legacy.TarballStatusChecked | utils/updateOld.go:80-89 | a tarball request that fails or answers other than 200 is an error after the new directory was made, and nothing else is written |
| Legacy.InstallWritesLastCommit | utils/updateOld.go:91-102 | after a good unpacking and an allowed write, `.last_commit` holds the remote SHA, and a run without error made `iceslab` mode 0755 |
| Legacy.LastCommitBeforeChmod | utils/updateOld.go:95-102 | `.last_commit` is written before the chmod: it holds the remote SHA even when the chmod fails |
| Legacy.CleanFromPlain | utils/updateOld.go:54 | cleaning a path of plain segments keeps them all |
| Legacy.TagIsPlain | utils/updateOld.go:68 | `iceslab-<sha>` is a single plain segment when the SHA has no "/" |
| Legacy.ParentNameRooted | utils/updateOld.go:54 | the parent directory's name of a rooted path with plain segments is its next-to-last segment |
| Legacy.ParentNameOfJoin | utils/updateOld.go:54 | the parent name of `/d1/.../dn/<last>/<name>` is `<last>` |
| Legacy.SHAFromDirectory | utils/updateOld.go:54-55 | a binary at `/.../iceslab-<sha>/<name>` has local SHA `<sha>` |
| Legacy.NextRunUpToDate | utils/updateOld.go:54-63 | a run started from the binary the updater installed for a commit finds itself up to date while the remote SHA stays the same |
| Paths.Push | utils/misc.go:80 | one step of `filepath.Clean` keeps the segment sequence clean: no empty or "." segments, and ".." only leading a relative path |
| Paths.CleanFrom | utils/misc.go:80-81 | `filepath.Clean` as a fold of that step always yields a clean sequence |
| Paths.CleanFromAppend | utils/misc.go:80-81 | cleaning two pieces is cleaning the first and then the second |
| Paths.CleanFromClean | utils/misc.go:80-81 | cleaning an already clean sequence without ".." changes nothing |
| Paths.PathOf | utils/misc.go:80-81 | the segments a path string resolves to are clean |
| Paths.PathOfSingle | utils/misc.go:42 | a plain name without a slash is a path of one segment |
| Paths.JoinPath | utils/misc.go:112-113 | `filepath.Join(dir, rel)` below a clean directory is clean |
| Paths.Parent | utils/misc.go:91 | `filepath.Dir` of a cleaned path drops exactly its last segment, and the root is its own parent |
| Paths.CleanFromNoSlash | utils/misc.go:80-81 | cleaning never puts a slash into a segment |
| Paths.JoinPathNoSlash | utils/misc.go:112-113 | joining a name below a directory puts no slash into a segment |
| Paths.CleanFromExtends | utils/updateOld.go:133-134 | with no ".." to take segments back, cleaning only appends |
| Paths.AllDotDot | utils/misc.go:80-81 | in a clean relative sequence a trailing ".." means every segment is ".." |
| Paths.PushCleanFrom | utils/updateOld.go:133-134 | one more segment commutes with cleaning onto a base |
| Paths.CleanFromCompose | utils/updateOld.go:133-134 | cleaning onto a cleaned base is cleaning onto the base the cleaned rest |
| Paths.CleanFromTwice | utils/updateOld.go:133-134 | cleaning twice is cleaning once |
| Paths.NonEmpty | utils/updateOld.go:133 | the elements `filepath.Join` keeps are the non-empty ones among its arguments |
| Paths.CleanFromNonEmpty | utils/updateOld.go:133 | empty segments do not change the cleaned result |
| Paths.JoinAllResolves | utils/updateOld.go:133-134 | resolving `filepath.Join(elems...)` below a directory is cleaning the elements onto it |
| Files.CleanIsWf | utils/misc.go:80-81 | a clean sequence of slash-free segments is a well-formed path |
| Files.PathOfWf | utils/misc.go:80-81 | every path a relative string resolves to is well formed |
| Files.JoinPathWf | utils/misc.go:112-113 | joining below a well-formed directory gives a well-formed path |
| Files.DirOfWf | utils/misc.go:91 | `filepath.Dir` of any string is a well-formed path |
| Files.ChildIn | utils/bookmarks.go:62 | a listed name is a node inside the directory |
| Files.ChildrenOf | utils/bookmarks.go:62 | every node directly inside a directory is listed |
| Files.StatErr | utils/misc.go:87 | `os.Stat` fails exactly on a missing path, with not-exist or not-a-directory |
| Files.ReadFile | utils/misc.go:42 | `os.ReadFile` succeeds exactly on a readable file and returns its contents |
| Files.ReadDirErr | utils/bookmarks.go:62 | `os.ReadDir` succeeds exactly on a readable directory |
| Files.MkdirAll | utils/misc.go:92 | `os.MkdirAll` keeps every node, adds only directories of the given mode on the way to the path, and on success the path is a directory |
| Files.MkdirAllSucceeds | utils/misc.go:92 | `os.MkdirAll` succeeds exactly when every prefix is a directory or may be made |
| Files.CanMkdirAllMissing | utils/misc.go:92 | a missing path may be made exactly when its parent may and it is not refused |
| Files.CanMkdirAllPresent | utils/misc.go:92 | an existing path may be made exactly when it is a directory |
| Files.AncestorIsDir | utils/misc.go:92 | in a tree every prefix of a node is a directory |
| Files.MkdirAllValid | utils/misc.go:92 | `os.MkdirAll` of a well-formed path keeps the tree a tree |
| Files.WriteFile | utils/misc.go:158 | `os.WriteFile` succeeds exactly when the target may be written; a failure changes nothing; a success creates or truncates the file and keeps everything else |
| Files.WriteFileValid | utils/misc.go:158 | writing a well-formed path keeps the tree a tree |
| Files.Chmod | utils/updateOld.go:100 | `os.Chmod` succeeds exactly on an existing, allowed path and only changes its mode |
| Files.WriteFileReads | utils/misc.go:158 | what `os.WriteFile` wrote, `os.ReadFile` reads back |
| Files.ChmodKeepsData | utils/updateOld.go:100 | a chmod is invisible to `os.ReadFile` |
| Files.Remove | utils/update.go:262 | `os.Remove` either removes the one path or changes nothing |
| Files.RemoveAll | utils/update_bookmarks.go:90 | in the model `os.RemoveAll` either removes the path and everything below it or, when the OS refuses one of those paths, changes nothing; Go's call would remove what it can first |
| Files.RemoveAllValid | utils/update_bookmarks.go:90 | `os.RemoveAll` keeps the tree a tree |
| Files.LandedFrom | utils/misc.go:97 | the paths a move lands on are those below the destination whose source counterpart exists |
| Files.Moved | utils/misc.go:97 | moving a subtree keeps the refused paths |
| Files.MovedNodes | utils/misc.go:97 | after a move, a path inside the destination holds what was at its source counterpart, and every other path outside the source is as before |
| Files.MovedFrame | utils/misc.go:97 | a move leaves a path inside neither end as it was |
| Files.Rename | utils/misc.go:97 | `os.Rename` either fails with nothing changed or moves the subtree; a success had its source present and no directory at the destination |
| Files.RenameFrame | utils/misc.go:97 | a rename leaves a path inside neither end as it was |
| Files.RenameSucceeds | utils/misc.go:97 | a rename onto a free place under an existing directory, not into itself, moves the subtree |
| Files.RenameOntoDir | utils/update_bookmarks.go:78 | a rename onto an existing directory fails with EEXIST and changes nothing |
| Files.MkdirAllExisting | utils/misc.go:92 | `os.MkdirAll` of an existing directory changes nothing |
| Files.MkdirAllOne | utils/misc.go:115 | `os.MkdirAll` of a missing directory whose parent exists makes just it |
| Text.IndexOf | utils/misc.go:83 | the position returned is that of the first separator, or the length when there is none |
| Text.Split | utils/updateOld.go:128 | `strings.Split` on one character gives one or more pieces, none holding the separator |
| Text.JoinSplit | utils/updateOld.go:128-133 | joining what `strings.Split` cut gives the string back |
| Text.JoinOneOrMore | utils/updateOld.go:133 | a join of two or more pieces is the first piece, the separator and the join of the rest |
| Text.JoinOneOrMoreHead | utils/updateOld.go:133 | a join starts with its first piece |
| Text.SplitJoin | utils/updateOld.go:128-133 | splitting a join of separator-free pieces gives the pieces back |
| Text.SplitCut | utils/updateOld.go:128 | a separator-free piece before a separator is the first piece |
| Text.NoSepIndex | utils/misc.go:83 | a string without the separator has it at no index |
| Text.PrefixIndex | utils/misc.go:83 | after a separator-free prefix the first separator is at the prefix's length |
| Text.SplitHead | utils/updateOld.go:128 | the first piece of a split is what precedes the first separator |
| Text.SplitTail | utils/updateOld.go:128-133 | a split has two or more pieces exactly when the separator occurs, and the rest joins to what follows it |
| Text.Atoi | utils/bookmarks.go:32 | `strconv.Atoi` accepts only non-empty strings, with values in the 64-bit range |
| Text.LeadingZeroValue | utils/bookmarks.go:32 | a leading zero does not change the value of a digit string |
| Text.AtoiLeadingZero | utils/bookmarks.go:32 | a leading zero does not change what `strconv.Atoi` makes of a digit string |
| Text.AtoiExamples | utils/bookmarks.go:32 | "01" is 1, "7" is 7, "-3" is -3; "", "+" and "1a" are rejected |
| Order.LessIrreflexive | utils/hash.go:61-63 | no string is below itself in Go's order |
| Order.LessTransitive | utils/hash.go:61-63 | Go's string order is transitive |
| Order.LessTotal | utils/hash.go:61-63 | two different strings are ordered one way or the other |
| Order.LessAsymmetric | utils/hash.go:61-63 | no two strings are each below the other |
| Order.SortedUnique | utils/hash.go:61-63 | two strictly sorted sequences with the same elements are equal, so the sort has one outcome |
| Order.Insert | utils/hash.go:61-63 | inserting adds exactly one element |
| Order.InsertMultiset | utils/hash.go:61-63 | inserting adds the element and keeps everything else |
| Order.InsertSorted | utils/hash.go:61-63 | inserting an element with a new key into a sorted sequence keeps it sorted |
| Order.InsertFront | utils/hash.go:61-63 | an element below the head goes in front and keeps the order |
| Order.InsertBehind | utils/hash.go:61-63 | behind a smaller head the sorted insertion into the rest keeps the order |
| Order.SortBy | utils/hash.go:61-63 | the sort keeps the length |
| Order.SortByMultiset | utils/hash.go:61-63 | the sort is a permutation |
| Order.SortBySorted | utils/hash.go:61-63 | with distinct keys the sort is strictly increasing |
| Order.MinExists | utils/hash.go:61-63 | a non-empty set with distinct keys has a least element |
| Order.MinAdd | utils/hash.go:61-63 | adding an element to a set with a least element gives a least element |
| Order.MinBeforeRest | utils/hash.go:61-63 | the least element comes before every other one |
| Order.TakeOut | utils/hash.go:61-63 | taking an element out of a set removes it once from its multiset |
| Order.SortedSetBy | utils/hash.go:61-63 | a set with distinct keys has a strictly sorted listing holding each element once |
| Order.SortByCanonical | utils/hash.go:61-63 | whatever order the walk collected distinct-key records in, sorting gives the one sorted listing of the set |
| Order.DistinctMultiset | utils/hash.go:53 | a sequence with distinct keys holds each element once |
| Order.DropLast | utils/hash.go:53 | dropping the last element keeps the keys distinct, and that element did not occur before |
| Order.AddLast | utils/hash.go:53 | appending a new element adds it once to both the sequence and its set |
| Archive.CleanKeepsHead | utils/update.go:214 | a plain first segment with no ".." after it stays the first segment of the cleaned path |
| Archive.SlipClean | utils/update.go:214 | `assets/../../x` resolved below `tmp/u` cleans to `tmp/x` |
| Archive.SlipSplit | utils/update.go:214 | `assets/../../x` splits into `assets`, `..`, `..` and `x` |
| Archive.TouchedStep | utils/update.go:191-240 | a node touched over two steps was touched in one of them |
| Bookmarks.AppendAssoc | utils/bookmarks.go:74 | the collected lists append associatively |
| Bookmarks.FirstUnique | utils/bookmarks.go:62 | Go's order makes the first name of a listing unique |
| Detect.ETagPathWf | utils/archived_functions.go:41 | the manifest's ETag file is a well-formed path |
| Legacy.AppendHead | utils/updateOld.go:133 | the head and the tail of a segment list append to the list |
| Legacy.NoSlashParts | utils/updateOld.go:128 | the pieces of a plain tar name hold no slash |
| Update.ApartPaths | utils/update.go:254-262 | a path below the source of a move does not lie below a destination apart from it |
| Update.CheckValidAlone | utils/update.go:68-71 | the ETag check keeps the tree well formed |
| Update.NothingBelowFresh | utils/update.go:84 | nothing lies below a path that is not in the tree |
| Update.OffTheWay | utils/update.go:254-262 | a path below the source of a move is not on the way to a place below a destination apart from it |

## Left out

- Logging with zerolog is left out: it has no effect on the tree or the results.
- The HTTP transport, and the error of `http.NewRequest` on a constant URL, are left out. A response enters as a record or a transport error. `latestBookmarksReleaseURL` and the GitHub URLs are not part of this model.
- The ZIP, gzip and tar decoders, and the YAML and JSON codecs, are parameters; their internals are not modelled.
- A tar stream whose body cannot be read is treated like one `gzip.NewReader` rejects.
- SHA-256 and hex encoding are an uninterpreted `digest` function. Nothing is claimed about collisions.
- The detached `sh -c "sleep 1 && cp -r … && rm -rf …"` in `Update` runs after the process exits, concurrently with whatever follows. The model records only that it was scheduled, and the copy itself is not modelled.
- `os.MkdirTemp` and `os.Executable` are inputs. For the name `os.MkdirTemp` picks, the model keeps only what the call guarantees: a new directory under an existing parent.
- `fmt.Scanln` prompts are inputs. The operator's answer is a `Result<string>`.
- `CheckIfCorrectUser`, `RunShellCommand`, `RunScript`, `RerunBinary` and `getAssetPath` are shell, environment or stdin glue and are left out. So are `utils/install.go`, `utils/build.go` and `utils/update_source.go`, which is a download followed by `unzipInto`.
- `embed.FS` is a second, read-only `FileSystem` whose names are never "..".
- Go's `map[any]any` after `yaml.Unmarshal` is a datatype of the value shapes the code distinguishes: a string, a mapping with string or integer keys, a list, or something else.
- `InsertBookmarks` works on the decoded policy document. The byte layout `json.MarshalIndent` produces is not modelled.
- File modes are kept as numbers. Ownership, umask and the sticky and setuid bits are not modelled. `os.WriteFile` on an existing file keeps its mode, as Linux does.
- `os.Stat` of a path with a trailing slash is modelled as succeeding exactly on a directory.
- `os.Rename` onto an existing directory fails with EEXIST. That is the check Go's `os.Rename` makes on Linux before calling rename(2). Other rename(2) errors are modelled only as the refused paths in `denied`.
- Concurrent changes to the tree by other processes are not modelled.
- Legacy.FetchUpdatesSpec: the "first run" branch of the switch on the stored commit cannot be taken, because `[]byte(string)` is never nil. The model has no such branch.
- Misc.CopyWalk: a walk deeper than 2048 segments ends with ENAMETOOLONG. That stands in for the OS's limit on path length. It bounds the recursion, because the walk lists the tree it writes to.
- Misc.CopyDirectoryTo: the guard is the corrected one; the guard as written is modelled in `Misc.GuardMissesDot`. The copy is promised only when source and destination lie apart.
- Files.RemoveAll: when the OS refuses a path below the one removed, Go's `os.RemoveAll` removes what it can and returns the first error, but the model removes nothing. So a cleanup of `assets/bookmarks_old/` (utils/update_bookmarks.go:89-94), or of the temporary directory in `Update`, that fails partway is modelled as removing nothing. The corrected `RemoveFirst` rollback is modelled the same way.
- Paths.PathOf: a path that leaves the working directory keeps its leading ".." segments, and the tree treats `..` as an ordinary name. So `../<working directory>/x` and `x` are different paths in the model, although they are the same node on disk.
- Bookmarks.Insert: a Go panic (a nil map, or a failed type assertion on `policies`) ends the process. The model returns it to the caller as `Err(Panic)`.
- Archive.ExtractAllStaysUnder, Archive.ExtractAllInTargets, Update.ExtractOutside, Update.FailureLeavesTree, Update.SuccessStagesOnly, Update.Update0InTargets, Tarball.TarAllReaches and BookmarkUpdate.UpdateFrame: the frame results hold only for archives whose selected names have no ".." segment. `unzipRepoZip` (utils/update.go:204-214), `unzipInto` (utils/fs.go:21) and `extractTarGz` join the entry name to the destination without a containment check. A name such as `assets/../../x` is written outside the destination, as `Archive.ZipSlipExample` shows. The archives come from the project's own releases, so the model states this as a precondition rather than as a finding.
- Update.MoveFiles: it requires the source and the destination to lie apart, because an overlapping walk would visit its own writes. `moveFiles` has no caller in the repository. The walk order is a parameter, and the results hold for every order.
- Bookmarks.CollectBookmarks: the walk's lexical order is stated through `Order.Less`. Go compares bytes, and here one character stands for one byte.
- Go's strings and byte slices are both `seq<char>`, with one character per byte, so conversions between them are the identity.
- Text.Atoi: only decimal digits with an optional sign are modelled. Underscores and other bases are rejected by `strconv.Atoi` as well.
- Error messages built with `fmt.Errorf` are not modelled; errors keep only their kind.

## Findings

| source | as written | input that shows it | evidently intended | confidence | as-written member | corrected member |
|---|---|---|---|---|---|---|
| utils/misc.go:207-209 | the guard tests whether the cleaned destination starts with the cleaned source followed by "/" | `CopyDirectoryTo(".", "backup")`: a cleaned path never starts with "./", so the guard lets it through and the walk copies the working directory into a subdirectory of itself | refuse every destination that lies inside the source, including when the source is "." | not executed | Misc.GuardMissesDot | Misc.DestInsideIff |
| utils/update_bookmarks.go:74-86 | after a failed extraction, the rollback moves `assets/bookmarks_old/` back onto `assets/bookmarks/` without removing what the extraction left there | `assets/bookmarks/` exists, `assets/bookmarks_old/` does not, and the zip's first entry is an unreadable file: `unzipInto` has already remade `assets/bookmarks/`, the restoring rename fails with EEXIST, and the bookmarks stay in `assets/bookmarks_old/` | clear `assets/bookmarks/` first, then move the backup back, so that a failed update leaves the bookmarks as they were | not executed | BookmarkUpdate.BookmarksLostAsWritten | BookmarkUpdate.RollbackRestoresTree |
