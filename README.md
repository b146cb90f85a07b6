# mp-pub-action: publishing a package version to the MPFlutter distribution bucket

The action publishes one version of a Dart/Flutter package. It derives the
release version from the tag ref of the run, writes that version into the
package's `pubspec.yaml`, uploads a `tar.gz` of the package directory to
object storage, builds a published entry from the manifest, and merges that
entry into the package index `/{name}/package.json`.

This project models the deterministic data logic of that run in Dafny:

- `json.dfy`, module `Json`: the JSON-like values produced by the YAML and
  JSON parsers, and the JavaScript notions the action relies on. These are
  truthiness, `a || b`, and property lookup giving `undefined`.
- `deploy.dfy`, module `PubDeploy`, has two parts.
  - Pure functions:
    - `ReleaseVersion` models `ref.replace("refs/tags/", "")`. Like JavaScript,
      it removes only the first occurrence.
    - `WithVersion` is the manifest rewrite.
    - `ArchiveKey` and `DistUrl` build the archive key and the public URL.
      `ParseArchiveKey` is their inverse.
    - `PubspecSnapshot` and `MakePubspec` build the published entry.
    - `MergeVersions` and `MergeIndex` specify the index merge.
  - Class `DartPackageDeployer`. It holds the package name and the release
    version. It also holds the parsed manifest, which the program keeps in a
    module-level variable and updates in place. Its methods follow the
    program's own:
    - `RewritePubspec` updates the manifest.
    - `UploadArchive` takes the storage call's outcome as a parameter and
      returns the bucket key with what the promise resolves with.
    - `UpdatePackage` runs the in-place index merge. It delegates the
      replace-or-push loop with its `replaced` flag to `ReplaceOrPush`.
    - `Deploy` runs the steps in order.

The outside world is supplied as parameters:
- the downloaded index text, `Option<string>`, with `None` when no file was written;
- the JSON parser, `string -> Option<Json>`, where `None` means it threw;
- whether the archive `putObject` succeeded;
- the `published` time stamp.

Three behaviours of the code are easy to miss, and the model keeps them.
- When the archive upload fails, the promise is resolved with its own reject
  function (`res(rej)`), so the run does not abort. JSON serialisation drops
  a function-valued property, so the entry that reaches the index has no
  `archive_url`. `UploadResult.RejectCallback` and `MakePubspec` model this.
- The replace loop has no early exit. Every entry whose `version` equals the
  release version is overwritten, not only the first.
- The tag prefix is removed wherever it first occurs in the ref, not only at
  its start.

## Model

| member | source | states |
|---|---|---|
| `PubDeploy.FirstIndexOf` | index.js:28 | the result is the first position at or after `from` where the pattern occurs; `None` only when it occurs nowhere there |
| `PubDeploy.ReleaseVersion` | index.js:28 | a ref without `refs/tags/` is returned unchanged; otherwise the result is exactly that prefix's length shorter |
| `PubDeploy.ReleaseVersionRemovesFirst` | index.js:28 | when the prefix first occurs at `i`, the version is the ref with those characters cut out at `i`, and re-inserting the prefix at `i` gives back the ref |
| `PubDeploy.ReleaseVersionOfTag` | index.js:28 | the ref `refs/tags/X` yields the version `X`, for every `X` |
| `PubDeploy.WithVersion` | index.js:48-49 | the rewritten manifest has `version` equal to the release string, the same keys plus `version`, and every other key's value unchanged |
| `PubDeploy.DartPackageDeployer.RewritePubspec` | index.js:48-54 | the deployer's manifest becomes `WithVersion` of the old manifest and the release version |
| `PubDeploy.ArchiveKey` | index.js:71 | the key is `/`, then the name, then `/versions/`, then the version, then `.tar.gz`, each piece at its stated position and nothing else |
| `PubDeploy.DistUrl` | index.js:71-78 | the URL is the distribution host followed by exactly the archive key |
| `PubDeploy.ArchiveKeyRoundTrip` | index.js:71 | the archive key of a package name without `/` reads back as that name and version |
| `PubDeploy.ParseArchiveKeySound` | index.js:71 | any key that reads back as a name and a version is the archive key built from them |
| `PubDeploy.UploadOutcome` | index.js:75-83 | a successful put yields the URL host plus archive key; a failed put yields the reject callback, and nothing aborts |
| `PubDeploy.DartPackageDeployer.UploadArchive` | index.js:65-86 | the key handed to `putObject` is `ArchiveKey` of the package and version; the promise resolves with `UploadOutcome`, and on success with the host followed by that same key |
| `PubDeploy.EnvField` | index.js:97-104 | the result is present exactly when the manifest's `environment` is an object whose sub-field is truthy, and is then that sub-field's value |
| `PubDeploy.SnapshotEnvironment` | index.js:97-104 | the snapshot's `environment` holds `sdk` and `flutter` exactly when the manifest's `environment` object has them truthy, each equal to the manifest's value, and no other key |
| `PubDeploy.PubspecSnapshot` | index.js:91-107 | the snapshot has exactly the eight keys. `version` and `name` are the release version and the deployer name. `author` falls back to `"MPFlutter"`, `description` and `homepage` to `"/"`, and both dependency maps to `{}` when falsy; otherwise the manifest value is copied |
| `PubDeploy.MakePubspec` | index.js:88-111 | the entry is an object with `version` equal to the release version and `pubspec` the snapshot. `archive_url` is the resolved URL and is present only after a successful upload. `published` is the given time stamp |
| `PubDeploy.HasVersion` | index.js:146 | only an object element can match the current version (`element.version === currentVersion`) |
| `PubDeploy.ReplaceMatching` | index.js:143-150 | same length; each entry with the release version becomes the new entry, every other keeps its position and value |
| `PubDeploy.MergeVersions` | index.js:140-153 | when some entry has the version, the list keeps its length, every matching entry becomes the new entry and the others are untouched. Otherwise the result is the old list with the new entry appended |
| `PubDeploy.MergeVersionsListsEntry` | index.js:140-153 | the new entry is always in the merged list |
| `PubDeploy.MergeVersionsCounts` | index.js:143-153 | after the merge there is one entry for the version when there was none, as many as before otherwise (so exactly one when there was one), and every other version keeps its count |
| `PubDeploy.MergeVersionsIdempotent` | index.js:143-153 | merging the same entry a second time leaves the list as the first merge made it |
| `PubDeploy.VersionsOf` | index.js:140-142 | a falsy `versions` field starts the merge from `[]`; a truthy one is the list itself |
| `PubDeploy.BaseIndex` | index.js:123-135 | a download that does not parse gives `{}` |
| `PubDeploy.MergeIndex` | index.js:136-153 | `name` is the deployer name. `latest` is the new entry unless the version is `0.0.1-master`, when any prior `latest` is left untouched. `versions` is the replace-or-append merge. No other key changes or appears |
| `PubDeploy.MergeIndexKeepsShape` | index.js:140-153 | the merged index again has a list `versions` without `null`, so the next publish can merge into it |
| `PubDeploy.MergeIntoMissingIndex` | index.js:123-153 | an absent or unparseable index starts from `{}`. The result is `name`, `latest` (unless dev) and `versions` holding only the new entry |
| `PubDeploy.DartPackageDeployer.ReplaceOrPush` | index.js:143-153 | the loop with the `replaced` flag, followed by the conditional push, computes `MergeVersions` of the list |
| `PubDeploy.DartPackageDeployer.UpdatePackage` | index.js:113-153 | the index it uploads is `MergeIndex` of the downloaded (or default) index, the name, the release version and the entry |
| `PubDeploy.DartPackageDeployer.Deploy` | index.js:40-46 | one run rewrites the manifest and uploads the index merged with the entry built from the rewritten manifest and the upload outcome |
| `PubDeploy.DartPackageDeployer.constructor` | index.js:28-38 | the deployer's version is derived from the tag ref, and it keeps the name and the parsed manifest |
| `PubDeploy.EndToEndRelease` | index.js:28-49 | the tag `refs/tags/2.0.0` gives `2.0.0`, and the manifest `{version: "0.0.1"}` is rewritten to exactly `{version: "2.0.0"}` |
| `PubDeploy.EndToEndIndex` | index.js:88-153 | publishing `foo` at `2.0.0` with no index yet gives `latest.version == "2.0.0"` and the entry as the only version |
| `PubDeploy.FirstPublishIndex` | index.js:123-153 | a first non-dev publish after a successful upload gives an index of the name, `latest` the entry and `versions` only the entry; the entry's `archive_url` is host plus key |
| `Json.Truthy` | index.js:94-106 | `undefined` and `null` are falsy, and every list or object, even an empty one, is truthy |
| `Json.Get` | index.js:140 | `o[key]` is present exactly when the key is in the object, and is then its value |
| `Json.OrElse` | index.js:94-96 | `a || b`: the property when it is truthy, the fallback otherwise |

## Left out

- Reading and writing `pubspec.yaml`, `YAML.parse`/`YAML.stringify`, `JSON.parse`/`JSON.stringify`, `existsSync` and the temporary files are I/O or library serialisers. The downloaded text and the parser are parameters. The manifest is the already parsed object.
- `tar -czf` and `mv` (`makeArchive`) are subprocesses whose archive format is opaque. They are not modelled.
- The storage SDK's `putObject`/`getObject` are foreign calls. The archive put's outcome is a parameter. The index put's outcome is not modelled, because `deploy` discards what that promise resolves with (`null` or, on error, the reject function).
- `new Date().toISOString()` reads the clock. `published` is a parameter.
- The `@actions/core` inputs, the storage client and the top-level `deploy()` call are configuration plumbing. The package name, the tag ref and the manifest are passed to the constructor.
- Promise sequencing is not modelled. `Deploy` runs the steps in order, and a failed put does not stop it, as in the code.
- Object key order is not modelled. Objects are `map`s, so the order of keys in the serialised manifest, entry and index is not captured.
- JSON numbers are reals. Values YAML can produce but JSON cannot (dates, `NaN`, infinities) are not modelled.
- The parsed index must be an object. Its `versions`, when truthy, must be a list without `null`. This is a `requires` on `UpdatePackage`, because on other input the code throws or behaves erratically. The manifest is typed as an object for the same reason.
- Aliasing is not modelled. In the code, `latest` and the replaced `versions` entries are the same object, and the `versions` array is updated inside `pkgJSON`. The model works on values and writes the list back after `ReplaceOrPush`. Nothing else refers to that array, so the result is the same.
- On a failed upload, the in-memory entry holds the reject function under `archive_url`. The model records the serialised form, where that property is absent.
- `PubDeploy.ReleaseVersion`: its own contract gives only the unchanged case and the length. The exact result when the prefix occurs is stated by `ReleaseVersionRemovesFirst`.
- `PubDeploy.ArchiveKeyRoundTrip`: holds only for package names without `/`. With a `/` in the name, the key can read back differently. The code itself does not care.
- `PubDeploy.BaseIndex`: its contract states only the parse-failure case. `MergeIntoMissingIndex` covers the missing-download case, and `UpdatePackage` covers the rest.
