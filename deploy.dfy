/** The deterministic data logic of the MPFlutter package-publishing action:
    release-version derivation from the tag ref, the manifest version rewrite,
    archive key and distribution URL, the published-entry projection and the
    package-index merge. Object storage, files, subprocesses and serialisers
    are replaced by parameters. */
module PubDeploy {
  import opened Json

  const TagPrefix: string := "refs/tags/"
  /** Version string of continuous (unreleased) builds; never becomes `latest`. */
  const DevSentinel: string := "0.0.1-master"
  const DistHost: string := "https://dist.mpflutter.com"
  const VersionsDir: string := "/versions/"
  const ArchiveExt: string := ".tar.gz"

  // ---------------------------------------------------------------------------
  // Release version: `ref.replace("refs/tags/", "")`
  // ---------------------------------------------------------------------------

  predicate OccursAt(s: string, pat: string, i: nat) {
    i + |pat| <= |s| && s[i..i + |pat|] == pat
  }

  predicate Contains(s: string, pat: string) {
    exists i :: 0 <= i <= |s| && OccursAt(s, pat, i)
  }

  /** The first position at or after `from` where `pat` occurs in `s`
      (JavaScript's `indexOf` with a start position). */
  function FirstIndexOf(s: string, pat: string, from: nat): (r: Option<nat>)
    requires from <= |s|
    decreases |s| - from
    ensures r.Some? ==> from <= r.value <= |s| && OccursAt(s, pat, r.value)
    ensures r.Some? ==> forall j :: from <= j < r.value ==> !OccursAt(s, pat, j)
    ensures r.None? ==> forall j :: from <= j <= |s| ==> !OccursAt(s, pat, j)
  {
    if OccursAt(s, pat, from) then Some(from)
    else if from == |s| then None
    else FirstIndexOf(s, pat, from + 1)
  }

  /** The release version: the ref with its first `refs/tags/` removed, or the
      ref itself when it has none. */
  function ReleaseVersion(ref: string): (v: string)
    ensures !Contains(ref, TagPrefix) ==> v == ref
    ensures Contains(ref, TagPrefix) ==> |v| == |ref| - |TagPrefix|
  {
    match FirstIndexOf(ref, TagPrefix, 0)
    case None => ref
    case Some(i) => ref[..i] + ref[i + |TagPrefix|..]
  }

  /** Only the first occurrence is removed: cutting the prefix out at its
      first position `i` is exactly what the derivation does. */
  lemma ReleaseVersionRemovesFirst(ref: string, i: nat)
    requires OccursAt(ref, TagPrefix, i)
    requires forall j :: 0 <= j < i ==> !OccursAt(ref, TagPrefix, j)
    ensures ReleaseVersion(ref) == ref[..i] + ref[i + |TagPrefix|..]
    ensures ref == ReleaseVersion(ref)[..i] + TagPrefix + ReleaseVersion(ref)[i..]
  {
    var r := FirstIndexOf(ref, TagPrefix, 0);
    assert r.Some? && r.value == i;
    var v := ReleaseVersion(ref);
    assert v[..i] == ref[..i];
    assert v[i..] == ref[i + |TagPrefix|..];
    assert ref == ref[..i] + ref[i..i + |TagPrefix|] + ref[i + |TagPrefix|..];
  }

  /** A tag ref `refs/tags/X` yields `X`. */
  lemma ReleaseVersionOfTag(x: string)
    ensures ReleaseVersion(TagPrefix + x) == x
  {
  }

  // ---------------------------------------------------------------------------
  // Manifest rewrite: `originYaml.version = currentVersion`
  // ---------------------------------------------------------------------------

  /** The manifest with its `version` set to `v`; every other key keeps its value. */
  function WithVersion(manifest: Object, v: string): (r: Object)
    ensures r.Keys == manifest.Keys + {"version"}
    ensures r["version"] == JString(v)
    ensures forall k :: k in manifest && k != "version" ==> r[k] == manifest[k]
  {
    manifest["version" := JString(v)]
  }

  // ---------------------------------------------------------------------------
  // Archive key and public distribution URL
  // ---------------------------------------------------------------------------

  /** Bucket key of the archive of version `v` of package `name`. */
  function ArchiveKey(name: string, v: string): (key: string)
    ensures |key| == 1 + |name| + |VersionsDir| + |v| + |ArchiveExt|
    ensures key[0] == '/' && key[1..1 + |name|] == name
    ensures key[1 + |name|..1 + |name| + |VersionsDir|] == VersionsDir
    ensures key[1 + |name| + |VersionsDir|..|key| - |ArchiveExt|] == v
    ensures key[|key| - |ArchiveExt|..] == ArchiveExt
  {
    "/" + name + VersionsDir + v + ArchiveExt
  }

  /** The public URL of that archive: the distribution host followed by the key. */
  function DistUrl(name: string, v: string): (url: string)
    ensures |url| > |DistHost|
    ensures url[..|DistHost|] == DistHost && url[|DistHost|..] == ArchiveKey(name, v)
  {
    DistHost + ArchiveKey(name, v)
  }

  /** Reads package name and version back from an archive key: the name runs
      from the leading `/` to the next `/`, which must start `/versions/`, and
      the key must end in `.tar.gz`. */
  function ParseArchiveKey(key: string): Option<(string, string)> {
    if |key| == 0 || key[0] != '/' then None
    else
      match FirstIndexOf(key, "/", 1)
      case None => None
      case Some(j) =>
        var rest := key[j..];
        if |rest| < |VersionsDir| + |ArchiveExt|
          || rest[..|VersionsDir|] != VersionsDir
          || rest[|rest| - |ArchiveExt|..] != ArchiveExt
        then None
        else Some((key[1..j], rest[|VersionsDir|..|rest| - |ArchiveExt|]))
  }

  /** A key built for a name without `/` reads back as that name and version. */
  lemma ArchiveKeyRoundTrip(name: string, v: string)
    requires '/' !in name
    ensures ParseArchiveKey(ArchiveKey(name, v)) == Some((name, v))
  {
    var key := ArchiveKey(name, v);
    var j := 1 + |name|;
    assert key[1..j] == name;
    assert key[j..] == VersionsDir + v + ArchiveExt;
    assert OccursAt(key, "/", j) by { assert key[j] == '/'; }
    forall i | 1 <= i < j ensures !OccursAt(key, "/", i) {
      assert key[i] == name[i - 1];
    }
    var r := FirstIndexOf(key, "/", 1);
    assert r.Some? && r.value == j;
    var rest := key[j..];
    assert rest[..|VersionsDir|] == VersionsDir;
    assert rest[|rest| - |ArchiveExt|..] == ArchiveExt;
    assert rest[|VersionsDir|..|rest| - |ArchiveExt|] == v;
  }

  /** Whatever a key reads back as, it is the key built from those parts. */
  lemma ParseArchiveKeySound(key: string)
    requires ParseArchiveKey(key).Some?
    ensures key == ArchiveKey(ParseArchiveKey(key).value.0, ParseArchiveKey(key).value.1)
  {
  }

  // ---------------------------------------------------------------------------
  // Published entry: `makePubspec`
  // ---------------------------------------------------------------------------

  /** What the archive upload's promise resolves with: the distribution URL
      on success, and on an SDK error the promise's own `rej` function
      (`res(rej)`), so the run goes on either way. */
  datatype UploadResult = ArchiveUrl(url: string) | RejectCallback

  /** The upload outcome as the index sees it: JSON serialisation drops a
      function-valued property, so `archive_url` is absent after a failed upload. */
  function UploadOutcome(name: string, v: string, putSucceeded: bool): (r: UploadResult)
    ensures putSucceeded <==> r.ArchiveUrl?
    ensures putSucceeded ==> r.url == DistHost + ArchiveKey(name, v)
  {
    if putSucceeded then ArchiveUrl(DistUrl(name, v)) else RejectCallback
  }

  /** `originYaml.environment?.[key]` when truthy, `undefined` otherwise. A
      non-object `environment` has no such property. */
  function EnvField(manifest: Object, key: string): (r: Option<Json>)
    ensures r.Some? <==> "environment" in manifest && manifest["environment"].JObject?
                         && Truthy(Get(manifest["environment"].fields, key))
    ensures r.Some? ==> r.value == manifest["environment"].fields[key] && Truthy(r)
  {
    if "environment" in manifest && manifest["environment"].JObject?
      && Truthy(Get(manifest["environment"].fields, key))
    then Get(manifest["environment"].fields, key)
    else None
  }

  /** The `environment` object of the snapshot: `sdk` and `flutter` only when truthy. */
  function SnapshotEnvironment(manifest: Object): (env: Object)
    ensures env.Keys <= {"sdk", "flutter"}
    ensures forall k :: k in {"sdk", "flutter"} ==>
      (k in env <==> "environment" in manifest && manifest["environment"].JObject?
                     && Truthy(Get(manifest["environment"].fields, k)))
    ensures forall k :: k in env ==>
      "environment" in manifest && manifest["environment"].JObject?
      && k in manifest["environment"].fields && env[k] == manifest["environment"].fields[k]
  {
    var sdk: Object := if EnvField(manifest, "sdk").Some? then map["sdk" := EnvField(manifest, "sdk").value] else map[];
    if EnvField(manifest, "flutter").Some? then sdk["flutter" := EnvField(manifest, "flutter").value] else sdk
  }

  /** The normalised manifest snapshot stored as `pubspec` in the entry. */
  function PubspecSnapshot(manifest: Object, name: string, v: string): (p: Object)
    ensures p.Keys == {"version", "name", "author", "description", "homepage",
                       "environment", "dependencies", "dev_dependencies"}
    ensures p["version"] == JString(v) && p["name"] == JString(name)
    ensures p["author"] == if Truthy(Get(manifest, "author")) then manifest["author"] else JString("MPFlutter")
    ensures p["description"] == if Truthy(Get(manifest, "description")) then manifest["description"] else JString("/")
    ensures p["homepage"] == if Truthy(Get(manifest, "homepage")) then manifest["homepage"] else JString("/")
    ensures p["dependencies"] == if Truthy(Get(manifest, "dependencies")) then manifest["dependencies"] else JObject(map[])
    ensures p["dev_dependencies"] == if Truthy(Get(manifest, "dev_dependencies")) then manifest["dev_dependencies"] else JObject(map[])
    ensures p["environment"] == JObject(SnapshotEnvironment(manifest))
  {
    map[
      "version" := JString(v),
      "name" := JString(name),
      "author" := OrElse(manifest, "author", JString("MPFlutter")),
      "description" := OrElse(manifest, "description", JString("/")),
      "homepage" := OrElse(manifest, "homepage", JString("/")),
      "environment" := JObject(SnapshotEnvironment(manifest)),
      "dependencies" := OrElse(manifest, "dependencies", JObject(map[])),
      "dev_dependencies" := OrElse(manifest, "dev_dependencies", JObject(map[]))
    ]
  }

  /** The published entry for version `v`, with `published` the ISO-8601
      time stamp of the run. */
  function MakePubspec(manifest: Object, name: string, v: string, archiveUrl: UploadResult, published: string): (entry: Json)
    ensures entry.JObject? && HasVersion(entry, v)
    ensures entry.fields.Keys == {"version", "pubspec", "published"} + (if archiveUrl.ArchiveUrl? then {"archive_url"} else {})
    ensures entry.fields["pubspec"] == JObject(PubspecSnapshot(manifest, name, v))
    ensures archiveUrl.ArchiveUrl? ==> entry.fields["archive_url"] == JString(archiveUrl.url)
    ensures entry.fields["published"] == JString(published)
  {
    var fields := map[
      "version" := JString(v),
      "pubspec" := JObject(PubspecSnapshot(manifest, name, v)),
      "published" := JString(published)
    ];
    match archiveUrl
    case ArchiveUrl(url) => JObject(fields["archive_url" := JString(url)])
    case RejectCallback => JObject(fields)
  }

  // ---------------------------------------------------------------------------
  // Package index merge: the body of `updatePackage`
  // ---------------------------------------------------------------------------

  /** `e.version === v` for an element `e` of the parsed `versions` list. Only
      an object whose `version` property is the same string is strictly equal;
      any other element reads `undefined` (or a different value) there. */
  predicate HasVersion(e: Json, v: string)
    ensures HasVersion(e, v) ==> e.JObject? && e != JNull
  {
    e.JObject? && "version" in e.fields && e.fields["version"] == JString(v)
  }

  /** Every entry whose version is `v` becomes `entry`; the others stay. */
  function ReplaceMatching(vs: seq<Json>, v: string, entry: Json): (r: seq<Json>)
    ensures |r| == |vs|
    ensures forall i :: 0 <= i < |vs| ==> r[i] == if HasVersion(vs[i], v) then entry else vs[i]
  {
    if vs == [] then []
    else [if HasVersion(vs[0], v) then entry else vs[0]] + ReplaceMatching(vs[1..], v, entry)
  }

  predicate AnyHasVersion(vs: seq<Json>, v: string) {
    exists i :: 0 <= i < |vs| && HasVersion(vs[i], v)
  }

  /** Replace-or-append: the `versions` list after publishing `entry` as `v`. */
  function MergeVersions(vs: seq<Json>, v: string, entry: Json): (r: seq<Json>)
    ensures AnyHasVersion(vs, v) ==> |r| == |vs|
    ensures AnyHasVersion(vs, v) ==>
      forall i :: 0 <= i < |vs| ==> r[i] == if HasVersion(vs[i], v) then entry else vs[i]
    ensures !AnyHasVersion(vs, v) ==> r == vs + [entry]
  {
    if AnyHasVersion(vs, v) then ReplaceMatching(vs, v, entry) else vs + [entry]
  }

  /** The new entry is always listed. */
  lemma MergeVersionsListsEntry(vs: seq<Json>, v: string, entry: Json)
    ensures entry in MergeVersions(vs, v, entry)
  {
  }

  /** Number of entries whose version is `v`. */
  function CountVersion(vs: seq<Json>, v: string): nat {
    if vs == [] then 0 else (if HasVersion(vs[0], v) then 1 else 0) + CountVersion(vs[1..], v)
  }

  lemma {:induction false} CountVersionAppend(vs: seq<Json>, e: Json, w: string)
    ensures CountVersion(vs + [e], w) == CountVersion(vs, w) + (if HasVersion(e, w) then 1 else 0)
  {
    if vs != [] {
      assert (vs + [e])[1..] == vs[1..] + [e];
      CountVersionAppend(vs[1..], e, w);
    }
  }

  lemma {:induction false} CountVersionReplace(vs: seq<Json>, v: string, entry: Json, w: string)
    requires HasVersion(entry, v)
    ensures CountVersion(ReplaceMatching(vs, v, entry), w) == CountVersion(vs, w)
  {
    if vs != [] {
      var r := ReplaceMatching(vs, v, entry);
      assert r[1..] == ReplaceMatching(vs[1..], v, entry);
      CountVersionReplace(vs[1..], v, entry, w);
    }
  }

  lemma {:induction false} CountVersionPositive(vs: seq<Json>, v: string)
    ensures CountVersion(vs, v) > 0 <==> AnyHasVersion(vs, v)
  {
    if vs != [] {
      CountVersionPositive(vs[1..], v);
      if AnyHasVersion(vs[1..], v) {
        var i :| 0 <= i < |vs[1..]| && HasVersion(vs[1..][i], v);
        assert HasVersion(vs[i + 1], v);
      }
      if AnyHasVersion(vs, v) && !HasVersion(vs[0], v) {
        var i :| 0 <= i < |vs| && HasVersion(vs[i], v);
        assert HasVersion(vs[1..][i - 1], v);
      }
    }
  }

  /** Publishing `v` leaves a single entry for `v` when there was at most one,
      and the number of entries of every other version unchanged. */
  lemma MergeVersionsCounts(vs: seq<Json>, v: string, entry: Json, w: string)
    requires HasVersion(entry, v)
    ensures w == v ==> CountVersion(MergeVersions(vs, v, entry), w) == if CountVersion(vs, v) == 0 then 1 else CountVersion(vs, v)
    ensures w != v ==> CountVersion(MergeVersions(vs, v, entry), w) == CountVersion(vs, w)
  {
    CountVersionPositive(vs, v);
    if AnyHasVersion(vs, v) {
      CountVersionReplace(vs, v, entry, w);
    } else {
      CountVersionAppend(vs, entry, w);
    }
  }

  /** Publishing the same entry twice gives the same list as publishing it once. */
  lemma MergeVersionsIdempotent(vs: seq<Json>, v: string, entry: Json)
    requires HasVersion(entry, v)
    ensures MergeVersions(MergeVersions(vs, v, entry), v, entry) == MergeVersions(vs, v, entry)
  {
    var r := MergeVersions(vs, v, entry);
    MergeVersionsListsEntry(vs, v, entry);
    var k :| 0 <= k < |r| && r[k] == entry;
    assert HasVersion(r[k], v);
    var rr := MergeVersions(r, v, entry);
    assert |rr| == |r|;
    forall i | 0 <= i < |r| ensures rr[i] == r[i] {
      if i < |vs| && !AnyHasVersion(vs, v) {
        assert r[i] == vs[i];
      }
    }
  }

  /** The shape of a parsed index that the merge can work on: an object whose
      `versions`, when truthy, is a list without `null` entries. */
  predicate VersionsOk(o: Object) {
    !Truthy(Get(o, "versions"))
    || (o["versions"].JArray? && forall e :: e in o["versions"].items ==> e != JNull)
  }

  predicate IndexShapeOk(j: Json) {
    j.JObject? && VersionsOk(j.fields)
  }

  /** The `versions` list the merge starts from: `[]` when the field is falsy. */
  function VersionsOf(o: Object): (vs: seq<Json>)
    requires VersionsOk(o)
    ensures !Truthy(Get(o, "versions")) ==> vs == []
    ensures Truthy(Get(o, "versions")) ==> o["versions"] == JArray(vs)
  {
    if Truthy(Get(o, "versions")) then o["versions"].items else []
  }

  /** The index as it stands before the merge: the downloaded text, or `{}`
      when nothing was downloaded, parsed; `{}` when it does not parse. */
  function BaseIndex(downloaded: Option<string>, parse: string -> Option<Json>): (j: Json)
    ensures parse(if downloaded.Some? then downloaded.value else "{}").None? ==> j == JObject(map[])
  {
    var contents := if downloaded.Some? then downloaded.value else "{}";
    match parse(contents)
    case Some(j) => j
    case None => JObject(map[])
  }

  /** The index after publishing `entry` as version `v` of package `name`. */
  function MergeIndex(base: Object, name: string, v: string, entry: Json): (r: Object)
    requires VersionsOk(base)
    ensures r.Keys == base.Keys + {"name", "versions"} + (if v != DevSentinel then {"latest"} else {})
    ensures r["name"] == JString(name)
    ensures v != DevSentinel ==> r["latest"] == entry
    ensures v == DevSentinel ==> Get(r, "latest") == Get(base, "latest")
    ensures r["versions"] == JArray(MergeVersions(VersionsOf(base), v, entry))
    ensures forall k :: k in base && k !in {"name", "latest", "versions"} ==> r[k] == base[k]
  {
    var named := base["name" := JString(name)];
    var withLatest := if v != DevSentinel then named["latest" := entry] else named;
    withLatest["versions" := JArray(MergeVersions(VersionsOf(base), v, entry))]
  }

  /** The merged index again has the shape the next publish can merge into. */
  lemma MergeIndexKeepsShape(base: Object, name: string, v: string, entry: Json)
    requires VersionsOk(base) && entry != JNull
    ensures VersionsOk(MergeIndex(base, name, v, entry))
  {
    var vs := VersionsOf(base);
    var r := MergeVersions(vs, v, entry);
    forall e | e in r ensures e != JNull {
      var i :| 0 <= i < |r| && r[i] == e;
      if i < |vs| { assert vs[i] in vs; }
    }
  }

  /** An absent or unparseable index is merged as `{}`: the result has the
      name, the new entry as its only version, and `latest` unless the
      version is the dev sentinel. */
  lemma MergeIntoMissingIndex(downloaded: Option<string>, parse: string -> Option<Json>, name: string, v: string, entry: Json)
    requires downloaded.None? ==> parse("{}") == Some(JObject(map[]))
    requires downloaded.Some? ==> parse(downloaded.value).None?
    ensures BaseIndex(downloaded, parse) == JObject(map[])
    ensures MergeIndex(map[], name, v, entry)
      == if v != DevSentinel
         then map["name" := JString(name), "latest" := entry, "versions" := JArray([entry])]
         else map["name" := JString(name), "versions" := JArray([entry])]
  {
    assert !AnyHasVersion([], v);
    assert MergeVersions([], v, entry) == [entry];
    assert VersionsOf(map[]) == [];
  }

  // ---------------------------------------------------------------------------
  // The deployer
  // ---------------------------------------------------------------------------

  /** One publish of one package. `manifest` is the parsed pubspec.yaml that
      the run rewrites; the version is derived once from the tag ref. */
  class DartPackageDeployer {
    const name: string
    const currentVersion: string
    var manifest: Object

    constructor (name: string, ref: string, manifest: Object)
      ensures this.name == name && currentVersion == ReleaseVersion(ref)
      ensures this.manifest == manifest
    {
      this.name := name;
      currentVersion := ReleaseVersion(ref);
      this.manifest := manifest;
    }

    /** Sets the manifest's `version` to the release version (writing it back
        to pubspec.yaml is I/O and not modelled). */
    method RewritePubspec()
      modifies this
      ensures manifest == WithVersion(old(manifest), currentVersion)
    {
      manifest := manifest["version" := JString(currentVersion)];
    }

    /** Uploads the archive: `key` is the bucket key handed to `putObject`,
        whose outcome is the parameter, and `r` is what the promise resolves
        with. On success that is the host followed by the same key. */
    method UploadArchive(putSucceeded: bool) returns (key: string, r: UploadResult)
      ensures key == ArchiveKey(name, currentVersion)
      ensures r == UploadOutcome(name, currentVersion, putSucceeded)
      ensures r.ArchiveUrl? ==> r.url == DistHost + key
    {
      key := "/" + name + VersionsDir + currentVersion + ArchiveExt;
      if putSucceeded {
        r := ArchiveUrl(DistHost + key);
      } else {
        r := RejectCallback;
      }
    }

    /** The loop over `versions` with its `replaced` flag: every entry whose
        version is the current one is overwritten (there is no early exit),
        and `pubspec` is pushed when none was. */
    method ReplaceOrPush(original: seq<Json>, pubspec: Json) returns (versions: seq<Json>)
      ensures versions == MergeVersions(original, currentVersion, pubspec)
    {
      versions := original;
      var replaced := false;
      var index := 0;
      while index < |versions|
        invariant 0 <= index <= |versions| == |original|
        invariant forall i :: 0 <= i < index ==>
          versions[i] == if HasVersion(original[i], currentVersion) then pubspec else original[i]
        invariant forall i :: index <= i < |versions| ==> versions[i] == original[i]
        invariant replaced <==> exists i :: 0 <= i < index && HasVersion(original[i], currentVersion)
      {
        var element := versions[index];
        if HasVersion(element, currentVersion) {
          versions := versions[index := pubspec];
          replaced := true;
        }
        index := index + 1;
      }
      if !replaced {
        versions := versions + [pubspec];
      }
    }

    /** Fetches the index (its text, if any, is `downloaded`), merges `pubspec`
        into it in place and returns the index that is uploaded. */
    method UpdatePackage(pubspec: Json, downloaded: Option<string>, parse: string -> Option<Json>)
      returns (pkg: Object)
      requires IndexShapeOk(BaseIndex(downloaded, parse))
      ensures pkg == MergeIndex(BaseIndex(downloaded, parse).fields, name, currentVersion, pubspec)
    {
      var contents := "{}";
      if downloaded.Some? {
        contents := downloaded.value;
      }
      var parsed := parse(contents);
      pkg := if parsed.Some? then parsed.value.fields else map[];
      ghost var base := pkg;
      pkg := pkg["name" := JString(name)];
      if currentVersion != DevSentinel {
        pkg := pkg["latest" := pubspec];
      }
      if !Truthy(Get(pkg, "versions")) {
        pkg := pkg["versions" := JArray([])];
      }
      var versions := ReplaceOrPush(pkg["versions"].items, pubspec);
      assert pkg["versions"].items == VersionsOf(base);
      pkg := pkg["versions" := JArray(versions)];
      assert base == BaseIndex(downloaded, parse).fields;
    }

    /** One whole run: rewrite the manifest, upload the archive, build the
        entry from the rewritten manifest and merge it into the index. */
    method Deploy(putSucceeded: bool, published: string, downloaded: Option<string>, parse: string -> Option<Json>)
      returns (index: Object)
      requires IndexShapeOk(BaseIndex(downloaded, parse))
      modifies this
      ensures manifest == WithVersion(old(manifest), currentVersion)
      ensures index == MergeIndex(BaseIndex(downloaded, parse).fields, name, currentVersion,
                                  MakePubspec(manifest, name, currentVersion,
                                              UploadOutcome(name, currentVersion, putSucceeded), published))
    {
      RewritePubspec();
      var _, archiveUrl := UploadArchive(putSucceeded);
      var pubspec := MakePubspec(manifest, name, currentVersion, archiveUrl, published);
      index := UpdatePackage(pubspec, downloaded, parse);
    }
  }

  /** The worked example, first half: tag `refs/tags/2.0.0` gives version
      `2.0.0`, and the manifest `{version: "0.0.1"}` becomes `{version: "2.0.0"}`. */
  lemma EndToEndRelease()
    ensures ReleaseVersion(TagPrefix + "2.0.0") == "2.0.0"
    ensures WithVersion(map["version" := JString("0.0.1")], "2.0.0") == map["version" := JString("2.0.0")]
  {
    ReleaseVersionOfTag("2.0.0");
  }

  /** The worked example, second half: package `foo` at `2.0.0` with no index
      yet ends with `latest.version == "2.0.0"` and the entry as its only version. */
  lemma EndToEndIndex(parse: string -> Option<Json>, published: string)
    requires parse("{}") == Some(JObject(map[]))
    ensures var entry := MakePubspec(map["version" := JString("2.0.0")], "foo", "2.0.0",
                                     UploadOutcome("foo", "2.0.0", true), published);
            var index := MergeIndex(BaseIndex(None, parse).fields, "foo", "2.0.0", entry);
            && index["latest"].JObject? && index["latest"].fields["version"] == JString("2.0.0")
            && index["versions"] == JArray([entry])
  {
    var entry := MakePubspec(map["version" := JString("2.0.0")], "foo", "2.0.0",
                             UploadOutcome("foo", "2.0.0", true), published);
    MergeIntoMissingIndex(None, parse, "foo", "2.0.0", entry);
  }

  /** A first publish of release `v`, second half: after a successful upload
      and with no index yet, the index lists the new entry as `latest` and as
      its only version, and the entry points at the uploaded archive. */
  lemma FirstPublishIndex(name: string, v: string, manifest: Object, parse: string -> Option<Json>, published: string)
    requires v != DevSentinel
    requires parse("{}") == Some(JObject(map[]))
    ensures var entry := MakePubspec(manifest, name, v, UploadOutcome(name, v, true), published);
            && entry.fields["archive_url"] == JString(DistHost + ArchiveKey(name, v))
            && MergeIndex(BaseIndex(None, parse).fields, name, v, entry)
               == map["name" := JString(name), "latest" := entry, "versions" := JArray([entry])]
  {
    var entry := MakePubspec(manifest, name, v, UploadOutcome(name, v, true), published);
    MergeIntoMissingIndex(None, parse, name, v, entry);
  }
}
