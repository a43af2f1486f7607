/** `src/dependency/composer.rs`: Composer manifests (`composer.json`) and Packagist
    responses. Requirement strings and version keys lose every leading `v` before parsing. */
module Composer {
  import opened Wrappers
  import opened Semver
  import opened Json
  import opened Dependencies
  import Text

  const PackagistPrefix: string := "https://packagist.org/packages/"

  /** The Packagist response has an object at `package.versions`. */
  predicate HasVersions(response: Json)
  {
    && response.Object? && "package" in response.members
    && response.members["package"].Object? && "versions" in response.members["package"].members
    && response.members["package"].members["versions"].Object?
  }

  /** The version strings Packagist lists: the keys of `package.versions`. */
  function VersionKeys(response: Json): set<string>
    requires HasVersions(response)
  {
    response.members["package"].members["versions"].members.Keys
  }

  /** `packagist_version_from_json`: `None` when `package.versions` is missing or not an
      object, or when no key parses once its leading `v`s are trimmed; otherwise the
      greatest parsed key. Pre-release versions take part like any other. */
  function PackagistVersionFromJson(lib: Lib, response: Json): (r: Option<Version>)
    ensures r.None? <==>
      !HasVersions(response) ||
      forall k :: k in VersionKeys(response) ==> lib.parseVersion(Text.TrimLeftV(k)).None?
    ensures r.Some? ==> HasVersions(response)
    ensures r.Some? ==> exists k :: k in VersionKeys(response) && lib.parseVersion(Text.TrimLeftV(k)) == r
    ensures r.Some? ==> forall k :: k in VersionKeys(response) && lib.parseVersion(Text.TrimLeftV(k)).Some? ==>
      LessEq(lib.parseVersion(Text.TrimLeftV(k)).value, r.value)
  {
    FindPath2(response, "package", "versions");
    match FindPath(response, ["package", "versions"])
    case None => None
    case Some(versionsJson) =>
      match AsObject(versionsJson)
      case None => None
      case Some(versionsMap) =>
        assert versionsMap.Keys == VersionKeys(response);
        KeysMax(k => lib.parseVersion(Text.TrimLeftV(k)), versionsMap)
  }

  /** `packagist_url`: the package name framed by the Packagist prefix and `.json`. */
  function PackagistUrl(name: string): (url: string)
    ensures |url| == |PackagistPrefix| + |name| + 5
    ensures url[..|PackagistPrefix|] == PackagistPrefix && url[|url| - 5..] == ".json"
    ensures url[|PackagistPrefix|..|url| - 5] == name
  {
    PackagistPrefix + name + ".json"
  }

  /** Different packages are looked up at different URLs. */
  lemma PackagistUrlInjective(a: string, b: string)
    requires PackagistUrl(a) == PackagistUrl(b)
    ensures a == b
  {
    var u := PackagistUrl(a);
    assert a == u[|PackagistPrefix|..|u| - 5];
  }

  /** `registry_version` without its HTTP request: `fetch` stands for the request and the
      JSON parse of its body (`None` when the body is not JSON). */
  function RegistryVersion(lib: Lib, fetch: string -> Option<Json>, d: Dependency): (r: Option<Version>)
    ensures fetch(PackagistUrl(d.name)).None? ==> r.None?
    ensures fetch(PackagistUrl(d.name)).Some? ==> r == PackagistVersionFromJson(lib, fetch(PackagistUrl(d.name)).value)
  {
    match fetch(PackagistUrl(d.name))
    case None => None
    case Some(response) => PackagistVersionFromJson(lib, response)
  }

  /** `to_check`: malformed JSON or a `require`/`require-dev` section that is present but
      not an object panics; otherwise every `require` record precedes every `require-dev`
      record, each section in ascending name order (a missing section is empty). */
  function ToCheck(lib: Lib, manifest: Option<Json>): (r: Result<seq<Dependency>, Fatal>)
    ensures manifest.None? ==> r == Failure(MalformedJson)
    ensures manifest.Some? ==>
      (r.Failure? <==> BadSection(manifest.value, "require") || BadSection(manifest.value, "require-dev"))
    ensures r.Success? ==> manifest.Some?
    ensures r.Success? ==>
              r.value == ObjectSectionDependencies(lib, Text.TrimLeftV, ObjectSection(manifest.value, "require"))
                       + ObjectSectionDependencies(lib, Text.TrimLeftV, ObjectSection(manifest.value, "require-dev"))
  {
    match manifest
    case None => Failure(MalformedJson)
    case Some(json) =>
      if BadSection(json, "require") then Failure(SectionNotObject("require"))
      else if BadSection(json, "require-dev") then Failure(SectionNotObject("require-dev"))
      else
        var runtime := SortedMembers(ObjectSection(json, "require"));
        var development := SortedMembers(ObjectSection(json, "require-dev"));
        StringValuesAppend(runtime, development);
        ParseRequirementsAppend(lib, Text.TrimLeftV, StringValues(runtime), StringValues(development));
        Success(ParseRequirements(lib, Text.TrimLeftV, StringValues(runtime + development)))
  }

  /** A name listed in both sections with parseable requirements yields two records,
      the `require` one first. */
  lemma DuplicateNamesKept(lib: Lib, json: Json, name: string, runtime: VersionReq, dev: VersionReq)
    requires ToCheck(lib, Some(json)).Success?
    requires Dependency(name, runtime) in ObjectSectionDependencies(lib, Text.TrimLeftV, ObjectSection(json, "require"))
    requires Dependency(name, dev) in ObjectSectionDependencies(lib, Text.TrimLeftV, ObjectSection(json, "require-dev"))
    ensures var r := ToCheck(lib, Some(json)).value;
      exists i, j :: 0 <= i < j < |r| && r[i] == Dependency(name, runtime) && r[j] == Dependency(name, dev)
  {
    var a := ObjectSectionDependencies(lib, Text.TrimLeftV, ObjectSection(json, "require"));
    var b := ObjectSectionDependencies(lib, Text.TrimLeftV, ObjectSection(json, "require-dev"));
    BothKept(a, b, Dependency(name, runtime), Dependency(name, dev));
  }

  lemma BothKept<T>(a: seq<T>, b: seq<T>, x: T, y: T)
    requires x in a && y in b
    ensures exists i, j :: 0 <= i < j < |a + b| && (a + b)[i] == x && (a + b)[j] == y
  {
    var i :| 0 <= i < |a| && a[i] == x;
    var j :| 0 <= j < |b| && b[j] == y;
    assert (a + b)[i] == x && (a + b)[|a| + j] == y;
  }

  /** A key whose parsed version is at least every other parsed key is the answer,
      whatever its pre-release part. */
  lemma GreatestKeyChosen(lib: Lib, response: Json, k: string)
    requires HasVersions(response) && k in VersionKeys(response)
    requires lib.parseVersion(Text.TrimLeftV(k)).Some?
    requires forall k' :: k' in VersionKeys(response) && lib.parseVersion(Text.TrimLeftV(k')).Some? ==>
      LessEq(lib.parseVersion(Text.TrimLeftV(k')).value, lib.parseVersion(Text.TrimLeftV(k)).value)
    ensures PackagistVersionFromJson(lib, response) == lib.parseVersion(Text.TrimLeftV(k))
  {
    var r := PackagistVersionFromJson(lib, response);
    var v := lib.parseVersion(Text.TrimLeftV(k)).value;
    var k' :| k' in VersionKeys(response) && lib.parseVersion(Text.TrimLeftV(k')) == r;
    LessEqAntisymmetric(r.value, v);
  }

  /** The maximum is not restricted to stable releases: with `1.0.0` and `2.0.0-beta`
      listed, the pre-release is chosen. */
  lemma PreReleaseCanBeChosen(lib: Lib)
    requires lib.parseVersion("1.0.0") == Some(Version(1, 0, 0, []))
    requires lib.parseVersion("2.0.0-beta") == Some(Version(2, 0, 0, [AlphaNumeric("beta")]))
    ensures PackagistVersionFromJson(lib, Object(map["package" := Object(map["versions" :=
      Object(map["1.0.0" := Null, "2.0.0-beta" := Null])])])) == Some(Version(2, 0, 0, [AlphaNumeric("beta")]))
  {
    var response := Object(map["package" := Object(map["versions" :=
      Object(map["1.0.0" := Null, "2.0.0-beta" := Null])])]);
    assert HasVersions(response) && VersionKeys(response) == {"1.0.0", "2.0.0-beta"};
    assert Text.TrimLeftV("1.0.0") == "1.0.0";
    assert Text.TrimLeftV("2.0.0-beta") == "2.0.0-beta";
    assert LessEq(Version(1, 0, 0, []), Version(2, 0, 0, [AlphaNumeric("beta")]));
    GreatestKeyChosen(lib, response, "2.0.0-beta");
  }
}
