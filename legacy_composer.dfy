/** `src/dependency.rs`: the earlier Composer implementation. It is the current one
    without `v` trimming: version keys and requirement strings are parsed verbatim. */
module LegacyComposer {
  import opened Wrappers
  import opened Semver
  import opened Json
  import opened Dependencies
  import Composer
  import Text

  /** Requirement strings reach `VersionReq::parse` unchanged. */
  function Verbatim(s: string): string
  {
    s
  }

  /** `packagist_version_from_json`: as in the current implementation, but a key is
      parsed as it stands, so a key such as `v1.0.0` that does not parse is ignored. */
  function PackagistVersionFromJson(lib: Lib, response: Json): (r: Option<Version>)
    ensures r.None? <==>
      !Composer.HasVersions(response) ||
      forall k :: k in Composer.VersionKeys(response) ==> lib.parseVersion(k).None?
    ensures r.Some? ==> Composer.HasVersions(response)
    ensures r.Some? ==> exists k :: k in Composer.VersionKeys(response) && lib.parseVersion(k) == r
    ensures r.Some? ==> forall k :: k in Composer.VersionKeys(response) && lib.parseVersion(k).Some? ==>
      LessEq(lib.parseVersion(k).value, r.value)
  {
    FindPath2(response, "package", "versions");
    match FindPath(response, ["package", "versions"])
    case None => None
    case Some(versionsJson) =>
      match AsObject(versionsJson)
      case None => None
      case Some(versionsMap) =>
        assert versionsMap.Keys == Composer.VersionKeys(response);
        KeysMax(lib.parseVersion, versionsMap)
  }

  /** `packagist_url`: the same URL as the current implementation builds. */
  function PackagistUrl(name: string): (url: string)
    ensures url == Composer.PackagistUrl(name)
  {
    "https://packagist.org/packages/" + name + ".json"
  }

  /** `registry_version` without its HTTP request: a body that is not JSON gives `None`. */
  function RegistryVersion(lib: Lib, fetch: string -> Option<Json>, d: Dependency): (r: Option<Version>)
    ensures fetch(PackagistUrl(d.name)).None? ==> r.None?
    ensures fetch(PackagistUrl(d.name)).Some? ==> r == PackagistVersionFromJson(lib, fetch(PackagistUrl(d.name)).value)
  {
    match fetch(PackagistUrl(d.name))
    case None => None
    case Some(response) => PackagistVersionFromJson(lib, response)
  }

  /** `to_check`: the same sections, order and panics as the current implementation;
      requirement strings are parsed verbatim. */
  function ToCheck(lib: Lib, manifest: Option<Json>): (r: Result<seq<Dependency>, Fatal>)
    ensures manifest.None? ==> r == Failure(MalformedJson)
    ensures manifest.Some? ==>
      (r.Failure? <==> BadSection(manifest.value, "require") || BadSection(manifest.value, "require-dev"))
    ensures r.Success? ==> manifest.Some?
    ensures r.Success? ==>
              r.value == ObjectSectionDependencies(lib, Verbatim, ObjectSection(manifest.value, "require"))
                       + ObjectSectionDependencies(lib, Verbatim, ObjectSection(manifest.value, "require-dev"))
  {
    match manifest
    case None => Failure(MalformedJson)
    case Some(json) =>
      if BadSection(json, "require") then Failure(SectionNotObject("require"))
      else if BadSection(json, "require-dev") then Failure(SectionNotObject("require-dev"))
      else
        var runtime := SortedMembers(ObjectSection(json, "require"));
        var development := SortedMembers(ObjectSection(json, "require-dev"));
        StringValuesAppend(runtime, development);
        ParseRequirementsAppend(lib, Verbatim, StringValues(runtime), StringValues(development));
        Success(ParseRequirements(lib, Verbatim, StringValues(runtime + development)))
  }

  /** Where the library rejects a `v`-prefixed key, the two implementations can disagree:
      the current one finds `1.0.0` behind `v1.0.0`, this one finds nothing. */
  lemma VPrefixedKeyIgnored(lib: Lib)
    requires lib.parseVersion("v1.0.0").None?
    requires lib.parseVersion("1.0.0") == Some(Version(1, 0, 0, []))
    ensures PackagistVersionFromJson(lib, Object(map["package" := Object(map["versions" :=
      Object(map["v1.0.0" := Null])])])).None?
    ensures Composer.PackagistVersionFromJson(lib, Object(map["package" := Object(map["versions" :=
      Object(map["v1.0.0" := Null])])])) == Some(Version(1, 0, 0, []))
  {
    var response := Object(map["package" := Object(map["versions" := Object(map["v1.0.0" := Null])])]);
    assert Composer.HasVersions(response) && Composer.VersionKeys(response) == {"v1.0.0"};
    assert "v1.0.0"[0] == 'v' && "v1.0.0"[1..] == "1.0.0";
    assert Text.TrimLeftV("1.0.0") == "1.0.0";
    assert Text.TrimLeftV("v1.0.0") == "1.0.0";
    Composer.GreatestKeyChosen(lib, response, "v1.0.0");
  }
}
