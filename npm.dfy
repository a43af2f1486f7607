/** `src/dependency/npm.rs`: npm manifests (`package.json`) decoded into a struct of two
    optional `HashMap<String, String>` sections, and npm registry responses. */
module Npm {
  import opened Wrappers
  import opened Semver
  import opened Json
  import opened Dependencies
  import Text

  const RegistryPrefix: string := "https://registry.npmjs.org/"

  /** The registry response has an object at its top-level `versions` field. */
  predicate HasVersions(response: Json)
  {
    response.Object? && "versions" in response.members && response.members["versions"].Object?
  }

  function VersionKeys(response: Json): set<string>
    requires HasVersions(response)
  {
    response.members["versions"].members.Keys
  }

  /** `npm_version_from_json`: `None` when `versions` is missing or not an object, or when
      no key parses once its leading `v`s are trimmed; otherwise the greatest parsed key. */
  function NpmVersionFromJson(lib: Lib, response: Json): (r: Option<Version>)
    ensures r.None? <==>
      !HasVersions(response) ||
      forall k :: k in VersionKeys(response) ==> lib.parseVersion(Text.TrimLeftV(k)).None?
    ensures r.Some? ==> HasVersions(response)
    ensures r.Some? ==> exists k :: k in VersionKeys(response) && lib.parseVersion(Text.TrimLeftV(k)) == r
    ensures r.Some? ==> forall k :: k in VersionKeys(response) && lib.parseVersion(Text.TrimLeftV(k)).Some? ==>
      LessEq(lib.parseVersion(Text.TrimLeftV(k)).value, r.value)
  {
    match Find(response, "versions")
    case None => None
    case Some(versionsJson) =>
      match AsObject(versionsJson)
      case None => None
      case Some(versionsMap) => KeysMax(k => lib.parseVersion(Text.TrimLeftV(k)), versionsMap)
  }

  /** `npm_url`: the registry prefix followed by the package name. */
  function NpmUrl(name: string): (url: string)
    ensures |url| == |RegistryPrefix| + |name|
    ensures url[..|RegistryPrefix|] == RegistryPrefix && url[|RegistryPrefix|..] == name
  {
    RegistryPrefix + name
  }

  /** Different packages are looked up at different URLs. */
  lemma NpmUrlInjective(a: string, b: string)
    requires NpmUrl(a) == NpmUrl(b)
    ensures a == b
  {
    assert a == NpmUrl(a)[|RegistryPrefix|..];
  }

  /** `registry_version` without its HTTP request: a body that is not JSON gives `None`. */
  function RegistryVersion(lib: Lib, fetch: string -> Option<Json>, d: Dependency): (r: Option<Version>)
    ensures fetch(NpmUrl(d.name)).None? ==> r.None?
    ensures fetch(NpmUrl(d.name)).Some? ==> r == NpmVersionFromJson(lib, fetch(NpmUrl(d.name)).value)
  {
    match fetch(NpmUrl(d.name))
    case None => None
    case Some(response) => NpmVersionFromJson(lib, response)
  }

  /** `to_check`: text that is not JSON, or JSON that does not decode into `PackageJson`
      (a non-object manifest, a section that is neither missing, `null` nor an object of
      strings), panics. Otherwise every `dependencies` record precedes every
      `devDependencies` record; a missing section is empty. */
  ghost function ToCheck(lib: Lib, manifest: Option<Json>): (r: Result<seq<Dependency>, Fatal>)
    ensures manifest.None? ==> r == Failure(MalformedJson)
    ensures manifest.Some? ==> (r.Success? <==> DecodeSections(manifest.value).Success?)
    ensures r.Success? ==> manifest.Some? && DecodeSections(manifest.value).Success?
    ensures r.Success? ==>
              var sections := DecodeSections(manifest.value).value;
              r.value == HashSectionDependencies(lib, Text.TrimLeftV, OrEmpty(sections.dependencies))
                       + HashSectionDependencies(lib, Text.TrimLeftV, OrEmpty(sections.devDependencies))
  {
    match manifest
    case None => Failure(MalformedJson)
    case Some(json) =>
      match DecodeSections(json)
      case Failure(e) => Failure(e)
      case Success(packageJson) =>
        var runtime := HashMembers(OrEmpty(packageJson.dependencies));
        var development := HashMembers(OrEmpty(packageJson.devDependencies));
        ParseRequirementsAppend(lib, Text.TrimLeftV, runtime, development);
        Success(ParseRequirements(lib, Text.TrimLeftV, runtime + development))
  }
}
