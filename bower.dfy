/** `src/dependency/bower.rs`: Bower manifests (`bower.json`), decoded into the same
    two-section struct as npm's. Bower has no registry lookup yet. */
module Bower {
  import opened Wrappers
  import opened Semver
  import opened Json
  import opened Dependencies
  import Text

  /** `to_check`: the same decoding, panics and section order as npm's; the manifest
      path is accepted and ignored. */
  ghost function ToCheck(lib: Lib, manifest: Option<Json>, path: string): (r: Result<seq<Dependency>, Fatal>)
    ensures manifest.None? ==> r == Failure(MalformedJson)
    ensures manifest.Some? ==> (r.Success? <==> DecodeSections(manifest.value).Success?)
    ensures r.Success? ==> manifest.Some? && DecodeSections(manifest.value).Success?
    ensures r.Success? ==>
              var sections := DecodeSections(manifest.value).value;
              r.value == HashSectionDependencies(lib, Text.TrimLeftV, OrEmpty(sections.dependencies))
                       + HashSectionDependencies(lib, Text.TrimLeftV, OrEmpty(sections.devDependencies))
  {
    match manifest
    case None => Failure(MalformedJson)
    case Some(json) =>
      match DecodeSections(json)
      case Failure(e) => Failure(e)
      case Success(bowerJson) =>
        var runtime := HashMembers(OrEmpty(bowerJson.dependencies));
        var development := HashMembers(OrEmpty(bowerJson.devDependencies));
        ParseRequirementsAppend(lib, Text.TrimLeftV, runtime, development);
        Success(ParseRequirements(lib, Text.TrimLeftV, runtime + development))
  }

  /** `registry_version`: no Bower registry is consulted, so no version is ever known. */
  function RegistryVersion(d: Dependency): (r: Option<Version>)
    ensures r.None?
  {
    None
  }
}
