/** `src/main.rs`: fan-in of the registry lookups, classification of each dependency as
    outdated or up to date, the report, and the choice of ecosystem by file name. */
module Checker {
  import opened Wrappers
  import opened Semver
  import opened Dependencies
  import opened Sorting
  import Bower
  import ComposerRegistry = Composer
  import LegacyComposer
  import NpmRegistry = Npm
  import opened Json

  // ----- get_published_versions -----

  /** `get_published_versions`: the `(name, version)` pair of every dependency whose
      lookup gave a version, in input order. The lookups themselves (one future each)
      are the function `registryVersion`. */
  function GetPublishedVersions(deps: seq<Dependency>, registryVersion: Dependency -> Option<Version>): (r: seq<(string, Version)>)
    ensures |r| <= |deps|
    ensures forall name, v :: (name, v) in r <==>
      exists d :: d in deps && d.name == name && registryVersion(d) == Some(v)
  {
    if deps == [] then []
    else
      var rest := GetPublishedVersions(deps[1..], registryVersion);
      assert forall d :: d in deps <==> d == deps[0] || d in deps[1..];
      match registryVersion(deps[0])
      case Some(v) =>
        var r := [(deps[0].name, v)] + rest;
        assert forall name, w :: (name, w) in r <==>
          exists d :: d in deps && d.name == name && registryVersion(d) == Some(w) by {
          forall name, w ensures (name, w) in r <==>
            exists d :: d in deps && d.name == name && registryVersion(d) == Some(w)
          {
            if (name, w) == (deps[0].name, v) {
              assert deps[0] in deps;
            }
          }
        }
        r
      case None => rest
  }

  /** The pairs keep the order of the dependencies they come from. */
  lemma {:induction false} GetPublishedVersionsAppend(a: seq<Dependency>, b: seq<Dependency>, registryVersion: Dependency -> Option<Version>)
    ensures GetPublishedVersions(a + b, registryVersion) ==
            GetPublishedVersions(a, registryVersion) + GetPublishedVersions(b, registryVersion)
  {
    if a == [] {
      assert a + b == b;
    } else {
      assert (a + b)[0] == a[0] && (a + b)[1..] == a[1..] + b;
      GetPublishedVersionsAppend(a[1..], b, registryVersion);
    }
  }

  /** When every lookup succeeds, the pairs are the dependencies one for one. */
  lemma {:induction false} GetPublishedVersionsAllFound(deps: seq<Dependency>, registryVersion: Dependency -> Option<Version>)
    requires forall i :: 0 <= i < |deps| ==> registryVersion(deps[i]).Some?
    ensures |GetPublishedVersions(deps, registryVersion)| == |deps|
    ensures forall i :: 0 <= i < |deps| ==>
      GetPublishedVersions(deps, registryVersion)[i] == (deps[i].name, registryVersion(deps[i]).value)
  {
    if deps != [] {
      assert forall i :: 1 <= i < |deps| ==> deps[1..][i - 1] == deps[i];
      GetPublishedVersionsAllFound(deps[1..], registryVersion);
    }
  }

  /** When every lookup fails, nothing is published. */
  lemma {:induction false} GetPublishedVersionsNoneFound(deps: seq<Dependency>, registryVersion: Dependency -> Option<Version>)
    requires forall i :: 0 <= i < |deps| ==> registryVersion(deps[i]).None?
    ensures GetPublishedVersions(deps, registryVersion) == []
  {
    if deps != [] {
      assert forall i :: 1 <= i < |deps| ==> deps[1..][i - 1] == deps[i];
      GetPublishedVersionsNoneFound(deps[1..], registryVersion);
    }
  }

  // ----- filter_dependencies -----

  /** No pair before index `i` is named `name`. */
  predicate FirstNamed(published: seq<(string, Version)>, name: string, i: int)
  {
    forall j :: 0 <= j < i && j < |published| ==> published[j].0 != name
  }

  /** `published_versions.iter().find(...)`: the version of the FIRST pair named `name`. */
  function FindPublished(published: seq<(string, Version)>, name: string): (r: Option<Version>)
    ensures r.None? <==> forall i :: 0 <= i < |published| ==> published[i].0 != name
    ensures r.Some? ==> exists i :: 0 <= i < |published| && published[i] == (name, r.value) && FirstNamed(published, name, i)
  {
    if published == [] then None
    else if published[0].0 == name then Some(published[0].1)
    else
      var r := FindPublished(published[1..], name);
      assert forall i :: 1 <= i < |published| ==> published[1..][i - 1] == published[i];
      assert r.Some? ==> exists i :: 0 <= i < |published| && published[i] == (name, r.value) && FirstNamed(published, name, i) by {
        if r.Some? {
          var i :| 0 <= i < |published[1..]| && published[1..][i] == (name, r.value) && FirstNamed(published[1..], name, i);
          assert published[i + 1] == (name, r.value);
          assert FirstNamed(published, name, i + 1) by {
            forall j | 0 <= j < i + 1 ensures published[j].0 != name {
              if j > 0 { assert published[j] == published[1..][j - 1]; }
            }
          }
        }
      }
      r
  }

  /** The first `filter_map`: dependencies with a published version their requirement
      does not match, in input order. */
  function Outdated(lib: Lib, deps: seq<Dependency>, published: seq<(string, Version)>): (r: seq<Entry>)
    ensures forall e :: e in r <==>
      e.dep in deps && FindPublished(published, e.dep.name) == Some(e.version) && !lib.matches(e.dep.req, e.version)
  {
    if deps == [] then []
    else
      var rest := Outdated(lib, deps[1..], published);
      assert forall d :: d in deps <==> d == deps[0] || d in deps[1..];
      match FindPublished(published, deps[0].name)
      case Some(v) => if !lib.matches(deps[0].req, v) then [Entry(deps[0], v)] + rest else rest
      case None => rest
  }

  /** The second `filter_map`: dependencies with a published version their requirement
      matches, in input order. */
  function UpToDate(lib: Lib, deps: seq<Dependency>, published: seq<(string, Version)>): (r: seq<Entry>)
    ensures forall e :: e in r <==>
      e.dep in deps && FindPublished(published, e.dep.name) == Some(e.version) && lib.matches(e.dep.req, e.version)
  {
    if deps == [] then []
    else
      var rest := UpToDate(lib, deps[1..], published);
      assert forall d :: d in deps <==> d == deps[0] || d in deps[1..];
      match FindPublished(published, deps[0].name)
      case Some(v) => if lib.matches(deps[0].req, v) then [Entry(deps[0], v)] + rest else rest
      case None => rest
  }

  /** The first `filter_map` keeps input order: it distributes over concatenation. */
  lemma {:induction false} OutdatedAppend(lib: Lib, a: seq<Dependency>, b: seq<Dependency>, published: seq<(string, Version)>)
    ensures Outdated(lib, a + b, published) == Outdated(lib, a, published) + Outdated(lib, b, published)
  {
    if a == [] {
      assert a + b == b;
    } else {
      assert (a + b)[0] == a[0] && (a + b)[1..] == a[1..] + b;
      OutdatedAppend(lib, a[1..], b, published);
    }
  }

  /** The second `filter_map` keeps input order: it distributes over concatenation. */
  lemma {:induction false} UpToDateAppend(lib: Lib, a: seq<Dependency>, b: seq<Dependency>, published: seq<(string, Version)>)
    ensures UpToDate(lib, a + b, published) == UpToDate(lib, a, published) + UpToDate(lib, b, published)
  {
    if a == [] {
      assert a + b == b;
    } else {
      assert (a + b)[0] == a[0] && (a + b)[1..] == a[1..] + b;
      UpToDateAppend(lib, a[1..], b, published);
    }
  }

  /** A dependency listed twice (as a name kept in both Composer sections is) is
      classified twice, against the same version and into the same group. */
  lemma RepeatedDependencyClassifiedTwice(lib: Lib, d: Dependency, published: seq<(string, Version)>)
    requires FindPublished(published, d.name).Some?
    ensures var e := Entry(d, FindPublished(published, d.name).value);
      Outdated(lib, [d, d], published) + UpToDate(lib, [d, d], published) == [e, e]
  {
    var v := FindPublished(published, d.name).value;
    assert [d, d][1..] == [d] && [d][1..] == [];
    assert Outdated(lib, [d], published) == if lib.matches(d.req, v) then [] else [Entry(d, v)];
    assert UpToDate(lib, [d], published) == if lib.matches(d.req, v) then [Entry(d, v)] else [];
  }

  /** Every dependency with a published version, paired with it: what the two
      partitions are drawn from. */
  function Resolved(deps: seq<Dependency>, published: seq<(string, Version)>): seq<Entry>
  {
    if deps == [] then []
    else
      match FindPublished(published, deps[0].name)
      case Some(v) => [Entry(deps[0], v)] + Resolved(deps[1..], published)
      case None => Resolved(deps[1..], published)
  }

  /** Each resolved dependency lands in exactly one partition, counting repetitions;
      a dependency without a published entry lands in neither. */
  lemma {:induction false} PartitionExact(lib: Lib, deps: seq<Dependency>, published: seq<(string, Version)>)
    ensures multiset(Outdated(lib, deps, published)) + multiset(UpToDate(lib, deps, published)) ==
            multiset(Resolved(deps, published))
  {
    if deps != [] {
      PartitionExact(lib, deps[1..], published);
    }
  }

  /** `filter_dependencies`: the outdated and the up-to-date partitions, each stably
      sorted by name, in that order. */
  method FilterDependencies(lib: Lib, deps: seq<Dependency>, published: seq<(string, Version)>)
    returns (outdated: seq<Entry>, upToDate: seq<Entry>)
    ensures outdated == InsertionSort(Outdated(lib, deps, published))
    ensures upToDate == InsertionSort(UpToDate(lib, deps, published))
    ensures SortedByName(outdated) && SortedByName(upToDate)
    ensures multiset(outdated) == multiset(Outdated(lib, deps, published))
    ensures multiset(upToDate) == multiset(UpToDate(lib, deps, published))
    ensures forall n :: WithName(outdated, n) == WithName(Outdated(lib, deps, published), n)
    ensures forall n :: WithName(upToDate, n) == WithName(UpToDate(lib, deps, published), n)
  {
    var o := Outdated(lib, deps, published);
    var u := UpToDate(lib, deps, published);
    var outdatedArray := new Entry[|o|](i requires 0 <= i < |o| => o[i]);
    var upToDateArray := new Entry[|u|](i requires 0 <= i < |u| => u[i]);
    assert outdatedArray[..] == o && upToDateArray[..] == u;
    SortByName(outdatedArray);
    SortByName(upToDateArray);
    outdated, upToDate := outdatedArray[..], upToDateArray[..];
    InsertionSortCorrect(o);
    InsertionSortCorrect(u);
  }

  // ----- out -----

  const Matches: string := " matches "
  const DoesNotMatch: string := " doesn't match "

  /** One report line: `name: version matches requirement` (or `doesn't match`). */
  function Line(lib: Lib, e: Entry, verdict: string): (r: string)
    ensures |r| == |e.dep.name| + 2 + |lib.showVersion(e.version)| + |verdict| + |lib.showReq(e.dep.req)|
    ensures r[..|e.dep.name|] == e.dep.name && r[|e.dep.name|..|e.dep.name| + 2] == ": "
    ensures r[|e.dep.name| + 2..|e.dep.name| + 2 + |lib.showVersion(e.version)|] == lib.showVersion(e.version)
    ensures r[|e.dep.name| + 2 + |lib.showVersion(e.version)|..|r| - |lib.showReq(e.dep.req)|] == verdict
    ensures r[|r| - |lib.showReq(e.dep.req)|..] == lib.showReq(e.dep.req)
  {
    e.dep.name + ": " + lib.showVersion(e.version) + verdict + lib.showReq(e.dep.req)
  }

  /** A section of the report: nothing for no entries, else an empty line and one line
      per entry in order. */
  function Section(lib: Lib, entries: seq<Entry>, verdict: string): seq<string>
  {
    if entries == [] then [] else [""] + Lines(lib, entries, verdict, |entries|)
  }

  /** The lines of the first `n` entries. */
  function Lines(lib: Lib, entries: seq<Entry>, verdict: string, n: nat): (r: seq<string>)
    requires n <= |entries|
    ensures |r| == n
  {
    if n == 0 then [] else Lines(lib, entries, verdict, n - 1) + [Line(lib, entries[n - 1], verdict)]
  }

  /** Line `i` of the first `n` is the line of entry `i`. */
  lemma {:induction false} LinesAt(lib: Lib, entries: seq<Entry>, verdict: string, n: nat, i: nat)
    requires i < n <= |entries|
    ensures Lines(lib, entries, verdict, n)[i] == Line(lib, entries[i], verdict)
  {
    if i < n - 1 {
      LinesAt(lib, entries, verdict, n - 1, i);
    }
  }

  /** What a section prints: nothing for no entries; otherwise an empty line and then,
      in order, one line per entry. */
  lemma SectionShape(lib: Lib, entries: seq<Entry>, verdict: string)
    ensures entries == [] ==> Section(lib, entries, verdict) == []
    ensures entries != [] ==>
      |Section(lib, entries, verdict)| == |entries| + 1 && Section(lib, entries, verdict)[0] == ""
    ensures forall i :: 0 <= i < |entries| ==> Section(lib, entries, verdict)[i + 1] == Line(lib, entries[i], verdict)
  {
    forall i | 0 <= i < |entries| ensures Section(lib, entries, verdict)[i + 1] == Line(lib, entries[i], verdict) {
      LinesAt(lib, entries, verdict, |entries|, i);
    }
  }

  /** One more entry adds its line at the end. */
  lemma LinesSnoc(lib: Lib, entries: seq<Entry>, verdict: string, i: nat)
    requires i < |entries|
    ensures Lines(lib, entries, verdict, i + 1) == Lines(lib, entries, verdict, i) + [Line(lib, entries[i], verdict)]
  {
  }

  /** One `if` block of `out`: unless `entries` is empty, an empty line and then one
      line per entry. */
  method EmitSection(lib: Lib, lines: seq<string>, entries: seq<Entry>, verdict: string) returns (r: seq<string>)
    ensures r == lines + Section(lib, entries, verdict)
  {
    if |entries| == 0 {
      return lines;
    }
    var body: seq<string> := [];
    for i := 0 to |entries|
      invariant body == Lines(lib, entries, verdict, i)
    {
      LinesSnoc(lib, entries, verdict, i);
      body := body + [Line(lib, entries[i], verdict)];
    }
    r := lines + ([""] + body);
  }

  /** `out`, with the printed lines returned: the up-to-date section, then the outdated one. */
  method Out(lib: Lib, outdated: seq<Entry>, upToDate: seq<Entry>) returns (lines: seq<string>)
    ensures lines == Section(lib, upToDate, Matches) + Section(lib, outdated, DoesNotMatch)
  {
    lines := EmitSection(lib, [], upToDate, Matches);
    lines := EmitSection(lib, lines, outdated, DoesNotMatch);
  }

  /** `check`: look every dependency up, classify, and report. */
  method Check(lib: Lib, deps: seq<Dependency>, registryVersion: Dependency -> Option<Version>)
    returns (lines: seq<string>)
    ensures var published := GetPublishedVersions(deps, registryVersion);
      lines == Section(lib, InsertionSort(UpToDate(lib, deps, published)), Matches) +
               Section(lib, InsertionSort(Outdated(lib, deps, published)), DoesNotMatch)
  {
    var published := GetPublishedVersions(deps, registryVersion);
    var outdated, upToDate := FilterDependencies(lib, deps, published);
    lines := Out(lib, outdated, upToDate);
  }

  // ----- Properties of the whole check -----

  /** The lookup depends on the dependency's name only, as every registry lookup does. */
  predicate ByName(deps: seq<Dependency>, registryVersion: Dependency -> Option<Version>)
  {
    forall i, j :: 0 <= i < |deps| && 0 <= j < |deps| && deps[i].name == deps[j].name ==>
      registryVersion(deps[i]) == registryVersion(deps[j])
  }

  /** Every registry lookup of the model is name-determined, so `ClassifiedIffFound`
      applies to each ecosystem. */
  lemma RegistryLookupsByName(lib: Lib, fetch: string -> Option<Json>, deps: seq<Dependency>)
    ensures ByName(deps, d => ComposerRegistry.RegistryVersion(lib, fetch, d))
    ensures ByName(deps, d => LegacyComposer.RegistryVersion(lib, fetch, d))
    ensures ByName(deps, d => NpmRegistry.RegistryVersion(lib, fetch, d))
    ensures ByName(deps, Bower.RegistryVersion)
  {
  }

  /** With name-determined lookups, a dependency is classified exactly when its own lookup
      succeeded, and against the version that lookup gave. */
  lemma ClassifiedIffFound(lib: Lib, deps: seq<Dependency>, registryVersion: Dependency -> Option<Version>, d: Dependency)
    requires ByName(deps, registryVersion)
    requires d in deps
    ensures FindPublished(GetPublishedVersions(deps, registryVersion), d.name) == registryVersion(d)
    ensures (exists v :: Entry(d, v) in Resolved(deps, GetPublishedVersions(deps, registryVersion))) <==>
      registryVersion(d).Some?
  {
    var published := GetPublishedVersions(deps, registryVersion);
    var k :| 0 <= k < |deps| && deps[k] == d;
    ResolvedMembers(deps, published, d);
    match FindPublished(published, d.name)
    case None =>
    case Some(v) =>
      var i :| 0 <= i < |published| && published[i] == (d.name, v);
      assert (d.name, v) in published;
      var d' :| d' in deps && d'.name == d.name && registryVersion(d') == Some(v);
      var k' :| 0 <= k' < |deps| && deps[k'] == d';
      assert registryVersion(deps[k']) == registryVersion(deps[k]);
  }

  /** Membership in `Resolved`: a dependency is there exactly with its published version. */
  lemma {:induction false} ResolvedMembers(deps: seq<Dependency>, published: seq<(string, Version)>, d: Dependency)
    ensures (exists v :: Entry(d, v) in Resolved(deps, published)) <==>
      d in deps && FindPublished(published, d.name).Some?
  {
    if deps != [] {
      ResolvedMembers(deps[1..], published, d);
      assert d in deps <==> d == deps[0] || d in deps[1..];
      if d == deps[0] && FindPublished(published, d.name).Some? {
        assert Entry(d, FindPublished(published, d.name).value) in Resolved(deps, published);
      }
    }
  }

  /** Bower dependencies are never looked up, so the report for them is empty. */
  lemma BowerReportEmpty(lib: Lib, deps: seq<Dependency>)
    ensures GetPublishedVersions(deps, Bower.RegistryVersion) == []
    ensures Outdated(lib, deps, []) == [] && UpToDate(lib, deps, []) == []
  {
    var published := GetPublishedVersions(deps, Bower.RegistryVersion);
    GetPublishedVersionsNoneFound(deps, Bower.RegistryVersion);
    if Outdated(lib, deps, []) != [] {
      assert Outdated(lib, deps, [])[0] in Outdated(lib, deps, []);
      assert false;
    }
    if UpToDate(lib, deps, []) != [] {
      assert UpToDate(lib, deps, [])[0] in UpToDate(lib, deps, []);
      assert false;
    }
  }

  // ----- Choosing the ecosystem -----

  datatype Ecosystem = Cargo | Composer | Puppet | Npm | Unrecognized

  const NotRecognized: string := "File type not recognized"

  /** The `match` in `main` on the path's file name: only these four exact names select
      an ecosystem. */
  function Dispatch(fileName: Option<string>): (e: Ecosystem)
    ensures e != Unrecognized <==>
      fileName.Some? && fileName.value in {"Cargo.toml", "composer.json", "Puppetfile", "package.json"}
    ensures fileName == Some("Cargo.toml") ==> e == Cargo
    ensures fileName == Some("composer.json") ==> e == Composer
    ensures fileName == Some("Puppetfile") ==> e == Puppet
    ensures fileName == Some("package.json") ==> e == Npm
  {
    match fileName
    case Some("Cargo.toml") => Cargo
    case Some("composer.json") => Composer
    case Some("Puppetfile") => Puppet
    case Some("package.json") => Npm
    case _ => Unrecognized
  }

  /** The lines the `match` in `main` prints itself: the fallback arm's message for an
      unrecognised name, nothing for a recognised one (whose report comes from `check`). */
  function DispatchMessage(fileName: Option<string>): (r: seq<string>)
    ensures Dispatch(fileName) == Unrecognized ==> r == [NotRecognized]
    ensures Dispatch(fileName) != Unrecognized ==> r == []
  {
    match Dispatch(fileName)
    case Unrecognized => [NotRecognized]
    case _ => []
  }
}
