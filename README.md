# dependency-update-checker, modelled in Dafny

`dependency-update-checker` reads a dependency manifest, looks up the newest published version of every dependency, and then prints two groups of dependencies:

- those whose declared requirement matches the newest published version;
- those whose requirement does not match it.

`main` chooses a parser by file name: `Cargo.toml`, `composer.json`, `Puppetfile` or `package.json`. This project covers the Composer parser (a current and an older variant), the npm parser and the Bower parser, which `main` never selects. It models the logic around that check and proves properties of the model:

- turning a decoded manifest into an ordered list of `(name, requirement)` records (`to_check`), in the current and the older Composer variant, npm and Bower;
- reducing a registry response to the greatest published version (`packagist_version_from_json`, `npm_version_from_json`), and the registry URLs;
- the fan-in of lookups (`get_published_versions`);
- splitting dependencies into outdated and up-to-date ones, each sorted by name in place (`filter_dependencies`);
- the report (`out`, as a list of lines) and the choice of ecosystem by file name in `main`.

Modules, one per source file plus shared pieces:

| file | module | models |
|---|---|---|
| `wrappers.dfy` | `Wrappers` | `Option`, `Result` |
| `text.dfy` | `Text` | string order (Rust `String::cmp`), `trim_left_matches('v')` |
| `keys.dfy` | `Keys` | iteration order of `BTreeMap`/`Json::Object` (ascending) and `HashMap` (unspecified) |
| `semver.dfy` | `Semver` | `Version` and its order, `std::cmp::max`, the library operations as `Lib` |
| `json.dfy` | `Json` | the JSON value, `find`, `find_path`, `as_object` |
| `dependencies.dfy` | `Dependencies` | the dependency record, the shared `chain`/`filter_map` pipeline, the `fold` maximum, the derived manifest decoder |
| `composer.dfy` | `Composer` | `src/dependency/composer.rs` |
| `legacy_composer.dfy` | `LegacyComposer` | `src/dependency.rs` (the older Composer variant, no `v` trimming) |
| `npm.dfy` | `Npm` | `src/dependency/npm.rs` |
| `bower.dfy` | `Bower` | `src/dependency/bower.rs` |
| `sorting.dfy` | `Sorting` | the stable `sort_by` on names, in place on an array |
| `checker.dfy` | `Checker` | `src/main.rs` |

Modelling choices:

- **The semver library is a parameter.** `Semver.Lib` bundles `Version::parse`, `VersionReq::parse`, `VersionReq::matches` and `Display` for versions and requirements as total functions. `VersionReq` is an abstract type.
- **`Version` is concrete: major, minor, patch and pre-release identifiers.** It uses the library's precedence:
  - a release is greater than any pre-release of the same core;
  - numeric identifiers sort before alphanumeric ones;
  - identifier lists compare lexicographically.
  The model proves this order total, transitive and antisymmetric.
- **JSON text parsing is not modelled.** Every manifest or response arrives as `Option<Json>`, where `None` means the text did not parse. A panic in `to_check` (`unwrap`, `panic!`) is a `Failure` with a `Fatal` reason. The panics of a failed request inside `registry_version` are not modelled (see below).
- **Map iteration is explicit.**
  - `BTreeMap` and `Json::Object` iterate as `Keys.SortedKeys`, in ascending order.
  - `HashMap` iterates as `Keys.HashOrder`, a fixed order that is not specified. Everything that depends on it is `ghost`.
- **An HTTP lookup is a function parameter.**
  - `fetch: string -> Option<Json>` stands for the request to a URL plus the JSON parse of the body.
  - `registryVersion: Dependency -> Option<Version>` stands for one whole lookup in `main.rs`.
- **Where the written requirements and the code differ, the model follows the code:**
  - the maximum does not exclude pre-releases (`Composer.PreReleaseCanBeChosen`);
  - Composer packages named `php` or `ext-…` are not excluded;
  - `trim_left_matches('v')` removes every leading `v`, not just one (`Text.TrimLeftVPrefix`);
  - Bower is never dispatched by `main`, because no file name selects it.

## Model

| member | source | states |
|---|---|---|
| Text.TrimLeftV | src/dependency/composer.rs:23 | the result is a suffix of the input that is empty or does not start with `v`, and every character removed was a `v` |
| Text.TrimLeftVIdempotent | src/dependency/composer.rs:23 | trimming twice is trimming once |
| Text.TrimLeftVPrefix | src/dependency/composer.rs:60 | any number of leading `v`s is removed, not only one |
| Text.Less | src/main.rs:56-57 | Rust's `Ord` on `String`, the order of the name sort and of `BTreeMap` iteration: lexicographic on Unicode scalar values, which is the byte-wise UTF-8 order; a proper prefix is smaller, and no string is below itself |
| Text.LessAtFirstDifference | src/main.rs:56-57 | where two strings first differ, the smaller character gives the smaller string |
| Text.LessTransitive | src/main.rs:56-57 | the name order used by the sort is transitive |
| Text.LessTotal | src/main.rs:56-57 | any two distinct names are ordered one way or the other |
| Text.LessIrreflexive | src/main.rs:56-57 | no name is less than itself |
| Keys.SortedKeys | src/dependency/composer.rs:51 | `BTreeMap` iteration visits every key exactly once, in strictly ascending order |
| Keys.HashOrder | src/dependency/npm.rs:56 | `HashMap` iteration visits every key exactly once, in some order |
| Semver.Less | src/dependency/composer.rs:28 | `Version::cmp`, built from `Semver.IdentifierLess` (the derived `Identifier` order: numeric before alphanumeric), `Semver.IdentifiersLess` (the lexicographic `Vec<Identifier>` order) and `Semver.PreLess` (the pre-release arm); the major version dominates the order, on an equal core a release is never below anything, and a pre-release is below the release |
| Semver.LessTransitive | src/dependency/composer.rs:28 | version precedence is transitive |
| Semver.LessTotal | src/dependency/composer.rs:28 | any two distinct versions are ordered |
| Semver.LessEqAntisymmetric | src/dependency/composer.rs:28 | versions that are each at most the other are equal |
| Semver.IdentifiersLessTotal | src/dependency/composer.rs:28 | pre-release identifier lists are totally ordered |
| Semver.Max | src/dependency/composer.rs:28 | `max` returns one of its arguments, and that argument is at least both |
| Json.Find | src/dependency/composer.rs:44 | `find` succeeds exactly when the value is an object holding the key, and gives that member |
| Json.FindPath | src/dependency/composer.rs:19 | the empty path gives the value itself; a successful lookup started at an object holding the first key; a one-key path is `find` |
| Json.AsObject | src/dependency/composer.rs:20 | `as_object` succeeds exactly on an object, and gives back its members |
| Json.FindPath2 | src/dependency/composer.rs:19 | `find_path` on two keys succeeds exactly when both levels are objects holding the keys, and gives the inner member |
| Dependencies.BadSection | src/dependency/composer.rs:44-49 | a section panics exactly when the manifest is an object holding the key with a value that is not an object |
| Dependencies.ObjectSection | src/dependency/composer.rs:44-49 | a missing section is the empty map; a section that does not panic is the object found under the key |
| Dependencies.SortedMembers | src/dependency/composer.rs:51 | iterating an object section yields exactly its members, with strictly ascending keys |
| Dependencies.HashMembers | src/dependency/npm.rs:56 | iterating a `HashMap` section yields exactly its members, each key once |
| Dependencies.StringValues | src/dependency/composer.rs:52-57 | exactly the members whose value is a JSON string are kept, with that string |
| Dependencies.StringValuesAscending | src/dependency/composer.rs:51-57 | dropping non-string members keeps ascending keys ascending |
| Dependencies.StringValuesAppend | src/dependency/composer.rs:51-57 | dropping non-strings distributes over `chain` |
| Dependencies.ParseRequirements | src/dependency/composer.rs:58-69 | a record is produced exactly for an entry whose prepared requirement parses, carrying the entry's name and the parsed requirement; there are never more records than entries |
| Dependencies.ParseRequirementsAppend | src/dependency/composer.rs:51-69 | filtering distributes over `chain`: all runtime records precede all dev records |
| Dependencies.ParseRequirementsAscending | src/dependency/composer.rs:51-69 | entries in ascending name order give records in ascending name order |
| Dependencies.ParseRequirementsDistinct | src/dependency/npm.rs:56-64 | entries with distinct names give records with distinct names |
| Dependencies.ObjectSectionDependencies | src/dependency/composer.rs:51-69 | one section yields a record exactly for each member whose value is a string whose prepared form parses, in strictly ascending name order |
| Dependencies.HashSectionDependencies | src/dependency/npm.rs:56-64 | one `HashMap` section yields a record exactly for each entry whose prepared requirement parses, each name at most once |
| Dependencies.Combine | src/dependency/composer.rs:24-30 | the fold step is `None` exactly when both arguments are; otherwise it is one of them and at least every present one |
| Dependencies.FoldMax | src/dependency/composer.rs:24-30 | the fold is `None` exactly when the accumulator and every element are `None`; otherwise it is the accumulator or an element, and at least all of them |
| Dependencies.MaxParsedKey | src/dependency/composer.rs:22-30 | `None` exactly when no key parses; otherwise some key's parse, at least every parsed key |
| Dependencies.KeysMax | src/dependency/composer.rs:21-31 | the same over the keys of one object, in iteration order |
| Dependencies.DecodeStringMap | src/dependency/npm.rs:14-15 | decoding an `Option<HashMap<String, String>>` field succeeds exactly for a missing field, `null` or an object of strings; a missing field or `null` gives `None`, and an object of strings gives `Some` of a map with exactly its keys and strings |
| Dependencies.DecodeSections | src/dependency/npm.rs:48-51 | decoding the manifest struct succeeds exactly when the manifest is an object and both fields decode, and then `dependencies` holds the decoded `dependencies` field and `devDependencies` the decoded `devDependencies` field |
| Dependencies.OrEmpty | src/dependency/npm.rs:53-54 | a missing section is the empty map; a present one is itself |
| Composer.PackagistVersionFromJson | src/dependency/composer.rs:18-32 | `None` exactly when `package.versions` is missing or not an object, or no `v`-trimmed key parses; otherwise a parsed key's version that is at least every parsed key |
| Composer.GreatestKeyChosen | src/dependency/composer.rs:22-30 | a key whose version is at least every parsed key's is the result, with no condition on its pre-release part |
| Composer.PreReleaseCanBeChosen | src/dependency/composer.rs:24-30 | with `1.0.0` and `2.0.0-beta` listed, `2.0.0-beta` is returned |
| Composer.PackagistUrl | src/dependency/composer.rs:34-36 | the URL is the Packagist prefix, the name, then `.json` |
| Composer.PackagistUrlInjective | src/dependency/composer.rs:34-36 | different names give different URLs |
| Composer.RegistryVersion | src/dependency/composer.rs:80-87 | a body that is not JSON gives `None`; otherwise the reduction of the response fetched from the package's URL |
| Composer.ToCheck | src/dependency/composer.rs:40-70 | malformed JSON or a `require`/`require-dev` section that is present but not an object is fatal, and nothing else is; otherwise every `require` record (ascending) precedes every `require-dev` record (ascending), and a missing section adds nothing |
| Composer.DuplicateNamesKept | src/dependency/composer.rs:51 | a name kept in both sections yields two records, the `require` one first |
| LegacyComposer.PackagistVersionFromJson | src/dependency.rs:31-45 | as the current variant, but keys are parsed verbatim |
| LegacyComposer.PackagistUrl | src/dependency.rs:47-51 | the same URL as the current variant |
| LegacyComposer.RegistryVersion | src/dependency.rs:95-106 | a body that is not JSON gives `None`; otherwise the verbatim reduction of the response |
| LegacyComposer.ToCheck | src/dependency.rs:55-85 | the same sections, panics and order as the current variant, with requirement strings parsed verbatim |
| LegacyComposer.VPrefixedKeyIgnored | src/dependency.rs:35-36 | where the library rejects `v1.0.0`, this variant finds no version while the current one finds `1.0.0` |
| Npm.NpmVersionFromJson | src/dependency/npm.rs:25-39 | `None` exactly when `versions` is missing or not an object, or no `v`-trimmed key parses; otherwise a parsed key's version that is at least every parsed key |
| Npm.NpmUrl | src/dependency/npm.rs:41-43 | the URL is the registry prefix followed by the name |
| Npm.NpmUrlInjective | src/dependency/npm.rs:41-43 | different names give different URLs |
| Npm.RegistryVersion | src/dependency/npm.rs:75-82 | a body that is not JSON gives `None`; otherwise the reduction of the response fetched from the package's URL |
| Npm.ToCheck | src/dependency/npm.rs:47-65 | fatal exactly when the text is not JSON or does not decode; otherwise every `dependencies` record precedes every `devDependencies` record, and a missing section adds nothing |
| Bower.ToCheck | src/dependency/bower.rs:23-41 | the same as npm's; the path argument plays no part |
| Bower.RegistryVersion | src/dependency/bower.rs:51-53 | never finds a version |
| Sorting.InsertionSortCorrect | src/main.rs:56-57 | the reference sort gives a result that is sorted by name, is a permutation of its input, and keeps the input order among equal names |
| Sorting.StableSortUnique | src/main.rs:56-57 | two sequences that are sorted by name and agree on the entries of every name are equal, so the stable sort's result is determined |
| Sorting.InsertSorted | src/main.rs:56-57 | inserting an entry into a sequence sorted by name keeps it sorted |
| Sorting.InsertMultiset | src/main.rs:56-57 | inserting adds exactly that entry |
| Sorting.InsertStable | src/main.rs:56-57 | an inserted entry comes after every entry of the same name already there |
| Sorting.InsertAt | src/main.rs:56-57 | the insertion puts the entry right after the last entry whose name is not greater |
| Sorting.SortByName | src/main.rs:56-57 | the in-place sort leaves the array holding the reference sort of its old contents |
| Checker.GetPublishedVersions | src/main.rs:21-36 | a `(name, v)` pair is in the result exactly when some dependency with that name looked up `Some(v)`; the result is no longer than the input |
| Checker.GetPublishedVersionsAppend | src/main.rs:32-35 | the fan-in keeps input order: it distributes over concatenation |
| Checker.GetPublishedVersionsAllFound | src/main.rs:32-35 | when every lookup succeeds, pair `i` belongs to dependency `i` |
| Checker.GetPublishedVersionsNoneFound | src/main.rs:32-35 | when every lookup fails, nothing is published |
| Checker.FindPublished | src/main.rs:43 | `None` exactly when no pair has the name; otherwise the version of the first pair with the name |
| Checker.Outdated | src/main.rs:42-47 | an entry is outdated exactly when its dependency is in the input, the first published pair of its name gives its version, and the requirement does not match it |
| Checker.UpToDate | src/main.rs:49-54 | an entry is up to date exactly when its dependency is in the input, the first published pair of its name gives its version, and the requirement matches it |
| Checker.OutdatedAppend | src/main.rs:42-47 | the outdated filter keeps input order: it distributes over concatenation |
| Checker.UpToDateAppend | src/main.rs:49-54 | the up-to-date filter keeps input order: it distributes over concatenation |
| Checker.RepeatedDependencyClassifiedTwice | src/main.rs:42-54 | a dependency listed twice is classified twice, with the same version, in the same group |
| Checker.PartitionExact | src/main.rs:42-54 | counted with repetitions, the two partitions together are exactly the dependencies that have a published pair, each with that pair's version |
| Checker.ResolvedMembers | src/main.rs:43-45 | a dependency is among the classified entries exactly when it is in the input and some published pair has its name |
| Checker.RegistryLookupsByName | src/dependency/composer.rs:80-87 | the lookups of this file, of src/dependency.rs:95-106, src/dependency/npm.rs:75-82 and src/dependency/bower.rs:51-53 each depend, in the model, on the dependency's name only; this holds because `fetch` is a function of the URL, so repeated requests for one URL get the same response |
| Checker.ClassifiedIffFound | src/main.rs:24-54 | when lookups depend on the name only, a dependency is classified exactly when its own lookup succeeded, and against that version |
| Checker.FilterDependencies | src/main.rs:38-60 | returns `(outdated, up_to_date)`, each the stable name sort of its partition: sorted, a permutation, same order among equal names |
| Checker.Line | src/main.rs:69 | a report line is the name, `: `, the shown version, the verdict (` matches ` here, ` doesn't match ` at src/main.rs:77) and the shown requirement: in order, the name, `: `, the shown version, the verdict and the shown requirement, each at its own position |
| Checker.SectionShape | src/main.rs:65-79 | an empty group prints nothing; otherwise an empty line, then one line per entry in order |
| Checker.EmitSection | src/main.rs:65-79 | one `if`/`for` block of `out` appends to the lines so far exactly that group's section |
| Checker.Out | src/main.rs:62-80 | the up-to-date group is printed before the outdated group, with " matches " and " doesn't match " lines respectively |
| Checker.Check | src/main.rs:82-84 | the report is the sorted up-to-date group, then the sorted outdated group, of the published versions |
| Checker.BowerReportEmpty | src/dependency/bower.rs:51-53 | Bower dependencies never reach either group |
| Checker.Dispatch | src/main.rs:100-116 | an ecosystem is chosen exactly for the names `Cargo.toml`, `composer.json`, `Puppetfile` and `package.json`, each selecting its own parser (Cargo, Composer, Puppet, npm); every other name, or no name, is unrecognised |
| Checker.DispatchMessage | src/main.rs:113-115 | an unrecognised name prints "File type not recognized"; a recognised one prints nothing from the `match` itself |

## Left out

- HTTP requests in every `registry_version`: network I/O. A lookup is the function parameter `fetch` or `registryVersion`. The `fail!` and `unwrap` on a failed request are not modelled. One failed lookup is meant to leave the others unaffected, but in the code a failed request panics inside its spawned task (`send().unwrap()`, `read_to_string().unwrap()`), and `ftr.get()` at src/main.rs:32 passes that panic on to the main thread, so the whole run stops. In the model every lookup returns an `Option`.
- Differing answers for one URL: `fetch` is a function of the URL, so the model assumes the registry gives the same answer to every request for one URL within a run. In the code each dependency sends its own request (src/main.rs:24-29); when two same-named dependencies get different answers, every one of them is classified against the first successful answer, as `Checker.Check` does, but `Checker.RegistryLookupsByName` no longer applies.
- `Future::spawn` in `get_published_versions`: concurrency. The futures are joined in input order, so the model is a sequential pass over the dependencies.
- The rest of `main`: argument iteration, reading the file, and the `File to check:` lines. `Path::file_name` is not modelled either; `Checker.Dispatch` takes its result, and `Checker.DispatchMessage` gives the "File type not recognized" line.
- `println!` output: `out` returns its lines, and the "ignored (could not parse …)" messages of `to_check` are not modelled.
- `src/dependency/cargo.rs` and `src/dependency/puppet.rs`: thin wrappers over the `cargo` and `puppetfile` crates. `Checker.Dispatch` only names their ecosystems.
- `src/dependency/mod.rs`: a trait with no logic. Its methods disagree with their call sites: some take a path argument, and `version_req` returns an `Option` that is always `Some`. The model uses the uniform record `Dependency(name, req)`.
- The semver grammar, `VersionReq::matches` and the `Display` formats: library internals, kept abstract in `Semver.Lib`. Build metadata is not part of `Version`.
- JSON text parsing: library internals. Numbers carry no value because the checker never reads one.
- The order of `HashMap` iteration: Rust does not specify it, so `Keys.HashOrder` is an arbitrary fixed order. `Npm.ToCheck` and `Bower.ToCheck` state what is in each section, not the order within it.
- Bower in `main`: no file name selects Bower, so its `to_check` is never called from `main`.
- Exclusion of `php` and `ext-` packages, exclusion of pre-releases from the maximum, and stripping a single `v`: the source does none of these, so the model does not either.
