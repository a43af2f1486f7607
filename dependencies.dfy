/** What the ecosystem modules share: the uniform dependency record (the `Dependency`
    trait's `name` and `version_req`), map iteration, the `filter_map` that turns manifest
    entries into records, the `fold` that reduces registry keys to a maximum, and the
    derived decoder of the npm and Bower manifest structs. */
module Dependencies {
  import opened Wrappers
  import opened Semver
  import opened Json
  import Text
  import Keys

  /** One dependency to check: a package name and its parsed requirement. */
  datatype Dependency = Dependency(name: string, req: VersionReq)

  /** Why `to_check` panics on a manifest. */
  datatype Fatal =
    | MalformedJson                      // the manifest text is not JSON
    | SectionNotObject(section: string)  // `as_object().unwrap()` on a section that is present
    | DecodeFailed                       // the JSON does not decode into the manifest struct

  // ----- Map iteration -----

  /** The `(key, value)` pairs of `m` visited in the order `keys`. */
  function Members<V>(m: map<string, V>, keys: seq<string>): seq<(string, V)>
    requires forall i :: 0 <= i < |keys| ==> keys[i] in m
  {
    seq(|keys|, i requires 0 <= i < |keys| => (keys[i], m[keys[i]]))
  }

  /** Iteration of a `BTreeMap` or `Json::Object`: ascending by key. */
  function SortedMembers<V(==, !new)>(m: map<string, V>): (r: seq<(string, V)>)
    ensures forall k, v :: (k, v) in r <==> k in m && m[k] == v
    ensures Keys.StrictlyAscending(Names(r))
  {
    var keys := Keys.SortedKeys(m.Keys);
    var r := Members(m, keys);
    assert Names(r) == keys;
    forall k, v | k in m && m[k] == v ensures (k, v) in r {
      var i :| 0 <= i < |keys| && keys[i] == k;
      assert r[i] == (k, v);
    }
    r
  }

  /** Iteration of a `HashMap`: each member once, in an unspecified order. */
  ghost function HashMembers<V(!new)>(m: map<string, V>): (r: seq<(string, V)>)
    ensures forall k, v :: (k, v) in r <==> k in m && m[k] == v
    ensures Keys.Distinct(Names(r))
  {
    var keys := Keys.HashOrder(m.Keys);
    var r := Members(m, keys);
    assert Names(r) == keys;
    forall k, v | k in m && m[k] == v ensures (k, v) in r {
      var i :| 0 <= i < |keys| && keys[i] == k;
      assert r[i] == (k, v);
    }
    r
  }

  function Names<V>(entries: seq<(string, V)>): (r: seq<string>)
    ensures |r| == |entries| && forall i :: 0 <= i < |r| ==> r[i] == entries[i].0
  {
    seq(|entries|, i requires 0 <= i < |entries| => entries[i].0)
  }

  function DependencyNames(ds: seq<Dependency>): (r: seq<string>)
    ensures |r| == |ds| && forall i :: 0 <= i < |r| ==> r[i] == ds[i].name
  {
    seq(|ds|, i requires 0 <= i < |ds| => ds[i].name)
  }

  // ----- From manifest entries to dependency records -----

  /** The Composer pipeline's first `map`: members whose value is a JSON string keep
      that string; all others are dropped. */
  function StringValues(entries: seq<(string, Json)>): (r: seq<(string, string)>)
    ensures forall k, s :: (k, s) in r <==> (k, String(s)) in entries
  {
    if entries == [] then []
    else
      var rest := StringValues(entries[1..]);
      assert forall k, s :: (k, String(s)) in entries <==>
        (entries[0] == (k, String(s)) || (k, String(s)) in entries[1..]);
      match entries[0].1
      case String(s) => [(entries[0].0, s)] + rest
      case _ => rest
  }

  /** Dropping members keeps the order of the rest, so ascending keys stay ascending. */
  lemma {:induction false} StringValuesAscending(entries: seq<(string, Json)>)
    requires Keys.StrictlyAscending(Names(entries))
    ensures Keys.StrictlyAscending(Names(StringValues(entries)))
  {
    if entries != [] {
      AscendingTail(entries);
      StringValuesAscending(entries[1..]);
      var rest := StringValues(entries[1..]);
      if entries[0].1.String? {
        forall j | 0 <= j < |rest| ensures Text.Less(entries[0].0, rest[j].0) {
          assert rest[j] in rest;
          AscendingHead(entries, (rest[j].0, String(rest[j].1)));
        }
        AscendingCons((entries[0].0, entries[0].1.text), rest);
      }
    }
  }

  /** A key below every key of an ascending sequence can go in front of it. */
  lemma AscendingCons<V>(p: (string, V), rest: seq<(string, V)>)
    requires Keys.StrictlyAscending(Names(rest))
    requires forall j :: 0 <= j < |rest| ==> Text.Less(p.0, rest[j].0)
    ensures Keys.StrictlyAscending(Names([p] + rest))
  {
    var names := Names([p] + rest);
    forall i, j | 0 <= i < j < |names| ensures Text.Less(names[i], names[j]) {
      assert names[j] == Names(rest)[j - 1];
      if i > 0 {
        assert names[i] == Names(rest)[i - 1];
      }
    }
  }

  /** The members after the first of an ascending sequence are still ascending. */
  lemma AscendingTail<V>(entries: seq<(string, V)>)
    requires entries != [] && Keys.StrictlyAscending(Names(entries))
    ensures Keys.StrictlyAscending(Names(entries[1..]))
  {
    forall i, j | 0 <= i < j < |entries| - 1
      ensures Text.Less(Names(entries[1..])[i], Names(entries[1..])[j])
    {
      assert Names(entries)[i + 1] == Names(entries[1..])[i];
      assert Names(entries)[j + 1] == Names(entries[1..])[j];
    }
  }

  /** The first member of an ascending sequence has a smaller key than every later one. */
  lemma AscendingHead<V>(entries: seq<(string, V)>, p: (string, V))
    requires entries != [] && Keys.StrictlyAscending(Names(entries))
    requires p in entries[1..]
    ensures Text.Less(entries[0].0, p.0)
  {
    var m :| 0 <= m < |entries[1..]| && entries[1..][m] == p;
    assert Names(entries)[0] == entries[0].0 && Names(entries)[m + 1] == p.0;
  }

  /** `d` is the record built from `entry` once its requirement string is prepared and parsed. */
  predicate Accepts(lib: Lib, prepare: string -> string, entry: (string, string), d: Dependency)
  {
    d.name == entry.0 && lib.parseReq(prepare(entry.1)) == Some(d.req)
  }

  /** The `filter_map` of every `to_check`: parse each prepared requirement string, keep
      the entries that parse (with their original name) and drop the others, in order. */
  function ParseRequirements(lib: Lib, prepare: string -> string, entries: seq<(string, string)>): (r: seq<Dependency>)
    ensures |r| <= |entries|
    ensures forall d :: d in r <==> exists e :: e in entries && Accepts(lib, prepare, e, d)
  {
    if entries == [] then []
    else
      var rest := ParseRequirements(lib, prepare, entries[1..]);
      assert forall e :: e in entries <==> e == entries[0] || e in entries[1..];
      match lib.parseReq(prepare(entries[0].1))
      case Some(vr) =>
        var head := Dependency(entries[0].0, vr);
        var r := [head] + rest;
        assert forall d :: d in r <==> exists e :: e in entries && Accepts(lib, prepare, e, d) by {
          forall d ensures d in r <==> exists e :: e in entries && Accepts(lib, prepare, e, d) {
            if d == head {
              assert entries[0] in entries && Accepts(lib, prepare, entries[0], d);
            } else if exists e :: e in entries && Accepts(lib, prepare, e, d) {
              var e :| e in entries && Accepts(lib, prepare, e, d);
              assert e != entries[0];
              assert e in entries[1..];
            }
          }
        }
        r
      case None => rest
  }

  /** Filtering distributes over `chain`: the runtime section's records come first. */
  lemma {:induction false} ParseRequirementsAppend(lib: Lib, prepare: string -> string, a: seq<(string, string)>, b: seq<(string, string)>)
    ensures ParseRequirements(lib, prepare, a + b) == ParseRequirements(lib, prepare, a) + ParseRequirements(lib, prepare, b)
  {
    if a == [] {
      assert a + b == b;
    } else {
      assert (a + b)[0] == a[0] && (a + b)[1..] == a[1..] + b;
      ParseRequirementsAppend(lib, prepare, a[1..], b);
    }
  }

  /** Filtering keeps the order of the entries, so ascending names stay ascending. */
  lemma {:induction false} ParseRequirementsAscending(lib: Lib, prepare: string -> string, entries: seq<(string, string)>)
    requires Keys.StrictlyAscending(Names(entries))
    ensures Keys.StrictlyAscending(DependencyNames(ParseRequirements(lib, prepare, entries)))
  {
    if entries != [] {
      var tail := entries[1..];
      AscendingTail(entries);
      ParseRequirementsAscending(lib, prepare, tail);
      var rest := ParseRequirements(lib, prepare, tail);
      forall j | 0 <= j < |rest| ensures Text.Less(entries[0].0, rest[j].name) {
        assert rest[j] in rest;
        var e :| e in tail && Accepts(lib, prepare, e, rest[j]);
        AscendingHead(entries, e);
      }
    }
  }

  /** Filtering keeps distinct names distinct. */
  lemma {:induction false} ParseRequirementsDistinct(lib: Lib, prepare: string -> string, entries: seq<(string, string)>)
    requires Keys.Distinct(Names(entries))
    ensures Keys.Distinct(DependencyNames(ParseRequirements(lib, prepare, entries)))
  {
    if entries != [] {
      var tail := entries[1..];
      assert Keys.Distinct(Names(tail)) by {
        forall i, j | 0 <= i < j < |tail| ensures Names(tail)[i] != Names(tail)[j] {
          assert Names(entries)[i + 1] == Names(tail)[i] && Names(entries)[j + 1] == Names(tail)[j];
        }
      }
      ParseRequirementsDistinct(lib, prepare, tail);
      var rest := ParseRequirements(lib, prepare, tail);
      forall j | 0 <= j < |rest| ensures entries[0].0 != rest[j].name {
        assert rest[j] in rest;
        var e :| e in tail && Accepts(lib, prepare, e, rest[j]);
        var m :| 0 <= m < |tail| && tail[m] == e;
        assert Names(entries)[0] == entries[0].0 && Names(entries)[m + 1] == e.0;
      }
    }
  }

  lemma {:induction false} StringValuesAppend(a: seq<(string, Json)>, b: seq<(string, Json)>)
    ensures StringValues(a + b) == StringValues(a) + StringValues(b)
  {
    if a == [] {
      assert a + b == b;
    } else {
      assert (a + b)[0] == a[0] && (a + b)[1..] == a[1..] + b;
      StringValuesAppend(a[1..], b);
    }
  }

  // ----- Manifest sections of a JSON object (Composer) -----

  /** A section that is present but not an object: `as_object().unwrap()` panics on it. */
  predicate BadSection(manifest: Json, key: string): (r: bool)
    ensures r <==> manifest.Object? && key in manifest.members && !manifest.members[key].Object?
  {
    Find(manifest, key).Some? && !Find(manifest, key).value.Object?
  }

  /** The section `key` as a map; a missing section (or a non-object manifest) is empty. */
  function ObjectSection(manifest: Json, key: string): (r: map<string, Json>)
    ensures Find(manifest, key).None? ==> r == map[]
    ensures !BadSection(manifest, key) && Find(manifest, key).Some? ==> Find(manifest, key) == Some(Object(r))
  {
    match Find(manifest, key)
    case Some(Object(members)) => members
    case _ => map[]
  }

  /** The records one object section contributes, in ascending name order: each
      member whose value is a string whose prepared form parses as a requirement. */
  function ObjectSectionDependencies(lib: Lib, prepare: string -> string, section: map<string, Json>): (r: seq<Dependency>)
    ensures forall d :: d in r <==>
      d.name in section && section[d.name].String? && lib.parseReq(prepare(section[d.name].text)) == Some(d.req)
    ensures Keys.StrictlyAscending(DependencyNames(r))
  {
    var members := SortedMembers(section);
    var strings := StringValues(members);
    StringValuesAscending(members);
    var r := ParseRequirements(lib, prepare, strings);
    ParseRequirementsAscending(lib, prepare, strings);
    assert forall d :: d in r <==>
      d.name in section && section[d.name].String? && lib.parseReq(prepare(section[d.name].text)) == Some(d.req) by {
      forall d ensures d in r <==>
        d.name in section && section[d.name].String? && lib.parseReq(prepare(section[d.name].text)) == Some(d.req)
      {
        if d.name in section && section[d.name].String? && lib.parseReq(prepare(section[d.name].text)) == Some(d.req) {
          var e := (d.name, section[d.name].text);
          assert (d.name, section[d.name]) in members;
          assert e in strings && Accepts(lib, prepare, e, d);
        }
      }
    }
    r
  }

  /** The records one decoded `HashMap<String, String>` section contributes: each
      entry whose prepared requirement parses, every name at most once, in hash order. */
  ghost function HashSectionDependencies(lib: Lib, prepare: string -> string, section: map<string, string>): (r: seq<Dependency>)
    ensures forall d :: d in r <==> d.name in section && lib.parseReq(prepare(section[d.name])) == Some(d.req)
    ensures Keys.Distinct(DependencyNames(r))
  {
    var members := HashMembers(section);
    var r := ParseRequirements(lib, prepare, members);
    ParseRequirementsDistinct(lib, prepare, members);
    assert forall d :: d in r <==> d.name in section && lib.parseReq(prepare(section[d.name])) == Some(d.req) by {
      forall d ensures d in r <==> d.name in section && lib.parseReq(prepare(section[d.name])) == Some(d.req) {
        if d.name in section && lib.parseReq(prepare(section[d.name])) == Some(d.req) {
          assert (d.name, section[d.name]) in members && Accepts(lib, prepare, (d.name, section[d.name]), d);
        }
      }
    }
    r
  }

  // ----- Reducing a registry's version keys -----

  /** The `fold` closure: `None` is the identity, two versions combine by `max`. */
  function Combine(a: Option<Version>, b: Option<Version>): (r: Option<Version>)
    ensures r.None? <==> a.None? && b.None?
    ensures r.Some? ==> r == a || r == b
    ensures r.Some? && a.Some? ==> LessEq(a.value, r.value)
    ensures r.Some? && b.Some? ==> LessEq(b.value, r.value)
  {
    match (a, b)
    case (None, _) => b
    case (Some(_), None) => a
    case (Some(x), Some(y)) => Some(Max(x, y))
  }

  /** `fold(acc, Combine)` over parsed keys: `None` only if nothing parsed; otherwise one
      of the parsed versions (or `acc`), at least as great as all of them. */
  function FoldMax(acc: Option<Version>, vs: seq<Option<Version>>): (r: Option<Version>)
    ensures r.None? <==> acc.None? && forall i :: 0 <= i < |vs| ==> vs[i].None?
    ensures r.Some? ==> r == acc || r in vs
    ensures r.Some? && acc.Some? ==> LessEq(acc.value, r.value)
    ensures r.Some? ==> forall i :: 0 <= i < |vs| && vs[i].Some? ==> LessEq(vs[i].value, r.value)
    decreases |vs|
  {
    if vs == [] then acc
    else
      var c := Combine(acc, vs[0]);
      var r := FoldMax(c, vs[1..]);
      assert forall i :: 1 <= i < |vs| ==> vs[i] == vs[1..][i - 1];
      assert r.Some? && acc.Some? ==> LessEq(acc.value, r.value) by {
        if r.Some? && acc.Some? { LessEqTransitive(acc.value, c.value, r.value); }
      }
      assert r.Some? && vs[0].Some? ==> LessEq(vs[0].value, r.value) by {
        if r.Some? && vs[0].Some? { LessEqTransitive(vs[0].value, c.value, r.value); }
      }
      r
  }

  /** The greatest version among the keys that `parse` accepts, by the registry fold. */
  function MaxParsedKey(parse: string -> Option<Version>, keys: seq<string>): (r: Option<Version>)
    ensures r.None? <==> forall k :: k in keys ==> parse(k).None?
    ensures r.Some? ==> exists k :: k in keys && parse(k) == r
    ensures r.Some? ==> forall k :: k in keys && parse(k).Some? ==> LessEq(parse(k).value, r.value)
  {
    var vs := seq(|keys|, i requires 0 <= i < |keys| => parse(keys[i]));
    var r := FoldMax(None, vs);
    forall k | k in keys ensures parse(k) in vs {
      var i :| 0 <= i < |keys| && keys[i] == k;
      assert vs[i] == parse(k);
    }
    assert r.Some? ==> exists k :: k in keys && parse(k) == r by {
      if r.Some? {
        var i :| 0 <= i < |vs| && vs[i] == r;
        assert keys[i] in keys && parse(keys[i]) == r;
      }
    }
    r
  }

  /** The greatest version among the keys of a JSON object (visited in ascending order). */
  function KeysMax(parse: string -> Option<Version>, versions: map<string, Json>): (r: Option<Version>)
    ensures r.None? <==> forall k :: k in versions ==> parse(k).None?
    ensures r.Some? ==> exists k :: k in versions && parse(k) == r
    ensures r.Some? ==> forall k :: k in versions && parse(k).Some? ==> LessEq(parse(k).value, r.value)
  {
    MaxParsedKey(parse, Keys.SortedKeys(versions.Keys))
  }

  // ----- The derived decoder of the npm and Bower manifest structs -----

  /** `struct { dependencies: Option<HashMap<String, String>>, devDependencies: ... }`,
      the shape of both `PackageJson` and `BowerJson`. */
  datatype Sections = Sections(dependencies: Option<map<string, string>>, devDependencies: Option<map<string, string>>)

  predicate IsStringMap(m: map<string, Json>)
  {
    forall k :: k in m ==> m[k].String?
  }

  /** Decoding one `Option<HashMap<String, String>>` field: a missing field or `null` is
      `None`; an object whose values are all strings is `Some`; anything else fails. */
  function DecodeStringMap(field: Option<Json>): (r: Result<Option<map<string, string>>, Fatal>)
    ensures r.Success? <==>
      field.None? || field == Some(Null) || (field.value.Object? && IsStringMap(field.value.members))
    ensures r.Success? && r.value.Some? ==>
      field.Some? && field.value.Object? && r.value.value.Keys == field.value.members.Keys &&
      forall k :: k in r.value.value ==> field.value.members[k] == String(r.value.value[k])
    ensures field.None? || field == Some(Null) ==> r == Success(None)
    ensures r.Success? && field.Some? && field.value.Object? ==> r.value.Some?
  {
    match field
    case None => Success(None)
    case Some(Null) => Success(None)
    case Some(Object(m)) =>
      if IsStringMap(m) then Success(Some(map k | k in m :: m[k].text)) else Failure(DecodeFailed)
    case Some(_) => Failure(DecodeFailed)
  }

  /** `json::decode` of the manifest struct; the top-level value must be an object. */
  function DecodeSections(manifest: Json): (r: Result<Sections, Fatal>)
    ensures r.Success? <==>
      && manifest.Object?
      && DecodeStringMap(Find(manifest, "dependencies")).Success?
      && DecodeStringMap(Find(manifest, "devDependencies")).Success?
    ensures r.Success? ==> r.value == Sections(
      DecodeStringMap(Find(manifest, "dependencies")).value,
      DecodeStringMap(Find(manifest, "devDependencies")).value)
  {
    if !manifest.Object? then Failure(DecodeFailed)
    else
      match (DecodeStringMap(Find(manifest, "dependencies")), DecodeStringMap(Find(manifest, "devDependencies")))
      case (Success(deps), Success(devDeps)) => Success(Sections(deps, devDeps))
      case _ => Failure(DecodeFailed)
  }

  /** `unwrap_or(HashMap::new())`: a missing section contributes no entries. */
  function OrEmpty(m: Option<map<string, string>>): (r: map<string, string>)
    ensures m.None? ==> r == map[]
    ensures m.Some? ==> r == m.value
  {
    match m
    case None => map[]
    case Some(section) => section
  }
}
