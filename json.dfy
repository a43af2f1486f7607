/** rustc-serialize's `Json` value, as far as the checker inspects it. Parsing JSON text is
    not modelled: the model receives `Some(json)` for text that parsed and `None` otherwise. */
module Json {
  import opened Wrappers

  /** Numbers carry no payload: the checker never reads one. */
  datatype Json =
    | Object(members: map<string, Json>)
    | Array(items: seq<Json>)
    | String(text: string)
    | Number
    | Boolean(b: bool)
    | Null

  /** `Json::find`: the member `key` of an object; `None` for a missing key or a non-object. */
  function Find(j: Json, key: string): (r: Option<Json>)
    ensures r.Some? <==> j.Object? && key in j.members
    ensures r.Some? ==> r.value == j.members[key]
  {
    if j.Object? && key in j.members then Some(j.members[key]) else None
  }

  /** `Json::find_path`: `find` applied key after key. */
  function FindPath(j: Json, path: seq<string>): (r: Option<Json>)
    ensures path == [] ==> r == Some(j)
    ensures path != [] && r.Some? ==> j.Object? && path[0] in j.members
    ensures |path| == 1 ==> r == Find(j, path[0])
  {
    if path == [] then Some(j)
    else match Find(j, path[0])
      case None => None
      case Some(child) => FindPath(child, path[1..])
  }

  /** `Json::as_object`. */
  function AsObject(j: Json): (r: Option<map<string, Json>>)
    ensures r.Some? <==> j.Object?
    ensures r.Some? ==> j == Object(r.value)
  {
    if j.Object? then Some(j.members) else None
  }

  /** Looking up a two-key path succeeds exactly when both levels are objects holding the keys. */
  lemma FindPath2(j: Json, a: string, b: string)
    ensures FindPath(j, [a, b]).Some? <==>
      j.Object? && a in j.members && j.members[a].Object? && b in j.members[a].members
    ensures FindPath(j, [a, b]).Some? ==> FindPath(j, [a, b]).value == j.members[a].members[b]
  {
    assert [a, b][1..] == [b];
    assert [b][1..] == [];
    match Find(j, a)
    case None =>
    case Some(child) =>
      assert FindPath(j, [a, b]) == FindPath(child, [b]);
      match Find(child, b)
      case None =>
      case Some(grandchild) =>
        assert FindPath(child, [b]) == FindPath(grandchild, []);
  }
}
