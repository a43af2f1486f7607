/** Iteration orders of the two Rust map types the manifests are decoded into:
    `BTreeMap` (and rustc-serialize's `Json::Object`) iterate in ascending key order;
    `HashMap` iterates in an order that is fixed for one map but not specified. */
module Keys {
  import opened Text

  predicate StrictlyAscending(s: seq<string>)
  {
    forall i, j :: 0 <= i < j < |s| ==> Less(s[i], s[j])
  }

  predicate Distinct<T(==)>(s: seq<T>)
  {
    forall i, j :: 0 <= i < j < |s| ==> s[i] != s[j]
  }

  predicate IsLeast(k: string, s: set<string>)
  {
    k in s && forall j :: j in s ==> LessEq(k, j)
  }

  lemma {:induction false} LeastExists(s: set<string>)
    requires s != {}
    ensures exists k :: IsLeast(k, s)
    decreases |s|
  {
    var x :| x in s;
    if s == {x} {
      assert IsLeast(x, s);
    } else {
      LeastExists(s - {x});
      var k :| IsLeast(k, s - {x});
      LessTotal(k, x);
      if Less(x, k) {
        forall j | j in s ensures LessEq(x, j) {
          if j != x { LessEqTransitive(x, k, j); }
        }
        assert IsLeast(x, s);
      } else {
        assert IsLeast(k, s);
      }
    }
  }

  lemma LeastUnique(s: set<string>, a: string, b: string)
    requires IsLeast(a, s) && IsLeast(b, s)
    ensures a == b
  {
    LessEqAntisymmetric(a, b);
  }

  /** The keys of a `BTreeMap` in iteration order. */
  function SortedKeys(s: set<string>): (r: seq<string>)
    ensures |r| == |s|
    ensures forall k :: k in r <==> k in s
    ensures StrictlyAscending(r)
    decreases |s|
  {
    if s == {} then []
    else
      LeastExists(s);
      assert forall a, b :: IsLeast(a, s) && IsLeast(b, s) ==> a == b by {
        forall a, b | IsLeast(a, s) && IsLeast(b, s) ensures a == b { LeastUnique(s, a, b); }
      }
      var k :| IsLeast(k, s);
      var rest := SortedKeys(s - {k});
      assert forall j :: j in rest ==> Less(k, j);
      [k] + rest
  }

  /** The keys of a `HashMap` in iteration order: some enumeration of them, each once,
      in an order the model leaves unspecified. */
  ghost function HashOrder(s: set<string>): (r: seq<string>)
    ensures |r| == |s|
    ensures forall k :: k in r <==> k in s
    ensures Distinct(r)
    decreases |s|
  {
    if s == {} then []
    else
      var k :| k in s;
      [k] + HashOrder(s - {k})
  }
}
