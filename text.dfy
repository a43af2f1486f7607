/** String helpers the checker relies on: Rust's `Ord` on `String` and
    `trim_left_matches('v')`. */
module Text {

  /** Rust compares `String`s byte-wise on their UTF-8 encoding, which orders strings
      exactly as the lexicographic order on their Unicode scalar values. */
  predicate Less(a: string, b: string): (r: bool)
    ensures |a| < |b| && a == b[..|a|] ==> r
    ensures r ==> a != b
  {
    if a == [] then b != []
    else if b == [] then false
    else a[0] < b[0] || (a[0] == b[0] && Less(a[1..], b[1..]))
  }

  /** Away from prefixes, the first position where two strings differ decides the order. */
  lemma {:induction false} LessAtFirstDifference(a: string, b: string, i: nat)
    requires i < |a| && i < |b| && a[..i] == b[..i] && a[i] != b[i]
    ensures Less(a, b) <==> a[i] < b[i]
  {
    if i > 0 {
      assert a[0] == a[..i][0] == b[..i][0] == b[0];
      assert a[1..][..i - 1] == a[..i][1..] == b[..i][1..] == b[1..][..i - 1];
      LessAtFirstDifference(a[1..], b[1..], i - 1);
    }
  }

  predicate LessEq(a: string, b: string)
  {
    a == b || Less(a, b)
  }

  lemma {:induction false} LessIrreflexive(a: string)
    ensures !Less(a, a)
  {
    if a != [] {
      LessIrreflexive(a[1..]);
    }
  }

  lemma {:induction false} LessAsymmetric(a: string, b: string)
    requires Less(a, b)
    ensures !Less(b, a)
  {
    if a != [] && b != [] && a[0] == b[0] {
      LessAsymmetric(a[1..], b[1..]);
    }
  }

  lemma {:induction false} LessTransitive(a: string, b: string, c: string)
    requires Less(a, b) && Less(b, c)
    ensures Less(a, c)
  {
    if a != [] && a[0] == b[0] && b[0] == c[0] {
      LessTransitive(a[1..], b[1..], c[1..]);
    }
  }

  lemma {:induction false} LessTotal(a: string, b: string)
    ensures Less(a, b) || a == b || Less(b, a)
  {
    if a != [] && b != [] && a[0] == b[0] {
      LessTotal(a[1..], b[1..]);
      if a[1..] == b[1..] {
        assert a == [a[0]] + a[1..] && b == [b[0]] + b[1..];
      }
    }
  }

  lemma LessEqTransitive(a: string, b: string, c: string)
    requires LessEq(a, b) && LessEq(b, c)
    ensures LessEq(a, c)
  {
    if a != b && b != c {
      LessTransitive(a, b, c);
    }
  }

  lemma LessEqAntisymmetric(a: string, b: string)
    requires LessEq(a, b) && LessEq(b, a)
    ensures a == b
  {
    if a != b {
      LessAsymmetric(a, b);
    }
  }

  /** `str::trim_left_matches('v')`: removes EVERY leading `v`, not just one. */
  function TrimLeftV(s: string): (r: string)
    ensures |r| <= |s| && r == s[|s| - |r|..]
    ensures r == [] || r[0] != 'v'
    ensures forall i :: 0 <= i < |s| - |r| ==> s[i] == 'v'
  {
    if s != [] && s[0] == 'v' then TrimLeftV(s[1..]) else s
  }

  lemma TrimLeftVIdempotent(s: string)
    ensures TrimLeftV(TrimLeftV(s)) == TrimLeftV(s)
  {
    var r := TrimLeftV(s);
    assert r == [] || r[0] != 'v';
  }

  function RepeatV(n: nat): (r: string)
    ensures |r| == n && forall i :: 0 <= i < n ==> r[i] == 'v'
  {
    if n == 0 then [] else "v" + RepeatV(n - 1)
  }

  /** Prefixing any number of `v`s does not change what is left after trimming. */
  lemma {:induction false} TrimLeftVPrefix(n: nat, s: string)
    ensures TrimLeftV(RepeatV(n) + s) == TrimLeftV(s)
  {
    if n == 0 {
      assert RepeatV(n) + s == s;
    } else {
      var t := RepeatV(n) + s;
      assert t[0] == 'v' && t[1..] == RepeatV(n - 1) + s;
      TrimLeftVPrefix(n - 1, s);
    }
  }
}
