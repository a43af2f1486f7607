/** The part of the `semver` crate the checker uses. `Version` is a record with the
    crate's precedence order; `VersionReq`, the two parsers and `matches` stay abstract
    and are handed to the model as a `Lib` value. */
module Semver {
  import opened Wrappers
  import Text

  datatype Identifier = Numeric(n: nat) | AlphaNumeric(s: string)

  /** `semver::Version` without its build metadata, which its order ignores. */
  datatype Version = Version(major: nat, minor: nat, patch: nat, pre: seq<Identifier>)

  /** `semver::VersionReq`: a parsed requirement, left uninterpreted. */
  type VersionReq(==, !new)

  /** The library operations the checker calls: `Version::parse`, `VersionReq::parse`,
      `VersionReq::matches`, and `Display` for `Version` and for `VersionReq`. */
  datatype Lib = Lib(
    parseVersion: string -> Option<Version>,
    parseReq: string -> Option<VersionReq>,
    matches: (VersionReq, Version) -> bool,
    showVersion: Version -> string,
    showReq: VersionReq -> string)

  /** The derived order on `Identifier`: numeric identifiers sort before alphanumeric ones. */
  predicate IdentifierLess(a: Identifier, b: Identifier)
  {
    match (a, b)
    case (Numeric(x), Numeric(y)) => x < y
    case (Numeric(_), AlphaNumeric(_)) => true
    case (AlphaNumeric(_), Numeric(_)) => false
    case (AlphaNumeric(x), AlphaNumeric(y)) => Text.Less(x, y)
  }

  /** `Vec<Identifier>`'s lexicographic order (a proper prefix is smaller). */
  predicate IdentifiersLess(a: seq<Identifier>, b: seq<Identifier>)
  {
    if a == [] then b != []
    else if b == [] then false
    else IdentifierLess(a[0], b[0]) || (a[0] == b[0] && IdentifiersLess(a[1..], b[1..]))
  }

  /** Pre-release order of `Version::cmp`: a version without pre-release identifiers is
      greater than any with them; otherwise the identifier lists compare. */
  predicate PreLess(a: seq<Identifier>, b: seq<Identifier>)
  {
    if a == [] then false
    else if b == [] then true
    else IdentifiersLess(a, b)
  }

  /** `Version::cmp`: major, minor and patch decide first; on an equal core a pre-release
      is below the release, and two pre-releases compare by their identifiers. */
  predicate Less(a: Version, b: Version): (r: bool)
    ensures r ==> a.major <= b.major
    ensures a.major < b.major ==> r
    ensures a.pre == [] && a.major == b.major && a.minor == b.minor && a.patch == b.patch ==> !r
    ensures a.pre != [] && b.pre == [] && a.major == b.major && a.minor == b.minor && a.patch == b.patch ==> r
  {
    || a.major < b.major
    || (a.major == b.major && a.minor < b.minor)
    || (a.major == b.major && a.minor == b.minor && a.patch < b.patch)
    || (a.major == b.major && a.minor == b.minor && a.patch == b.patch && PreLess(a.pre, b.pre))
  }

  predicate LessEq(a: Version, b: Version)
  {
    a == b || Less(a, b)
  }

  lemma IdentifierLessTransitive(a: Identifier, b: Identifier, c: Identifier)
    requires IdentifierLess(a, b) && IdentifierLess(b, c)
    ensures IdentifierLess(a, c)
  {
    if a.AlphaNumeric? && c.AlphaNumeric? {
      Text.LessTransitive(a.s, b.s, c.s);
    }
  }

  lemma IdentifierLessTotal(a: Identifier, b: Identifier)
    ensures IdentifierLess(a, b) || a == b || IdentifierLess(b, a)
  {
    if a.AlphaNumeric? && b.AlphaNumeric? {
      Text.LessTotal(a.s, b.s);
    }
  }

  lemma IdentifierLessIrreflexive(a: Identifier)
    ensures !IdentifierLess(a, a)
  {
    if a.AlphaNumeric? {
      Text.LessIrreflexive(a.s);
    }
  }

  lemma {:induction false} IdentifiersLessIrreflexive(a: seq<Identifier>)
    ensures !IdentifiersLess(a, a)
  {
    if a != [] {
      IdentifierLessIrreflexive(a[0]);
      IdentifiersLessIrreflexive(a[1..]);
    }
  }

  lemma {:induction false} IdentifiersLessTransitive(a: seq<Identifier>, b: seq<Identifier>, c: seq<Identifier>)
    requires IdentifiersLess(a, b) && IdentifiersLess(b, c)
    ensures IdentifiersLess(a, c)
  {
    if a != [] {
      if IdentifierLess(a[0], b[0]) && IdentifierLess(b[0], c[0]) {
        IdentifierLessTransitive(a[0], b[0], c[0]);
      } else if a[0] == b[0] && b[0] == c[0] {
        IdentifiersLessTransitive(a[1..], b[1..], c[1..]);
      }
    }
  }

  lemma {:induction false} IdentifiersLessTotal(a: seq<Identifier>, b: seq<Identifier>)
    ensures IdentifiersLess(a, b) || a == b || IdentifiersLess(b, a)
  {
    if a != [] && b != [] {
      IdentifierLessTotal(a[0], b[0]);
      if a[0] == b[0] {
        IdentifiersLessTotal(a[1..], b[1..]);
        if a[1..] == b[1..] {
          assert a == [a[0]] + a[1..] && b == [b[0]] + b[1..];
        }
      }
    }
  }

  lemma LessIrreflexive(a: Version)
    ensures !Less(a, a)
  {
    IdentifiersLessIrreflexive(a.pre);
  }

  lemma LessTransitive(a: Version, b: Version, c: Version)
    requires Less(a, b) && Less(b, c)
    ensures Less(a, c)
  {
    if a.major == b.major == c.major && a.minor == b.minor == c.minor && a.patch == b.patch == c.patch {
      if a.pre != [] && b.pre != [] && c.pre != [] {
        IdentifiersLessTransitive(a.pre, b.pre, c.pre);
      }
    }
  }

  lemma LessTotal(a: Version, b: Version)
    ensures Less(a, b) || a == b || Less(b, a)
  {
    IdentifiersLessTotal(a.pre, b.pre);
  }

  lemma LessEqTransitive(a: Version, b: Version, c: Version)
    requires LessEq(a, b) && LessEq(b, c)
    ensures LessEq(a, c)
  {
    if a != b && b != c {
      LessTransitive(a, b, c);
    }
  }

  lemma LessEqAntisymmetric(a: Version, b: Version)
    requires LessEq(a, b) && LessEq(b, a)
    ensures a == b
  {
    if a != b {
      LessTransitive(a, b, a);
      LessIrreflexive(a);
    }
  }

  /** `std::cmp::max`: the second argument unless the first is strictly greater. */
  function Max(a: Version, b: Version): (r: Version)
    ensures r == a || r == b
    ensures LessEq(a, r) && LessEq(b, r)
  {
    LessTotal(a, b);
    if LessEq(a, b) then b else a
  }
}
