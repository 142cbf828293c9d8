/** Semantic Versioning 2.0.0, the part the build script asks of the `semver`
    package: read a MAJOR.MINOR.PATCH string, increment one component
    (items 6 to 8) and write the result back. */
module SemVer {
  import opened Builtins

  datatype Version = Version(major: nat, minor: nat, patch: nat)

  /** The component a bump increments. */
  datatype Part = Major | Minor | Patch

  /** Item 2: a numeric identifier is a non-empty run of digits without a leading zero. */
  predicate IsNumericIdentifier(s: string) {
    |s| > 0 && AllDigits(s) && (s[0] == '0' ==> |s| == 1)
  }

  /** Where the version core ends: at the first '-' (pre-release, item 9) or
      '+' (build metadata, item 10), or at the end of the string. */
  function CoreEnd(s: string): (k: nat)
    ensures k <= |s|
    ensures forall i :: 0 <= i < k ==> s[i] != '-' && s[i] != '+'
    ensures k < |s| ==> s[k] == '-' || s[k] == '+'
  {
    if s == [] || s[0] == '-' || s[0] == '+' then 0 else CoreEnd(s[1..]) + 1
  }

  /** Reads a version; a pre-release or build suffix is accepted and dropped,
      since every bump discards it. */
  function Parse(s: string): Option<Version> {
    var fields := SplitOn(s[..CoreEnd(s)], '.');
    if |fields| == 3 && IsNumericIdentifier(fields[0]) && IsNumericIdentifier(fields[1])
       && IsNumericIdentifier(fields[2])
    then Some(Version(DigitsValue(fields[0]), DigitsValue(fields[1]), DigitsValue(fields[2])))
    else None
  }

  function Format(v: Version): string {
    Join([NatToDigits(v.major), NatToDigits(v.minor), NatToDigits(v.patch)], '.')
  }

  /** A version whose components are single digits is written as five characters. */
  lemma FormatSingleDigits(v: Version)
    requires v.major < 10 && v.minor < 10 && v.patch < 10
    ensures Format(v) == [DigitChar(v.major), '.', DigitChar(v.minor), '.', DigitChar(v.patch)]
  {
    FormatSpelledOut(v);
  }

  /** A formatted version is three digit strings separated by dots. */
  lemma FormatSpelledOut(v: Version)
    ensures Format(v) == NatToDigits(v.major) + "." + NatToDigits(v.minor) + "." + NatToDigits(v.patch)
    ensures forall i :: 0 <= i < |Format(v)| ==> IsDigit(Format(v)[i]) || Format(v)[i] == '.'
  {
    var a, b, c := NatToDigits(v.major), NatToDigits(v.minor), NatToDigits(v.patch);
    assert [a, b, c][1..] == [b, c];
    assert [b, c][1..] == [c];
    assert Join([b, c], '.') == b + "." + c;
  }

  lemma NoDotInDigits(s: string)
    requires AllDigits(s)
    ensures '.' !in s && '-' !in s && '+' !in s
  {
  }

  /** Writing a version and reading it back gives the same version. */
  lemma ParseFormat(v: Version)
    ensures Parse(Format(v)) == Some(v)
  {
    var a, b, c := NatToDigits(v.major), NatToDigits(v.minor), NatToDigits(v.patch);
    var s := Format(v);
    NoDotInDigits(a);
    NoDotInDigits(b);
    NoDotInDigits(c);
    FormatSpelledOut(v);
    assert CoreEnd(s) == |s|;
    assert s[..CoreEnd(s)] == s;
    SplitJoin([a, b, c], '.');
    DigitsRoundTrip(v.major);
    DigitsRoundTrip(v.minor);
    DigitsRoundTrip(v.patch);
  }

  /** Items 6 to 8: patch increments Z; minor increments Y and resets Z;
      major increments X and resets Y and Z. */
  function Bump(part: Part, v: Version): Version {
    match part
    case Major => Version(v.major + 1, 0, 0)
    case Minor => Version(v.major, v.minor + 1, 0)
    case Patch => Version(v.major, v.minor, v.patch + 1)
  }

  /** Item 11: precedence compares major, minor and patch numerically, in that order. */
  predicate Precedes(v: Version, w: Version) {
    v.major < w.major
    || (v.major == w.major && v.minor < w.minor)
    || (v.major == w.major && v.minor == w.minor && v.patch < w.patch)
  }

  /** `w` differs from `v` in the component `part` or in one to its left. */
  predicate Changes(part: Part, v: Version, w: Version) {
    match part
    case Major => w.major != v.major
    case Minor => w.major != v.major || w.minor != v.minor
    case Patch => w != v
  }

  /** A bump yields the least version of higher precedence that changes the
      bumped component: for a patch bump the immediate successor, for a minor
      bump the first version of the next minor line, for a major bump the
      first version of the next major line. */
  lemma BumpIsLeastChange(part: Part, v: Version, w: Version)
    ensures Precedes(v, Bump(part, v)) && Changes(part, v, Bump(part, v))
    ensures Precedes(v, w) && Changes(part, v, w) ==> w == Bump(part, v) || Precedes(Bump(part, v), w)
  {
  }
}
