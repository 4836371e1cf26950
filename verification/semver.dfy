/** The part of Semantic Versioning 2.0.0 that the next-version prediction
    relies on: normal versions `X.Y.Z` (item 2), their precedence (item 11)
    and the patch, minor and major increments (items 6, 7 and 8), together
    with the string-level increment the `semver` package's `inc` offers. */
module SemVer {
  import opened Wrappers
  import Text
  import Decimal

  /** A normal version number X.Y.Z. */
  datatype Version = Version(major: nat, minor: nat, patch: nat)

  /** The release types the commit analyzer can report. */
  datatype ReleaseType = Patch | Minor | Major

  /** `v` has lower precedence than `w`: the first differing component,
      compared numerically from major to patch, is smaller in `v`. */
  predicate Precedes(v: Version, w: Version) {
    || v.major < w.major
    || (v.major == w.major && v.minor < w.minor)
    || (v.major == w.major && v.minor == w.minor && v.patch < w.patch)
  }

  /** The most significant component in which `v` and `w` differ, or None
      when they are the same version. */
  function HighestChange(v: Version, w: Version): Option<ReleaseType> {
    if v.major != w.major then Some(Major)
    else if v.minor != w.minor then Some(Minor)
    else if v.patch != w.patch then Some(Patch)
    else None
  }

  /** The release type's position in the order patch < minor < major. */
  function Rank(rt: ReleaseType): nat {
    match rt
    case Patch => 0
    case Minor => 1
    case Major => 2
  }

  /** The version a release of type `rt` gives after `v`: the least version
      of higher precedence whose most significant change is in the
      component `rt` names. */
  function Bump(v: Version, rt: ReleaseType): (r: Version)
    ensures Precedes(v, r) && HighestChange(v, r) == Some(rt)
    ensures forall w :: Precedes(v, w) && HighestChange(v, w) == Some(rt) ==> r == w || Precedes(r, w)
  {
    match rt
    case Patch => Version(v.major, v.minor, v.patch + 1)
    case Minor => Version(v.major, v.minor + 1, 0)
    case Major => Version(v.major + 1, 0, 0)
  }

  /** A bigger release type never gives a version of lower precedence. */
  lemma BumpMonotone(v: Version, a: ReleaseType, b: ReleaseType)
    requires Rank(a) <= Rank(b)
    ensures Bump(v, a) == Bump(v, b) || Precedes(Bump(v, a), Bump(v, b))
  {
  }

  /** The text form `X.Y.Z`, each component a canonical decimal numeral. */
  function Format(v: Version): string {
    Text.Join([Decimal.Show(v.major), Decimal.Show(v.minor), Decimal.Show(v.patch)], ".")
  }

  /** Reads a normal version `X.Y.Z`; None for anything else. Only the
      canonical form is accepted, so a version reads back as it was written. */
  function ParseVersion(s: string): (r: Option<Version>)
    ensures r.Some? ==> Format(r.value) == s
  {
    var parts := Text.Split(s, '.');
    if |parts| == 3
       && Decimal.IsNumeral(parts[0]) && Decimal.IsNumeral(parts[1]) && Decimal.IsNumeral(parts[2])
    then
      Text.JoinSplit(s, '.');
      Decimal.ShowParse(parts[0]);
      Decimal.ShowParse(parts[1]);
      Decimal.ShowParse(parts[2]);
      assert parts == [parts[0], parts[1], parts[2]];
      Some(Version(Decimal.ValueOf(parts[0]), Decimal.ValueOf(parts[1]), Decimal.ValueOf(parts[2])))
    else None
  }

  lemma NoDotInNumeral(s: string)
    requires Decimal.IsNumeral(s)
    ensures '.' !in s
  {
  }

  /** Formatting a version and reading it back gives the same version. */
  lemma ParseFormat(v: Version)
    ensures ParseVersion(Format(v)) == Some(v)
  {
    var a, b, c := Decimal.Show(v.major), Decimal.Show(v.minor), Decimal.Show(v.patch);
    NoDotInNumeral(a);
    NoDotInNumeral(b);
    NoDotInNumeral(c);
    var s := Format(v);
    assert [a, b, c][1..] == [b, c];
    assert [b, c][1..] == [c];
    assert Text.Join([b, c], ".") == b + "." + c;
    assert s == a + "." + Text.Join([b, c], ".");
    assert s == a + "." + (b + "." + c);
    Text.SplitAfter(a, '.', b + "." + c);
    Text.SplitAfter(b, '.', c);
    Text.SplitWithout(c, '.');
    assert Text.Split(s, '.') == [a, b, c];
    Decimal.ParseShow(v.major);
    Decimal.ParseShow(v.minor);
    Decimal.ParseShow(v.patch);
  }

  /** The string-level increment: None when there is no release type or when
      `version` is not a normal version, otherwise the bumped version's text. */
  function Inc(version: string, release: Option<ReleaseType>): (r: Option<string>)
    ensures r.Some? <==> release.Some? && ParseVersion(version).Some?
    ensures r.Some? ==> ParseVersion(r.value) == Some(Bump(ParseVersion(version).value, release.value))
  {
    match release
    case None => None
    case Some(rt) =>
      match ParseVersion(version)
      case None => None
      case Some(v) =>
        ParseFormat(Bump(v, rt));
        Some(Format(Bump(v, rt)))
  }

  /** Incrementing "1.0.0" by a patch release gives "1.0.1". */
  lemma IncPatchExample()
    ensures Inc("1.0.0", Some(Patch)) == Some("1.0.1")
  {
    var one := Version(1, 0, 0);
    assert Format(one) == "1.0.0";
    ParseFormat(one);
    assert Format(Version(1, 0, 1)) == "1.0.1";
  }
}
