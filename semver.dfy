/**
 * The two operations of Go's `golang.org/x/mod/semver` package that the tool
 * calls: `IsValid` and `Compare`. Versions are Semantic Versioning 2.0.0 with a
 * mandatory `v` prefix; as in that package, the shorthands `vMAJOR` and
 * `vMAJOR.MINOR` are accepted as `vMAJOR.0.0` and `vMAJOR.MINOR.0`, precedence
 * follows section 11 of the standard and build metadata is ignored
 * (section 10).
 */
module Semver {
  import opened Options
  import opened GoStrings

  /** The parts of a valid version string, each kept as text as the package does. */
  datatype Version = Version(major: string, minor: string, patch: string, prerelease: string, build: string)

  // ---------------------------------------------------------------------
  // Parsing
  // ---------------------------------------------------------------------

  predicate IsDigit(c: char)
  {
    '0' <= c <= '9'
  }

  /** Only digits (true of the empty string, as the package's `isNum`). */
  predicate IsNum(s: string)
  {
    s == [] || (IsDigit(s[0]) && IsNum(s[1..]))
  }

  /** A numeric identifier with a leading zero, which the standard forbids. */
  predicate IsBadNum(s: string)
  {
    IsNum(s) && |s| > 1 && s[0] == '0'
  }

  predicate IsIdentChar(c: char)
  {
    'A' <= c <= 'Z' || 'a' <= c <= 'z' || '0' <= c <= '9' || c == '-'
  }

  predicate AllIdentChars(s: string)
  {
    s == [] || (IsIdentChar(s[0]) && AllIdentChars(s[1..]))
  }

  /** Number of leading decimal digits of `s`. */
  function DigitRun(s: string): (n: nat)
    ensures n <= |s|
    ensures IsNum(s[..n])
    ensures n < |s| ==> !IsDigit(s[n])
  {
    if s != [] && IsDigit(s[0]) then
      var n := 1 + DigitRun(s[1..]);
      assert s[..n][1..] == s[1..][..n - 1];
      n
    else 0
  }

  /** A major, minor or patch number: a non-empty digit run without a leading zero, and what follows it. */
  function ParseInt(s: string): (r: Option<(string, string)>)
    ensures r.Some? <==> DigitRun(s) > 0 && (s[0] == '0' ==> DigitRun(s) == 1)
    ensures r.Some? ==> r.value.0 + r.value.1 == s && r.value.0 != [] && IsNum(r.value.0) && !IsBadNum(r.value.0)
  {
    var n := DigitRun(s);
    if n == 0 then None
    else if s[0] == '0' && n != 1 then None
    else
      assert s == s[..n] + s[n..];
      Some((s[..n], s[n..]))
  }

  /** Position of the first `c` in `s`, or |s| when there is none. */
  function IndexOf(s: string, c: char): (i: nat)
    ensures i <= |s|
    ensures c !in s[..i]
    ensures i < |s| ==> s[i] == c
  {
    if s == [] || s[0] == c then 0 else 1 + IndexOf(s[1..], c)
  }

  predicate ValidPrereleaseIdent(id: string)
  {
    id != [] && AllIdentChars(id) && !IsBadNum(id)
  }

  predicate ValidPrereleaseIdents(ids: seq<string>)
  {
    ids == [] || (ValidPrereleaseIdent(ids[0]) && ValidPrereleaseIdents(ids[1..]))
  }

  predicate ValidBuildIdents(ids: seq<string>)
  {
    ids == [] || (ids[0] != [] && AllIdentChars(ids[0]) && ValidBuildIdents(ids[1..]))
  }

  /** `-ident.ident...` up to the first `+`, every identifier non-empty, alphanumeric or `-`, no leading zero. */
  function ParsePrerelease(s: string): (r: Option<(string, string)>)
    ensures r.Some? ==> r.value.0 + r.value.1 == s && r.value.0 != [] && r.value.0[0] == '-'
    ensures r.Some? ==> r.value.1 == [] || r.value.1[0] == '+'
  {
    if s == [] || s[0] != '-' then None
    else
      var i := 1 + IndexOf(s[1..], '+');
      var ids := Split(s[1..i], '.');
      if ValidPrereleaseIdents(ids) then
        assert s == s[..i] + s[i..];
        Some((s[..i], s[i..]))
      else None
  }

  /** `+ident.ident...` to the end of the string. */
  function ParseBuild(s: string): (r: Option<(string, string)>)
    ensures r.Some? ==> r.value == (s, [])
  {
    if s == [] || s[0] != '+' then None
    else
      var ids := Split(s[1..], '.');
      if ValidBuildIdents(ids) then Some((s, [])) else None
  }

  /** The package's `parse`: None when `v` is not a valid version. */
  function Parse(v: string): (r: Option<Version>)
    ensures r.Some? ==> v != [] && v[0] == 'v'
    ensures r.Some? ==> WellFormedPrerelease(r.value.prerelease)
  {
    if v == [] || v[0] != 'v' then None
    else match ParseInt(v[1..])
      case None => None
      case Some((major, rest)) =>
        if rest == [] then Some(Version(major, "0", "0", "", ""))
        else if rest[0] != '.' then None
        else match ParseInt(rest[1..])
          case None => None
          case Some((minor, rest)) =>
            if rest == [] then Some(Version(major, minor, "0", "", ""))
            else if rest[0] != '.' then None
            else match ParseInt(rest[1..])
              case None => None
              case Some((patch, rest)) => ParseSuffix(major, minor, patch, rest)
  }

  /** What may follow `MAJOR.MINOR.PATCH`: an optional pre-release, an optional build, nothing else. */
  function ParseSuffix(major: string, minor: string, patch: string, s: string): (r: Option<Version>)
    ensures r.Some? ==> WellFormedPrerelease(r.value.prerelease)
    ensures r.Some? ==> r.value.major == major && r.value.minor == minor && r.value.patch == patch
    ensures r.Some? ==> r.value.prerelease + r.value.build == s
  {
    var pre := if s != [] && s[0] == '-' then ParsePrerelease(s) else Some(([], s));
    match pre
    case None => None
    case Some((prerelease, rest)) =>
      var build := if rest != [] && rest[0] == '+' then ParseBuild(rest) else Some(([], rest));
      match build
      case None => None
      case Some((build, rest)) =>
        if rest != [] then None else Some(Version(major, minor, patch, prerelease, build))
  }

  /** Either no pre-release, or one that starts with its `-`. */
  predicate WellFormedPrerelease(pre: string)
  {
    pre == [] || pre[0] == '-'
  }

  /** The full form `vMAJOR.MINOR.PATCH-PRERELEASE+BUILD` of a parsed version. */
  function Format(p: Version): string
  {
    "v" + p.major + "." + p.minor + "." + p.patch + p.prerelease + p.build
  }

  /**
   * Parsing loses nothing: a valid version string is the full form of what it
   * parses to, or one of the shorthands `vMAJOR` and `vMAJOR.MINOR`, which parse
   * with the omitted parts "0" and no pre-release or build.
   */
  lemma ParseRebuilds(v: string)
    requires IsValid(v)
    ensures var p := Parse(v).value;
      || v == Format(p)
      || (v == "v" + p.major && p.minor == "0" && p.patch == "0" && p.prerelease == "" && p.build == "")
      || (v == "v" + p.major + "." + p.minor && p.patch == "0" && p.prerelease == "" && p.build == "")
  {
    hide ParseInt;
    hide ParseSuffix;
    var (major, rest) := ParseInt(v[1..]).value;
    SplitHead(v, major, rest);
    if rest == [] {
      assert Parse(v) == Some(Version(major, "0", "0", "", ""));
    } else {
      var (minor, rest2) := ParseInt(rest[1..]).value;
      SplitHead(rest, minor, rest2);
      if rest2 == [] {
        assert Parse(v) == Some(Version(major, minor, "0", "", ""));
        hide Parse;
        assert v == "v" + major + "." + minor;
      } else {
        var (patch, rest3) := ParseInt(rest2[1..]).value;
        SplitHead(rest2, patch, rest3);
        assert Parse(v) == ParseSuffix(major, minor, patch, rest3);
        hide Parse;
        FullFormRebuilds(v, major, rest, minor, rest2, patch, rest3, Parse(v).value);
      }
    }
  }

  /** A string is its first character followed by what comes after it. */
  lemma SplitHead(s: string, num: string, rest: string)
    requires s != [] && s[1..] == num + rest
    ensures s == [s[0]] + num + rest
  {
    assert s == [s[0]] + s[1..];
  }

  /** The three numbers and the suffix of a full-form version, put back together, give the version. */
  lemma FullFormRebuilds(v: string, major: string, rest: string, minor: string, rest2: string, patch: string, rest3: string, p: Version)
    requires v == "v" + major + rest && rest == "." + minor + rest2 && rest2 == "." + patch + rest3
    requires p.major == major && p.minor == minor && p.patch == patch && p.prerelease + p.build == rest3
    ensures v == Format(p)
  {
  }

  /** `semver.IsValid`. */
  predicate IsValid(v: string)
  {
    Parse(v).Some?
  }

  /** The failure sentinel `""` and the not-declared sentinel `"none"` are not versions. */
  lemma SentinelsAreInvalid()
    ensures !IsValid("") && !IsValid("none")
  {
    assert "none"[0] == 'n';
  }

  // ---------------------------------------------------------------------
  // Precedence
  // ---------------------------------------------------------------------

  /** The package's `compareInt`: a longer number is larger, equal lengths compare as text. */
  function CompareInt(x: string, y: string): int
  {
    if x == y then 0
    else if |x| < |y| then -1
    else if |x| > |y| then 1
    else LexCompare(x, y)
  }

  /** One pre-release identifier against another: numeric ones numerically and below alphanumeric ones. */
  function CompareIdent(x: string, y: string): int
  {
    if x == y then 0
    else if IsNum(x) != IsNum(y) then (if IsNum(x) then -1 else 1)
    else if IsNum(x) then CompareInt(x, y)
    else LexCompare(x, y)
  }

  /**
   * The identifier loop of the package's `comparePrerelease`: the first differing
   * identifier decides; when one list runs out first it is the smaller (the loop
   * answers -1 whenever the left one is exhausted).
   */
  function CompareIdents(xs: seq<string>, ys: seq<string>): int
  {
    if xs == [] then -1
    else if ys == [] then 1
    else if xs[0] != ys[0] then CompareIdent(xs[0], ys[0])
    else CompareIdents(xs[1..], ys[1..])
  }

  /** The package's `comparePrerelease`: no pre-release ranks above any pre-release. */
  function ComparePrerelease(x: string, y: string): int
  {
    if x == y then 0
    else if x == [] then 1
    else if y == [] then -1
    else CompareIdents(Split(x[1..], '.'), Split(y[1..], '.'))
  }

  /** Precedence of two parsed versions: major, minor, patch, then pre-release; build is ignored. */
  function ComparePrecedence(p: Version, q: Version): int
  {
    var c := CompareInt(p.major, q.major);
    if c != 0 then c
    else
      var c := CompareInt(p.minor, q.minor);
      if c != 0 then c
      else
        var c := CompareInt(p.patch, q.patch);
        if c != 0 then c
        else ComparePrerelease(p.prerelease, q.prerelease)
  }

  /** `semver.Compare`: an invalid version is below every valid one and equal to every invalid one. */
  function Compare(v: string, w: string): int
  {
    match (Parse(v), Parse(w))
    case (None, None) => 0
    case (None, Some(_)) => -1
    case (Some(_), None) => 1
    case (Some(p), Some(q)) => ComparePrecedence(p, q)
  }

  /** Two parsed versions of the same precedence: everything but the build metadata agrees. */
  predicate SamePrecedence(p: Version, q: Version)
  {
    p.major == q.major && p.minor == q.minor && p.patch == q.patch && p.prerelease == q.prerelease
  }

  // ---------------------------------------------------------------------
  // Order laws
  // ---------------------------------------------------------------------

  lemma CompareIntIsStrictOrder(x: string, y: string, z: string)
    ensures CompareInt(x, y) == 0 <==> x == y
    ensures CompareInt(x, y) == -CompareInt(y, x)
    ensures CompareInt(x, y) < 0 && CompareInt(y, z) < 0 ==> CompareInt(x, z) < 0
  {
    LexCompareIsStrictOrder(x, y, z);
  }

  lemma CompareIdentIsStrictOrder(x: string, y: string, z: string)
    ensures CompareIdent(x, y) == 0 <==> x == y
    ensures CompareIdent(x, y) == -CompareIdent(y, x)
    ensures CompareIdent(x, y) < 0 && CompareIdent(y, z) < 0 ==> CompareIdent(x, z) < 0
  {
    CompareIntIsStrictOrder(x, y, z);
    LexCompareIsStrictOrder(x, y, z);
  }

  /** On different identifier lists CompareIdents never answers 0 and is antisymmetric. */
  lemma {:induction false} CompareIdentsAntisymmetric(xs: seq<string>, ys: seq<string>)
    requires xs != ys
    ensures CompareIdents(xs, ys) != 0
    ensures CompareIdents(xs, ys) == -CompareIdents(ys, xs)
  {
    if xs != [] && ys != [] {
      if xs[0] != ys[0] {
        CompareIdentIsStrictOrder(xs[0], ys[0], ys[0]);
      } else {
        assert xs == [xs[0]] + xs[1..] && ys == [ys[0]] + ys[1..];
        CompareIdentsAntisymmetric(xs[1..], ys[1..]);
      }
    }
  }

  lemma {:induction false} CompareIdentsTransitive(xs: seq<string>, ys: seq<string>, zs: seq<string>)
    requires xs != ys && ys != zs
    requires CompareIdents(xs, ys) < 0 && CompareIdents(ys, zs) < 0
    ensures CompareIdents(xs, zs) < 0
  {
    if xs != [] && ys != [] && zs != [] {
      CompareIdentIsStrictOrder(xs[0], ys[0], zs[0]);
      if xs[0] == ys[0] && ys[0] == zs[0] {
        assert xs == [xs[0]] + xs[1..] && ys == [ys[0]] + ys[1..] && zs == [zs[0]] + zs[1..];
        CompareIdentsTransitive(xs[1..], ys[1..], zs[1..]);
      }
    }
  }

  lemma ComparePrereleaseIsStrictOrder(x: string, y: string, z: string)
    requires WellFormedPrerelease(x) && WellFormedPrerelease(y) && WellFormedPrerelease(z)
    ensures ComparePrerelease(x, y) == 0 <==> x == y
    ensures ComparePrerelease(x, y) == -ComparePrerelease(y, x)
    ensures ComparePrerelease(x, y) < 0 && ComparePrerelease(y, z) < 0 ==> ComparePrerelease(x, z) < 0
  {
    if x != [] && y != [] && x != y {
      assert x == [x[0]] + x[1..] && y == [y[0]] + y[1..];
      SplitInjective(x[1..], y[1..], '.');
      CompareIdentsAntisymmetric(Split(x[1..], '.'), Split(y[1..], '.'));
    }
    if ComparePrerelease(x, y) < 0 && ComparePrerelease(y, z) < 0 && z != [] {
      assert x == [x[0]] + x[1..] && y == [y[0]] + y[1..] && z == [z[0]] + z[1..];
      SplitInjective(x[1..], y[1..], '.');
      SplitInjective(y[1..], z[1..], '.');
      CompareIdentsTransitive(Split(x[1..], '.'), Split(y[1..], '.'), Split(z[1..], '.'));
    }
  }

  /** Precedence is a total preorder whose ties are exactly the versions that differ at most in build metadata. */
  lemma ComparePrecedenceIsPreorder(p: Version, q: Version, r: Version)
    requires WellFormedPrerelease(p.prerelease) && WellFormedPrerelease(q.prerelease) && WellFormedPrerelease(r.prerelease)
    ensures ComparePrecedence(p, q) == 0 <==> SamePrecedence(p, q)
    ensures ComparePrecedence(p, q) == -ComparePrecedence(q, p)
    ensures ComparePrecedence(p, q) <= 0 && ComparePrecedence(q, r) <= 0 ==> ComparePrecedence(p, r) <= 0
  {
    CompareIntIsStrictOrder(p.major, q.major, r.major);
    CompareIntIsStrictOrder(q.major, r.major, r.major);
    CompareIntIsStrictOrder(p.minor, q.minor, r.minor);
    CompareIntIsStrictOrder(q.minor, r.minor, r.minor);
    CompareIntIsStrictOrder(p.patch, q.patch, r.patch);
    CompareIntIsStrictOrder(q.patch, r.patch, r.patch);
    ComparePrereleaseIsStrictOrder(p.prerelease, q.prerelease, r.prerelease);
    ComparePrereleaseIsStrictOrder(q.prerelease, r.prerelease, r.prerelease);
  }

  /**
   * `semver.Compare` is a total preorder on all strings: reflexive, antisymmetric
   * in sign, and `Compare(_, _) <= 0` is transitive.
   */
  lemma CompareIsTotalPreorder(u: string, v: string, w: string)
    ensures Compare(u, u) == 0
    ensures Compare(u, v) == -Compare(v, u)
    ensures Compare(u, v) <= 0 && Compare(v, w) <= 0 ==> Compare(u, w) <= 0
  {
    match Parse(u)
    case None =>
    case Some(p) =>
      ComparePrecedenceIsPreorder(p, p, p);
      match Parse(v)
      case None =>
      case Some(q) =>
        ComparePrecedenceIsPreorder(p, q, q);
        match Parse(w)
        case None =>
        case Some(r) =>
          ComparePrecedenceIsPreorder(p, q, r);
  }

  /** Equal precedence is transitive (Compare(_, _) == 0 is an equivalence). */
  lemma SamePrecedenceTransitive(u: string, v: string, w: string)
    requires Compare(u, v) == 0 && Compare(v, w) == 0
    ensures Compare(u, w) == 0
  {
    hide Compare;
    CompareIsTotalPreorder(u, v, w);
    CompareIsTotalPreorder(v, u, u);
    CompareIsTotalPreorder(w, v, u);
    CompareIsTotalPreorder(u, w, w);
  }

  /** Two valid versions compare equal exactly when they differ at most in build metadata. */
  lemma CompareZeroIffSamePrecedence(v: string, w: string)
    requires IsValid(v) && IsValid(w)
    ensures Compare(v, w) == 0 <==> SamePrecedence(Parse(v).value, Parse(w).value)
  {
    ComparePrecedenceIsPreorder(Parse(v).value, Parse(w).value, Parse(w).value);
  }

  // ---------------------------------------------------------------------
  // Examples
  // ---------------------------------------------------------------------

  /** `vX.Y.Z` with single digits is valid, with exactly those numbers and no pre-release or build. */
  lemma ParseShortRelease(x: char, y: char, z: char)
    requires IsDigit(x) && IsDigit(y) && IsDigit(z)
    ensures Parse(['v', x, '.', y, '.', z]) == Some(Version([x], [y], [z], "", ""))
  {
    var v := ['v', x, '.', y, '.', z];
    assert v[1..] == [x] + ['.', y, '.', z];
    assert DigitRun(['.', y, '.', z]) == 0;
    assert DigitRun(v[1..]) == 1;
    assert ParseInt(v[1..]) == Some(([x], ['.', y, '.', z]));
    assert ['.', y, '.', z][1..] == [y] + ['.', z];
    assert DigitRun(['.', z]) == 0;
    assert DigitRun([y] + ['.', z]) == 1;
    assert ParseInt([y] + ['.', z]) == Some(([y], ['.', z]));
    assert ['.', z][1..] == [z] + [];
    assert DigitRun([z] + []) == 1;
    assert ParseInt([z] + []) == Some(([z], []));
  }

  /** Two release versions: both valid, v1.2.0 before v1.4.0. */
  lemma ReportVersions()
    ensures IsValid("v1.2.0") && IsValid("v1.4.0")
    ensures Compare("v1.4.0", "v1.2.0") == 1
  {
    ParseShortRelease('1', '2', '0');
    ParseShortRelease('1', '4', '0');
    assert "v1.2.0" == ['v', '1', '.', '2', '.', '0'] && "v1.4.0" == ['v', '1', '.', '4', '.', '0'];
    assert !LexLess("4", "2");
    assert CompareInt("4", "2") == 1;
    assert ComparePrecedence(Version("1", "4", "0", "", ""), Version("1", "2", "0", "", "")) == 1;
  }

  /**
   * The pre-release ordering example of section 11 of Semantic Versioning 2.0.0,
   * on the dot-separated identifiers: alpha < alpha.1 < alpha.beta < beta <
   * beta.2 < beta.11 < rc.1, and any pre-release < the release itself.
   */
  lemma Section11Examples()
    ensures CompareIdents(["alpha"], ["alpha", "1"]) < 0
    ensures CompareIdents(["alpha", "1"], ["alpha", "beta"]) < 0
    ensures CompareIdents(["alpha", "beta"], ["beta"]) < 0
    ensures CompareIdents(["beta"], ["beta", "2"]) < 0
    ensures CompareIdents(["beta", "2"], ["beta", "11"]) < 0
    ensures CompareIdents(["beta", "11"], ["rc", "1"]) < 0
    ensures ComparePrerelease("-rc.1", "") < 0
  {
    assert ["alpha", "1"][1..] == ["1"];
    assert ["alpha", "beta"][1..] == ["beta"];
    assert ["beta", "2"][1..] == ["2"];
    assert ["beta", "11"][1..] == ["11"];
    assert IsNum("1") && IsNum("2") && IsNum("11") && !IsNum("beta");
    assert LexLess("alpha", "beta");
    assert LexLess("beta", "rc");
  }
}
