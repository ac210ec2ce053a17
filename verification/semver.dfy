/** The part of Semantic Versioning 2.0.0 the firmware gates rely on: the text form
    MAJOR.MINOR.PATCH[-PRERELEASE][+BUILD], its parse (None is the parse failure),
    precedence against a release version (section 11), and the "debug" build
    check. */
module SemVer {
  import opened Primitives
  import opened Strings

  datatype Version = Version(
    major: nat,
    minor: nat,
    patch: nat,
    preRelease: Option<string>,
    buildMetadata: Option<string>)

  /** `SemVer.parse("3.28.12")`, the first firmware that can stream its history. */
  const SUPPORT_LOGGING_VERSION: Version := Version(3, 28, 12, None, None)

  predicate IsIdentifierChar(c: char)
  {
    IsDigit(c) || 'A' <= c <= 'Z' || 'a' <= c <= 'z' || c == '-'
  }

  /** A dot-separated list of non-empty identifiers over [0-9A-Za-z-]. */
  predicate IsIdentifiers(s: string)
  {
    && |s| >= 1 && s[0] != '.' && s[|s| - 1] != '.'
    && (forall i :: 0 <= i < |s| ==> IsIdentifierChar(s[i]) || s[i] == '.')
    && (forall i :: 0 <= i < |s| - 1 ==> s[i] == '.' ==> s[i + 1] != '.')
  }

  /** A numeric component: decimal digits, no leading zero, within Int range. */
  function ParseNumeric(s: string): (r: Option<nat>)
    ensures r.Some? <==> IsCanonicalDecimal(s) && DigitsValue(s) < TWO_31
    ensures r.Some? ==> r.value == DigitsValue(s)
  {
    if IsCanonicalDecimal(s) && DigitsValue(s) < TWO_31 then Some(DigitsValue(s)) else None
  }

  /** MAJOR.MINOR.PATCH: exactly two dots, three numeric components. */
  function ParseCore(s: string): Option<(nat, nat, nat)>
  {
    var i := IndexOf(s, '.');
    if i == -1 then None
    else
      var rest := s[i + 1..];
      var j := IndexOf(rest, '.');
      if j == -1 then None
      else
        match (ParseNumeric(s[..i]), ParseNumeric(rest[..j]), ParseNumeric(rest[j + 1..]))
        case (Some(a), Some(b), Some(c)) => Some((a, b, c))
        case _ => None
  }

  /** Text split at the first occurrence of mark: what precedes it, and what
      follows it when it occurs. */
  function SplitFirst(s: string, mark: char): (string, Option<string>)
  {
    var p := IndexOf(s, mark);
    if p == -1 then (s, None) else (s[..p], Some(s[p + 1..]))
  }

  /** A version from its three text parts, when each is well-formed. */
  function FromParts(core: string, pre: Option<string>, build: Option<string>): Option<Version>
  {
    if build.Some? && !IsIdentifiers(build.value) then None
    else if pre.Some? && !IsIdentifiers(pre.value) then None
    else match ParseCore(core)
      case None => None
      case Some(t) => Some(Version(t.0, t.1, t.2, pre, build))
  }

  /** `SemVer.parse`: the build metadata follows the first '+', the pre-release the
      first '-' before it, and the core is what precedes both. */
  function Parse(s: string): Option<Version>
  {
    var (main, build) := SplitFirst(s, '+');
    var (core, pre) := SplitFirst(main, '-');
    FromParts(core, pre, build)
  }

  /** The versions the text form can express. */
  predicate WellFormed(v: Version)
  {
    && v.major < TWO_31 && v.minor < TWO_31 && v.patch < TWO_31
    && (v.preRelease.Some? ==> IsIdentifiers(v.preRelease.value))
    && (v.buildMetadata.Some? ==> IsIdentifiers(v.buildMetadata.value))
  }

  function CoreText(v: Version): string
  {
    NatToDecimal(v.major) + "." + NatToDecimal(v.minor) + "." + NatToDecimal(v.patch)
  }

  function Suffix(mark: char, x: Option<string>): string
  {
    if x.None? then "" else [mark] + x.value
  }

  /** The text form of a version. */
  function Render(v: Version): string
  {
    CoreText(v) + Suffix('-', v.preRelease) + Suffix('+', v.buildMetadata)
  }

  // ---- parse and render are inverse ----

  lemma SplitAtFirst(a: string, c: char, b: string)
    requires c !in a
    ensures var s := a + [c] + b; IndexOf(s, c) == |a| && s[..|a|] == a && s[|a| + 1..] == b
  {
    IndexOfJoin(a, c, b);
    var s := a + [c] + b;
    assert s[..|a|] == a;
    assert s[|a| + 1..] == b;
  }

  lemma DigitsHaveNoMarks(n: nat)
    ensures '.' !in NatToDecimal(n) && '-' !in NatToDecimal(n) && '+' !in NatToDecimal(n)
  {
    var d := NatToDecimal(n);
    assert forall i :: 0 <= i < |d| ==> IsDigit(d[i]);
  }

  lemma CoreHasNoMarks(v: Version)
    ensures '-' !in CoreText(v) && '+' !in CoreText(v)
  {
    DigitsHaveNoMarks(v.major);
    DigitsHaveNoMarks(v.minor);
    DigitsHaveNoMarks(v.patch);
  }

  /** Splitting a.b.c at its dots gives back a, b and c when a and b hold no dot. */
  lemma ParseCoreJoin(a: string, b: string, c: string)
    requires '.' !in a && '.' !in b
    ensures ParseCore(a + "." + b + "." + c) ==
      match (ParseNumeric(a), ParseNumeric(b), ParseNumeric(c))
      case (Some(x), Some(y), Some(z)) => Some((x, y, z))
      case _ => None
  {
    var rest := b + "." + c;
    assert a + "." + b + "." + c == a + ['.'] + rest;
    SplitAtFirst(a, '.', rest);
    assert rest == b + ['.'] + c;
    SplitAtFirst(b, '.', c);
  }

  lemma NumericOfDecimal(n: nat)
    requires n < TWO_31
    ensures ParseNumeric(NatToDecimal(n)) == Some(n)
  {
    DigitsOfDecimal(n);
    DecimalIsCanonical(n);
  }

  lemma ParseCoreOfText(v: Version)
    requires v.major < TWO_31 && v.minor < TWO_31 && v.patch < TWO_31
    ensures ParseCore(CoreText(v)) == Some((v.major, v.minor, v.patch))
  {
    DigitsHaveNoMarks(v.major);
    DigitsHaveNoMarks(v.minor);
    NumericOfDecimal(v.major);
    NumericOfDecimal(v.minor);
    NumericOfDecimal(v.patch);
    ParseCoreJoin(NatToDecimal(v.major), NatToDecimal(v.minor), NatToDecimal(v.patch));
  }

  lemma IdentifiersHaveNoPlus(s: string)
    requires IsIdentifiers(s)
    ensures '+' !in s
  {
    forall i | 0 <= i < |s|
      ensures s[i] != '+'
    {
      assert IsIdentifierChar(s[i]) || s[i] == '.';
    }
  }

  lemma SplitSuffix(a: string, mark: char, x: Option<string>)
    requires mark !in a
    ensures SplitFirst(a + Suffix(mark, x), mark) == (a, x)
  {
    if x.Some? {
      assert a + Suffix(mark, x) == a + [mark] + x.value;
      SplitAtFirst(a, mark, x.value);
    } else {
      assert a + Suffix(mark, x) == a;
    }
  }

  /** Rendering then parsing gives the version back. */
  lemma ParseRender(v: Version)
    requires WellFormed(v)
    ensures Parse(Render(v)) == Some(v)
  {
    var main := CoreText(v) + Suffix('-', v.preRelease);
    CoreHasNoMarks(v);
    if v.preRelease.Some? {
      IdentifiersHaveNoPlus(v.preRelease.value);
    }
    SplitSuffix(main, '+', v.buildMetadata);
    SplitSuffix(CoreText(v), '-', v.preRelease);
    ParseCoreOfText(v);
  }

  lemma SplitFirstJoins(s: string, mark: char)
    ensures var (a, x) := SplitFirst(s, mark); s == a + Suffix(mark, x) && mark !in a
  {
    var p := IndexOf(s, mark);
    if p != -1 {
      assert s == s[..p] + [mark] + s[p + 1..];
    }
  }

  lemma NumericIsDecimal(x: string)
    requires ParseNumeric(x).Some?
    ensures x == NatToDecimal(ParseNumeric(x).value)
  {
    DecimalOfDigits(x);
  }

  lemma CoreSplitJoins(core: string, i: int, j: int)
    requires 0 <= i < |core| && core[i] == '.'
    requires 0 <= j < |core| - i - 1 && core[i + 1..][j] == '.'
    ensures core == core[..i] + "." + core[i + 1..][..j] + "." + core[i + 1..][j + 1..]
  {
    var rest := core[i + 1..];
    assert rest == rest[..j] + "." + rest[j + 1..];
    assert core == core[..i] + "." + rest;
  }

  lemma CoreOfParse(core: string)
    requires ParseCore(core).Some?
    ensures var t := ParseCore(core).value;
      t.0 < TWO_31 && t.1 < TWO_31 && t.2 < TWO_31 &&
      core == CoreText(Version(t.0, t.1, t.2, None, None))
  {
    var i := IndexOf(core, '.');
    var rest := core[i + 1..];
    var j := IndexOf(rest, '.');
    CoreSplitJoins(core, i, j);
    NumericIsDecimal(core[..i]);
    NumericIsDecimal(rest[..j]);
    NumericIsDecimal(rest[j + 1..]);
  }

  /** Whatever parses is the rendering of a well-formed version: the parse accepts
      exactly the canonical texts. */
  lemma RenderParse(s: string)
    requires Parse(s).Some?
    ensures WellFormed(Parse(s).value) && Render(Parse(s).value) == s
  {
    var v := Parse(s).value;
    var (main, build) := SplitFirst(s, '+');
    var (core, pre) := SplitFirst(main, '-');
    SplitFirstJoins(s, '+');
    SplitFirstJoins(main, '-');
    CoreOfParse(core);
    assert CoreText(v) == core;
  }

  // ---- precedence ----

  /** Compares major, then minor, then patch: -1, 0 or 1. */
  function CompareCore(v: Version, w: Version): (r: int)
    ensures -1 <= r <= 1
  {
    if v.major != w.major then (if v.major < w.major then -1 else 1)
    else if v.minor != w.minor then (if v.minor < w.minor then -1 else 1)
    else if v.patch != w.patch then (if v.patch < w.patch then -1 else 1)
    else 0
  }

  /** `v.compareTo(w) != -1` for a release w (no pre-release part): a higher core
      wins, and on an equal core a pre-release ranks below the release. Build
      metadata plays no part. */
  predicate AtLeast(v: Version, w: Version)
    requires w.preRelease.None?
  {
    var c := CompareCore(v, w);
    c == 1 || (c == 0 && v.preRelease.None?)
  }

  /** The core comparison is antisymmetric and is 0 only on equal cores. */
  lemma CompareCoreAntisymmetric(v: Version, w: Version)
    ensures CompareCore(v, w) == -CompareCore(w, v)
    ensures CompareCore(v, w) == 0 <==> v.major == w.major && v.minor == w.minor && v.patch == w.patch
  {
  }

  /** AtLeast against a release is the lexicographic order on (major, minor, patch),
      with a pre-release losing the tie. */
  lemma AtLeastIsLexicographic(v: Version, w: Version)
    requires w.preRelease.None?
    ensures AtLeast(v, w) <==>
      || v.major > w.major
      || (v.major == w.major && v.minor > w.minor)
      || (v.major == w.major && v.minor == w.minor && v.patch > w.patch)
      || (v.major == w.major && v.minor == w.minor && v.patch == w.patch && v.preRelease.None?)
  {
  }

  /** Among releases the order is total and transitive. */
  lemma AtLeastTotalOnReleases(v: Version, w: Version)
    requires v.preRelease.None? && w.preRelease.None?
    ensures AtLeast(v, w) || AtLeast(w, v)
  {
  }

  lemma AtLeastTransitive(u: Version, v: Version, w: Version)
    requires v.preRelease.None? && w.preRelease.None?
    requires AtLeast(u, v) && AtLeast(v, w)
    ensures AtLeast(u, w)
  {
  }

  /** Build metadata never changes precedence; a pre-release of a version is below
      that version. */
  lemma AtLeastIgnoresBuild(v: Version, w: Version, b: Option<string>)
    requires w.preRelease.None?
    ensures AtLeast(v.(buildMetadata := b), w) == AtLeast(v, w)
    ensures forall p :: !AtLeast(w.(preRelease := Some(p)), w)
  {
  }

  /** `version.buildMetadata?.contains("debug")`. */
  predicate IsDebug(v: Version)
  {
    v.buildMetadata.Some? && Contains(v.buildMetadata.value, "debug")
  }
}
