/**
 * The .NET version value of the installer's core (Types/DotnetVersion.cs and
 * DotnetVersion.Operators.cs): "major.minor.patch" with an optional
 * "-preview.N" or "-rc.N" suffix, its parsing, rendering, feature band,
 * ordering and equality.
 *
 * The class keeps IsPreview, IsRc and PreviewIdentifier settable; the model treats a
 * version as a value and writes a changed property as a new value. Revision is
 * referred to by the operators and is taken to be a nullable Int32 that Parse never
 * sets.
 */
module DotnetVersions {
  import opened Wrappers
  import opened DotNetText

  datatype DotnetVersion = DotnetVersion(
    major: Int32,
    minor: Int32,
    patch: Int32,
    isPreview: bool,
    isRc: bool,
    previewIdentifier: Option<Int32>,
    revision: Option<Int32>)

  /** `new DotnetVersion(major, minor, patch)`: a stable version with nothing else set. */
  function Create(major: Int32, minor: Int32, patch: Int32): DotnetVersion {
    DotnetVersion(major, minor, patch, false, false, None, None)
  }

  /** A patch number below 100 is a runtime release, anything else an SDK release. */
  predicate IsRuntime(v: DotnetVersion) {
    v.patch < 100
  }

  predicate IsSdk(v: DotnetVersion) {
    !IsRuntime(v)
  }

  /** Neither a preview nor a release candidate. */
  predicate IsStable(v: DotnetVersion) {
    !v.isPreview && !v.isRc
  }

  // ---------------------------------------------------------------- Feature band

  lemma {:induction false} FeatureBandTextParses(patch: int)
    requires 100 <= patch
    ensures ParseInt32(IntToString(patch)[..1] + "00") == Success(LeadingDigit(patch) * 100)
  {
    NatToStringStartsWithLeadingDigit(patch);
    var d := LeadingDigit(patch);
    var text := IntToString(patch)[..1] + "00";
    assert text == [DigitChar(d), '0', '0'];
    assert TrimStart(text) == text;
    assert TrimEnd(text) == text;
    assert text[..2][..1] == [DigitChar(d)];
    assert DigitsValue(text) == 10 * DigitsValue(text[..2]) + 0;
    assert DigitsValue(text[..2]) == 10 * DigitsValue(text[..2][..1]) + 0;
  }

  lemma {:induction false} LeadingDigitBand(n: nat)
    requires n >= 100
    ensures LeadingDigit(n) * 100 <= n
    decreases n
  {
    if n < 1000 {
      assert LeadingDigit(n) == LeadingDigit(n / 10) == LeadingDigit(n / 10 / 10);
    } else {
      LeadingDigitBand(n / 10);
    }
  }

  /**
   * The SDK feature band: the leading digit of the patch number followed by "00",
   * read back with int.Parse; a runtime version has none.
   */
  function FeatureBand(v: DotnetVersion): (band: Option<Int32>)
    ensures band.Some? <==> IsSdk(v)
    ensures band.Some? ==> band.value % 100 == 0 && 100 <= band.value <= 900
    ensures band.Some? ==> band.value <= v.patch
  {
    if !IsSdk(v) then None
    else
      FeatureBandTextParses(v.patch);
      LeadingDigitBand(v.patch);
      Some(ParseInt32(IntToString(v.patch)[..1] + "00").value)
  }

  /** For a three-digit patch number the band is the patch rounded down to a hundred. */
  lemma {:induction false} FeatureBandOfThreeDigitPatch(v: DotnetVersion)
    requires 100 <= v.patch <= 999
    ensures FeatureBand(v) == Some(v.patch / 100 * 100)
    ensures FeatureBand(v).value <= v.patch < FeatureBand(v).value + 100
  {
    FeatureBandTextParses(v.patch);
    assert LeadingDigit(v.patch) == LeadingDigit(v.patch / 10) == LeadingDigit(v.patch / 10 / 10);
  }

  /** Only the leading digit counts: patch 1000 is in band 100, not 1000. */
  lemma FeatureBandOfFourDigitPatch()
    ensures FeatureBand(Create(8, 0, 1000)) == Some(100)
  {
    FeatureBandTextParses(1000);
    assert LeadingDigit(1000) == LeadingDigit(100) == LeadingDigit(10) == 1;
  }

  // ---------------------------------------------------------------- ToString and Parse

  /** "Major.Minor.Patch"; the preview or rc suffix is not written. */
  function ToString(v: DotnetVersion): string {
    IntToString(v.major) + "." + IntToString(v.minor) + "." + IntToString(v.patch)
  }

  /** The numeric section at `index`, or the exception that reading it throws. */
  function Section(sections: seq<string>, index: nat): Result<Int32, ParseFailure> {
    if index < |sections| then ParseInt32(sections[index]) else Failure(IndexOutOfRange)
  }

  /**
   * `DotnetVersion.Parse`: split at '-', read the first three '.'-separated sections
   * of the first piece; a second piece "tag.N" sets IsPreview for the tag "preview",
   * IsRc for "rc", and PreviewIdentifier to N whatever the tag is.
   */
  function Parse(version: string): (r: Result<DotnetVersion, ParseFailure>)
    ensures r.Success? ==> r.value.revision == None
    ensures r.Success? ==> (|Split(version, '-')| > 1 <==> r.value.previewIdentifier.Some?)
  {
    var previewSplit := Split(version, '-');
    var sections := Split(previewSplit[0], '.');
    var major :- ParseInt32(sections[0]);
    var minor :- Section(sections, 1);
    var patch :- Section(sections, 2);
    if |previewSplit| > 1 then
      var tagSections := Split(previewSplit[1], '.');
      var identifier :- Section(tagSections, 1);
      var isPreview := tagSections[0] == "preview";
      var isRc := !isPreview && tagSections[0] == "rc";
      Success(DotnetVersion(major, minor, patch, isPreview, isRc, Some(identifier), None))
    else
      Success(Create(major, minor, patch))
  }

  // ---------------------------------------------------------------- Ordering

  /**
   * What CompareTo relies on: it dereferences both PreviewIdentifiers when both
   * versions are previews or both are release candidates.
   */
  predicate Comparable(a: DotnetVersion, b: DotnetVersion) {
    (a.isPreview && b.isPreview) || (a.isRc && b.isRc)
    ==> a.previewIdentifier.Some? && b.previewIdentifier.Some?
  }

  /**
   * `v.CompareTo(other)`, with C#'s unchecked Int32 subtraction: negative when `v`
   * sorts first, and a missing `other` sorts last.
   */
  function CompareTo(v: DotnetVersion, other: Option<DotnetVersion>): Int32
    requires other.Some? ==> Comparable(v, other.value)
  {
    if other.None? then -1
    else
      var o := other.value;
      if o.major != v.major then Wrap32(v.major - o.major)
      else if o.minor != v.minor then Wrap32(v.minor - o.minor)
      else if o.patch != v.patch then Wrap32(v.patch - o.patch)
      else if (o.isPreview && v.isPreview) || (o.isRc && v.isRc) then
        Wrap32(v.previewIdentifier.value - o.previewIdentifier.value)
      else if o.isPreview && v.isRc then 1
      else if o.isRc && v.isPreview then -1
      else if IsStable(v) && !IsStable(o) then 1
      else if !IsStable(v) && IsStable(o) then -1
      else if v.revision.Some? && o.revision.None? then 1
      else if v.revision.None? && o.revision.Some? then -1
      else if v.revision.None? && o.revision.None? then 0
      else Wrap32(v.revision.value - o.revision.value)
  }

  predicate Less(a: DotnetVersion, b: DotnetVersion)
    requires Comparable(a, b)
  {
    CompareTo(a, Some(b)) < 0
  }

  predicate Greater(a: DotnetVersion, b: DotnetVersion)
    requires Comparable(a, b)
  {
    CompareTo(a, Some(b)) > 0
  }

  predicate LessOrEqual(a: DotnetVersion, b: DotnetVersion)
    requires Comparable(a, b)
  {
    CompareTo(a, Some(b)) <= 0
  }

  predicate GreaterOrEqual(a: DotnetVersion, b: DotnetVersion)
    requires Comparable(a, b)
  {
    CompareTo(a, Some(b)) >= 0
  }

  /**
   * The versions Parse produces: non-negative numbers, at most one of the two
   * flags, an identifier wherever a flag is set, and a non-negative revision.
   */
  predicate WellFormed(v: DotnetVersion) {
    && 0 <= v.major && 0 <= v.minor && 0 <= v.patch
    && !(v.isPreview && v.isRc)
    && (v.isPreview || v.isRc ==> v.previewIdentifier.Some? && v.previewIdentifier.value >= 0)
    && (v.revision.Some? ==> v.revision.value >= 0)
  }

  /** The versions a manifest entry carries: those the JSON converter can produce. */
  type WellFormedVersion = v: DotnetVersion | WellFormed(v) witness DotnetVersion(0, 0, 0, false, false, None, None)

  /** Previews sort before release candidates, which sort before stable releases. */
  function Stage(v: DotnetVersion): int {
    if v.isPreview then 0 else if v.isRc then 1 else 2
  }

  /**
   * The reference order: a well-formed version's position is the lexicographic
   * order of this key. The identifier counts only for previews and release
   * candidates, the revision only for stable releases, a present revision above an
   * absent one.
   */
  function OrderKey(v: DotnetVersion): (key: seq<int>)
    requires WellFormed(v)
    ensures |key| == 7
  {
    var stable := IsStable(v);
    [ v.major, v.minor, v.patch, Stage(v),
      if stable then 0 else v.previewIdentifier.value,
      if stable && v.revision.Some? then 1 else 0,
      if stable && v.revision.Some? then v.revision.value else 0 ]
  }

  function Sign(n: int): int {
    if n < 0 then -1 else if n > 0 then 1 else 0
  }

  /** Lexicographic comparison of two keys of the same length: -1, 0 or 1. */
  function LexCompare(a: seq<int>, b: seq<int>): (r: int)
    requires |a| == |b|
    ensures -1 <= r <= 1
    ensures r == 0 <==> a == b
  {
    if a == [] then 0
    else if a[0] < b[0] then -1
    else if a[0] > b[0] then 1
    else
      var r := LexCompare(a[1..], b[1..]);
      assert a == [a[0]] + a[1..] && b == [b[0]] + b[1..];
      r
  }

  lemma {:induction false} LexCompareAntisymmetric(a: seq<int>, b: seq<int>)
    requires |a| == |b|
    ensures LexCompare(a, b) == -LexCompare(b, a)
  {
    if a != [] && a[0] == b[0] {
      LexCompareAntisymmetric(a[1..], b[1..]);
    }
  }

  lemma {:induction false} LexCompareTransitive(a: seq<int>, b: seq<int>, c: seq<int>)
    requires |a| == |b| == |c|
    requires LexCompare(a, b) <= 0 && LexCompare(b, c) <= 0
    ensures LexCompare(a, c) <= 0
    ensures LexCompare(a, b) < 0 || LexCompare(b, c) < 0 ==> LexCompare(a, c) < 0
  {
    if a != [] && a[0] == b[0] == c[0] {
      LexCompareTransitive(a[1..], b[1..], c[1..]);
    }
  }

  /** Well-formed versions can always be compared. */
  lemma WellFormedComparable(a: DotnetVersion, b: DotnetVersion)
    requires WellFormed(a) && WellFormed(b)
    ensures Comparable(a, b)
  {
  }

  /** Keys that agree before index `n` and differ at `n` are ordered by that entry. */
  lemma {:induction false} LexFirstDifference(a: seq<int>, b: seq<int>, n: nat)
    requires |a| == |b| && n < |a|
    requires a[..n] == b[..n] && a[n] != b[n]
    ensures LexCompare(a, b) == if a[n] < b[n] then -1 else 1
    decreases n
  {
    if n > 0 {
      assert a[0] == a[..n][0] == b[..n][0] == b[0];
      assert a[1..][..n - 1] == a[..n][1..] == b[..n][1..] == b[1..][..n - 1];
      LexFirstDifference(a[1..], b[1..], n - 1);
    }
  }

  /**
   * CompareTo agrees in sign with the order key on well-formed versions: numbers
   * first, then stage, then the identifier (same stage) or the revision (stable).
   */
  lemma CompareToFollowsOrderKey(a: DotnetVersion, b: DotnetVersion)
    requires WellFormed(a) && WellFormed(b)
    ensures Sign(CompareTo(a, Some(b))) == LexCompare(OrderKey(a), OrderKey(b))
  {
    var ka, kb := OrderKey(a), OrderKey(b);
    if a.major != b.major {
      LexFirstDifference(ka, kb, 0);
    } else if a.minor != b.minor {
      assert ka[..1] == kb[..1];
      LexFirstDifference(ka, kb, 1);
    } else if a.patch != b.patch {
      assert ka[..2] == kb[..2];
      LexFirstDifference(ka, kb, 2);
    } else if ka[3] != kb[3] {
      assert ka[..3] == kb[..3];
      LexFirstDifference(ka, kb, 3);
    } else if ka[4] != kb[4] {
      assert ka[..4] == kb[..4];
      LexFirstDifference(ka, kb, 4);
    } else if ka[5] != kb[5] {
      assert ka[..5] == kb[..5];
      LexFirstDifference(ka, kb, 5);
    } else if ka[6] != kb[6] {
      assert ka[..6] == kb[..6];
      LexFirstDifference(ka, kb, 6);
    } else {
      assert ka == kb;
    }
  }

  /** Swapping the operands negates the sign. */
  lemma CompareToAntisymmetric(a: DotnetVersion, b: DotnetVersion)
    requires WellFormed(a) && WellFormed(b)
    ensures Sign(CompareTo(a, Some(b))) == -Sign(CompareTo(b, Some(a)))
  {
    CompareToFollowsOrderKey(a, b);
    CompareToFollowsOrderKey(b, a);
    LexCompareAntisymmetric(OrderKey(a), OrderKey(b));
  }

  /** `<=` is transitive, and so is `<`: versions form a total preorder. */
  lemma CompareToTransitive(a: DotnetVersion, b: DotnetVersion, c: DotnetVersion)
    requires WellFormed(a) && WellFormed(b) && WellFormed(c)
    requires LessOrEqual(a, b) && LessOrEqual(b, c)
    ensures LessOrEqual(a, c)
    ensures Less(a, b) || Less(b, c) ==> Less(a, c)
  {
    CompareToFollowsOrderKey(a, b);
    CompareToFollowsOrderKey(b, c);
    CompareToFollowsOrderKey(a, c);
    LexCompareTransitive(OrderKey(a), OrderKey(b), OrderKey(c));
  }

  /** The four operators are the order key's order. */
  lemma OperatorsFollowOrderKey(a: DotnetVersion, b: DotnetVersion)
    requires WellFormed(a) && WellFormed(b)
    ensures Less(a, b) <==> LexCompare(OrderKey(a), OrderKey(b)) < 0
    ensures Greater(a, b) <==> LexCompare(OrderKey(a), OrderKey(b)) > 0
    ensures LessOrEqual(a, b) <==> LexCompare(OrderKey(a), OrderKey(b)) <= 0
    ensures GreaterOrEqual(a, b) <==> LexCompare(OrderKey(a), OrderKey(b)) >= 0
  {
    CompareToFollowsOrderKey(a, b);
  }

  /** A missing version sorts last. */
  lemma CompareToNullIsNegative(v: DotnetVersion)
    ensures CompareTo(v, None) < 0
  {
  }

  /** Differing numbers decide alone, lexicographically, whatever the flags say. */
  lemma NumbersDecide(a: DotnetVersion, b: DotnetVersion)
    requires WellFormed(a) && WellFormed(b)
    requires (a.major, a.minor, a.patch) != (b.major, b.minor, b.patch)
    ensures Less(a, b) <==>
      a.major < b.major
      || (a.major == b.major && a.minor < b.minor)
      || (a.major == b.major && a.minor == b.minor && a.patch < b.patch)
  {
  }

  /**
   * With equal numbers: a preview is below a release candidate, both are below the
   * stable release, and two previews (or two release candidates) follow their
   * identifiers.
   */
  lemma StagesOrder(a: DotnetVersion, b: DotnetVersion)
    requires WellFormed(a) && WellFormed(b)
    requires a.major == b.major && a.minor == b.minor && a.patch == b.patch
    ensures a.isPreview && b.isRc ==> Less(a, b)
    ensures !IsStable(a) && IsStable(b) ==> Less(a, b)
    ensures (a.isPreview && b.isPreview) || (a.isRc && b.isRc) ==>
      (Less(a, b) <==> a.previewIdentifier.value < b.previewIdentifier.value)
  {
  }

  /** Every version compares equal to itself. */
  lemma CompareToSelf(v: DotnetVersion)
    requires Comparable(v, v)
    ensures CompareTo(v, Some(v)) == 0
  {
  }

  // ---------------------------------------------------------------- Equality

  /** `v.Equals(other)`: false for null, otherwise every property equal. */
  function Equals(v: DotnetVersion, other: Option<DotnetVersion>): (r: bool)
    ensures r <==> other == Some(v)
  {
    other.Some?
    && v.major == other.value.major && v.minor == other.value.minor && v.patch == other.value.patch
    && v.isPreview == other.value.isPreview && v.isRc == other.value.isRc
    && v.previewIdentifier == other.value.previewIdentifier
    && v.revision == other.value.revision
  }

  /** `lhs == rhs`: two nulls are equal, one null is not, otherwise Equals. */
  function EqualsOperator(lhs: Option<DotnetVersion>, rhs: Option<DotnetVersion>): (r: bool)
    ensures r <==> lhs == rhs
  {
    if lhs.None? then rhs.None? else Equals(lhs.value, rhs)
  }

  /** `lhs != rhs` */
  function NotEqualsOperator(lhs: Option<DotnetVersion>, rhs: Option<DotnetVersion>): (r: bool)
    ensures r <==> lhs != rhs
  {
    !EqualsOperator(lhs, rhs)
  }

  /** Equality ignoring the revision, as the install command matches a requested version. */
  predicate EqualsIgnoringRevision(a: DotnetVersion, b: DotnetVersion) {
    a.(revision := None) == b.(revision := None)
  }

  /** Equal versions compare as 0, but comparing as 0 does not make them equal. */
  lemma EqualityAndOrder(v: DotnetVersion)
    requires WellFormed(v) && v.isPreview && v.revision == None
    ensures Equals(v, Some(v)) && CompareTo(v, Some(v)) == 0
    ensures var w := v.(revision := Some(1)); CompareTo(v, Some(w)) == 0 && !Equals(v, Some(w))
  {
  }

  // ---------------------------------------------------------------- Properties of Parse

  lemma {:induction false} SectionsOfRendering(v: DotnetVersion)
    requires 0 <= v.major && 0 <= v.minor && 0 <= v.patch
    ensures Split(ToString(v), '-') == [ToString(v)]
    ensures Split(ToString(v), '.') == [IntToString(v.major), IntToString(v.minor), IntToString(v.patch)]
  {
    var parts := [IntToString(v.major), IntToString(v.minor), IntToString(v.patch)];
    assert Join(parts, '.') == ToString(v) by {
      assert Join(parts[1..], '.') == IntToString(v.minor) + "." + IntToString(v.patch) by {
        assert parts[1..][1..] == [IntToString(v.patch)];
      }
    }
    SplitJoin(parts, '.');
    assert '-' !in ToString(v);
    SplitWithoutSeparator(ToString(v), '-');
  }

  /** Parsing the rendering of a version with non-negative numbers recovers the numbers. */
  lemma {:induction false} ParseToString(v: DotnetVersion)
    requires 0 <= v.major && 0 <= v.minor && 0 <= v.patch
    ensures Parse(ToString(v)) == Success(Create(v.major, v.minor, v.patch))
  {
    SectionsOfRendering(v);
    ParseIntToString(v.major);
    ParseIntToString(v.minor);
    ParseIntToString(v.patch);
  }

  /**
   * A suffix "-tag.N" sets IsPreview exactly for "preview", IsRc exactly for "rc",
   * and PreviewIdentifier to N for any tag.
   */
  lemma {:induction false} ParseTagged(v: DotnetVersion, tag: string, identifier: Int32)
    requires 0 <= v.major && 0 <= v.minor && 0 <= v.patch && 0 <= identifier
    requires '-' !in tag && '.' !in tag
    ensures Parse(ToString(v) + "-" + tag + "." + IntToString(identifier))
      == Success(DotnetVersion(v.major, v.minor, v.patch, tag == "preview", tag == "rc", Some(identifier), None))
  {
    TaggedSections(v, tag, identifier);
    ParseIntToString(v.major);
    ParseIntToString(v.minor);
    ParseIntToString(v.patch);
    ParseIntToString(identifier);
  }

  /** How Parse cuts a rendering followed by "-tag.N": the rendering, then the tag and N. */
  lemma {:induction false} TaggedSections(v: DotnetVersion, tag: string, identifier: Int32)
    requires 0 <= v.major && 0 <= v.minor && 0 <= v.patch && 0 <= identifier
    requires '-' !in tag && '.' !in tag
    ensures var previewSplit := Split(ToString(v) + "-" + tag + "." + IntToString(identifier), '-');
      && previewSplit == [ToString(v), tag + "." + IntToString(identifier)]
      && Split(previewSplit[0], '.') == [IntToString(v.major), IntToString(v.minor), IntToString(v.patch)]
      && Split(previewSplit[1], '.') == [tag, IntToString(identifier)]
  {
    var suffix := tag + "." + IntToString(identifier);
    SectionsOfRendering(v);
    assert '-' !in suffix;
    assert ToString(v) + "-" + tag + "." + IntToString(identifier) == ToString(v) + ['-'] + suffix;
    SplitTwo(ToString(v), suffix, '-');
    assert suffix == tag + ['.'] + IntToString(identifier);
    SplitTwo(tag, IntToString(identifier), '.');
  }

  /** Everything Parse returns is well-formed, with non-negative numbers. */
  lemma ParseWellFormed(version: string)
    requires Parse(version).Success?
    ensures WellFormed(Parse(version).value)
  {
    var previewSplit := Split(version, '-');
    var sections := Split(previewSplit[0], '.');
    assert '-' !in previewSplit[0];
    assert forall i :: 0 <= i < |sections| ==> '-' !in sections[i];
    if |previewSplit| > 1 {
      var tagSections := Split(previewSplit[1], '.');
      assert '-' !in previewSplit[1];
      assert forall i :: 0 <= i < |tagSections| ==> '-' !in tagSections[i];
    }
  }

  lemma DigitSection(d: string)
    requires |d| == 1 && IsDigit(d[0])
    ensures ParseInt32(d) == Success(DigitValue(d[0]))
  {
    assert TrimStart(d) == d && TrimEnd(d) == d;
    assert AllDigits(d);
    assert d[..0] == [];
    assert DigitsValue(d) == DigitValue(d[0]);
  }

  lemma LetterSection(s: string)
    requires s != [] && 'a' <= s[0] <= 'z' && 'a' <= s[|s| - 1] <= 'z'
    ensures ParseInt32(s) == Failure(FormatError)
  {
    assert TrimStart(s) == s && TrimEnd(s) == s;
  }

  /** A section that is not a number makes Parse throw a FormatException. */
  lemma ParseRejectsLetter()
    ensures Parse("8.0.a") == Failure(FormatError)
  {
    SplitWithoutSeparator("8.0.a", '-');
    SplitThree("8", "0", "a", '.');
    assert "8" + ['.'] + "0" + ['.'] + "a" == "8.0.a";
    DigitSection("8");
    DigitSection("0");
    LetterSection("a");
  }

  /** The numbers are read before the tag: a bad patch fails even with a valid tag. */
  lemma ParseRejectsLettersBeforeTag()
    ensures Parse("8.0.aaa-rc.1") == Failure(FormatError)
  {
    LettersBeforeTagSections();
    DigitSection("8");
    DigitSection("0");
    LetterSection("aaa");
  }

  lemma LettersBeforeTagSections()
    ensures Split("8.0.aaa-rc.1", '-') == ["8.0.aaa", "rc.1"]
    ensures Split("8.0.aaa", '.') == ["8", "0", "aaa"]
  {
    SplitTwo("8.0.aaa", "rc.1", '-');
    assert "8.0.aaa" + ['-'] + "rc.1" == "8.0.aaa-rc.1";
    SplitThree("8", "0", "aaa", '.');
    assert "8" + ['.'] + "0" + ['.'] + "aaa" == "8.0.aaa";
  }

  /** Fewer than three numeric sections make Parse throw IndexOutOfRange. */
  lemma ParseMissingPatch()
    ensures Parse("8.0") == Failure(IndexOutOfRange)
  {
    SplitWithoutSeparator("8.0", '-');
    SplitTwo("8", "0", '.');
    assert "8" + ['.'] + "0" == "8.0";
    DigitSection("8");
    DigitSection("0");
  }

  /** A tag without ".N" makes Parse throw IndexOutOfRange, whatever the tag is. */
  lemma {:induction false} ParseTagWithoutIdentifier(v: DotnetVersion, tag: string)
    requires 0 <= v.major && 0 <= v.minor && 0 <= v.patch
    requires '-' !in tag && '.' !in tag
    ensures Parse(ToString(v) + "-" + tag) == Failure(IndexOutOfRange)
  {
    SectionsOfRendering(v);
    assert ToString(v) + "-" + tag == ToString(v) + ['-'] + tag;
    SplitTwo(ToString(v), tag, '-');
    SplitWithoutSeparator(tag, '.');
    ParseIntToString(v.major);
    ParseIntToString(v.minor);
    ParseIntToString(v.patch);
  }
}
