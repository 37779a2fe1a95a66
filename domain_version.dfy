/**
 * The older version type of the domain layer (Domain/Types/DotnetVersion.cs): only
 * "major.minor.patch", no preview information and no ordering.
 */
module DomainVersions {
  import opened Wrappers
  import opened DotNetText

  datatype DotnetVersion = DotnetVersion(major: Int32, minor: Int32, patch: Int32)

  function Section(sections: seq<string>, index: nat): Result<Int32, ParseFailure> {
    if index < |sections| then ParseInt32(sections[index]) else Failure(IndexOutOfRange)
  }

  /** `Parse`: the first three '.'-separated sections; any further sections are ignored. */
  function Parse(version: string): Result<DotnetVersion, ParseFailure> {
    var sections := Split(version, '.');
    var major :- ParseInt32(sections[0]);
    var minor :- Section(sections, 1);
    var patch :- Section(sections, 2);
    Success(DotnetVersion(major, minor, patch))
  }

  function ToString(v: DotnetVersion): string {
    IntToString(v.major) + "." + IntToString(v.minor) + "." + IntToString(v.patch)
  }

  lemma RenderingSections(v: DotnetVersion)
    ensures Split(ToString(v), '.') == [IntToString(v.major), IntToString(v.minor), IntToString(v.patch)]
  {
    SplitThree(IntToString(v.major), IntToString(v.minor), IntToString(v.patch), '.');
  }

  /** Parsing the rendering of any version gives it back, negative numbers included. */
  lemma ParseToString(v: DotnetVersion)
    ensures Parse(ToString(v)) == Success(v)
  {
    RenderedSectionsParse(v);
  }

  lemma RenderedSectionsParse(v: DotnetVersion)
    ensures var sections := Split(ToString(v), '.');
      && ParseInt32(sections[0]) == Success(v.major)
      && Section(sections, 1) == Success(v.minor)
      && Section(sections, 2) == Success(v.patch)
  {
    RenderingSections(v);
    var sections := Split(ToString(v), '.');
    assert sections[0] == IntToString(v.major) && sections[1] == IntToString(v.minor) && sections[2] == IntToString(v.patch);
    ParseIntToString(v.major);
    ParseIntToString(v.minor);
    ParseIntToString(v.patch);
  }

  /** Sections after the third are ignored, whatever they contain. */
  lemma ParseIgnoresExtraSections(v: DotnetVersion, extra: string)
    requires '.' !in extra
    ensures Parse(ToString(v) + "." + extra) == Success(v)
  {
    RenderingSections(v);
    SplitAround(ToString(v), extra, '.');
    SplitWithoutSeparator(extra, '.');
    ParseIntToString(v.major);
    ParseIntToString(v.minor);
    ParseIntToString(v.patch);
  }

  lemma NumberWithTagIsNotANumber(n: int)
    requires 0 <= n
    ensures ParseInt32(IntToString(n) + "-preview") == Failure(FormatError)
  {
    var d := IntToString(n);
    var t := d + "-preview";
    assert t[0] == d[0] && IsDigit(t[0]);
    assert TrimStart(t) == t;
    assert TrimEnd(t) == t;
    assert t[|d|] == '-';
    assert !AllDigits(t);
  }

  /** A preview suffix is not understood: it ends up inside the patch section. */
  lemma ParseRejectsPreviewSuffix(v: DotnetVersion, identifier: string)
    requires 0 <= v.patch && '.' !in identifier
    ensures Parse(ToString(v) + "-preview." + identifier) == Failure(FormatError)
  {
    PreviewSuffixSections(v, identifier);
    ParseIntToString(v.major);
    ParseIntToString(v.minor);
    NumberWithTagIsNotANumber(v.patch);
  }

  lemma PreviewSuffixSections(v: DotnetVersion, identifier: string)
    requires '.' !in identifier
    ensures Split(ToString(v) + "-preview." + identifier, '.')
         == [IntToString(v.major), IntToString(v.minor), IntToString(v.patch) + "-preview", identifier]
  {
    var patchSection := IntToString(v.patch) + "-preview";
    var head := IntToString(v.major) + "." + IntToString(v.minor) + "." + patchSection;
    PreviewSuffixText(v, identifier);
    SplitThree(IntToString(v.major), IntToString(v.minor), patchSection, '.');
    SplitAround(head, identifier, '.');
    SplitWithoutSeparator(identifier, '.');
  }

  lemma PreviewSuffixText(v: DotnetVersion, identifier: string)
    ensures var patchSection := IntToString(v.patch) + "-preview";
      && ToString(v) + "-preview." + identifier
         == IntToString(v.major) + "." + IntToString(v.minor) + "." + patchSection + ['.'] + identifier
      && '.' !in patchSection
  {
  }

  /** `Equals`: false for null, otherwise the three numbers are equal. */
  function Equals(v: DotnetVersion, other: Option<DotnetVersion>): (r: bool)
    ensures r <==> other == Some(v)
  {
    other.Some? && v.major == other.value.major && v.minor == other.value.minor && v.patch == other.value.patch
  }

  /** `lhs == rhs`: true for two nulls, false for one null, otherwise Equals. */
  function EqualsOperator(lhs: Option<DotnetVersion>, rhs: Option<DotnetVersion>): (r: bool)
    ensures r <==> lhs == rhs
  {
    if lhs.None? then rhs.None? else Equals(lhs.value, rhs)
  }

  /** `lhs != rhs` */
  function NotEqualsOperator(lhs: Option<DotnetVersion>, rhs: Option<DotnetVersion>): (r: bool)
    ensures r <==> lhs != rhs
  {
    !EqualsOperator(lhs, rhs)
  }
}
