/**
 * Publishing information about a snap (Types/SnapInfo.cs, Types/SnapPublisher.cs) and
 * how its version string is read as a .NET version.
 */
module SnapInfos {
  import opened Wrappers
  import opened DotNetText
  import opened DotnetVersions

  datatype SnapPublisher = SnapPublisher(id: string, username: string, displayName: string, validation: string)

  datatype SnapInfo = SnapInfo(
    name: string,
    version: string,
    revision: string,
    channel: string,
    publisher: SnapPublisher)

  /** The ApplicationException that wraps whatever Parse threw. */
  datatype SnapVersionFailure = CouldNotParse(message: string, inner: ParseFailure)

  /** The part of a snap version that names the .NET version: everything before "+git". */
  function DotnetPart(version: string): string {
    FirstPiece(version, "+git")
  }

  /**
   * `ParseVersionAsDotnetVersion`: parse the text before the first "+git"; any failure
   * becomes an ApplicationException naming the snap and its full version.
   */
  function ParseVersionAsDotnetVersion(snap: SnapInfo): (r: Result<DotnetVersion, SnapVersionFailure>)
    ensures r.Failure? ==>
      r.error.message == "Could not parse .NET version (" + snap.version + ") from snap " + snap.name
    ensures r.Success? ==> WellFormed(r.value)
  {
    match Parse(DotnetPart(snap.version))
    case Success(v) =>
      ParseWellFormed(DotnetPart(snap.version));
      Success(v)
    case Failure(e) =>
      Failure(CouldNotParse("Could not parse .NET version (" + snap.version + ") from snap " + snap.name, e))
  }

  /**
   * A git build suffix is ignored: "M.m.p+git<anything>" reads as M.m.p, and the
   * rest of the snap record plays no part.
   */
  lemma {:induction false} GitSuffixIgnored(snap: SnapInfo, v: DotnetVersion, build: string)
    requires 0 <= v.major && 0 <= v.minor && 0 <= v.patch
    requires snap.version == ToString(v) + "+git" + build
    ensures ParseVersionAsDotnetVersion(snap) == Success(Create(v.major, v.minor, v.patch))
  {
    assert '+' !in ToString(v);
    FirstPieceBefore(ToString(v), "+git", build);
    ParseToString(v);
  }

  /** A version without "+git" is parsed whole. */
  lemma WithoutGitSuffix(snap: SnapInfo)
    requires forall i :: !OccursAt(snap.version, "+git", i)
    ensures DotnetPart(snap.version) == snap.version
  {
  }
}
