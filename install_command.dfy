/**
 * The `install` command: the requested component is looked up in the remote list
 * by name (case folded) and by a version string, which is "latest", a major
 * version ("8"), a major and minor version ("8.0") or a full version; the one
 * found is installed.
 */
module InstallCommands {
  import opened Wrappers
  import opened DotNetText
  import opened DotnetVersions
  import opened ComponentRecords
  import opened Components
  import opened Outcomes
  import opened UpdateCommands

  // ---------------------------------------------------------------- MaxBy

  /**
   * `Where(keep).MaxBy(c => c.LatestVersion)` over the first `n` entries: the kept
   * entry of greatest latest version, the first one among equals (MaxBy only
   * replaces its candidate by a strictly greater one), or None when none is kept.
   */
  function FirstGreatestIn(rs: seq<ComponentRecord>, n: nat, keep: ComponentRecord -> bool): (r: Option<nat>)
    requires n <= |rs|
    ensures r.Some? ==> r.value < n && keep(rs[r.value])
    ensures r.None? <==> forall k :: 0 <= k < n ==> !keep(rs[k])
  {
    if n == 0 then None
    else
      var best := FirstGreatestIn(rs, n - 1, keep);
      if !keep(rs[n - 1]) then best
      else if best.None? || Greater(rs[n - 1].latestVersion, rs[best.value].latestVersion) then Some(n - 1)
      else best
  }

  /**
   * What FirstGreatestIn picks has a latest version no lower than that of any kept
   * entry, and strictly greater than that of every kept entry before it.
   */
  lemma {:induction false} FirstGreatestIsGreatest(rs: seq<ComponentRecord>, n: nat, keep: ComponentRecord -> bool)
    requires n <= |rs|
    ensures var r := FirstGreatestIn(rs, n, keep);
      r.Some? ==>
        && (forall k :: 0 <= k < n && keep(rs[k]) ==> LessOrEqual(rs[k].latestVersion, rs[r.value].latestVersion))
        && (forall k :: 0 <= k < r.value && keep(rs[k]) ==> Less(rs[k].latestVersion, rs[r.value].latestVersion))
  {
    if n > 0 {
      FirstGreatestIsGreatest(rs, n - 1, keep);
      var best := FirstGreatestIn(rs, n - 1, keep);
      var last := rs[n - 1].latestVersion;
      if keep(rs[n - 1]) && best.Some? {
        var top := rs[best.value].latestVersion;
        CompareToAntisymmetric(last, top);
        if Greater(last, top) {
          forall k | 0 <= k < n - 1 && keep(rs[k]) ensures Less(rs[k].latestVersion, last) {
            CompareToTransitive(rs[k].latestVersion, top, last);
          }
        }
      } else if keep(rs[n - 1]) {
        CompareToSelf(last);
      }
    }
  }

  // ---------------------------------------------------------------- The lookup

  /** `c.Name.Equals(component, StringComparison.CurrentCultureIgnoreCase)` */
  predicate Named(r: ComponentRecord, component: string) {
    EqualsIgnoreCase(r.name, component)
  }

  /** The filter of "latest": the name only. */
  function ByName(component: string): ComponentRecord -> bool {
    (c: ComponentRecord) => Named(c, component)
  }

  /** The filter of a major version: the major version of the latest version, and the name. */
  function ByMajor(component: string, major: int): ComponentRecord -> bool {
    (c: ComponentRecord) => c.latestVersion.major == major && Named(c, component)
  }

  /** The filter of a major and minor version. */
  function ByMajorMinor(component: string, major: int, minor: int): ComponentRecord -> bool {
    (c: ComponentRecord) => c.latestVersion.major == major && c.latestVersion.minor == minor && Named(c, component)
  }

  /** What the lookup comes to: an index into the remote list, nothing, or a parse exception. */
  datatype Lookup = Found(index: nat) | NotFound | Unparsable(error: ParseFailure)

  function FoundOrNot(r: Option<nat>): Lookup {
    if r.Some? then Found(r.value) else NotFound
  }

  /** The position of the first named entry whose latest version equals `v` but for the revision. */
  function FirstEqual(rs: seq<ComponentRecord>, component: string, v: DotnetVersion): (r: Option<nat>)
    ensures r.Some? ==> r.value < |rs| && Named(rs[r.value], component) && EqualsIgnoringRevision(rs[r.value].latestVersion, v)
    ensures r.Some? ==> forall k :: 0 <= k < r.value ==> !(Named(rs[k], component) && EqualsIgnoringRevision(rs[k].latestVersion, v))
    ensures r.None? <==> forall k :: 0 <= k < |rs| ==> !(Named(rs[k], component) && EqualsIgnoringRevision(rs[k].latestVersion, v))
  {
    if rs == [] then None
    else if Named(rs[0], component) && EqualsIgnoringRevision(rs[0].latestVersion, v) then Some(0)
    else
      var r := FirstEqual(rs[1..], component, v);
      if r.Some? then Some(r.value + 1) else None
  }

  /**
   * The requested component. "latest" takes the named entry of greatest latest
   * version. Otherwise (MatchVersion): a blank string finds nothing; one character
   * is a major version; three characters are a major version, a separator and a
   * minor version; anything else is parsed as a full version, matched ignoring the
   * revision. The numbers are parsed inside the filters, lazily: nothing is parsed
   * for an empty list, the minor version only once an entry has the major version,
   * and the full version only once an entry has the name.
   */
  function Select(remote: seq<ComponentRecord>, component: string, version: string): (r: Lookup)
    ensures r.Found? ==> r.index < |remote| && Named(remote[r.index], component)
  {
    if version == "latest" then
      FoundOrNot(FirstGreatestIn(remote, |remote|, ByName(component)))
    else if IsWhiteSpaceOnly(version) then NotFound
    else if |version| == 1 then
      if remote == [] then NotFound
      else match ParseInt32(version)
        case Failure(e) => Unparsable(e)
        case Success(major) =>
          FoundOrNot(FirstGreatestIn(remote, |remote|, ByMajor(component, major)))
    else if |version| == 3 then
      if remote == [] then NotFound
      else match ParseInt32(version[..1])
        case Failure(e) => Unparsable(e)
        case Success(major) =>
          if forall k :: 0 <= k < |remote| ==> remote[k].latestVersion.major != major then NotFound
          else match ParseInt32(version[2..3])
            case Failure(e) => Unparsable(e)
            case Success(minor) =>
              FoundOrNot(FirstGreatestIn(remote, |remote|, ByMajorMinor(component, major, minor)))
    else if forall k :: 0 <= k < |remote| ==> !Named(remote[k], component) then NotFound
    else match Parse(version)
      case Failure(e) => Unparsable(e)
      case Success(v) => FoundOrNot(FirstEqual(remote, component, v))
  }

  /**
   * "latest" never fails to parse; it finds nothing exactly when no entry has the
   * name, and otherwise the first named entry of greatest latest version.
   */
  lemma SelectLatest(remote: seq<ComponentRecord>, component: string)
    ensures var r := Select(remote, component, "latest");
      && !r.Unparsable?
      && (r.NotFound? <==> forall k :: 0 <= k < |remote| ==> !Named(remote[k], component))
      && (r.Found? ==>
        && (forall k :: 0 <= k < |remote| && Named(remote[k], component) ==>
          LessOrEqual(remote[k].latestVersion, remote[r.index].latestVersion))
        && (forall k :: 0 <= k < r.index && Named(remote[k], component) ==>
          Less(remote[k].latestVersion, remote[r.index].latestVersion)))
  {
    FirstGreatestIsGreatest(remote, |remote|, ByName(component));
  }

  /**
   * A major version alone: the first named entry of greatest latest version among
   * those with that major version; a character that is not a digit fails to parse
   * unless the list is empty.
   */
  lemma SelectMajor(remote: seq<ComponentRecord>, component: string, version: string)
    requires |version| == 1 && !IsWhiteSpaceOnly(version)
    ensures var r := Select(remote, component, version);
      && (remote == [] ==> r.NotFound?)
      && (remote != [] && ParseInt32(version).Failure? ==> r == Unparsable(ParseInt32(version).error))
      && (r.Found? ==>
        var major := ParseInt32(version).value;
        && remote[r.index].latestVersion.major == major
        && (forall k :: 0 <= k < |remote| && remote[k].latestVersion.major == major && Named(remote[k], component) ==>
          LessOrEqual(remote[k].latestVersion, remote[r.index].latestVersion)))
  {
    assert version != "latest";
    if remote != [] && ParseInt32(version).Success? {
      var major := ParseInt32(version).value;
      FirstGreatestIsGreatest(remote, |remote|, ByMajor(component, major));
    }
  }

  /**
   * A major and a minor version: the first named entry of greatest latest version
   * among those with both; the minor version is only read once some entry has the
   * major version.
   */
  lemma SelectMajorMinor(remote: seq<ComponentRecord>, component: string, version: string)
    requires |version| == 3 && !IsWhiteSpaceOnly(version)
    ensures var r := Select(remote, component, version);
      && (remote == [] ==> r.NotFound?)
      && (remote != [] && ParseInt32(version[..1]).Failure? ==> r == Unparsable(ParseInt32(version[..1]).error))
      && (r.Found? ==>
        var major, minor := ParseInt32(version[..1]).value, ParseInt32(version[2..3]).value;
        && remote[r.index].latestVersion.major == major && remote[r.index].latestVersion.minor == minor
        && (forall k :: (0 <= k < |remote| && remote[k].latestVersion.major == major &&
            remote[k].latestVersion.minor == minor && Named(remote[k], component)) ==>
          LessOrEqual(remote[k].latestVersion, remote[r.index].latestVersion)))
  {
    assert version != "latest";
    if Select(remote, component, version).Found? {
      var major, minor := ParseInt32(version[..1]).value, ParseInt32(version[2..3]).value;
      FirstGreatestIsGreatest(remote, |remote|, ByMajorMinor(component, major, minor));
    }
  }

  /** A blank version string finds nothing. */
  lemma SelectBlank(remote: seq<ComponentRecord>, component: string, version: string)
    requires IsWhiteSpaceOnly(version)
    ensures Select(remote, component, version) == NotFound
  {
    assert !IsWhiteSpace("latest"[0]);
  }

  /** A rendered version is neither blank, nor "latest", nor one or three characters long. */
  lemma RenderingIsFull(v: DotnetVersion)
    ensures var text := ToString(v);
      !IsWhiteSpaceOnly(text) && text != "latest" && |text| >= 5
  {
    var text := ToString(v);
    var m := |IntToString(v.major)|;
    assert text[m] == '.' && !IsWhiteSpace(text[m]);
    assert '.' !in "latest";
  }

  /**
   * Requesting a stable latest version by its rendering finds a named entry with
   * that latest version (but for the revision), at or before the one rendered.
   */
  lemma SelectRendered(remote: seq<ComponentRecord>, component: string, i: nat)
    requires i < |remote| && Named(remote[i], component)
    requires var v := remote[i].latestVersion; v.(revision := None) == Create(v.major, v.minor, v.patch)
    ensures var v := remote[i].latestVersion;
      var r := Select(remote, component, ToString(v));
      && r.Found? && r.index <= i
      && EqualsIgnoringRevision(remote[r.index].latestVersion, v)
  {
    var v := remote[i].latestVersion;
    RenderingIsFull(v);
    ParseToString(v);
    var r := FirstEqual(remote, component, Create(v.major, v.minor, v.patch));
    assert r.Some?;
  }

  // ---------------------------------------------------------------- The handler

  /**
   * The install command. The install directory is looked up (an unset variable
   * escapes as an exception) and must exist (exit code -1 otherwise); the manifest
   * is loaded with the archive flag; a lookup that finds nothing exits with -1 and
   * one whose parse throws lets the exception escape; otherwise the component found
   * is installed, and an installer exception becomes its exit code.
   */
  method Handle(manifest: ManifestService, response: RemoteResponse, directoryExists: bool, component: string,
                version: string, limits: Limits, now: int, ghost rank: string -> nat)
    returns (outcome: Outcome)
    requires RankedRecords(LoadRemote(response), rank)
    modifies manifest, manifest.host
    ensures manifest.installLocation.None? ==> outcome == Crashed(InstallLocationUnset) && unchanged(manifest, manifest.host)
    ensures manifest.installLocation.Some? && !directoryExists ==>
      outcome == Exited(NotFoundCode) && unchanged(manifest, manifest.host)
    ensures manifest.installLocation.Some? && directoryExists ==>
      var lookup := Select(Stripped(LoadRemote(response)), component, version);
      && (lookup.NotFound? ==> outcome == Exited(NotFoundCode) && unchanged(manifest.host))
      && (lookup.Unparsable? ==> outcome == Unparsed(lookup.error) && unchanged(manifest.host))
      && (lookup.Found? ==> InstalledAsFound(LoadedEntry(LoadRemote(response), LoadLocal(old(manifest.host.manifestFile)), lookup.index),
                                             LoadRemote(response), limits, manifest.host.architecture,
                                             old(manifest.host.trace), manifest.host.trace, outcome))
  {
    var location := manifest.DotnetInstallLocation();
    if location.Failure? {
      return Exit(location.error);
    }
    if !directoryExists {
      return Exited(NotFoundCode);
    }
    manifest.Initialize(response, true);
    RemoteReleasesAfterLoad(manifest.remote, manifest.merged, LoadRemote(response), LoadLocal(manifest.host.manifestFile));
    var lookup := Select(Releases(manifest.remote), component, version);
    match lookup
    case NotFound =>
      outcome := Exited(NotFoundCode);
    case Unparsable(e) =>
      outcome := Unparsed(e);
    case Found(i) =>
      outcome := InstallFound(manifest, i, response, limits, now, rank);
  }

  /** The remote components, installations aside, are the remote entries they were loaded from. */
  lemma RemoteReleasesAfterLoad(remote: seq<Component>, merged: seq<Component>, remoteRecords: seq<ComponentRecord>,
                                localRecords: seq<ComponentRecord>)
    requires |remote| == |remoteRecords|
    requires |merged| >= |remote| && merged[..|remote|] == remote
    requires Snapshot(merged) == Merge(remoteRecords, localRecords)
    ensures Releases(remote) == Stripped(remoteRecords)
  {
    MergeExtendsRemote(remoteRecords, localRecords);
    forall i | 0 <= i < |remote| ensures Releases(remote)[i] == Stripped(remoteRecords)[i] {
      assert merged[i] == remote[i];
      assert SameButInstallation(Snapshot(merged)[i], remoteRecords[i]);
    }
  }

  /** The remote entry at `i` as loaded: with the installation the local list lends it, if any. */
  function LoadedEntry(remote: seq<ComponentRecord>, local: seq<ComponentRecord>, i: nat): (r: ComponentRecord)
    requires i < |remote|
    ensures SameButInstallation(r, remote[i])
  {
    MergeExtendsRemote(remote, local);
    Merge(remote, local)[i]
  }

  /**
   * How the installation of the entry found ends: an unsupported architecture or
   * the limits fail it before anything is done; otherwise it starts with the
   * entry's InstallationStarted event, or AlreadyInstalled when the local manifest
   * lists it; a failure ends the command through the exception handler.
   */
  ghost predicate InstalledAsFound(found: ComponentRecord, remote: seq<ComponentRecord>, limits: Limits,
                                   architecture: Architecture, before: seq<Effect>, after: seq<Effect>, outcome: Outcome) {
    && (DebArchitecture(architecture).Failure? ==>
      outcome == Exited(UnsupportedArchitectureCode) && after == before)
    && (DebArchitecture(architecture).Success? && CanInstall(found.version, limits) == Success(false) ==>
      outcome == Exited(VersionTooHighCode) && after == before)
    && (DebArchitecture(architecture).Success? && CanInstall(found.version, limits).Failure? ==>
      outcome == Crashed(NoLimitForFeatureBand) && after == before)
    && (DebArchitecture(architecture).Success? && CanInstall(found.version, limits) == Success(true) ==>
      && |after| > |before| && after[..|before|] == before
      && after[|before|] == if found.installation.None? then InstallationStarted(found.key) else AlreadyInstalled(found.key))
    && (outcome.Crashed? && outcome.failure.DependencyMissing? ==> outcome.failure.key !in Keys(remote))
    && (outcome == Completed ==>
      && (forall d :: d in found.dependencies ==> d in Keys(remote))
      && exists landmark, starts ::
        OwnWorkThenDependencies(after, |before|, found.key, found.installation.Some?, found.dependencies, landmark, starts))
  }

  /** A key is in the loaded remote components exactly when it is in the remote entries they were loaded from. */
  lemma KeyFoundAfterLoad(remote: seq<Component>, remoteRecords: seq<ComponentRecord>, key: string)
    requires Releases(remote) == Stripped(remoteRecords)
    ensures IndexOfKey(remote, key) < |remote| <==> key in Keys(remoteRecords)
  {
    var p := IndexOfKey(remote, key);
    if p < |remote| {
      assert Releases(remote)[p].key == remoteRecords[p].key;
      assert remoteRecords[p] in remoteRecords;
    }
    if key in Keys(remoteRecords) {
      var r :| r in remoteRecords && r.key == key;
      var i :| 0 <= i < |remoteRecords| && remoteRecords[i] == r;
      assert Releases(remote)[i].key == remoteRecords[i].key;
    }
  }

  /** Installs the remote component at `i`, just loaded. */
  method InstallFound(manifest: ManifestService, i: nat, response: RemoteResponse, limits: Limits, now: int,
                      ghost rank: string -> nat)
    returns (outcome: Outcome)
    requires RankedRecords(LoadRemote(response), rank)
    requires |manifest.remote| == |LoadRemote(response)| && i < |manifest.remote|
    requires |manifest.merged| >= |manifest.remote| && manifest.merged[..|manifest.remote|] == manifest.remote
    requires Snapshot(manifest.merged) == Merge(LoadRemote(response), LoadLocal(manifest.host.manifestFile))
    modifies manifest, manifest.host, set c | c in manifest.local + manifest.remote
    ensures InstalledAsFound(old(Snapshot(manifest.merged))[i], LoadRemote(response), limits, manifest.host.architecture,
                             old(manifest.host.trace), manifest.host.trace, outcome)
  {
    var found := manifest.remote[i];
    assert found == manifest.merged[i];
    RankedAfterLoad(manifest.remote, manifest.merged, LoadRemote(response), LoadLocal(manifest.host.manifestFile), rank);
    RemoteReleasesAfterLoad(manifest.remote, manifest.merged, LoadRemote(response), LoadLocal(manifest.host.manifestFile));
    ghost var bound := RankAbove(found.dependencies, rank);
    ghost var landmark, starts;
    var failure;
    failure, landmark, starts := found.Install(limits, manifest, now, rank, bound);
    outcome := if failure.Some? then Exit(failure.value) else Completed;
    if failure.Some? && failure.value.DependencyMissing? {
      KeyFoundAfterLoad(manifest.remote, LoadRemote(response), failure.value.key);
    }
    if failure.None? {
      forall d | d in found.dependencies ensures d in Keys(LoadRemote(response)) {
        KeyFoundAfterLoad(manifest.remote, LoadRemote(response), d);
      }
    }
  }
}
