/**
 * The installer's core objects: a Component (Models/Component.cs), whose only
 * mutable property is its Installation, and the manifest service
 * (Services/Implementations/ManifestService.cs and ManifestService.Private.cs)
 * holding the local, remote and merged lists of components.
 *
 * The file service, the event listeners and the console are one Host object: the
 * files that exist, the lines of the files the installer reads, the machine's
 * architecture and a trace of everything observable, in order. Downloading and
 * extracting packages are trace entries, not file-system changes.
 */
module Components {
  import opened Wrappers
  import opened DotNetText
  import opened DotnetVersions
  import opened ComponentRecords

  // Error codes of Models/Error.cs.
  const NeedsSudoCode: int := 10
  const VersionTooHighCode: int := 11
  const UnsupportedArchitectureCode: int := 12

  datatype Architecture = X64 | Arm64 | OtherArchitecture(name: string)

  /** The highest installable runtime, and the highest SDK of each feature band. */
  datatype Limits = Limits(runtime: WellFormedVersion, sdk: seq<WellFormedVersion>)

  /** The location a package is downloaded from: a file name relative to a base URL. */
  datatype DebUrl = DebUrl(baseUrl: string, fileName: string)

  /** What can be observed of the installer's work, in the order it happens. */
  datatype Effect =
    | InstallationStarted(key: string)
    | InstallingPackageChanged(key: string, package: Package)
    | Downloaded(url: DebUrl, directory: string)
    | Extracted(url: DebUrl, directory: string)
    | DeletedDownload(url: DebUrl)
    | InstallationFinished(key: string)
    | AlreadyInstalled(key: string)
    | DeletedFile(path: string)
    | RemovedEmptyDirectories(directory: string)
    | Saved(local: seq<ComponentRecord>)

  /** The exceptions the core throws. */
  datatype Failure =
    | UnsupportedArchitecture(architecture: Architecture)
    | VersionTooHigh(limit: DotnetVersion)
    | NoLimitForFeatureBand          // Sdk.First finds no limit with the feature band
    | InstallLocationUnset           // DOTNET_INSTALL_DIR is not set
    | RegistrationMissing(path: string)
    | DependencyMissing(key: string) // Remote.First finds no component with the key

  /** The exceptions of one component's own file-system work (Uninstall and the package loop). */
  predicate IsLocalFailure(failure: Failure) {
    failure.InstallLocationUnset? || failure.RegistrationMissing?
  }

  /** The exit code of a failure that is an ExceptionBase; the others are not caught. */
  function ErrorCode(failure: Failure): (code: Option<int>)
    ensures code.Some? <==> failure.UnsupportedArchitecture? || failure.VersionTooHigh?
  {
    match failure
    case UnsupportedArchitecture(_) => Some(UnsupportedArchitectureCode)
    case VersionTooHigh(_) => Some(VersionTooHighCode)
    case _ => None
  }

  /** The state of the local manifest file: absent, or holding JSON null or a list. */
  datatype StoredManifest = Missing | Stored(content: Option<seq<ComponentRecord>>)

  /** The answer to the request for the remote manifest. */
  datatype RemoteResponse = Unsuccessful | Successful(content: Option<seq<ComponentRecord>>)

  /** LoadLocal: a missing file or a null document is an empty list. */
  function LoadLocal(file: StoredManifest): (records: seq<ComponentRecord>)
    ensures file.Missing? || file.content.None? ==> records == []
    ensures file.Stored? && file.content.Some? ==> records == file.content.value
  {
    if file.Stored? && file.content.Some? then file.content.value else []
  }

  /** LoadRemote: an unsuccessful response or a null body is an empty list. */
  function LoadRemote(response: RemoteResponse): (records: seq<ComponentRecord>)
    ensures response.Unsuccessful? || response.content.None? ==> records == []
    ensures response.Successful? && response.content.Some? ==> records == response.content.value
  {
    if response.Successful? && response.content.Some? then response.content.value else []
  }

  // ---------------------------------------------------------------- Limits

  /** The Debian architecture name Install puts into package file names. */
  function DebArchitecture(architecture: Architecture): (r: Result<string, Failure>)
    ensures r.Success? <==> architecture.X64? || architecture.Arm64?
    ensures r.Failure? ==> r.error == UnsupportedArchitecture(architecture)
    ensures architecture.X64? ==> r == Success("amd64")
    ensures architecture.Arm64? ==> r == Success("arm64")
  {
    match architecture
    case X64 => Success("amd64")
    case Arm64 => Success("arm64")
    case OtherArchitecture(_) => Failure(UnsupportedArchitecture(architecture))
  }

  /** The position of the first SDK limit of the feature band, or |sdk|. */
  function BandLimitIndex(sdk: seq<WellFormedVersion>, band: Option<Int32>): (p: nat)
    ensures p <= |sdk|
    ensures p < |sdk| ==> FeatureBand(sdk[p]) == band
    ensures forall i :: 0 <= i < p ==> FeatureBand(sdk[i]) != band
  {
    if sdk == [] then 0
    else if FeatureBand(sdk[0]) == band then 0
    else 1 + BandLimitIndex(sdk[1..], band)
  }

  /**
   * The limit a version is held to: the runtime limit for a runtime, the first SDK
   * limit with the same feature band for an SDK (First throws when there is none).
   */
  function LimitFor(version: WellFormedVersion, limits: Limits): (r: Result<WellFormedVersion, Failure>)
  {
    if IsRuntime(version) then Success(limits.runtime)
    else
      var p := BandLimitIndex(limits.sdk, FeatureBand(version));
      if p == |limits.sdk| then Failure(NoLimitForFeatureBand) else Success(limits.sdk[p])
  }

  /** CanInstall: whether the version is at most its limit. */
  function CanInstall(version: WellFormedVersion, limits: Limits): (r: Result<bool, Failure>)
    ensures IsRuntime(version) ==> r == Success(LessOrEqual(version, limits.runtime))
    ensures IsSdk(version) ==>
      (r.Success? <==> exists i :: 0 <= i < |limits.sdk| && FeatureBand(limits.sdk[i]) == FeatureBand(version))
    ensures IsSdk(version) && r.Success? ==>
      exists i :: 0 <= i < |limits.sdk| && FeatureBand(limits.sdk[i]) == FeatureBand(version)
        && (forall k :: 0 <= k < i ==> FeatureBand(limits.sdk[k]) != FeatureBand(version))
        && r.value == LessOrEqual(version, limits.sdk[i])
    ensures r.Failure? ==> r.error == NoLimitForFeatureBand
  {
    var limit :- LimitFor(version, limits);
    Success(LessOrEqual(version, limit))
  }

  /** A version that is its own limit can be installed. */
  lemma CanInstallAtLimit(version: WellFormedVersion, limits: Limits)
    requires IsRuntime(version) ==> version == limits.runtime
    requires IsSdk(version) ==> version in limits.sdk
    requires IsSdk(version) ==> forall w :: w in limits.sdk && FeatureBand(w) == FeatureBand(version) ==> w == version
    ensures CanInstall(version, limits) == Success(true)
  {
    if IsSdk(version) {
      var p := BandLimitIndex(limits.sdk, FeatureBand(version));
      var i :| 0 <= i < |limits.sdk| && limits.sdk[i] == version;
      assert p <= i;
      assert limits.sdk[p] == version;
    }
    CompareToSelf(version);
  }

  /** Lowering the version keeps it installable under the same limit. */
  lemma CanInstallDownward(lower: WellFormedVersion, version: WellFormedVersion, limits: Limits)
    requires CanInstall(version, limits) == Success(true)
    requires LessOrEqual(lower, version)
    requires IsRuntime(lower) == IsRuntime(version) && FeatureBand(lower) == FeatureBand(version)
    ensures CanInstall(lower, limits) == Success(true)
  {
    var limit := LimitFor(version, limits).value;
    assert LimitFor(lower, limits) == LimitFor(version, limits);
    CompareToTransitive(lower, version, limit);
  }

  // ---------------------------------------------------------------- Replacing a previous version

  /**
   * The "previous component" test of Install, with C#'s precedence: `&&` binds
   * tighter than `?:`, so the name comparison only selects the branch, and a
   * component of another name is previous whenever it is lower in the same
   * feature band (two runtimes share the absent band).
   */
  predicate IsPrevious(c: Component, name: string, version: WellFormedVersion) {
    if EqualsIgnoreCase(c.name, name) && IsRuntime(c.version) then Less(c.version, version)
    else FeatureBand(c.version) == FeatureBand(version) && Less(c.version, version)
  }

  /** FirstOrDefault of the test over the local list: a position, or |cs| for null. */
  function PreviousIndex(cs: seq<Component>, name: string, version: WellFormedVersion): (p: nat)
    ensures p <= |cs|
    ensures p < |cs| ==> IsPrevious(cs[p], name, version)
    ensures forall i :: 0 <= i < p ==> !IsPrevious(cs[i], name, version)
  {
    if cs == [] then 0
    else if IsPrevious(cs[0], name, version) then 0
    else
      var p := PreviousIndex(cs[1..], name, version);
      assert forall i :: 1 <= i < 1 + p ==> cs[i] == cs[1..][i - 1];
      1 + p
  }

  /** A previous component is always strictly lower, so it is never the component itself. */
  lemma PreviousIsLower(c: Component, name: string, version: WellFormedVersion)
    requires IsPrevious(c, name, version)
    ensures Less(c.version, version) && c.version != version
  {
    CompareToSelf(version);
  }

  /**
   * What the precedence means: any lower runtime counts as previous for a runtime,
   * whatever its name and whatever its major version.
   */
  lemma AnyLowerRuntimeIsPrevious(c: Component, name: string, version: WellFormedVersion)
    requires IsRuntime(c.version) && IsRuntime(version) && Less(c.version, version)
    ensures IsPrevious(c, name, version)
  {
  }

  /** Within an SDK's feature band, a lower version counts as previous regardless of name. */
  lemma LowerInBandIsPrevious(c: Component, name: string, version: WellFormedVersion)
    requires IsSdk(c.version) && FeatureBand(c.version) == FeatureBand(version) && Less(c.version, version)
    ensures IsPrevious(c, name, version)
  {
  }

  // ---------------------------------------------------------------- Installing packages

  /** The package file name `<name>_<version>_<architecture>.deb`, relative to the base URL. */
  function PackageUrl(baseUrl: string, p: Package, architecture: string): DebUrl {
    DebUrl(baseUrl, p.name + "_" + p.version + "_" + architecture + ".deb")
  }

  /** The work on one package: the event, the download, the extraction, the deletion. */
  function PackageWork(key: string, baseUrl: string, architecture: string, directory: string, p: Package): seq<Effect> {
    var url := PackageUrl(baseUrl, p, architecture);
    [InstallingPackageChanged(key, p), Downloaded(url, directory), Extracted(url, directory), DeletedDownload(url)]
  }

  /** The work on the packages, in order. */
  function PackagesWork(key: string, baseUrl: string, architecture: string, directory: string, ps: seq<Package>): seq<Effect>
  {
    if ps == [] then [] else
      PackagesWork(key, baseUrl, architecture, directory, ps[..|ps| - 1])
      + PackageWork(key, baseUrl, architecture, directory, ps[|ps| - 1])
  }

  /** The work on consecutive lists of packages is the concatenation of their work. */
  lemma {:induction false} PackagesWorkAppend(key: string, baseUrl: string, architecture: string, directory: string, a: seq<Package>, b: seq<Package>)
    ensures PackagesWork(key, baseUrl, architecture, directory, a + b)
      == PackagesWork(key, baseUrl, architecture, directory, a) + PackagesWork(key, baseUrl, architecture, directory, b)
    decreases |b|
  {
    if b == [] {
      assert a + b == a;
    } else {
      var init := b[..|b| - 1];
      assert (a + b)[..|a + b| - 1] == a + init;
      assert (a + b)[|a + b| - 1] == b[|b| - 1];
      PackagesWorkAppend(key, baseUrl, architecture, directory, a, init);
    }
  }

  /**
   * Each package's work, starting with its InstallingPackageChanged event, comes
   * after the work on the packages before it and before the work on the packages
   * after it; four effects per package.
   */
  lemma PackagesWorkInOrder(key: string, baseUrl: string, architecture: string, directory: string, ps: seq<Package>, i: nat)
    requires i < |ps|
    ensures PackagesWork(key, baseUrl, architecture, directory, ps)
      == PackagesWork(key, baseUrl, architecture, directory, ps[..i])
        + PackageWork(key, baseUrl, architecture, directory, ps[i])
        + PackagesWork(key, baseUrl, architecture, directory, ps[i + 1..])
    ensures |PackagesWork(key, baseUrl, architecture, directory, ps)| == 4 * |ps|
  {
    assert ps == ps[..i] + [ps[i]] + ps[i + 1..];
    PackagesWorkAppend(key, baseUrl, architecture, directory, ps[..i] + [ps[i]], ps[i + 1..]);
    PackagesWorkAppend(key, baseUrl, architecture, directory, ps[..i], [ps[i]]);
    assert PackagesWork(key, baseUrl, architecture, directory, [ps[i]])
      == PackageWork(key, baseUrl, architecture, directory, ps[i]) by {
      assert [ps[i]][..0] == [];
    }
    PackagesWorkLength(key, baseUrl, architecture, directory, ps);
  }

  lemma {:induction false} PackagesWorkLength(key: string, baseUrl: string, architecture: string, directory: string, ps: seq<Package>)
    ensures |PackagesWork(key, baseUrl, architecture, directory, ps)| == 4 * |ps|
    decreases |ps|
  {
    if ps != [] {
      PackagesWorkLength(key, baseUrl, architecture, directory, ps[..|ps| - 1]);
    }
  }

  // ---------------------------------------------------------------- Uninstalling packages

  /** The registration file listing what a package's installation created. */
  function RegistrationFile(directory: string, p: Package): string {
    CombinePath(directory, p.name + ".files")
  }

  /** The files after removing packages, the effects so far, and the exception, if any. */
  datatype Removal = Removal(files: set<string>, effects: seq<Effect>, failure: Option<Failure>)

  /**
   * Removing one package: its registration file must exist; then every file it
   * lists and the registration file itself are deleted. After an exception
   * nothing more happens.
   */
  function RemovePackage(host: Host, directory: string, before: Removal, p: Package): Removal {
    if before.failure.Some? then before
    else
      var registration := RegistrationFile(directory, p);
      if registration !in before.files then before.(failure := Some(RegistrationMissing(registration)))
      else
        var listed := host.Lines(registration);
        Removal(before.files - (set path | path in listed) - {registration},
                before.effects + Deletions(listed) + [DeletedFile(registration)], None)
  }

  /** Removing the packages in order, from the given files. */
  function RemovePackages(host: Host, directory: string, files: set<string>, ps: seq<Package>): Removal {
    if ps == [] then Removal(files, [], None)
    else RemovePackage(host, directory, RemovePackages(host, directory, files, ps[..|ps| - 1]), ps[|ps| - 1])
  }

  /** Removal only deletes, and every deletion it reports is of a file that is gone. */
  predicate OnlyDeletes(files: set<string>, r: Removal) {
    r.files <= files && forall e :: e in r.effects ==> e.DeletedFile? && e.path !in r.files
  }

  lemma RemovePackageDeletes(host: Host, directory: string, files: set<string>, before: Removal, p: Package)
    requires OnlyDeletes(files, before)
    ensures OnlyDeletes(files, RemovePackage(host, directory, before, p))
  {
    var registration := RegistrationFile(directory, p);
    if before.failure.None? && registration in before.files {
      var listed := host.Lines(registration);
      var after := RemovePackage(host, directory, before, p);
      var deletions := Deletions(listed) + [DeletedFile(registration)];
      assert after.effects == before.effects + deletions;
      forall e | e in deletions ensures e.DeletedFile? && e.path !in after.files {
        var k :| 0 <= k < |deletions| && deletions[k] == e;
        if k < |listed| {
          assert e == DeletedFile(listed[k]);
        }
      }
    }
  }

  /**
   * Uninstalling the packages only deletes files, and every deletion it reports is
   * of a file that is gone. It succeeds only if every registration file existed to
   * begin with, and then none of them is left; a failure names the registration
   * file of one of the packages.
   */
  lemma {:induction false} RemovePackagesDeletes(host: Host, directory: string, files: set<string>, ps: seq<Package>)
    ensures OnlyDeletes(files, RemovePackages(host, directory, files, ps))
    ensures RemovePackages(host, directory, files, ps).failure.None? ==>
      forall p :: p in ps ==>
        RegistrationFile(directory, p) in files && RegistrationFile(directory, p) !in RemovePackages(host, directory, files, ps).files
    ensures RemovePackages(host, directory, files, ps).failure.Some? ==>
      exists p :: p in ps && RemovePackages(host, directory, files, ps).failure == Some(RegistrationMissing(RegistrationFile(directory, p)))
    decreases |ps|
  {
    if ps != [] {
      var init := ps[..|ps| - 1];
      var last := ps[|ps| - 1];
      RemovePackagesDeletes(host, directory, files, init);
      var before := RemovePackages(host, directory, files, init);
      var after := RemovePackages(host, directory, files, ps);
      assert after == RemovePackage(host, directory, before, last);
      RemovePackageDeletes(host, directory, files, before, last);
      if after.failure.None? {
        forall p | p in ps
          ensures RegistrationFile(directory, p) in files && RegistrationFile(directory, p) !in after.files
        {
          if p != last {
            assert p in init;
          }
        }
      } else if before.failure.None? {
        assert after.failure == Some(RegistrationMissing(RegistrationFile(directory, last)));
      } else {
        var p :| p in init && before.failure == Some(RegistrationMissing(RegistrationFile(directory, p)));
        assert p in ps;
      }
    }
  }

  /** The package loop of Uninstall, against its specification. */
  method RemoveAllPackages(host: Host, directory: string, ps: seq<Package>) returns (failure: Option<Failure>)
    modifies host
    ensures failure == RemovePackages(host, directory, old(host.files), ps).failure
    ensures failure.Some? ==> failure.value.RegistrationMissing?
    ensures host.files == RemovePackages(host, directory, old(host.files), ps).files
    ensures host.trace == old(host.trace) + RemovePackages(host, directory, old(host.files), ps).effects
    ensures host.manifestFile == old(host.manifestFile)
  {
    ghost var files0 := host.files;
    ghost var trace0 := host.trace;
    var i := 0;
    while i < |ps|
      invariant 0 <= i <= |ps|
      invariant RemovePackages(host, directory, files0, ps[..i]).failure.None?
      invariant host.files == RemovePackages(host, directory, files0, ps[..i]).files
      invariant host.trace == trace0 + RemovePackages(host, directory, files0, ps[..i]).effects
      invariant host.manifestFile == old(host.manifestFile)
    {
      RemovePackagesStep(host, directory, files0, ps, i);
      var failed := RemoveOnePackage(host, directory, trace0, RemovePackages(host, directory, files0, ps[..i]), ps[i]);
      if failed {
        PrefixFailureSticks(host, directory, files0, ps, i + 1);
        return Some(RegistrationMissing(RegistrationFile(directory, ps[i])));
      }
      i := i + 1;
    }
    assert ps[..i] == ps;
    return None;
  }

  /** One pass of the package loop of Uninstall. */
  method RemoveOnePackage(host: Host, directory: string, ghost trace0: seq<Effect>, ghost before: Removal, p: Package)
    returns (failed: bool)
    requires before.failure.None?
    requires host.files == before.files && host.trace == trace0 + before.effects
    modifies host
    ensures failed <==> RemovePackage(host, directory, before, p).failure.Some?
    ensures failed ==> RemovePackage(host, directory, before, p).failure == Some(RegistrationMissing(RegistrationFile(directory, p)))
    ensures host.files == RemovePackage(host, directory, before, p).files
    ensures host.trace == trace0 + RemovePackage(host, directory, before, p).effects
    ensures host.manifestFile == old(host.manifestFile)
  {
    var registration := RegistrationFile(directory, p);
    if registration !in host.files {
      return true;
    }
    var listed := host.Lines(registration);
    host.DeleteFiles(listed + [registration]);
    DeletionsOfSnoc(listed, registration);
    return false;
  }

  lemma RemovePackagesStep(host: Host, directory: string, files: set<string>, ps: seq<Package>, i: nat)
    requires i < |ps|
    ensures RemovePackages(host, directory, files, ps[..i + 1])
      == RemovePackage(host, directory, RemovePackages(host, directory, files, ps[..i]), ps[i])
  {
    assert ps[..i + 1][..i] == ps[..i] && ps[..i + 1][i] == ps[i];
  }

  lemma DeletionsOfSnoc(paths: seq<string>, path: string)
    ensures Deletions(paths + [path]) == Deletions(paths) + [DeletedFile(path)]
    ensures (set p | p in paths + [path]) == (set p | p in paths) + {path}
  {
    assert (paths + [path])[..|paths|] == paths;
  }

  /** The entry with which Install's work on the component `key` begins, once both checks pass. */
  predicate Begins(e: Effect, key: string) {
    e == InstallationStarted(key) || e == AlreadyInstalled(key)
  }

  /**
   * The installations of `keys` begin in `trace`, in order, at the positions
   * `starts`, all at or after `from`.
   */
  ghost predicate StartsInOrder(trace: seq<Effect>, from: nat, keys: seq<string>, starts: seq<nat>) {
    && |starts| == |keys|
    && (forall k :: 0 <= k < |starts| ==> from <= starts[k] < |trace| && Begins(trace[starts[k]], keys[k]))
    && (forall k :: 0 < k < |starts| ==> starts[k - 1] < starts[k])
  }

  /**
   * The trace from `from` on shows the work on the component `key` first: the
   * notice that it was already installed, or the end of its installation, at
   * `landmark`; then the installations of its dependencies, in declared order.
   */
  ghost predicate OwnWorkThenDependencies(trace: seq<Effect>, from: nat, key: string, wasInstalled: bool,
                                          dependencies: seq<string>, landmark: nat, starts: seq<nat>)
  {
    && from <= landmark < |trace|
    && trace[landmark] == (if wasInstalled then AlreadyInstalled(key) else InstallationFinished(key))
    && StartsInOrder(trace, landmark + 1, dependencies, starts)
  }

  /** Appending to the trace keeps what it shows. */
  lemma StartsInOrderExtends(trace: seq<Effect>, longer: seq<Effect>, from: nat, keys: seq<string>, starts: seq<nat>)
    requires StartsInOrder(trace, from, keys, starts) && Extends(longer, trace)
    ensures StartsInOrder(longer, from, keys, starts)
  {
    forall k | 0 <= k < |starts| ensures longer[starts[k]] == trace[starts[k]] {
      assert longer[starts[k]] == longer[..|trace|][starts[k]];
    }
  }

  /** One more installation, beginning after the others. */
  lemma StartsInOrderSnoc(trace: seq<Effect>, from: nat, keys: seq<string>, starts: seq<nat>, key: string, p: nat)
    requires StartsInOrder(trace, from, keys, starts)
    requires from <= p < |trace| && Begins(trace[p], key)
    requires forall k :: 0 <= k < |starts| ==> starts[k] < p
    ensures StartsInOrder(trace, from, keys + [key], starts + [p])
  {
  }

  /** No dependency cycle through the remote list: every dependency ranks below its dependent. */
  predicate Ranked(remote: seq<Component>, rank: string -> nat) {
    forall c, d :: c in remote && d in c.dependencies ==> rank(d) < rank(c.key)
  }

  /** After a failure, the later packages change nothing. */
  lemma {:induction false} PrefixFailureSticks(host: Host, directory: string, files: set<string>, ps: seq<Package>, n: nat)
    requires n <= |ps|
    requires RemovePackages(host, directory, files, ps[..n]).failure.Some?
    ensures RemovePackages(host, directory, files, ps) == RemovePackages(host, directory, files, ps[..n])
    decreases |ps| - n
  {
    if n < |ps| {
      assert ps[..n + 1][..n] == ps[..n];
      PrefixFailureSticks(host, directory, files, ps, n + 1);
    } else {
      assert ps[..n] == ps;
    }
  }

  /** The file service, the event listeners and the console. */
  class Host {
    const architecture: Architecture
    /** What ReadAllLines returns for each file; a file not listed reads as empty. */
    const contents: map<string, seq<string>>
    var files: set<string>
    var manifestFile: StoredManifest
    var trace: seq<Effect>

    constructor (architecture: Architecture, contents: map<string, seq<string>>, files: set<string>, manifestFile: StoredManifest)
      ensures this.architecture == architecture && this.contents == contents
      ensures this.files == files && this.manifestFile == manifestFile && trace == []
    {
      this.architecture := architecture;
      this.contents := contents;
      this.files := files;
      this.manifestFile := manifestFile;
      trace := [];
    }

    function Lines(path: string): seq<string> {
      if path in contents then contents[path] else []
    }

    /** DeleteFile on each path in turn; deleting a file that does not exist is no error. */
    method DeleteFiles(paths: seq<string>)
      modifies this
      ensures files == old(files) - (set path | path in paths)
      ensures trace == old(trace) + Deletions(paths)
      ensures manifestFile == old(manifestFile)
    {
      var i := 0;
      while i < |paths|
        invariant 0 <= i <= |paths|
        invariant files == old(files) - (set path | path in paths[..i])
        invariant trace == old(trace) + Deletions(paths[..i])
        invariant manifestFile == old(manifestFile)
      {
        assert paths[..i + 1] == paths[..i] + [paths[i]];
        files := files - {paths[i]};
        trace := trace + [DeletedFile(paths[i])];
        i := i + 1;
      }
      assert paths[..i] == paths;
    }
  }

  /** One DeletedFile effect per path, in order. */
  function Deletions(paths: seq<string>): (effects: seq<Effect>)
    ensures |effects| == |paths|
    ensures forall i :: 0 <= i < |paths| ==> effects[i] == DeletedFile(paths[i])
  {
    if paths == [] then [] else Deletions(paths[..|paths| - 1]) + [DeletedFile(paths[|paths| - 1])]
  }

  class Component {
    const key: string
    const name: string
    const description: string
    const baseUrl: string
    const version: WellFormedVersion
    /** The newest version the entry offers (used by the install command). */
    const latestVersion: WellFormedVersion
    const packages: seq<Package>
    const dependencies: seq<string>
    var installation: Option<Installation>

    /** Deserialising one manifest entry. */
    constructor FromRecord(r: ComponentRecord)
      ensures Record() == r
    {
      key, name, description, baseUrl := r.key, r.name, r.description, r.baseUrl;
      version, latestVersion := r.version, r.latestVersion;
      packages, dependencies := r.packages, r.dependencies;
      installation := r.installation;
    }

    /**
     * Uninstall: for an installed component, each package's registration file must
     * exist; the files it lists are deleted, then the registration file; then the
     * empty directories are removed, the installation is cleared and the component
     * is removed from the manifest. A component that is not installed is left alone.
     */
    method Uninstall(manifest: ManifestService) returns (failure: Option<Failure>)
      modifies this, manifest, manifest.host
      ensures manifest.remote == old(manifest.remote) && manifest.merged == old(manifest.merged)
      ensures old(installation).None? || manifest.installLocation.None? ==>
        && installation == old(installation)
        && manifest.local == old(manifest.local)
        && manifest.host.files == old(manifest.host.files)
        && manifest.host.trace == old(manifest.host.trace)
        && manifest.host.manifestFile == old(manifest.host.manifestFile)
      ensures old(installation).None? ==> failure.None?
      ensures failure.Some? && manifest.installLocation.Some? ==> failure.value.RegistrationMissing?
      ensures old(installation).Some? && manifest.installLocation.None? ==> failure == Some(InstallLocationUnset)
      ensures old(installation).Some? && manifest.installLocation.Some? ==>
        var directory := manifest.installLocation.value;
        var removal := RemovePackages(manifest.host, directory, old(manifest.host.files), packages);
        && manifest.host.files == removal.files
        && (removal.failure.Some? ==>
          && failure == removal.failure
          && installation == old(installation)
          && manifest.local == old(manifest.local)
          && manifest.host.manifestFile == old(manifest.host.manifestFile)
          && manifest.host.trace == old(manifest.host.trace) + removal.effects)
        && (removal.failure.None? ==>
          && failure.None?
          && installation.None?
          && manifest.local == RemoveFirstWithKey(old(manifest.local), key)
          && manifest.host.manifestFile == Stored(Some(Snapshot(manifest.local)))
          && manifest.host.trace == old(manifest.host.trace) + removal.effects
            + [RemovedEmptyDirectories(directory), Saved(Snapshot(manifest.local))])
    {
      if installation.None? {
        return None;
      }
      if manifest.installLocation.None? {
        return Some(InstallLocationUnset);
      }
      var directory := manifest.DotnetInstallLocation().value;
      var host := manifest.host;
      failure := RemoveAllPackages(host, directory, packages);
      if failure.Some? {
        return;
      }
      host.trace := host.trace + [RemovedEmptyDirectories(directory)];
      installation := None;
      manifest.Remove(this);
      failure := None;
    }

    /**
     * The package loop of Install: an InstallingPackageChanged event per package,
     * then its download into the install directory, its extraction there and the
     * deletion of the download. The install directory is looked up for each package.
     */
    method InstallPackages(architecture: string, manifest: ManifestService) returns (failure: Option<Failure>)
      modifies manifest.host
      ensures manifest.host.files == old(manifest.host.files)
      ensures manifest.host.manifestFile == old(manifest.host.manifestFile)
      ensures manifest.installLocation.Some? ==>
        && failure.None?
        && manifest.host.trace == old(manifest.host.trace)
          + PackagesWork(key, baseUrl, architecture, manifest.installLocation.value, packages)
      ensures manifest.installLocation.None? && packages == [] ==>
        failure.None? && manifest.host.trace == old(manifest.host.trace)
      ensures manifest.installLocation.None? && packages != [] ==>
        && failure == Some(InstallLocationUnset)
        && manifest.host.trace == old(manifest.host.trace) + [InstallingPackageChanged(key, packages[0])]
    {
      var host := manifest.host;
      var i := 0;
      while i < |packages|
        invariant 0 <= i <= |packages|
        invariant host.files == old(host.files) && host.manifestFile == old(host.manifestFile)
        invariant manifest.installLocation.Some? ==>
          host.trace == old(host.trace) + PackagesWork(key, baseUrl, architecture, manifest.installLocation.value, packages[..i])
        invariant manifest.installLocation.None? ==> i == 0 && host.trace == old(host.trace)
      {
        host.trace := host.trace + [InstallingPackageChanged(key, packages[i])];
        var location := manifest.DotnetInstallLocation();
        if location.Failure? {
          return Some(location.error);
        }
        var url := PackageUrl(baseUrl, packages[i], architecture);
        host.trace := host.trace + [Downloaded(url, location.value), Extracted(url, location.value), DeletedDownload(url)];
        assert packages[..i + 1][..i] == packages[..i] && packages[..i + 1][i] == packages[i];
        i := i + 1;
      }
      assert packages[..i] == packages;
      return None;
    }

    /**
     * The uninstall of the first previous version in the local list, if any. This
     * component is never that version, since a previous version is strictly lower.
     */
    method ReplacePrevious(manifest: ManifestService) returns (failure: Option<Failure>)
      modifies manifest, manifest.host, set c | c in manifest.local
      ensures installation == old(installation)
      ensures manifest.remote == old(manifest.remote) && manifest.merged == old(manifest.merged)
      ensures forall c :: c in manifest.local ==> c in old(manifest.local)
      ensures failure.Some? ==> IsLocalFailure(failure.value)
      ensures Extends(manifest.host.trace, old(manifest.host.trace))
      ensures PreviousIndex(old(manifest.local), name, version) == |old(manifest.local)| ==>
        && failure.None?
        && manifest.local == old(manifest.local)
        && manifest.host.trace == old(manifest.host.trace)
        && manifest.host.manifestFile == old(manifest.host.manifestFile)
      ensures PreviousIndex(old(manifest.local), name, version) < |old(manifest.local)| && failure.None? ==>
        var p := PreviousIndex(old(manifest.local), name, version);
        manifest.local == if old(manifest.local[p].installation).Some?
          then RemoveFirstWithKey(old(manifest.local), old(manifest.local[p].key))
          else old(manifest.local)
    {
      var p := PreviousIndex(manifest.local, name, version);
      if p == |manifest.local| {
        return None;
      }
      var previous := manifest.local[p];
      PreviousIsLower(previous, name, version);
      failure := previous.Uninstall(manifest);
      RemoveFirstWithKeyKeepsOthers(old(manifest.local), previous.key);
    }

    /**
     * The branch of Install for a component that is not installed: the start
     * event, the uninstall of the first previous version in the local list, the
     * packages, the registration in the manifest, the finish event.
     */
    method InstallSelf(architecture: string, manifest: ManifestService, now: int) returns (failure: Option<Failure>)
      requires installation.None?
      modifies this, manifest, manifest.host, set c | c in manifest.local
      ensures manifest.remote == old(manifest.remote) && manifest.merged == old(manifest.merged)
      ensures forall c :: c in manifest.local ==> c in old(manifest.local) || c == this
      ensures Extends(manifest.host.trace, old(manifest.host.trace) + [InstallationStarted(key)])
      ensures failure.Some? ==> IsLocalFailure(failure.value)
      ensures failure.None? ==> Registered(manifest, now)
      ensures failure.None? && manifest.installLocation.None? ==> packages == []
      ensures failure.None? && manifest.installLocation.Some? ==>
        EndsIn(manifest.host.trace, PackagesWork(key, baseUrl, architecture, manifest.installLocation.value, packages)
          + [Saved(Snapshot(manifest.local)), InstallationFinished(key)])
      ensures PreviousIndex(old(manifest.local), name, version) == |old(manifest.local)| && manifest.installLocation.Some? ==>
        && failure.None?
        && manifest.local == old(manifest.local) + [this]
        && manifest.host.trace == old(manifest.host.trace) + [InstallationStarted(key)]
          + PackagesWork(key, baseUrl, architecture, manifest.installLocation.value, packages)
          + [Saved(Snapshot(manifest.local)), InstallationFinished(key)]
    {
      var host := manifest.host;
      ghost var trace0 := host.trace;
      host.trace := host.trace + [InstallationStarted(key)];
      ghost var started := host.trace;
      failure := ReplaceAndInstall(architecture, manifest, now);
      if PreviousIndex(old(manifest.local), name, version) == |old(manifest.local)| && manifest.installLocation.Some? {
        assert host.trace == trace0 + [InstallationStarted(key)]
          + PackagesWork(key, baseUrl, architecture, manifest.installLocation.value, packages)
          + [Saved(Snapshot(manifest.local)), InstallationFinished(key)];
      }
    }

    /**
     * The end of a successful installation: the component is installed as of
     * `now`, it is the last of the local components, the local list is saved, and
     * the last event is the finish event.
     */
    ghost predicate Registered(manifest: ManifestService, now: int)
      reads this, manifest, manifest.host, set c | c in manifest.local
    {
      && installation == Some(Installation(now))
      && |manifest.local| > 0 && manifest.local[|manifest.local| - 1] == this
      && manifest.host.manifestFile == Stored(Some(Snapshot(manifest.local)))
      && |manifest.host.trace| > 0 && manifest.host.trace[|manifest.host.trace| - 1] == InstallationFinished(key)
    }

    /** InstallSelf after the start event. */
    method ReplaceAndInstall(architecture: string, manifest: ManifestService, now: int) returns (failure: Option<Failure>)
      requires installation.None?
      modifies this, manifest, manifest.host, set c | c in manifest.local
      ensures manifest.remote == old(manifest.remote) && manifest.merged == old(manifest.merged)
      ensures forall c :: c in manifest.local ==> c in old(manifest.local) || c == this
      ensures Extends(manifest.host.trace, old(manifest.host.trace))
      ensures failure.Some? ==> IsLocalFailure(failure.value)
      ensures failure.None? ==> Registered(manifest, now)
      ensures failure.None? && manifest.installLocation.None? ==> packages == []
      ensures failure.None? && manifest.installLocation.Some? ==>
        EndsIn(manifest.host.trace, PackagesWork(key, baseUrl, architecture, manifest.installLocation.value, packages)
          + [Saved(Snapshot(manifest.local)), InstallationFinished(key)])
      ensures PreviousIndex(old(manifest.local), name, version) == |old(manifest.local)| && manifest.installLocation.Some? ==>
        && failure.None?
        && manifest.local == old(manifest.local) + [this]
        && manifest.host.trace == old(manifest.host.trace)
          + PackagesWork(key, baseUrl, architecture, manifest.installLocation.value, packages)
          + [Saved(Snapshot(manifest.local)), InstallationFinished(key)]
    {
      var host := manifest.host;
      ghost var trace0 := host.trace;
      failure := ReplacePrevious(manifest);
      if failure.Some? {
        return;
      }
      ghost var middle := host.trace;
      failure := InstallAndRegister(architecture, manifest, now);
      ExtendsChain(trace0, middle, host.trace);
    }

    /** The packages, the registration in the manifest and the finish event. */
    method InstallAndRegister(architecture: string, manifest: ManifestService, now: int) returns (failure: Option<Failure>)
      modifies this, manifest, manifest.host
      ensures manifest.remote == old(manifest.remote) && manifest.merged == old(manifest.merged)
      ensures Extends(manifest.host.trace, old(manifest.host.trace))
      ensures manifest.installLocation.Some? ==> failure.None?
      ensures failure.Some? ==> failure == Some(InstallLocationUnset) && manifest.local == old(manifest.local)
      ensures failure.None? ==> manifest.local == old(manifest.local) + [this] && Registered(manifest, now)
      ensures failure.None? && manifest.installLocation.None? ==> packages == []
      ensures failure.None? && manifest.installLocation.Some? ==>
        && manifest.host.trace == old(manifest.host.trace)
          + PackagesWork(key, baseUrl, architecture, manifest.installLocation.value, packages)
          + [Saved(Snapshot(manifest.local)), InstallationFinished(key)]
        && EndsIn(manifest.host.trace, PackagesWork(key, baseUrl, architecture, manifest.installLocation.value, packages)
          + [Saved(Snapshot(manifest.local)), InstallationFinished(key)])
    {
      var host := manifest.host;
      ghost var trace0 := host.trace;
      failure := InstallPackages(architecture, manifest);
      if failure.Some? {
        assert host.trace[..|trace0|] == trace0;
        return;
      }
      manifest.Add(this, now);
      host.trace := host.trace + [InstallationFinished(key)];
      assert host.trace[..|trace0|] == trace0;
      if manifest.installLocation.Some? {
        EndsWith(trace0, PackagesWork(key, baseUrl, architecture, manifest.installLocation.value, packages),
          [Saved(Snapshot(manifest.local)), InstallationFinished(key)]);
      }
    }

    /**
     * Install: the architecture check, the limit check (both before anything
     * changes), then either the installation of this component or the "already
     * installed" notice, then each dependency, looked up by key in the remote list,
     * in declared order. The recursion stops because every dependency ranks below
     * its dependent (`rank`).
     */
    method Install(limits: Limits, manifest: ManifestService, now: int, ghost rank: string -> nat, ghost bound: nat)
      returns (failure: Option<Failure>, ghost landmark: nat, ghost starts: seq<nat>)
      requires forall d :: d in dependencies ==> rank(d) < bound
      requires Ranked(manifest.remote, rank)
      modifies this, manifest, manifest.host, set c | c in manifest.local + manifest.remote
      decreases bound, 2
      ensures manifest.remote == old(manifest.remote) && manifest.merged == old(manifest.merged)
      ensures forall c :: c in manifest.local ==> c in old(manifest.local) || c in manifest.remote || c == this
      ensures Extends(manifest.host.trace, old(manifest.host.trace))
      ensures DebArchitecture(manifest.host.architecture).Failure? ==>
        && failure == Some(UnsupportedArchitecture(manifest.host.architecture))
        && unchanged(this, manifest, manifest.host)
      ensures DebArchitecture(manifest.host.architecture).Success? && CanInstall(version, limits).Failure? ==>
        failure == Some(NoLimitForFeatureBand) && unchanged(this, manifest, manifest.host)
      ensures DebArchitecture(manifest.host.architecture).Success? && CanInstall(version, limits) == Success(false) ==>
        && failure == Some(VersionTooHigh(LimitFor(version, limits).value))
        && unchanged(this, manifest, manifest.host)
      ensures DebArchitecture(manifest.host.architecture).Success? && CanInstall(version, limits) == Success(true) ==>
        && |manifest.host.trace| > |old(manifest.host.trace)|
        && manifest.host.trace[|old(manifest.host.trace)|]
          == if old(installation).None? then InstallationStarted(key) else AlreadyInstalled(key)
      ensures failure.Some? && failure.value.DependencyMissing? ==>
        IndexOfKey(manifest.remote, failure.value.key) == |manifest.remote|
      ensures failure.None? ==>
        && (forall d :: d in dependencies ==> IndexOfKey(manifest.remote, d) < |manifest.remote|)
        && OwnWorkThenDependencies(manifest.host.trace, |old(manifest.host.trace)|, key, old(installation).Some?, dependencies, landmark, starts)
    {
      landmark, starts := 0, [];
      var architecture := DebArchitecture(manifest.host.architecture);
      if architecture.Failure? {
        failure := Some(architecture.error);
        return;
      }
      var allowed := CanInstall(version, limits);
      if allowed.Failure? {
        failure := Some(allowed.error);
        return;
      }
      if !allowed.value {
        failure := Some(VersionTooHigh(LimitFor(version, limits).value));
        return;
      }
      failure, landmark, starts := InstallAllowed(architecture.value, limits, manifest, now, rank, bound);
    }

    /**
     * What Install does once both checks pass: this component (or the notice that
     * it is already installed), then its dependencies.
     */
    method InstallAllowed(architecture: string, limits: Limits, manifest: ManifestService, now: int,
                          ghost rank: string -> nat, ghost bound: nat)
      returns (failure: Option<Failure>, ghost landmark: nat, ghost starts: seq<nat>)
      requires forall d :: d in dependencies ==> rank(d) < bound
      requires Ranked(manifest.remote, rank)
      modifies this, manifest, manifest.host, set c | c in manifest.local + manifest.remote
      decreases bound, 1
      ensures manifest.remote == old(manifest.remote) && manifest.merged == old(manifest.merged)
      ensures forall c :: c in manifest.local ==> c in old(manifest.local) || c in manifest.remote || c == this
      ensures Extends(manifest.host.trace, old(manifest.host.trace)) && |manifest.host.trace| > |old(manifest.host.trace)|
      ensures manifest.host.trace[|old(manifest.host.trace)|]
        == if old(installation).None? then InstallationStarted(key) else AlreadyInstalled(key)
      ensures failure.Some? && failure.value.DependencyMissing? ==>
        IndexOfKey(manifest.remote, failure.value.key) == |manifest.remote|
      ensures failure.None? ==>
        && (forall d :: d in dependencies ==> IndexOfKey(manifest.remote, d) < |manifest.remote|)
        && OwnWorkThenDependencies(manifest.host.trace, |old(manifest.host.trace)|, key, old(installation).Some?, dependencies, landmark, starts)
    {
      landmark, starts := 0, [];
      var host := manifest.host;
      ghost var trace0 := host.trace;
      ghost var head := trace0 + [if installation.None? then InstallationStarted(key) else AlreadyInstalled(key)];
      failure := InstallOwn(architecture, manifest, now);
      if failure.Some? {
        ExtendsByOne(host.trace, trace0, head[|trace0|]);
        return;
      }
      ghost var started := host.trace;
      landmark := |started| - 1;
      failure, starts := InstallDependencies(limits, manifest, now, rank, bound);
      ExtendsChain(head, started, host.trace);
      ExtendsByOne(host.trace, trace0, head[|trace0|]);
      assert host.trace[landmark] == host.trace[..|started|][landmark];
    }

    /**
     * This component's own part of Install: its installation when it is not
     * installed, and otherwise the notice that it already is. On success the last
     * entry is the finish event or the notice.
     */
    method InstallOwn(architecture: string, manifest: ManifestService, now: int) returns (failure: Option<Failure>)
      modifies this, manifest, manifest.host, set c | c in manifest.local
      ensures manifest.remote == old(manifest.remote) && manifest.merged == old(manifest.merged)
      ensures forall c :: c in manifest.local ==> c in old(manifest.local) || c == this
      ensures Extends(manifest.host.trace, old(manifest.host.trace)
        + [if old(installation).None? then InstallationStarted(key) else AlreadyInstalled(key)])
      ensures old(installation).Some? ==> failure.None? && manifest.host.trace == old(manifest.host.trace) + [AlreadyInstalled(key)]
      ensures failure.Some? ==> IsLocalFailure(failure.value)
      ensures failure.None? ==>
        manifest.host.trace[|manifest.host.trace| - 1]
          == (if old(installation).Some? then AlreadyInstalled(key) else InstallationFinished(key))
    {
      if installation.None? {
        failure := InstallSelf(architecture, manifest, now);
      } else {
        manifest.host.trace := manifest.host.trace + [AlreadyInstalled(key)];
        failure := None;
      }
    }

    /** The dependency loop of Install: each dependency, looked up by key in the remote list. */
    method InstallDependencies(limits: Limits, manifest: ManifestService, now: int, ghost rank: string -> nat, ghost bound: nat)
      returns (failure: Option<Failure>, ghost starts: seq<nat>)
      requires forall d :: d in dependencies ==> rank(d) < bound
      requires Ranked(manifest.remote, rank)
      modifies manifest, manifest.host, set c | c in manifest.local + manifest.remote
      decreases bound, 0
      ensures manifest.remote == old(manifest.remote) && manifest.merged == old(manifest.merged)
      ensures forall c :: c in manifest.local ==> c in old(manifest.local) || c in manifest.remote
      ensures Extends(manifest.host.trace, old(manifest.host.trace))
      ensures failure.Some? && failure.value.DependencyMissing? ==>
        IndexOfKey(manifest.remote, failure.value.key) == |manifest.remote|
      ensures failure.None? ==>
        && (forall d :: d in dependencies ==> IndexOfKey(manifest.remote, d) < |manifest.remote|)
        && StartsInOrder(manifest.host.trace, |old(manifest.host.trace)|, dependencies, starts)
    {
      var host := manifest.host;
      starts := [];
      var i := 0;
      while i < |dependencies|
        invariant 0 <= i <= |dependencies|
        invariant manifest.remote == old(manifest.remote) && manifest.merged == old(manifest.merged)
        invariant forall c :: c in manifest.local ==> c in old(manifest.local) || c in manifest.remote
        invariant Extends(host.trace, old(host.trace))
        invariant forall k :: 0 <= k < i ==> IndexOfKey(manifest.remote, dependencies[k]) < |manifest.remote|
        invariant StartsInOrder(host.trace, |old(host.trace)|, dependencies[..i], starts)
      {
        var j := IndexOfKey(manifest.remote, dependencies[i]);
        if j == |manifest.remote| {
          return Some(DependencyMissing(dependencies[i])), starts;
        }
        var dependency := manifest.remote[j];
        ghost var before := host.trace;
        ghost var landmark, begun;
        failure, landmark, begun := dependency.Install(limits, manifest, now, rank, rank(dependencies[i]));
        ExtendsChain(old(host.trace), before, host.trace);
        if failure.Some? {
          return;
        }
        StartsInOrderExtends(before, host.trace, |old(host.trace)|, dependencies[..i], starts);
        StartsInOrderSnoc(host.trace, |old(host.trace)|, dependencies[..i], starts, dependencies[i], |before|);
        assert dependencies[..i + 1] == dependencies[..i] + [dependencies[i]];
        starts := starts + [|before|];
        i := i + 1;
      }
      assert dependencies[..i] == dependencies;
      return None, starts;
    }

    /** Serialising the component: its manifest entry. */
    function Record(): (r: ComponentRecord)
      reads this
      ensures r.key == key && r.installation == installation
    {
      ComponentRecord(key, name, description, baseUrl, version, latestVersion, packages, dependencies, installation)
    }
  }

  /** The entries of a list of components, as Save serialises them. */
  function Snapshot(cs: seq<Component>): (rs: seq<ComponentRecord>)
    reads set c | c in cs
    ensures |rs| == |cs| && forall i :: 0 <= i < |cs| ==> rs[i] == cs[i].Record()
  {
    seq(|cs|, i requires 0 <= i < |cs| reads cs => cs[i].Record())
  }

  /** The component's entry with the installation left out: the part no operation changes. */
  function Release(c: Component): (r: ComponentRecord)
    ensures r.key == c.key && r.installation.None?
  {
    ComponentRecord(c.key, c.name, c.description, c.baseUrl, c.version, c.latestVersion, c.packages, c.dependencies, None)
  }

  /** The components' entries with the installations left out. */
  function Releases(cs: seq<Component>): (rs: seq<ComponentRecord>)
    ensures |rs| == |cs| && forall i :: 0 <= i < |cs| ==> rs[i] == Release(cs[i])
  {
    seq(|cs|, i requires 0 <= i < |cs| => Release(cs[i]))
  }

  /** Entries with the installations left out. */
  function Stripped(rs: seq<ComponentRecord>): (r: seq<ComponentRecord>)
    ensures |r| == |rs| && forall i :: 0 <= i < |rs| ==> r[i] == rs[i].(installation := None)
  {
    seq(|rs|, i requires 0 <= i < |rs| => rs[i].(installation := None))
  }

  /** Reading the components, installations aside, gives what they were loaded with. */
  lemma SnapshotReleases(cs: seq<Component>)
    ensures Stripped(Snapshot(cs)) == Releases(cs)
  {
    assert forall i :: 0 <= i < |cs| ==> Stripped(Snapshot(cs))[i] == Releases(cs)[i];
  }

  predicate Distinct(cs: seq<Component>) {
    forall i, j :: 0 <= i < j < |cs| ==> cs[i] != cs[j]
  }

  /** The position of the first component with `key`, or |cs| when there is none. */
  function IndexOfKey(cs: seq<Component>, key: string): (p: nat)
    ensures p <= |cs|
    ensures p < |cs| ==> cs[p].key == key
    ensures forall i :: 0 <= i < p ==> cs[i].key != key
  {
    if cs == [] then 0
    else if cs[0].key == key then 0
    else 1 + IndexOfKey(cs[1..], key)
  }

  /** `list.Remove(list.FirstOrDefault(c => c.Key == key))`, the missing case included. */
  function RemoveFirstWithKey(cs: seq<Component>, key: string): (r: seq<Component>)
    ensures IndexOfKey(cs, key) == |cs| ==> r == cs
    ensures IndexOfKey(cs, key) < |cs| ==> |r| == |cs| - 1
  {
    var p := IndexOfKey(cs, key);
    if p == |cs| then cs else cs[..p] + cs[p + 1..]
  }

  /**
   * Remove drops exactly the first entry with the key: everything before it and
   * everything after it stays, in order; without such an entry nothing changes.
   */
  lemma RemoveFirstWithKeyKeepsOthers(cs: seq<Component>, key: string)
    ensures var p := IndexOfKey(cs, key);
      && (p == |cs| <==> forall i :: 0 <= i < |cs| ==> cs[i].key != key)
      && (p < |cs| ==> RemoveFirstWithKey(cs, key) == cs[..p] + cs[p + 1..])
      && (forall i :: 0 <= i < p ==> RemoveFirstWithKey(cs, key)[i] == cs[i])
      && (forall i :: p < i < |cs| ==> RemoveFirstWithKey(cs, key)[i - 1] == cs[i])
  {
  }

  /** Removing never brings in a component that was not in the list. */
  lemma RemoveFirstWithKeyShrinks(cs: seq<Component>, key: string)
    ensures forall c :: c in RemoveFirstWithKey(cs, key) ==> c in cs
  {
    var p := IndexOfKey(cs, key);
    if p < |cs| {
      assert cs == cs[..p] + cs[p..];
    }
  }

  /** One pass of the merge loop, on objects. */
  method MergeOne(result: seq<Component>, candidate: Component) returns (next: seq<Component>)
    requires Distinct(result) && candidate !in result
    modifies set c | c in result
    ensures next == result || next == result + [candidate]
    ensures Distinct(next)
    ensures Snapshot(next) == MergeStep(old(Snapshot(result)), candidate.Record())
  {
    var p := IndexOfKey(result, candidate.key);
    FirstWithKeyOfSnapshot(result, candidate.key);
    if p == |result| {
      next := result + [candidate];
    } else {
      result[p].installation := candidate.installation;
      next := result;
    }
  }

  /**
   * Merge on objects: the remote objects first, then the local objects whose key is
   * new; an installation is written into the first object with the key, which is
   * shared with the list it came from.
   */
  method MergeComponents(remote: seq<Component>, local: seq<Component>) returns (result: seq<Component>)
    requires Distinct(remote) && Distinct(local)
    requires forall j, k :: 0 <= j < |local| && 0 <= k < |remote| ==> local[j] != remote[k]
    modifies set c | c in remote, set c | c in local
    ensures |result| >= |remote| && result[..|remote|] == remote
    ensures forall i :: |remote| <= i < |result| ==> result[i] in local
    ensures Distinct(result)
    ensures Snapshot(result) == Merge(old(Snapshot(remote)), old(Snapshot(local)))
  {
    ghost var remote0 := Snapshot(remote);
    ghost var local0 := Snapshot(local);
    result := remote;
    var i := 0;
    MergingBegins(remote, local);
    while i < |local|
      invariant Merging(remote, local, result, i, remote0, local0)
    {
      result := MergeNext(remote, local, result, i, remote0, local0);
      i := i + 1;
    }
    MergingEnds(remote, local, result, remote0, local0);
  }

  lemma MergingBegins(remote: seq<Component>, local: seq<Component>)
    requires Distinct(remote)
    ensures Merging(remote, local, remote, 0, Snapshot(remote), Snapshot(local))
  {
    assert Snapshot(local)[..0] == [];
  }

  lemma MergingEnds(remote: seq<Component>, local: seq<Component>, result: seq<Component>,
                    remote0: seq<ComponentRecord>, local0: seq<ComponentRecord>)
    requires Merging(remote, local, result, |local|, remote0, local0)
    ensures |result| >= |remote| && result[..|remote|] == remote
    ensures forall i :: |remote| <= i < |result| ==> result[i] in local
    ensures Distinct(result)
    ensures Snapshot(result) == Merge(remote0, local0)
  {
    assert local0[..|local|] == local0 && local[..|local|] == local;
  }

  /**
   * The state of that loop after `i` local entries: the remote objects first, then
   * local objects already visited, no object twice, the entries of the merge of the
   * remote list with the first `i` local entries, and the rest of the local objects
   * as they were.
   */
  ghost predicate Merging(remote: seq<Component>, local: seq<Component>, result: seq<Component>, i: nat,
                          remote0: seq<ComponentRecord>, local0: seq<ComponentRecord>)
    reads set c | c in result, set c | c in local
  {
    && i <= |local| && |local0| == |local|
    && |result| >= |remote| && result[..|remote|] == remote
    && (forall k :: |remote| <= k < |result| ==> result[k] in local[..i])
    && Distinct(result)
    && Snapshot(result) == Merge(remote0, local0[..i])
    && (forall j :: i <= j < |local| ==> local[j].Record() == local0[j])
  }

  /** `s` begins with `prefix`: entries are only ever appended. */
  ghost predicate Extends<T>(s: seq<T>, prefix: seq<T>) {
    |s| >= |prefix| && s[..|prefix|] == prefix
  }

  lemma ExtendsChain<T>(a: seq<T>, b: seq<T>, c: seq<T>)
    requires Extends(b, a) && Extends(c, b)
    ensures Extends(c, a)
  {
    assert c[..|a|] == c[..|b|][..|a|];
  }

  lemma ExtendsByOne<T>(s: seq<T>, a: seq<T>, x: T)
    requires Extends(s, a + [x])
    ensures Extends(s, a) && |s| > |a| && s[|a|] == x
  {
    assert s[..|a|] == s[..|a| + 1][..|a|];
    assert s[|a|] == s[..|a| + 1][|a|];
  }

  /** `s` ends with `tail`. */
  ghost predicate EndsIn<T>(s: seq<T>, tail: seq<T>) {
    |s| >= |tail| && s[|s| - |tail|..] == tail
  }

  /** What was appended last is what the sequence ends with. */
  lemma EndsWith<T>(a: seq<T>, b: seq<T>, c: seq<T>)
    ensures EndsIn(a + b + c, b + c)
  {
    assert a + b + c == a + (b + c);
  }

  /** A merge that starts with `remote` and continues with local entries holds nothing else. */
  lemma MergedFromBoth<T>(remote: seq<T>, local: seq<T>, result: seq<T>)
    requires |result| >= |remote| && result[..|remote|] == remote
    requires forall i :: |remote| <= i < |result| ==> result[i] in local
    ensures forall c :: c in result ==> c in remote || c in local
  {
    forall i | 0 <= i < |result| ensures result[i] in remote || result[i] in local {
      if i < |remote| {
        assert result[..|remote|][i] == result[i];
      }
    }
  }

  /** One pass of the loop of MergeComponents, with the loop's invariant. */
  method MergeNext(remote: seq<Component>, local: seq<Component>, result: seq<Component>, i: nat,
                   ghost remote0: seq<ComponentRecord>, ghost local0: seq<ComponentRecord>) returns (next: seq<Component>)
    requires i < |local| && Distinct(local)
    requires forall j, k :: 0 <= j < |local| && 0 <= k < |remote| ==> local[j] != remote[k]
    requires Merging(remote, local, result, i, remote0, local0)
    modifies set c | c in result
    ensures Merging(remote, local, next, i + 1, remote0, local0)
  {
    var candidate := local[i];
    assert local0[..i + 1] == local0[..i] + [local0[i]];
    NotYetMerged(remote, local, result, i);
    next := MergeOne(result, candidate);
    assert local[..i + 1] == local[..i] + [candidate];
  }

  /** The local objects not yet visited are not in the result so far. */
  lemma NotYetMerged(remote: seq<Component>, local: seq<Component>, result: seq<Component>, i: nat)
    requires i <= |local| && Distinct(local)
    requires forall j, k :: 0 <= j < |local| && 0 <= k < |remote| ==> local[j] != remote[k]
    requires |result| >= |remote| && result[..|remote|] == remote
    requires forall k :: |remote| <= k < |result| ==> result[k] in local[..i]
    ensures forall j :: i <= j < |local| ==> local[j] !in result
  {
    forall j, k | i <= j < |local| && 0 <= k < |result| ensures result[k] != local[j] {
      if k >= |remote| {
        assert result[k] in local[..i];
        var m :| 0 <= m < i && local[..i][m] == result[k];
        assert local[m] == result[k];
      } else {
        assert result[k] == remote[k];
      }
    }
  }

  lemma FirstWithKeyOfSnapshot(cs: seq<Component>, key: string)
    ensures FirstWithKey(Snapshot(cs), key) == IndexOfKey(cs, key)
  {
    FirstWithKeyIs(Snapshot(cs), key, IndexOfKey(cs, key));
  }

  /** The manifest service: the three component lists and the local manifest file. */
  class ManifestService {
    const host: Host
    /** DOTNET_INSTALL_DIR, when set. */
    const installLocation: Option<string>
    var local: seq<Component>
    var remote: seq<Component>
    var merged: seq<Component>

    constructor (host: Host, installLocation: Option<string>)
      ensures this.host == host && this.installLocation == installLocation
      ensures local == [] && remote == [] && merged == []
    {
      this.host := host;
      this.installLocation := installLocation;
      local, remote, merged := [], [], [];
    }

    /** DotnetInstallLocation: the variable's value, or an exception when it is unset. */
    function DotnetInstallLocation(): (r: Result<string, Failure>)
      ensures r.Success? <==> installLocation.Some?
      ensures r.Success? ==> r.value == installLocation.value
      ensures r.Failure? ==> r.error == InstallLocationUnset
    {
      if installLocation.Some? then Success(installLocation.value) else Failure(InstallLocationUnset)
    }

    /** Save: the local list is written to the manifest file. */
    method Save()
      modifies host
      ensures host.manifestFile == Stored(Some(Snapshot(local)))
      ensures LoadLocal(host.manifestFile) == Snapshot(local)
      ensures host.trace == old(host.trace) + [Saved(Snapshot(local))]
      ensures host.files == old(host.files)
    {
      host.manifestFile := Stored(Some(Snapshot(local)));
      host.trace := host.trace + [Saved(Snapshot(local))];
    }

    /**
     * Initialize: the local list from the manifest file, the remote list from the
     * response (includeArchive has no effect), and their merge. Every component is
     * a new object.
     */
    method Initialize(response: RemoteResponse, includeArchive: bool)
      modifies this
      ensures forall c :: c in local + remote ==> fresh(c)
      ensures forall c :: c in local + remote + merged ==> fresh(c)
      ensures |local| == |LoadLocal(host.manifestFile)| && |remote| == |LoadRemote(response)|
      ensures Snapshot(merged) == Merge(LoadRemote(response), LoadLocal(host.manifestFile))
      ensures |merged| >= |remote| && merged[..|remote|] == remote
      ensures forall i :: |remote| <= i < |merged| ==> merged[i] in local
      ensures Releases(local) == Stripped(LoadLocal(host.manifestFile))
    {
      local, remote, merged := LoadLists(LoadLocal(host.manifestFile), LoadRemote(response));
    }

    /** Add: the component is marked installed now and appended to the local list. */
    method Add(component: Component, now: int)
      modifies this, component, host
      ensures component.installation == Some(Installation(now))
      ensures local == old(local) + [component]
      ensures remote == old(remote) && merged == old(merged)
      ensures host.manifestFile == Stored(Some(Snapshot(local)))
      ensures LoadLocal(host.manifestFile) == Snapshot(local)
      ensures host.trace == old(host.trace) + [Saved(Snapshot(local))]
      ensures host.files == old(host.files)
    {
      component.installation := Some(Installation(now));
      local := local + [component];
      Save();
    }

    /**
     * Remove: the first local entry with the component's key is dropped, if there is
     * one; the list is saved either way, and the component itself is not changed.
     */
    method Remove(component: Component)
      modifies this, host
      ensures local == RemoveFirstWithKey(old(local), component.key)
      ensures remote == old(remote) && merged == old(merged)
      ensures host.manifestFile == Stored(Some(Snapshot(local)))
      ensures LoadLocal(host.manifestFile) == Snapshot(local)
      ensures host.trace == old(host.trace) + [Saved(Snapshot(local))]
      ensures host.files == old(host.files)
    {
      var p := IndexOfKey(local, component.key);
      if p < |local| {
        local := local[..p] + local[p + 1..];
      }
      Save();
    }
  }

  /** Deserialising the local and the remote list: no object is in both. */
  /** The three lists Initialize sets: new objects for both lists, and their merge. */
  method LoadLists(localRecords: seq<ComponentRecord>, remoteRecords: seq<ComponentRecord>)
    returns (local: seq<Component>, remote: seq<Component>, merged: seq<Component>)
    ensures forall c :: c in local + remote ==> fresh(c)
    ensures forall c :: c in local + remote + merged ==> fresh(c)
    ensures |local| == |localRecords| && |remote| == |remoteRecords|
    ensures Snapshot(merged) == Merge(remoteRecords, localRecords)
    ensures |merged| >= |remote| && merged[..|remote|] == remote
    ensures forall i :: |remote| <= i < |merged| ==> merged[i] in local
    ensures Releases(local) == Stripped(localRecords)
  {
    local, remote := MaterializeBoth(localRecords, remoteRecords);
    SnapshotReleases(local);
    merged := MergeComponents(remote, local);
    MergedFromBoth(remote, local, merged);
  }

  method MaterializeBoth(localRecords: seq<ComponentRecord>, remoteRecords: seq<ComponentRecord>)
    returns (local: seq<Component>, remote: seq<Component>)
    ensures forall c :: c in local ==> fresh(c)
    ensures forall c :: c in remote ==> fresh(c)
    ensures Distinct(local) && Distinct(remote)
    ensures forall j, k :: 0 <= j < |local| && 0 <= k < |remote| ==> local[j] != remote[k]
    ensures Snapshot(local) == localRecords && Snapshot(remote) == remoteRecords
  {
    local := Materialize(localRecords);
    remote := Materialize(remoteRecords);
    assert forall x, y :: x in remote && y in local ==> x != y;
    forall j, k | 0 <= j < |local| && 0 <= k < |remote| ensures local[j] != remote[k] {
      assert local[j] in local && remote[k] in remote;
    }
  }

  /** Deserialising a list: one new object per entry. */
  method Materialize(records: seq<ComponentRecord>) returns (cs: seq<Component>)
    ensures forall c :: c in cs ==> fresh(c)
    ensures Distinct(cs)
    ensures Snapshot(cs) == records
  {
    cs := [];
    var i := 0;
    while i < |records|
      invariant 0 <= i <= |records| && |cs| == i
      invariant forall k :: 0 <= k < i ==> fresh(cs[k]) && cs[k].Record() == records[k]
      invariant Distinct(cs)
    {
      var c := new Component.FromRecord(records[i]);
      cs := cs + [c];
      i := i + 1;
    }
  }
}
