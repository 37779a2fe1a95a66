# dotnet-snap installer, modelled in Dafny

This project models the decision logic of the .NET-on-snap installer: the C#
console installer (`Dotnet.Installer.Console`, `Dotnet.Installer.Core` and the
older `Dotnet.Installer.Domain` layer) and the Python launcher script that the
snap runs first. Every file is one Dafny module.

- `wrappers.dfy` (Wrappers): `Option` for a C# null and `Result` for a thrown
  exception.
- `dotnet_text.dfy` (DotNetText): the .NET and Python string primitives the code
  relies on. These are `string.Split`, `int.Parse` with its Int32 range,
  `Int32.ToString`, `IsNullOrWhiteSpace`, the case-insensitive name comparison,
  `Path.Combine` and `os.path.join`.
- `dotnet_version.dfy` (DotnetVersions): the core `DotnetVersion`. It covers
  parsing `M.m.p[-preview.N|-rc.N]`, the runtime/SDK split, the feature band, the
  rendering, `CompareTo` with its 32-bit subtraction, `Equals` and the operators.
  It proves that the ordering is antisymmetric and transitive on well-formed
  versions, and that parsing a rendering gives the version back.
- `version_json.dfy` (DotnetVersionJson) and `snap_info.dfy` (SnapInfos): the JSON
  converter, and how a snap's version string (with its `+git` build suffix) is
  read as a version.
- `domain_version.dfy` (DomainVersions): the older version type. It has numbers
  only and equality, but no ordering.
- `component_records.dfy` (ComponentRecords): a component as the manifest files
  store it, and the merge rule of the manifest service stated on values. The rule:
  remote entries first; a local entry with a known key lends its installation to
  the first entry with that key; any other local entry is appended.
- `components.dfy` (Components): the core objects, written as classes.
  - A `Component` has one mutable field, its installation.
  - `ManifestService` holds the local, remote and merged lists. Its
    `Initialize`, `Add`, `Remove` and `Save` methods carry out the merge rule on
    objects.
  - A `Host` object stands for the files, the manifest file, the machine's
    architecture and a trace of everything observable: events, downloads,
    extractions, deletions and saves.
  - `CanInstall`, `Install` (the limit gate, replacing the previous version, the
    package loop, registration and the dependency recursion) and `Uninstall`
    are methods proved against that state.
- `dependency_tree.dfy` (DependencyTrees): the `DependencyTree` class and its
  depth-first search for reverse dependencies. The search is proved equal to a
  recursive walk, and the keys it lists are exactly the transitive dependents.
- `outcomes.dfy` (Outcomes): how a console command ends. It either completes,
  exits with an error code, or lets an exception escape.
- `install_command.dfy`, `update_command.dfy`, `remove_command.dfy` and
  `update_verb.dfy` (InstallCommands, UpdateCommands, RemoveCommands,
  UpdateVerbs): the console commands' handlers.
  - install: matching a version string to a remote component;
  - update: choosing update candidates and pairing the lowest installed member
    with the highest member not installed;
  - remove: finding the target and uninstalling it, then its reverse
    dependencies.
- `domain_manifest.dfy` (DomainManifests): the Domain layer's static manifest.
  Its `Add` and `Remove` re-read the stored list, edit it and write it back.
- `elevation.dfy` (Elevation): the `Elevate` extensions that re-target a command
  at pkexec or sudo.
- `launcher.dfy` (Launcher): `dotnet-launcher.py`. The processes it spawns are
  recorded as a list, and each child's return code comes from a parameter.

The environment is made of parameters:
- the values of environment variables;
- whether a directory or file exists;
- the HTTP response that carries the remote manifest;
- the clock, the machine architecture, the effective user id and the install
  limits;
- the answer to the remove command's prompt.

Some members the code uses are not declared in the files it comes with. The model
settles them as follows:
- `Revision` is a nullable Int32 that `Parse` never sets.
- A version is stable when it is neither a preview nor an RC.
- `LatestVersion` is a field of a component.
- Comparing while ignoring the revision is equality on every other field.
- The root uid is 0.

## Model

| member | source | states |
|---|---|---|
| DotnetVersions.FeatureBandTextParses | src/Dotnet.Installer.Core/Types/DotnetVersion.cs:20 | the text "leading digit of the patch" + "00" parses, as int.Parse, to that digit times 100 |
| DotnetVersions.LeadingDigitBand | src/Dotnet.Installer.Core/Types/DotnetVersion.cs:20 | the leading digit times 100 never exceeds a patch of at least 100 |
| DotnetVersions.FeatureBand | src/Dotnet.Installer.Core/Types/DotnetVersion.cs:17-20 | a band exists exactly for SDK versions (patch 100 or more); it is a multiple of 100 between 100 and 900 and at most the patch |
| DotnetVersions.FeatureBandOfThreeDigitPatch | src/Dotnet.Installer.Core/Types/DotnetVersion.cs:20 | for a three-digit patch the band is the patch rounded down to a hundred, so the patch lies in [band, band + 100) |
| DotnetVersions.FeatureBandOfFourDigitPatch | src/Dotnet.Installer.Core/Types/DotnetVersion.cs:20 | only the first digit is kept: patch 1000 falls in band 100 |
| DotnetVersions.Parse | src/Dotnet.Installer.Core/Types/DotnetVersion.cs:22-50 | a parsed version has no revision, and it carries an identifier exactly when the text has a '-' piece |
| DotnetVersions.ParseToString | src/Dotnet.Installer.Core/Types/DotnetVersion.cs:22-55 | parsing the rendering "Major.Minor.Patch" of non-negative numbers gives back a stable version with those numbers |
| DotnetVersions.SectionsOfRendering | src/Dotnet.Installer.Core/Types/DotnetVersion.cs:24-25 | the rendering has no '-' and splits at '.' into the three number renderings |
| DotnetVersions.ParseTagged | src/Dotnet.Installer.Core/Types/DotnetVersion.cs:33-47 | a "-tag.N" suffix sets IsPreview exactly for "preview", IsRc exactly for "rc", and the identifier to N for any tag |
| DotnetVersions.TaggedSections | src/Dotnet.Installer.Core/Types/DotnetVersion.cs:24-35 | a rendering followed by "-tag.N" splits into the rendering and "tag.N", and these into the numbers and [tag, N] |
| DotnetVersions.ParseWellFormed | src/Dotnet.Installer.Core/Types/DotnetVersion.cs:22-50 | every parsed version is well formed: non-negative numbers, at most one of the two flags, an identifier wherever a flag is set |
| DotnetVersions.DigitSection | src/Dotnet.Installer.Core/Types/DotnetVersion.cs:28-30 | a one-digit section parses to its digit |
| DotnetVersions.LetterSection | src/Dotnet.Installer.Core/Types/DotnetVersion.cs:28-30 | a section starting and ending with a letter throws FormatException |
| DotnetVersions.ParseRejectsLetter | src/Dotnet.Installer.Core/Types/DotnetVersion.cs:28-30 | "8.0.a" throws FormatException |
| DotnetVersions.ParseRejectsLettersBeforeTag | src/Dotnet.Installer.Core/Types/DotnetVersion.cs:24-46 | the numbers are read before the tag: "8.0.aaa-rc.1" throws FormatException |
| DotnetVersions.LettersBeforeTagSections | src/Dotnet.Installer.Core/Types/DotnetVersion.cs:24-25 | how "8.0.aaa-rc.1" is cut at '-' and then at '.' |
| DotnetVersions.ParseMissingPatch | src/Dotnet.Installer.Core/Types/DotnetVersion.cs:25-30 | "8.0" has no third section and throws IndexOutOfRangeException |
| DotnetVersions.ParseTagWithoutIdentifier | src/Dotnet.Installer.Core/Types/DotnetVersion.cs:33-46 | a suffix without ".N" throws IndexOutOfRangeException whatever the tag |
| DotnetVersions.OrderKey | src/Dotnet.Installer.Core/Types/DotnetVersion.Operators.cs:5-29 | the reference order has seven keys: numbers, stage, identifier, revision presence and revision |
| DotnetVersions.LexCompare | src/Dotnet.Installer.Core/Types/DotnetVersion.Operators.cs:5-29 | lexicographic comparison gives -1, 0 or 1, and 0 exactly for equal keys |
| DotnetVersions.LexCompareAntisymmetric | src/Dotnet.Installer.Core/Types/DotnetVersion.Operators.cs:5-29 | swapping the keys negates the lexicographic comparison |
| DotnetVersions.LexCompareTransitive | src/Dotnet.Installer.Core/Types/DotnetVersion.Operators.cs:5-29 | lexicographic at-most is transitive, strictly when either step is strict |
| DotnetVersions.LexFirstDifference | src/Dotnet.Installer.Core/Types/DotnetVersion.Operators.cs:5-29 | keys that agree up to a position and differ there are ordered by that entry |
| DotnetVersions.WellFormedComparable | src/Dotnet.Installer.Core/Types/DotnetVersion.Operators.cs:16 | CompareTo never dereferences a missing identifier on well-formed versions |
| DotnetVersions.CompareToFollowsOrderKey | src/Dotnet.Installer.Core/Types/DotnetVersion.Operators.cs:5-29 | on well-formed versions the sign of CompareTo is the lexicographic order of the order keys, despite the unchecked subtractions |
| DotnetVersions.CompareToAntisymmetric | src/Dotnet.Installer.Core/Types/DotnetVersion.Operators.cs:5-29 | swapping the operands of CompareTo negates its sign |
| DotnetVersions.CompareToTransitive | src/Dotnet.Installer.Core/Types/DotnetVersion.Operators.cs:5-34 | `<=` and `<` on versions are transitive: versions form a total preorder |
| DotnetVersions.OperatorsFollowOrderKey | src/Dotnet.Installer.Core/Types/DotnetVersion.Operators.cs:31-34 | each of `<`, `>`, `<=`, `>=` is the corresponding order of the order keys |
| DotnetVersions.CompareToNullIsNegative | src/Dotnet.Installer.Core/Types/DotnetVersion.Operators.cs:7-8 | a null version sorts last |
| DotnetVersions.NumbersDecide | src/Dotnet.Installer.Core/Types/DotnetVersion.Operators.cs:10-12 | differing numbers decide the order lexicographically, whatever the flags |
| DotnetVersions.StagesOrder | src/Dotnet.Installer.Core/Types/DotnetVersion.Operators.cs:14-22 | with equal numbers a preview sorts below a release candidate, both below the stable release, and two previews (or two release candidates) by identifier |
| DotnetVersions.CompareToSelf | src/Dotnet.Installer.Core/Types/DotnetVersion.Operators.cs:5-29 | every version compares equal to itself |
| DotnetVersions.Equals | src/Dotnet.Installer.Core/Types/DotnetVersion.Operators.cs:36-49 | Equals holds exactly when the other version is present and every property is equal |
| DotnetVersions.EqualsOperator | src/Dotnet.Installer.Core/Types/DotnetVersion.Operators.cs:67-75 | `==` holds exactly for two nulls or two equal versions |
| DotnetVersions.NotEqualsOperator | src/Dotnet.Installer.Core/Types/DotnetVersion.Operators.cs:77 | `!=` is the negation of `==` |
| DotnetVersions.EqualityAndOrder | src/Dotnet.Installer.Core/Types/DotnetVersion.Operators.cs:5-49 | equal versions compare as 0, but comparing as 0 does not make versions equal (a revision differs) |
| DotNetText.Wrap32 | src/Dotnet.Installer.Core/Types/DotnetVersion.Operators.cs:10-12 | unchecked Int32 subtraction: the true difference when it fits, otherwise a value congruent to it modulo 2^32 within the Int32 range |
| DotNetText.Split | src/Dotnet.Installer.Core/Types/DotnetVersion.cs:24-25 | string.Split(char): one piece more than separators, no piece holds the separator, every character comes from the input |
| DotNetText.JoinSplit | src/Dotnet.Installer.Core/Types/DotnetVersion.cs:24-25 | joining the pieces of a split with the separator gives back the input |
| DotNetText.SplitJoin | src/Dotnet.Installer.Core/Types/DotnetVersion.cs:24-25 | splitting a join of separator-free pieces gives back exactly those pieces |
| DotNetText.SplitWithoutSeparator | src/Dotnet.Installer.Core/Types/DotnetVersion.cs:24 | a string without the separator splits into itself alone |
| DotNetText.SplitAround | src/Dotnet.Installer.Core/Types/DotnetVersion.cs:24-25 | a separator between two strings separates their pieces |
| DotNetText.SplitTwo | src/Dotnet.Installer.Core/Types/DotnetVersion.cs:24 | "x-y" with separator-free x and y splits into exactly [x, y] |
| DotNetText.SplitThree | src/Dotnet.Installer.Core/Types/DotnetVersion.cs:25 | "x.y.z" with separator-free parts splits into exactly [x, y, z] |
| DotNetText.FirstPiece | src/Dotnet.Installer.Core/Types/SnapInfo.cs:23 | Split(string)[0]: a prefix of the input with no occurrence of the separator starting inside it, followed by the separator unless it is the whole input |
| DotNetText.FirstPieceBefore | src/Dotnet.Installer.Core/Types/SnapInfo.cs:23 | the first piece of x + sep + rest is x when x cannot start the separator |
| DotNetText.ParseInt32 | src/Dotnet.Installer.Core/Types/DotnetVersion.cs:28-30 | int.Parse fails only with FormatException or OverflowException, and a success on a text without '-' is non-negative |
| DotNetText.TrimmedIn | src/Dotnet.Installer.Core/Types/DotnetVersion.cs:28 | trimming white space around a number only removes characters |
| DotNetText.NatToString | src/Dotnet.Installer.Core/Types/DotnetVersion.cs:54 | the decimal rendering of a non-negative number: digits only, reading back to the number, no leading zero |
| DotNetText.IntToString | src/Dotnet.Installer.Core/Types/DotnetVersion.cs:54 | the rendering of an Int32 holds no '.' or space, and holds '-' exactly when the number is negative |
| DotNetText.LeadingDigit | src/Dotnet.Installer.Core/Types/DotnetVersion.cs:20 | the leading decimal digit of a positive number is between 1 and 9 |
| DotNetText.NatToStringStartsWithLeadingDigit | src/Dotnet.Installer.Core/Types/DotnetVersion.cs:20 | the first character of the rendering, which the feature band keeps, is the leading digit |
| DotNetText.ParseIntToString | src/Dotnet.Installer.Core/Types/DotnetVersion.cs:28-30 | int.Parse of the rendering of any Int32 gives the number back |
| DotNetText.EqualsIgnoreCaseMeaning | src/Dotnet.Installer.Console/Commands/RemoveCommand.cs:53 | two names are equal ignoring case exactly when they have the same length and agree at every position up to the case of an ASCII letter |
| DotnetVersionJson.Read | src/Dotnet.Installer.Core/Converters/DotnetVersionJsonConverter.cs:9-16 | a null token reads as null and only a null token does; a version read from a string is well formed; any other token throws |
| DotnetVersionJson.ParseWellFormedWhenSuccessful | src/Dotnet.Installer.Core/Converters/DotnetVersionJsonConverter.cs:14 | whatever the converter parses is well formed |
| DotnetVersionJson.ReadWrite | src/Dotnet.Installer.Core/Converters/DotnetVersionJsonConverter.cs:9-21 | reading what Write stored recovers major, minor and patch; the preview flags and identifier are lost |
| DotnetVersionJson.ReadWriteStable | src/Dotnet.Installer.Core/Converters/DotnetVersionJsonConverter.cs:9-21 | for a stable version with only numbers set the round trip is exact |
| DotnetVersionJson.ReadRejectsLetters | src/Dotnet.Installer.Core/Converters/DotnetVersionJsonConverter.cs:14 | an unparsable string fails with Parse's own exception |
| SnapInfos.ParseVersionAsDotnetVersion | src/Dotnet.Installer.Core/Types/SnapInfo.cs:19-31 | a failure carries the message naming the full snap version and the snap; a success is a well-formed version |
| SnapInfos.GitSuffixIgnored | src/Dotnet.Installer.Core/Types/SnapInfo.cs:23 | "M.m.p+git<build>" reads as the stable version M.m.p, whatever the build text and the rest of the record |
| SnapInfos.WithoutGitSuffix | src/Dotnet.Installer.Core/Types/SnapInfo.cs:23 | a version without "+git" is parsed whole |
| DomainVersions.ParseToString | src/Dotnet.Installer.Domain/Types/DotnetVersion.cs:16-32 | parsing the rendering of any domain version gives it back, negative numbers included |
| DomainVersions.RenderingSections | src/Dotnet.Installer.Domain/Types/DotnetVersion.cs:18 | the rendering splits at '.' into the three number renderings |
| DomainVersions.RenderedSectionsParse | src/Dotnet.Installer.Domain/Types/DotnetVersion.cs:21-23 | each of the three sections of a rendering parses to its number |
| DomainVersions.ParseIgnoresExtraSections | src/Dotnet.Installer.Domain/Types/DotnetVersion.cs:18-24 | sections after the third are ignored, whatever they contain |
| DomainVersions.NumberWithTagIsNotANumber | src/Dotnet.Installer.Domain/Types/DotnetVersion.cs:23 | a number followed by "-preview" is not a number for int.Parse |
| DomainVersions.ParseRejectsPreviewSuffix | src/Dotnet.Installer.Domain/Types/DotnetVersion.cs:16-27 | the domain parser does not understand a "-preview.N" suffix: it throws FormatException |
| DomainVersions.PreviewSuffixSections | src/Dotnet.Installer.Domain/Types/DotnetVersion.cs:18 | a preview suffix ends up inside the patch section when split at '.' |
| DomainVersions.PreviewSuffixText | src/Dotnet.Installer.Domain/Types/DotnetVersion.cs:29-32 | how a rendering followed by "-preview.N" reads as '.'-separated text |
| DomainVersions.Equals | src/Dotnet.Installer.Domain/Types/DotnetVersion.cs:36-45 | Equals holds exactly when the other version is present with the same three numbers |
| DomainVersions.EqualsOperator | src/Dotnet.Installer.Domain/Types/DotnetVersion.cs:49-62 | `==` holds exactly for two nulls or two equal versions |
| DomainVersions.NotEqualsOperator | src/Dotnet.Installer.Domain/Types/DotnetVersion.cs:64 | `!=` is the negation of `==` |
| ComponentRecords.FirstWithKey | src/Dotnet.Installer.Core/Services/Implementations/ManifestService.Private.cs:80 | result.First(c => c.Key == key): the first entry with the key, every earlier one having another key |
| ComponentRecords.LastWithKey | src/Dotnet.Installer.Core/Services/Implementations/ManifestService.Private.cs:72-83 | the position of the last entry with a key, none after it having that key |
| ComponentRecords.KeysOfSnoc | src/Dotnet.Installer.Core/Services/Implementations/ManifestService.Private.cs:76 | appending an entry adds its key |
| ComponentRecords.KeysOfUpdate | src/Dotnet.Installer.Core/Services/Implementations/ManifestService.Private.cs:81 | copying an installation changes no key |
| ComponentRecords.NotFirstWithKey | src/Dotnet.Installer.Core/Services/Implementations/ManifestService.Private.cs:74 | result.All(c => c.Key != key) holds exactly when no entry has the key |
| ComponentRecords.MergeExtendsRemote | src/Dotnet.Installer.Core/Services/Implementations/ManifestService.Private.cs:67-86 | the merge is the remote list with at most the installations changed, followed by entries taken from the local list |
| ComponentRecords.MergeKeys | src/Dotnet.Installer.Core/Services/Implementations/ManifestService.Private.cs:67-86 | the merged keys are the remote keys together with the local keys |
| ComponentRecords.MergeKeyOrder | src/Dotnet.Installer.Core/Services/Implementations/ManifestService.Private.cs:67-86 | the merged keys are the remote keys in order, then the local keys that are new, in order of first appearance |
| ComponentRecords.FreshKeysSet | src/Dotnet.Installer.Core/Services/Implementations/ManifestService.Private.cs:74-77 | a key is appended exactly when it is a local key not among the remote keys |
| ComponentRecords.FreshKeysAvoidSeen | src/Dotnet.Installer.Core/Services/Implementations/ManifestService.Private.cs:74-77 | the appended keys avoid the remote keys and are pairwise different |
| ComponentRecords.MergeDistinctKeys | src/Dotnet.Installer.Core/Services/Implementations/ManifestService.Private.cs:67-86 | merging keeps keys distinct when the remote keys are distinct |
| ComponentRecords.DistinctKeysCount | src/Dotnet.Installer.Core/Services/Implementations/ManifestService.Private.cs:67-86 | entries with distinct keys are as many as their keys |
| ComponentRecords.MergeLength | src/Dotnet.Installer.Core/Services/Implementations/ManifestService.Private.cs:67-86 | with distinct remote keys the merge has one entry per key of either list: the remote entries plus one per new local key |
| ComponentRecords.MergeInstallation | src/Dotnet.Installer.Core/Services/Implementations/ManifestService.Private.cs:78-82 | the first merged entry with a local key carries the installation of the LAST local entry with that key |
| ComponentRecords.FirstWithKeyIs | src/Dotnet.Installer.Core/Services/Implementations/ManifestService.Private.cs:80 | a position whose entry has the key and all earlier ones not is the first with the key |
| ComponentRecords.FirstWithKeyOfExtension | src/Dotnet.Installer.Core/Services/Implementations/ManifestService.Private.cs:76 | appending after the first entry with a key does not move it |
| ComponentRecords.FirstWithKeyOfUpdate | src/Dotnet.Installer.Core/Services/Implementations/ManifestService.Private.cs:81 | copying an installation does not move the first entry with any key |
| ComponentRecords.MergeLeavesOthers | src/Dotnet.Installer.Core/Services/Implementations/ManifestService.Private.cs:67-86 | a remote entry whose key no local entry has, or which is not the first with its key, is merged unchanged |
| Components.ErrorCode | src/Dotnet.Installer.Core/Models/Error.cs:3-8 | only the installer's own exceptions (unsupported architecture, version too high) carry an exit code |
| Outcomes.Exit | src/Dotnet.Installer.Console/Commands/UpdateCommand.cs:110-114 | an exception with an error code ends the process with that code (11 for a version too high, 12 for an unsupported architecture); any other exception escapes unchanged; never a normal completion |
| Components.BandLimitIndex | src/Dotnet.Installer.Core/Models/Component.cs:33-34 | the position of the first SDK limit with the feature band: every earlier limit has another band |
| Components.CanInstall | src/Dotnet.Installer.Core/Models/Component.cs:24-40 | a runtime may be installed exactly when it is at most the runtime limit; an SDK is held to the first SDK limit of its feature band, and First throws when no limit has that band |
| Components.CanInstallAtLimit | src/Dotnet.Installer.Core/Models/Component.cs:24-40 | a version that is its own limit can be installed |
| Components.CanInstallDownward | src/Dotnet.Installer.Core/Models/Component.cs:24-40 | a lower version of the same kind and feature band stays installable under the same limits |
| Components.PreviousIndex | src/Dotnet.Installer.Core/Models/Component.cs:67-70 | FirstOrDefault of the "previous component" test: the first local component passing it, every earlier one failing it, or none |
| Components.PreviousIsLower | src/Dotnet.Installer.Core/Models/Component.cs:67-70 | a previous component is strictly lower, so it is never the component being installed |
| Components.AnyLowerRuntimeIsPrevious | src/Dotnet.Installer.Core/Models/Component.cs:68-70 | because `&&` binds tighter than `?:`, any lower runtime counts as previous, whatever its name |
| Components.LowerInBandIsPrevious | src/Dotnet.Installer.Core/Models/Component.cs:69-70 | any lower SDK of the same feature band counts as previous, whatever its name |
| Components.PackagesWorkInOrder | src/Dotnet.Installer.Core/Models/Component.cs:78-89 | each package's event, download, extraction and deletion come after the work on the packages before it and before the work on those after it; four effects per package |
| Components.PackagesWorkLength | src/Dotnet.Installer.Core/Models/Component.cs:78-89 | the package loop produces four effects per package |
| Components.PackagesWorkAppend | src/Dotnet.Installer.Core/Models/Component.cs:78-89 | the work on consecutive package lists is the concatenation of their work |
| Components.RemovePackagesDeletes | src/Dotnet.Installer.Core/Models/Component.cs:110-129 | uninstalling packages only deletes files, and reports only deletions of files that are gone; it succeeds only when every registration file existed, and then none is left; a failure names one package's registration file |
| Components.RemovePackageDeletes | src/Dotnet.Installer.Core/Models/Component.cs:114-128 | one package's removal only deletes, and reports only files that are gone |
| Components.PrefixFailureSticks | src/Dotnet.Installer.Core/Models/Component.cs:117-120 | after a missing registration file the later packages change nothing |
| Components.RemoveAllPackages | src/Dotnet.Installer.Core/Models/Component.cs:112-129 | the package loop of Uninstall ends with the files, trace and exception of the removal specification, the manifest file untouched |
| Components.RemoveOnePackage | src/Dotnet.Installer.Core/Models/Component.cs:114-128 | one pass: a missing registration file fails and changes nothing; otherwise the listed files and the registration file are deleted in order |
| Components.Host.DeleteFiles | src/Dotnet.Installer.Core/Models/Component.cs:123-128 | DeleteFile on each path in turn: the paths are gone, one DeletedFile effect each in order, the manifest file untouched |
| Components.Deletions | src/Dotnet.Installer.Core/Models/Component.cs:123-128 | one DeletedFile effect per path, in order |
| Components.Host.constructor | src/Dotnet.Installer.Core/Services/Implementations/ManifestService.cs:7-16 | a host starts with the given files, manifest file and architecture, and an empty trace |
| Components.Component.FromRecord | src/Dotnet.Installer.Core/Models/Component.cs:9-18 | deserialising a manifest entry gives a component whose entry is that record |
| Components.Component.Uninstall | src/Dotnet.Installer.Core/Models/Component.cs:108-137 | a component not installed is left alone; otherwise each registration file must exist, the files it lists and the file itself are deleted, then empty directories are removed, the installation cleared, the first local entry with the key removed and the list saved; a missing registration file stops with nothing after it |
| Components.Component.InstallPackages | src/Dotnet.Installer.Core/Models/Component.cs:78-89 | the package loop: per package an InstallingPackageChanged event, a download into the install directory, its extraction and the deletion of the download; an unset directory fails on the first package |
| Components.Component.ReplacePrevious | src/Dotnet.Installer.Core/Models/Component.cs:65-75 | without a previous component nothing happens; otherwise the first previous one is uninstalled, and the local list loses its entry when it was installed |
| Components.Component.InstallSelf | src/Dotnet.Installer.Core/Models/Component.cs:61-95 | the start event, the uninstall of the previous version, the packages, the registration in the manifest, the finish event; a failure is a missing install directory or registration file; on success the component is installed now, last in the saved local list, with the finish event last; with no previous version the whole trace is exactly that |
| Components.Component.ReplaceAndInstall | src/Dotnet.Installer.Core/Models/Component.cs:65-94 | after the start event: the previous version's uninstall, then the packages, the registration and the finish event, which end the trace; a failure is a missing install directory or registration file |
| Components.Component.InstallAndRegister | src/Dotnet.Installer.Core/Models/Component.cs:77-94 | the packages, then Add (installed now, appended to the local list, saved), then the finish event, which ends the trace; the only failure is an unset install directory, and it leaves the local list alone |
| Components.Component.Install | src/Dotnet.Installer.Core/Models/Component.cs:42-106 | an unsupported architecture, a missing SDK limit or a version above its limit throws before anything changes; otherwise the first new effect is the start event for a component not installed and the "already installed" notice for one installed; on success every dependency was found in the remote list and the trace shows this component's own work ending (the notice, or the finish event), then each dependency's installation beginning, in declared order; a missing dependency is reported only for a key no remote component has |
| Components.Component.InstallAllowed | src/Dotnet.Installer.Core/Models/Component.cs:61-105 | once both checks pass the trace only grows, and its first new entry is the start event or the "already installed" notice; on success every dependency was found, and after this component's finish event (or notice) each dependency's installation begins, in declared order; a missing dependency is a key absent from the remote list |
| Components.Component.InstallOwn | src/Dotnet.Installer.Core/Models/Component.cs:61-99 | the component's own part: its installation when not installed, otherwise exactly the "already installed" notice; the trace grows from the start event or the notice, a failure is a missing install directory or registration file, and on success the last entry is the finish event or the notice |
| Components.Component.InstallDependencies | src/Dotnet.Installer.Core/Models/Component.cs:101-105 | each dependency is looked up by key in the remote list and installed in declared order: on success every dependency was found and the new part of the trace shows their installations beginning (start event or notice) in that order; a DependencyMissing failure (First throwing) names a key no remote component has; the trace only grows |
| Components.Component.Record | src/Dotnet.Installer.Core/Models/Component.cs:11-18 | serialising a component keeps its key and its installation |
| Components.SnapshotReleases | src/Dotnet.Installer.Core/Services/Implementations/ManifestService.Private.cs:67-86 | the saved entries with installations left out are the components' releases |
| Components.IndexOfKey | src/Dotnet.Installer.Core/Services/Implementations/ManifestService.cs:69 | the position of the first component with the key, or none |
| Components.RemoveFirstWithKey | src/Dotnet.Installer.Core/Services/Implementations/ManifestService.cs:67-75 | without an entry with the key the list is unchanged; otherwise it is one shorter |
| Components.RemoveFirstWithKeyKeepsOthers | src/Dotnet.Installer.Core/Services/Implementations/ManifestService.cs:67-75 | Remove drops exactly the first entry with the key, keeping everything before and after in order |
| Components.RemoveFirstWithKeyShrinks | src/Dotnet.Installer.Core/Services/Implementations/ManifestService.cs:67-75 | removing never brings in a component that was not in the list |
| Components.MergeOne | src/Dotnet.Installer.Core/Services/Implementations/ManifestService.Private.cs:72-83 | one pass of the merge loop: a new key appends the local object, a known key copies its installation into the first object with that key; the result's entries follow MergeStep |
| Components.MergeComponents | src/Dotnet.Installer.Core/Services/Implementations/ManifestService.Private.cs:67-86 | Merge on objects: the remote objects first, then local objects, no object twice, and the entries are Merge of the loaded entries |
| Components.MergingBegins | src/Dotnet.Installer.Core/Services/Implementations/ManifestService.Private.cs:69-70 | the merge loop starts from the remote list |
| Components.MergingEnds | src/Dotnet.Installer.Core/Services/Implementations/ManifestService.Private.cs:72-85 | after the last local entry the loop's state is the merge of both lists |
| Components.MergeNext | src/Dotnet.Installer.Core/Services/Implementations/ManifestService.Private.cs:72-83 | one pass keeps the merge loop's invariant |
| Components.NotYetMerged | src/Dotnet.Installer.Core/Services/Implementations/ManifestService.Private.cs:72-83 | local objects not yet visited are not in the result so far |
| Components.FirstWithKeyOfSnapshot | src/Dotnet.Installer.Core/Services/Implementations/ManifestService.Private.cs:80 | the first object with a key is at the same position as the first entry with it |
| Components.MergedFromBoth | src/Dotnet.Installer.Core/Services/Implementations/ManifestService.Private.cs:67-86 | every merged object comes from the remote or the local list |
| Components.ManifestService.constructor | src/Dotnet.Installer.Core/Services/Implementations/ManifestService.cs:14-16 | a new service starts with three empty lists |
| Components.ManifestService.DotnetInstallLocation | src/Dotnet.Installer.Core/Services/Implementations/ManifestService.cs:18-20 | the value of DOTNET_INSTALL_DIR when set, otherwise an exception |
| Components.ManifestService.Save | src/Dotnet.Installer.Core/Services/Implementations/ManifestService.Private.cs:88-94 | the local list's entries are written to the manifest file, loading the file back gives exactly those entries, and nothing else changes |
| Components.ManifestService.Initialize | src/Dotnet.Installer.Core/Services/Implementations/ManifestService.cs:50-55 | the local list from the manifest file, the remote list from the response, and their merge; every component is a new object |
| Components.LoadLists | src/Dotnet.Installer.Core/Services/Implementations/ManifestService.cs:50-55 | new objects for the local and remote entries, one per entry, and their merge: the remote objects first, then local objects only, with the merged entries those of the merge rule |
| Components.ManifestService.Add | src/Dotnet.Installer.Core/Services/Implementations/ManifestService.cs:57-65 | the component is marked installed now, appended to the local list and the list saved, so that loading the file back gives the new list's entries |
| Components.ManifestService.Remove | src/Dotnet.Installer.Core/Services/Implementations/ManifestService.cs:67-75 | the first local entry with the component's key is dropped if there is one, and the list is saved either way, so that loading the file back gives the new list's entries |
| Components.MaterializeBoth | src/Dotnet.Installer.Core/Services/Implementations/ManifestService.Private.cs:22-65 | deserialising the local and the remote lists gives new objects, none shared between them |
| Components.Materialize | src/Dotnet.Installer.Core/Services/Implementations/ManifestService.Private.cs:27-31 | deserialising a list gives one new object per entry, each with that entry |
| DependencyTrees.Traverse | src/Dotnet.Installer.Core/Types/DependencyTree.cs:30-45 | the search from a key only adds keys of the tree to the visited set and lists only keys of the tree |
| DependencyTrees.TraverseFrom | src/Dotnet.Installer.Core/Types/DependencyTree.cs:39-44 | the loop over the dependents of a key only adds keys of the tree to the visited set and lists only keys of the tree |
| DependencyTrees.TraverseFromStep | src/Dotnet.Installer.Core/Types/DependencyTree.cs:39-44 | a dependent is searched and then listed; any other key is skipped |
| DependencyTrees.TraverseFacts | src/Dotnet.Installer.Core/Types/DependencyTree.cs:30-45 | every key newly visited by a search is reachable from its start and has all its dependents visited and listed, and every listed key is a dependent of a newly visited one |
| DependencyTrees.TraverseFromFacts | src/Dotnet.Installer.Core/Types/DependencyTree.cs:39-44 | the same facts for the loop over the dependents |
| DependencyTrees.ClosedAlongWalk | src/Dotnet.Installer.Core/Types/DependencyTree.cs:30-45 | along a dependency path from a visited key every key is visited and every later key listed |
| DependencyTrees.ReverseDependenciesAreDependents | src/Dotnet.Installer.Core/Types/DependencyTree.cs:21-45 | an unknown start lists nothing; for a known start a key is listed exactly when it depends on the start, directly or through other components |
| DependencyTrees.ChainDependents | tests/Dotnet.Installer.Core.Tests/Types/DependencyTreeTests.cs:51-61 | in the chain 3 depends on 2 depends on 1, the search lists [3, 2] from 1, [3] from 2 and nothing from 3 |
| DependencyTrees.DiamondBelowTwo | src/Dotnet.Installer.Core/Types/DependencyTree.cs:34-44 | in the diamond, the search below 2 lists 4 |
| DependencyTrees.DiamondBelowThree | src/Dotnet.Installer.Core/Types/DependencyTree.cs:34-44 | in the diamond, the search below 3 lists 4 again although 4 is already visited |
| DependencyTrees.DiamondListsSharedDependentTwice | src/Dotnet.Installer.Core/Types/DependencyTree.cs:39-44 | a dependent reached along two paths is listed twice: the diamond lists [4, 2, 4, 3] from 1 |
| DependencyTrees.Lookup | src/Dotnet.Installer.Core/Types/DependencyTree.cs:43 | one component per key, in order |
| DependencyTrees.LookupAt | src/Dotnet.Installer.Core/Types/DependencyTree.cs:43 | the listing's i-th component is the one bound to the i-th key |
| DependencyTrees.LookupAppend | src/Dotnet.Installer.Core/Types/DependencyTree.cs:43 | listing consecutive keys lists consecutive components |
| DependencyTrees.IndexKeepsLast | src/Dotnet.Installer.Core/Types/DependencyTree.cs:11-14 | the tree holds each key of the components, bound to the last component with that key |
| DependencyTrees.KeyOrderListsKeys | src/Dotnet.Installer.Core/Types/DependencyTree.cs:11-14 | the key order lists each key of the tree exactly once |
| DependencyTrees.DependencyGraphWellFormed | src/Dotnet.Installer.Core/Types/DependencyTree.cs:11-14 | the graph of a list of entries holds exactly their keys, each once in the key order |
| DependencyTrees.DependencyGraphIgnoresInstallation | src/Dotnet.Installer.Core/Types/DependencyTree.cs:11-14 | installations play no part in the dependency graph |
| DependencyTrees.TreeGraph | src/Dotnet.Installer.Core/Types/DependencyTree.cs:11-14 | the tree built from the components has the dependency graph of their entries |
| DependencyTrees.LookupOfIndex | src/Dotnet.Installer.Core/Types/DependencyTree.cs:11-14 | the components the tree binds to keys come from the list it was built from and carry those keys |
| DependencyTrees.LookupListsDependents | src/Dotnet.Installer.Core/Types/DependencyTree.cs:21-28 | the components listed for a known start are exactly those whose keys depend on it |
| DependencyTrees.ScanStep | src/Dotnet.Installer.Core/Types/DependencyTree.cs:39-44 | one pass of the loop over the keys keeps the search's state |
| DependencyTrees.ScanBegins | src/Dotnet.Installer.Core/Types/DependencyTree.cs:37-39 | the loop starts with nothing listed |
| DependencyTrees.ScanDone | src/Dotnet.Installer.Core/Types/DependencyTree.cs:39-45 | after the last key the loop has listed and visited what the search specifies |
| DependencyTrees.DependencyTree.View | src/Dotnet.Installer.Core/Types/DependencyTree.cs:7 | the graph the search reads has the tree's keys |
| DependencyTrees.DependencyTree.Empty | src/Dotnet.Installer.Core/Types/DependencyTree.cs:9 | the empty tree |
| DependencyTrees.DependencyTree.constructor | src/Dotnet.Installer.Core/Types/DependencyTree.cs:11-14 | the tree built from the components: each key bound to the last component with it, keys in order of first insertion |
| DependencyTrees.DependencyTree.Add | src/Dotnet.Installer.Core/Types/DependencyTree.cs:16-19 | the key is bound to the component, replacing any earlier one; a new key goes last in the order |
| DependencyTrees.DependencyTree.GetReverseDependencies | src/Dotnet.Installer.Core/Types/DependencyTree.cs:21-28 | the search's listing from an empty visited set; nothing for an unknown key; otherwise a component is listed exactly when its key depends on the start |
| DependencyTrees.DependencyTree.TraverseReverseDependencies | src/Dotnet.Installer.Core/Types/DependencyTree.cs:30-45 | appends the components of the search from the key and returns its visited set; an unknown or visited key adds nothing |
| DependencyTrees.DependencyTree.VisitDependent | src/Dotnet.Installer.Core/Types/DependencyTree.cs:42-43 | the search below a dependent, then the dependent itself |
| DependencyTrees.DependencyTree.VisitDependents | src/Dotnet.Installer.Core/Types/DependencyTree.cs:39-44 | the loop over the keys in order appends what the specification's loop lists |
| DependencyTrees.DependencyTree.VisitKey | src/Dotnet.Installer.Core/Types/DependencyTree.cs:39-44 | one pass of that loop keeps its state |
| DomainManifests.WithoutFirst | src/Dotnet.Installer.Domain/Manifest.cs:77-86 | without an entry with the key the stored list is unchanged |
| DomainManifests.MultisetWithout | src/Dotnet.Installer.Domain/Manifest.cs:83 | List.Remove of one entry removes exactly that entry from the multiset |
| DomainManifests.WithoutFirstDropsOne | src/Dotnet.Installer.Domain/Manifest.cs:77-86 | Remove drops exactly one entry, the first with the key, and keeps the others in order |
| DomainManifests.RemoveUndoesAdd | src/Dotnet.Installer.Domain/Manifest.cs:66-86 | removing a component just added to a list without its key restores the list |
| DomainManifests.LoadShowsAdded | src/Dotnet.Installer.Domain/Manifest.cs:24-30 | after Add, Load shows the component's key as installed at the time of the Add, whatever the remote list holds |
| DomainManifests.ArchiveFlagIgnored | src/Dotnet.Installer.Domain/Models/Manifest.cs:66-69 | asking for the archive adds nothing: both copies of LoadRemote load the same list |
| DomainManifests.DomainManifest.constructor | src/Dotnet.Installer.Domain/Manifest.cs:11-22 | the manifest starts from the stored file, with nothing written |
| DomainManifests.DomainManifest.Load | src/Dotnet.Installer.Domain/Manifest.cs:24-30 | the remote list merged with the stored list: the remote entries first, the keys of both lists, nothing written |
| DomainManifests.DomainManifest.Save | src/Dotnet.Installer.Domain/Manifest.Private.cs:8-17 | the given list becomes the stored list, written once |
| DomainManifests.DomainManifest.Add | src/Dotnet.Installer.Domain/Manifest.cs:66-75 | re-reads the stored list, appends the component marked installed now, and writes the list back once |
| DomainManifests.DomainManifest.Remove | src/Dotnet.Installer.Domain/Manifest.cs:77-86 | re-reads the stored list, drops the first entry with the component's key if any, and writes the list back once either way |
| Elevation.ElevatedArguments | src/Dotnet.Installer.Core/Extensions/CommandExtensions.cs:17-21 | the new argument list is the old target followed by the old argument string cut at every space, no piece holding a space |
| Elevation.EscapeAll | src/Dotnet.Installer.Core/Extensions/CommandExtensions.cs:27 | escaping keeps one argument per argument |
| Elevation.Elevate | src/Dotnet.Installer.Core/Extensions/CommandExtensions.cs:8-30 | a root user's command is returned unchanged; otherwise the target becomes pkexec when it exists and sudo when not, and the working directory and environment are kept |
| Elevation.ElevateWithPkexec | src/Dotnet.Installer.Core/Extensions/CliExtensions.cs:7-19 | always re-targets at pkexec, keeping the working directory and environment |
| Elevation.ElevationsAgree | src/Dotnet.Installer.Core/Extensions/CliExtensions.cs:7-19 | the two extensions produce the same command for a non-root user when pkexec exists |
| Elevation.ElevatedArgumentsKeepArguments | src/Dotnet.Installer.Core/Extensions/CommandExtensions.cs:18-21 | nothing of the old arguments is lost: joining the new list after the target gives back the old argument string |
| Elevation.NothingToEscape | src/Dotnet.Installer.Core/Extensions/CommandExtensions.cs:27 | with nothing to quote, escaping changes no argument |
| Elevation.ElevationIsReversible | src/Dotnet.Installer.Core/Extensions/CommandExtensions.cs:8-30 | when nothing needs quoting, the elevated argument string splits back into the old target followed by the old arguments |
| InstallCommands.FirstGreatestIn | src/Dotnet.Installer.Console/Commands/InstallCommand.cs:48-52 | Where(keep).MaxBy(LatestVersion): a kept entry, and none exactly when no entry is kept |
| InstallCommands.FirstGreatestIsGreatest | src/Dotnet.Installer.Console/Commands/InstallCommand.cs:48-52 | the entry MaxBy picks has a latest version at least that of every kept entry and strictly above that of every kept entry before it |
| InstallCommands.FirstEqual | src/Dotnet.Installer.Console/Commands/InstallCommand.cs:64-66 | FirstOrDefault: the first named entry whose latest version equals the parsed one ignoring the revision, or none exactly when no entry matches |
| InstallCommands.Select | src/Dotnet.Installer.Console/Commands/InstallCommand.cs:43-75 | whatever the lookup finds is an entry of the remote list with the requested name |
| InstallCommands.SelectLatest | src/Dotnet.Installer.Console/Commands/InstallCommand.cs:69-73 | "latest" never fails to parse; it finds nothing exactly when no entry has the name, otherwise the first named entry of greatest latest version |
| InstallCommands.SelectMajor | src/Dotnet.Installer.Console/Commands/InstallCommand.cs:46-53 | one character: nothing in an empty list, the parse exception for a non-digit, otherwise a named entry of greatest latest version among those with that major version |
| InstallCommands.SelectMajorMinor | src/Dotnet.Installer.Console/Commands/InstallCommand.cs:54-62 | three characters: nothing in an empty list, the parse exception for a bad major digit, otherwise a named entry of greatest latest version among those with that major and minor version |
| InstallCommands.SelectBlank | src/Dotnet.Installer.Console/Commands/InstallCommand.cs:45 | a blank version string finds nothing |
| InstallCommands.RenderingIsFull | src/Dotnet.Installer.Console/Commands/InstallCommand.cs:64-66 | a rendered version is neither blank, nor "latest", nor one or three characters long |
| InstallCommands.SelectRendered | src/Dotnet.Installer.Console/Commands/InstallCommand.cs:64-66 | asking for a stable latest version by its rendering finds a named entry with that version, ignoring the revision, at or before it |
| InstallCommands.Handle | src/Dotnet.Installer.Console/Commands/InstallCommand.cs:35-104 | an unset install directory escapes; a missing directory exits with -1 and changes nothing; a lookup that finds nothing exits with -1; a parse exception escapes; otherwise the entry found is installed as the loaded manifest shows it, and an installer exception becomes its exit code |
| InstallCommands.RemoteReleasesAfterLoad | src/Dotnet.Installer.Core/Services/Implementations/ManifestService.cs:50-55 | after Initialize the remote components, installations aside, are the remote entries loaded |
| InstallCommands.LoadedEntry | src/Dotnet.Installer.Core/Services/Implementations/ManifestService.Private.cs:67-86 | the remote entry as merged differs from the loaded one at most in its installation |
| InstallCommands.InstallFound | src/Dotnet.Installer.Console/Commands/InstallCommand.cs:84-90 | an unsupported architecture or a version above its limit exits with the error code and changes nothing, a missing SDK limit escapes; otherwise the trace grows and starts with the start event, or the "already installed" notice when the local manifest lists the entry; on completion every dependency is a remote key and the entry's own work is followed by its dependencies' installations in declared order; a missing dependency that escapes is not a remote key |
| UpdateCommands.Where | src/Dotnet.Installer.Console/Commands/UpdateCommand.cs:46-47 | the entries kept are exactly those with the key, and none is repeated when the input has no repeats |
| UpdateCommands.WhereNot | src/Dotnet.Installer.Console/Commands/UpdateCommand.cs:36 | the entries left are exactly those without the key, never more, and fewer when the first entry has the key |
| UpdateCommands.GroupBy | src/Dotnet.Installer.Console/Commands/UpdateCommand.cs:36 | GroupBy yields no empty group |
| UpdateCommands.GroupHasOneKey | src/Dotnet.Installer.Console/Commands/UpdateCommand.cs:36 | a group holds exactly the entries with its key, without repeats when the input has none |
| UpdateCommands.GroupMember | src/Dotnet.Installer.Console/Commands/UpdateCommand.cs:36 | an entry is in a group exactly when it is an input entry with the group's key |
| UpdateCommands.EveryEntryGrouped | src/Dotnet.Installer.Console/Commands/UpdateCommand.cs:36 | every input entry is in some group |
| UpdateCommands.GroupKeysDiffer | src/Dotnet.Installer.Console/Commands/UpdateCommand.cs:36 | no two groups have the same key |
| UpdateCommands.TailKeysDiffer | src/Dotnet.Installer.Console/Commands/UpdateCommand.cs:36 | the groups after the first have keys other than the first group's |
| UpdateCommands.DuplicatesAmong | src/Dotnet.Installer.Console/Commands/UpdateCommand.cs:45-47 | an entry is kept exactly when its name occurs more than once in its group |
| UpdateCommands.CandidateFromGroup | src/Dotnet.Installer.Console/Commands/UpdateCommand.cs:38-49 | each component with updates is a duplicate of one major-version group |
| UpdateCommands.CandidateOfGroup | src/Dotnet.Installer.Console/Commands/UpdateCommand.cs:38-49 | each duplicate of each major-version group is among the components with updates |
| UpdateCommands.EntriesHaveNoRepeats | src/Dotnet.Installer.Console/Commands/UpdateCommand.cs:35 | the merged entries have no repeats and are exactly the components with their positions |
| UpdateCommands.OtherElement | src/Dotnet.Installer.Console/Commands/UpdateCommand.cs:47 | a list without repeats holding an entry has another entry exactly when it is longer than one |
| UpdateCommands.NamesakeInGroup | src/Dotnet.Installer.Console/Commands/UpdateCommand.cs:45-47 | a duplicate has a different entry of the same name in its group |
| UpdateCommands.CandidateHasTwin | src/Dotnet.Installer.Console/Commands/UpdateCommand.cs:33-49 | a component with updates is a merged component with another merged component of the same major version and name |
| UpdateCommands.TwinMakesCandidate | src/Dotnet.Installer.Console/Commands/UpdateCommand.cs:33-49 | a merged component with another of the same major version and name is among the components with updates |
| UpdateCommands.CandidatesAreRepeatedReleases | src/Dotnet.Installer.Console/Commands/UpdateCommand.cs:33-49 | a merged component has updates exactly when another merged component has the same major version and name |
| UpdateCommands.GroupsByName | src/Dotnet.Installer.Console/Commands/UpdateCommand.cs:62-64 | the inner loop's groups are never empty |
| UpdateCommands.InnerGroupFrom | src/Dotnet.Installer.Console/Commands/UpdateCommand.cs:62-64 | each inner group is a name group of one major-version group of the candidates |
| UpdateCommands.UpdateGroups | src/Dotnet.Installer.Console/Commands/UpdateCommand.cs:62-64 | the groups the loop visits are never empty |
| UpdateCommands.GroupsByNameHas | src/Dotnet.Installer.Console/Commands/UpdateCommand.cs:62-64 | every name group of every major-version group is visited |
| UpdateCommands.UpdateGroupMember | src/Dotnet.Installer.Console/Commands/UpdateCommand.cs:62-64 | a visited group starts with a candidate, and holds exactly the merged components of its first member's release |
| UpdateCommands.UpdateGroupIsRelease | src/Dotnet.Installer.Console/Commands/UpdateCommand.cs:62-64 | a visited group holds exactly the merged components of one major version and name, and at least two of them |
| UpdateCommands.UpdateGroupHasTwo | src/Dotnet.Installer.Console/Commands/UpdateCommand.cs:62-64 | a visited group has at least two members |
| UpdateCommands.CandidateIsVisited | src/Dotnet.Installer.Console/Commands/UpdateCommand.cs:62-64 | every component with updates is in a group the loop visits |
| UpdateCommands.CandidatesIffGroups | src/Dotnet.Installer.Console/Commands/UpdateCommand.cs:51-64 | the loop has groups to visit exactly when there are components with updates |
| UpdateCommands.UpdateGroupsPositioned | src/Dotnet.Installer.Console/Commands/UpdateCommand.cs:62-64 | every visited group names positions of the merged list |
| UpdateCommands.ByVersionIsTotalPreorder | src/Dotnet.Installer.Core/Types/DotnetVersion.Operators.cs:5-29 | CompareTo, as OrderBy uses it, relates every two versions and transitively |
| UpdateCommands.LowestInstalledIn | src/Dotnet.Installer.Console/Commands/UpdateCommand.cs:66-68 | OrderBy then FirstOrDefault(installed): an installed member, and none exactly when none is installed |
| UpdateCommands.HighestAvailableIn | src/Dotnet.Installer.Console/Commands/UpdateCommand.cs:69-71 | OrderBy then LastOrDefault(not installed): a member not installed, and none exactly when all are installed |
| UpdateCommands.LowestInstalledIsFirstLowest | src/Dotnet.Installer.Console/Commands/UpdateCommand.cs:66-68 | under a consistent order, the member picked sorts no later than any installed member and strictly before every installed member ahead of it, as a stable sort keeps it |
| UpdateCommands.HighestAvailableIsLastHighest | src/Dotnet.Installer.Console/Commands/UpdateCommand.cs:69-71 | under a consistent order, the member picked sorts no earlier than any member not installed and strictly after every such member behind it |
| UpdateCommands.NotAtMostIsAbove | src/Dotnet.Installer.Core/Types/DotnetVersion.Operators.cs:5-29 | a version not at or below another is strictly above it |
| UpdateCommands.PairOf | src/Dotnet.Installer.Console/Commands/UpdateCommand.cs:66-73 | the pair, when there is one, names two members of the group |
| UpdateCommands.PairIsLowestAndHighest | src/Dotnet.Installer.Console/Commands/UpdateCommand.cs:66-77 | a group is skipped exactly when all or none of its members are installed; otherwise the one uninstalled is installed and of lowest version, first among equals, and the one installed is not installed and of highest version, last among equals |
| UpdateCommands.LowestInstalledIsLowest | src/Dotnet.Installer.Console/Commands/UpdateCommand.cs:66-68 | by CompareTo, the member to uninstall is lowest among the installed ones, first among equals |
| UpdateCommands.HighestAvailableIsHighest | src/Dotnet.Installer.Console/Commands/UpdateCommand.cs:69-71 | by CompareTo, the member to install is highest among those not installed, last among equals |
| UpdateCommands.PlanGroupMeaning | src/Dotnet.Installer.Console/Commands/UpdateCommand.cs:73-96 | a group is skipped exactly when it has no pair, replaced exactly when its newer member is within its limit, and otherwise refused with VersionTooHigh naming a limit strictly below that member, or with NoLimitForFeatureBand when its SDK feature band has no limit |
| UpdateCommands.SameReleasesPointwise | src/Dotnet.Installer.Core/Services/Implementations/ManifestService.cs:57-75 | two lists have the same releases exactly when they agree entry by entry but for installations |
| UpdateCommands.AllSameReleasesStep | src/Dotnet.Installer.Console/Commands/UpdateCommand.cs:62-98 | a list with the loaded releases can join those the loop has seen |
| UpdateCommands.RankAbove | src/Dotnet.Installer.Core/Models/Component.cs:101-105 | a number above the rank of every dependency, the measure under which installing dependencies ends |
| UpdateCommands.Replace | src/Dotnet.Installer.Console/Commands/UpdateCommand.cs:85-89 | the older member is uninstalled, its effects first, then the emptied directories removed and the manifest saved; only then the newer member is installed, starting with its InstallationStarted event unless the architecture is unsupported; on success its finish event is followed by its dependencies' installations in declared order; a missing dependency is a key no remote component has; the remote and merged lists do not change |
| UpdateCommands.UpdateGroup | src/Dotnet.Installer.Console/Commands/UpdateCommand.cs:66-96 | the decision is taken on the members as they are now; a skipped group and a refused group change nothing, a refused one fails with its failure; a replaced group's older member was installed and its newer member was not and is within its limit |
| UpdateCommands.RankedAfterLoad | src/Dotnet.Installer.Core/Services/Implementations/ManifestService.cs:50-55 | the remote components keep the loaded entries' dependencies, so their ranks still order every dependency below its dependent |
| UpdateCommands.FollowsPlanAt | src/Dotnet.Installer.Console/Commands/UpdateCommand.cs:62-98 | each decision the loop took is the one taken on its group's members as they were then |
| UpdateCommands.FollowsPlanStep | src/Dotnet.Installer.Console/Commands/UpdateCommand.cs:62-98 | one more decision taken on the members as they are now extends the plan |
| UpdateCommands.Update | src/Dotnet.Installer.Console/Commands/UpdateCommand.cs:25-115 | an unset install directory escapes and a missing one exits with -1, both changing nothing; without components with updates nothing changes; otherwise the groups are visited in order, each decided on its members as they are when it is reached, on lists that differ from the loaded one only in installations, and every group is visited unless a step fails, a refusal ending the command with its exit code |
| UpdateCommands.VisitStep | src/Dotnet.Installer.Console/Commands/UpdateCommand.cs:62-98 | a decision that did not fail keeps the loop's state; one that failed ends the loop as the command promises |
| UpdateCommands.VisitedAll | src/Dotnet.Installer.Console/Commands/UpdateCommand.cs:62-100 | after the last group the loop has taken every decision and completes |
| UpdateCommands.VisitGroups | src/Dotnet.Installer.Console/Commands/UpdateCommand.cs:62-100 | the loop's decisions follow the plan, each on the list as it is then, until the first failure; the remote and merged lists do not change |
| UpdateCommands.VisitOne | src/Dotnet.Installer.Console/Commands/UpdateCommand.cs:64-97 | one pass of the loop keeps its state, or ends it as the command promises when the group failed |
| UpdateVerbs.VerbDecision | src/Dotnet.Installer.Console/Verbs/UpdateVerb.cs:70-81 | the decision on a group, when there is one, names two positions of the merged list |
| UpdateVerbs.VerbPlan | src/Dotnet.Installer.Console/Verbs/UpdateVerb.cs:66-68 | one decision per group the loop visits |
| UpdateVerbs.PlanAt | src/Dotnet.Installer.Console/Verbs/UpdateVerb.cs:66-93 | the plan's entry for each group is that group's decision, appended after the decisions before it |
| UpdateVerbs.Handle | src/Dotnet.Installer.Console/Verbs/UpdateVerb.cs:32-97 | the verb is rejected exactly when it gets neither or both of a component name and --all; then an unset install directory escapes, a missing one ends the verb silently, and otherwise each group gets its decision on the list as loaded |
| UpdateVerbs.Decide | src/Dotnet.Installer.Console/Verbs/UpdateVerb.cs:66-94 | the loop takes exactly the planned decisions, one per group, in order |
| UpdateVerbs.VerbDecisionMeaning | src/Dotnet.Installer.Console/Verbs/UpdateVerb.cs:70-90 | a group is skipped exactly when all or none of its members are installed; otherwise the verb uninstalls an installed member of the group's release of lowest version and installs a member not installed of highest version |
| UpdateVerbs.VerbIgnoresLimits | src/Dotnet.Installer.Console/Verbs/UpdateVerb.cs:89-90 | the verb skips the same groups as the update command and replaces the same pair where the command replaces, and also where the command refuses over the limits |
| UpdateVerbs.NoCandidatesNoDecisions | src/Dotnet.Installer.Console/Verbs/UpdateVerb.cs:57-68 | the verb decides nothing exactly when there are no components with updates |
| RemoveCommands.FindRequested | src/Dotnet.Installer.Console/Commands/RemoveCommand.cs:52-54 | FirstOrDefault: the position of the first local entry whose name equals the requested one ignoring case and whose version equals the parsed one, or the list's length when no entry does |
| RemoveCommands.FindRequestedIgnoresInstallation | src/Dotnet.Installer.Console/Commands/RemoveCommand.cs:52-54 | the lookup reads only names and versions: stripping the installations finds the same position |
| RemoveCommands.RevisionNeverRequested | src/Dotnet.Installer.Console/Commands/RemoveCommand.cs:51-54 | a version string parsed for the lookup never finds an entry whose version carries a revision |
| RemoveCommands.Handle | src/Dotnet.Installer.Console/Commands/RemoveCommand.cs:43-102 | an unset install directory escapes; a missing directory exits with -1 and changes nothing; a parse exception escapes; no entry found exits with -1 and changes nothing; otherwise the component found and then its reverse dependencies, in the search's order, are the ones to remove, a declined prompt ends without change and otherwise they are uninstalled in order, all of them unless an uninstall fails |
| RemoveCommands.RemoveFound | src/Dotnet.Installer.Console/Commands/RemoveCommand.cs:63-88 | the prompt is asked only when something depends on the component and --yes is absent; a declined prompt changes nothing; otherwise the component and its dependents are uninstalled in order; when an uninstall fails, every local component other than those the loop reached keeps the installation it had when the command began |
| RemoveCommands.Plan | src/Dotnet.Installer.Console/Commands/RemoveCommand.cs:63-65 | the components to remove are the one found followed by the local components whose keys the dependency tree lists as depending on it |
| RemoveCommands.PlannedDependents | src/Dotnet.Installer.Core/Types/DependencyTree.cs:21-45 | the tree's reverse dependencies, in terms of the stored entries, are the keys the search over their dependency graph lists, each a local component |
| RemoveCommands.TreeSearch | src/Dotnet.Installer.Core/Types/DependencyTree.cs:11-14 | the tree built from the local components has the stored entries' dependency graph, and the search lists only keys of local components |
| RemoveCommands.UninstallAll | src/Dotnet.Installer.Console/Commands/RemoveCommand.cs:84-88 | each component is uninstalled in turn: when the loop completes none is installed; when an uninstall fails the loop stops there with the failure, having uninstalled every component before it, and every later component that is not also an earlier one keeps its installation |
| RemoveCommands.UninstallStep | src/Dotnet.Installer.Console/Commands/RemoveCommand.cs:84-87 | one uninstall in the loop: a component that is not installed cannot fail; success leaves it uninstalled; a failure is a missing registration file and leaves it installed |
| Launcher.ElevatedProcessMeaning | src/Dotnet.Installer.Console/Scripts/dotnet-launcher.py:7-23 | elevation fails only for a non-root user without DOTNET_INSTALL_DIR; the command is passed on intact at the end of the argv; a non-root run goes through pkexec or sudo with its own environment and unchecked, a root run keeps the environment and is checked |
| Launcher.OtherProgramIsNotBootstrap | src/Dotnet.Installer.Console/Scripts/dotnet-launcher.py:30 | a process whose program is none of snap, pkexec and sudo is not the manifest snap's installation |
| Launcher.ConsoleIsNotBootstrap | src/Dotnet.Installer.Console/Scripts/dotnet-launcher.py:30-46 | a run of the installer console, elevated or not, is never the manifest snap's installation |
| Launcher.JoinPathEnding | src/Dotnet.Installer.Console/Scripts/dotnet-launcher.py:69 | joining a relative component keeps its last character at the end of the path |
| Launcher.DotnetIsNotConsole | src/Dotnet.Installer.Console/Scripts/dotnet-launcher.py:69-70 | the dotnet host's path is neither snap, pkexec, sudo nor the installer console |
| Launcher.InstallManifestSnap | src/Dotnet.Installer.Console/Scripts/dotnet-launcher.py:29-34 | at most one process, the manifest snap's installation; the script goes on only when it returned 0; a non-zero code ends the script with that code, or with an exception when run as root |
| Launcher.RunInstaller | src/Dotnet.Installer.Console/Scripts/dotnet-launcher.py:36-46 | one run of the console with the arguments after "installer" unchanged, behind pkexec or sudo exactly for install and remove when not root; the exit code is its return code |
| Launcher.Finish | src/Dotnet.Installer.Console/Scripts/dotnet-launcher.py:72-75 | the script exits with the last child's return code, or -1 on an interrupt; only a checked run that failed ends in an exception |
| Launcher.InstallLatestSdk | src/Dotnet.Installer.Console/Scripts/dotnet-launcher.py:56-66 | the welcome text comes first; then one elevated run of the console installing the latest SDK; the script goes on only when it returned 0, and otherwise never exits with 0 |
| Launcher.RunDotnet | src/Dotnet.Installer.Console/Scripts/dotnet-launcher.py:47-70 | the latest SDK is installed first into an empty installation; then the dotnet host runs with the arguments unchanged and unelevated; the exit code is the last child's return code |
| Launcher.Launch | src/Dotnet.Installer.Console/Scripts/dotnet-launcher.py:26-75 | the manifest snap is installed first and only when its marker file is missing, and a failed installation ends the run with its code; in installer mode the console gets the remaining arguments, elevated exactly for install and remove when not root; otherwise the dotnet host gets all arguments; the exit code is the last child's return code or -1 on an interrupt |

## Definitions

These functions and predicates define what the contracts above are stated in. Their own `ensures`, where they have one, only spell out their bodies. The rows above state what they mean.

- DotnetVersions.IsRuntime and DotnetVersions.IsSdk: a patch below 100 is a runtime, anything else an SDK (`src/Dotnet.Installer.Core/Types/DotnetVersion.cs:17-18`).
- DotnetVersions.ToString: `major.minor.patch` (`src/Dotnet.Installer.Core/Types/DotnetVersion.cs:52-55`).
- DotnetVersions.CompareTo: the three numbers, then preview and RC identifiers, stability and revision, with 32-bit subtraction (`src/Dotnet.Installer.Core/Types/DotnetVersion.Operators.cs:5-29`).
- DotnetVersions.Less, DotnetVersions.Greater, DotnetVersions.LessOrEqual and DotnetVersions.GreaterOrEqual: the sign of CompareTo (`src/Dotnet.Installer.Core/Types/DotnetVersion.Operators.cs:31-34`).
- DomainVersions.ToString: `major.minor.patch` (`src/Dotnet.Installer.Domain/Types/DotnetVersion.cs:29-32`).
- DotnetVersionJson.Write: the version's ToString as a JSON string (`src/Dotnet.Installer.Core/Converters/DotnetVersionJsonConverter.cs:18-21`).
- SnapInfos.DotnetPart: the snap version up to the first "+git" (`src/Dotnet.Installer.Core/Types/SnapInfo.cs:23`).
- DotNetText.Join: `string.Join`, the reference the Split round trips are stated against (`src/Dotnet.Installer.Core/Types/DotnetVersion.cs:24-25`).
- DotNetText.LowerAscii: ASCII case folding, what EqualsIgnoreCase compares (`src/Dotnet.Installer.Console/Commands/RemoveCommand.cs:53`).
- ComponentRecords.KeySeq: the keys of a list of entries, in order (`src/Dotnet.Installer.Core/Services/Implementations/ManifestService.Private.cs:74`).
- ComponentRecords.Merge and ComponentRecords.MergeStep: the merge loop over the local entries, and one pass of it (`src/Dotnet.Installer.Core/Services/Implementations/ManifestService.Private.cs:67-86` and `:72-83`).
- Components.LoadLocal: a missing file or a null document is the empty list (`src/Dotnet.Installer.Core/Services/Implementations/ManifestService.Private.cs:22-32`).
- Components.LoadRemote: an unsuccessful response or a null body is the empty list (`src/Dotnet.Installer.Core/Services/Implementations/ManifestService.Private.cs:34-65`).
- Components.DebArchitecture: "amd64", "arm64", or the unsupported-architecture exception (`src/Dotnet.Installer.Core/Models/Component.cs:48-53`).
- Components.LimitFor: the runtime limit, or the first SDK limit of the same feature band (`src/Dotnet.Installer.Core/Models/Component.cs:57-58`).
- Components.IsPrevious: the previous-version filter as C# parses it (`src/Dotnet.Installer.Core/Models/Component.cs:67-70`).
- Components.PackageUrl: `<name>_<version>_<architecture>.deb` relative to the base URL (`src/Dotnet.Installer.Core/Models/Component.cs:82`).
- Components.RemovePackages: the package loop of Uninstall as a function of the files (`src/Dotnet.Installer.Core/Models/Component.cs:112-129`).
- Components.Snapshot, Components.Releases and Components.Stripped: the components' entries, with or without their installations (`src/Dotnet.Installer.Core/Services/Implementations/ManifestService.Private.cs:67-94`).
- DependencyTrees.Index and DependencyTrees.KeyOrder: the tree's dictionary and its key order after the constructor's inserts (`src/Dotnet.Installer.Core/Types/DependencyTree.cs:11-19`).
- DependencyTrees.ReverseDependencies: the listing of the depth-first search (`src/Dotnet.Installer.Core/Types/DependencyTree.cs:21-45`).
- DomainManifests.LoadRemoteLatest: the "latest" list, or the empty list (`src/Dotnet.Installer.Domain/Models/Manifest.cs:54-72`).
- InstallCommands.ByName, InstallCommands.ByMajor and InstallCommands.ByMajorMinor: the three lookup filters (`src/Dotnet.Installer.Console/Commands/InstallCommand.cs:72`, `:49-51` and `:57-60`).
- UpdateCommands.Entries: the merged list as positioned entries (`src/Dotnet.Installer.Console/Commands/UpdateCommand.cs:35-36`).
- UpdateCommands.Candidates: `componentsWithUpdates` (`src/Dotnet.Installer.Console/Commands/UpdateCommand.cs:33-49`).
- UpdateCommands.Members: a group's records as they are now (`src/Dotnet.Installer.Console/Commands/UpdateCommand.cs:64-71`).
- UpdateCommands.LowestInstalled and UpdateCommands.HighestAvailable: the two picks over a whole group (`src/Dotnet.Installer.Console/Commands/UpdateCommand.cs:66-71`).
- UpdateCommands.PlanGroup: the decision for one group (`src/Dotnet.Installer.Console/Commands/UpdateCommand.cs:73-96`).
- RemoveCommands.Requested: the name ignoring case and the version exactly (`src/Dotnet.Installer.Console/Commands/RemoveCommand.cs:52-54`).
- RemoveCommands.KeysOf: the components' keys, in order (`src/Dotnet.Installer.Console/Commands/RemoveCommand.cs:73`).
- Launcher.ElevatedProcess: `run_elevated` (`src/Dotnet.Installer.Console/Scripts/dotnet-launcher.py:7-23`).
- Launcher.IsInstallerMode and Launcher.NeedsElevation: the argument tests (`src/Dotnet.Installer.Console/Scripts/dotnet-launcher.py:36` and `:40-42`).
- Launcher.ExitCode: a child's return code, or -1 after an interrupt (`src/Dotnet.Installer.Console/Scripts/dotnet-launcher.py:72-75`).

## Left out

- Network and file I/O are not carried out:
  - the HTTP requests for the remote manifest and for packages;
  - reading and writing the JSON manifest file;
  - SHA-256 checks, `dpkg --extract` and directory moves.
  The remote manifest is the `RemoteResponse` parameter and the local manifest is the stored list in the Host. Downloads and extractions are trace entries that change no file. Deletions and the manifest save change the Host's state.
- The event subscriptions and the console output (spinner, status lines, error messages) are not modelled. Events are trace entries.
- `src/Dotnet.Installer.Core/Models/Manifest.cs` and `Models/Manifest.Private.cs` (the older manifest class) are not modelled separately. Their `Initialize`, `Add`, `Remove`, `Merge`, `LoadLocal` fallback and `DotnetInstallLocation` are line for line those of the manifest service, and `Components.ManifestService` models both. One difference is not modelled: with `includeArchive` set, the older class's `LoadRemote` also fetches and appends the 6.0, 7.0 and 8.0 `archive.json` lists (`Models/Manifest.Private.cs:73-86`).
- The four copies of `Merge` are modelled once. The two Domain copies are also modelled by `ComponentRecords.Merge`. `src/Dotnet.Installer.Domain/Models/Manifest.cs` has the same `Load`, `Add` and `Remove` as `src/Dotnet.Installer.Domain/Manifest.cs`, so one class, `DomainManifests.DomainManifest`, models both. Only the `LoadRemote` of the former, with its archive flag, gets its own members.
- The static constructors that read SERVER_URL and DOTNET_ROOT are not modelled. The base URL and the install directory are parameters.
- Core `DotnetVersion.GetHashCode` and Domain `GetHashCode` are not modelled. Their results are not used by any modelled operation.
- Name comparison with `CurrentCultureIgnoreCase` is modelled as ASCII-only case folding. Culture-specific folding is not modelled.
- Int32 parsing: `int.Parse` is modelled with `NumberStyles.Integer` and the invariant culture. Trailing NUL characters, which .NET accepts, are not modelled.
- CliWrap's argument quoting is not modelled. The quoting function is a parameter of `Elevation`.
- Components.Component.Install: termination is proved only when the remote list has no dependency cycle (a rank that orders every dependency below its dependent). On a cycle the code recurses forever, and the model does not describe that run.
- Components.Component.Install: all timestamps come from a single `now` parameter, so every installation made in one command carries the same time.
- Components.Component.Install: a successful call does not promise that the component is still installed when it returns. The previous-version filter ranks any lower runtime as previous (`Components.AnyLowerRuntimeIsPrevious`), so a dependency's own install can uninstall the component. The contract states the finish event of the component's own installation (`Components.Component.Registered` holds at that point) and the order of what follows.
- Components.Component.InstallDependencies: the contract states where each dependency's installation begins and that a missing one is absent from the remote list. It does not restate each dependency's whole work; that is each dependency's own `Install` contract. A failure other than a missing dependency is passed on without its origin being named.
- DotnetVersions.CompareTo: requires both versions to be `Comparable`. A version whose IsPreview or IsRc flag is set through the setters without a preview identifier makes the source throw `InvalidOperationException` in `src/Dotnet.Installer.Core/Types/DotnetVersion.Operators.cs:16`. `Parse` and the JSON converter never build one. DotnetVersions.Less, DotnetVersions.Greater, DotnetVersions.LessOrEqual and DotnetVersions.GreaterOrEqual inherit the same requirement.
- Enumerating `DependencyTree`'s dictionary is modelled as insertion order. Entries are never removed from it, so a replaced key keeps its first position.
- The Domain layer's `Component` (install by hash, download and `tar`) is not modelled. The list, environment and systemd commands are not modelled. The limits service is not modelled; limits are a parameter. The verbs other than `update` are not modelled.
- UpdateCommands.Update: the trace is stated per group (`UpdateCommands.UpdateGroup` and `UpdateCommands.Replace`), not for the whole loop. The contract says which decision each group got and on which state it was taken, not the concatenated effects.
- UpdateCommands.UpdateGroups: the model does not prove that two visited groups are different releases. That property is not needed for the decisions stated.
- UpdateVerbs.Handle: only the verb's decisions are modelled, each taken on the list as loaded. The older Component API the verb calls (`Uninstall(manifest)` and `Install(manifest)`) is not part of this model, so its effects are not modelled. Neither is what earlier groups' installs change in later groups' members.
- InstallCommands.Handle: the one-argument `Install` the command calls is modelled by the core `Install` with the limits as a parameter.
- RemoveCommands.Handle: for each uninstall, the contract states whether the component ended uninstalled. It does not state which files were deleted or when the manifest was saved. `Components.Component.Uninstall` states those.
- RemoveCommands.Handle: after a failed uninstall, the contract does not state that the components after the failing one keep their installations. `RemoveCommands.RemoveFound` and `RemoveCommands.UninstallAll` state it, measured from when the components were loaded. Handle creates the components while loading the manifest. Their installations at that point are not derived here from the stored file, because the merge overwrites a local component's installation when the local list repeats a key that the remote list lacks.
- The prompt of the remove command is the `confirmed` parameter. It is read only when the prompt would be shown.
- Launcher.Launch: what a child process does is outside the script. Its outcome is a parameter, and the `id -u` probe is the machine's effective user id.
