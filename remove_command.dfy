/**
 * The remove command (src/Dotnet.Installer.Console/Commands/RemoveCommand.cs):
 * finds the installed component with the requested name and version, asks before
 * also removing the components that depend on it, and uninstalls it and then
 * each of them.
 */
module RemoveCommands {
  import opened Wrappers
  import opened DotNetText
  import opened DotnetVersions
  import opened ComponentRecords
  import opened Components
  import opened DependencyTrees
  import opened Outcomes

  /** The local entry the command asks for: the name ignoring case, the version exactly. */
  predicate Requested(r: ComponentRecord, component: string, version: DotnetVersion) {
    EqualsIgnoreCase(r.name, component) && EqualsOperator(Some(r.version), Some(version))
  }

  /** The position of the first requested entry, or |rs| when there is none. */
  function FindRequested(rs: seq<ComponentRecord>, component: string, version: DotnetVersion): (p: nat)
    ensures p <= |rs|
    ensures p < |rs| ==> Requested(rs[p], component, version)
    ensures forall i :: 0 <= i < p ==> !Requested(rs[i], component, version)
  {
    if rs == [] then 0
    else if Requested(rs[0], component, version) then 0
    else 1 + FindRequested(rs[1..], component, version)
  }

  /** Installations play no part in the lookup. */
  lemma FindRequestedIgnoresInstallation(rs: seq<ComponentRecord>, component: string, version: DotnetVersion)
    ensures FindRequested(Stripped(rs), component, version) == FindRequested(rs, component, version)
  {
    var p := FindRequested(rs, component, version);
    var q := FindRequested(Stripped(rs), component, version);
    assert forall i :: 0 <= i < |rs| ==> (Requested(Stripped(rs)[i], component, version) <==> Requested(rs[i], component, version));
  }

  /**
   * The version argument goes through DotnetVersion.Parse, which never sets a
   * revision: an entry whose version has one is never found.
   */
  lemma RevisionNeverRequested(rs: seq<ComponentRecord>, component: string, version: string)
    requires Parse(version).Success?
    ensures var p := FindRequested(rs, component, Parse(version).value);
      p < |rs| ==> rs[p].version.revision.None?
  {
  }

  /** The components' keys, in order. */
  function KeysOf(cs: seq<Component>): (keys: seq<string>)
    ensures |keys| == |cs| && forall i :: 0 <= i < |cs| ==> keys[i] == cs[i].key
  {
    KeySeq(Releases(cs))
  }

  /** The loop over `cs` stopped at `k`: every earlier component is uninstalled and `cs[k]` is not. */
  ghost predicate StoppedAt(cs: seq<Component>, k: int)
    reads set c | c in cs
  {
    0 <= k < |cs| && cs[k].installation.Some? && forall j :: 0 <= j < k ==> cs[j].installation.None?
  }

  /** The components that end uninstalled, in order, and how the loop over them ends. */
  ghost predicate UninstalledInOrder(cs: seq<Component>, outcome: Outcome)
    reads set c | c in cs
  {
    && (outcome == Completed ==> forall c :: c in cs ==> c.installation.None?)
    && (outcome != Completed ==>
      && outcome.Crashed? && outcome.failure.RegistrationMissing?
      && exists k :: StoppedAt(cs, k))
  }

  /**
   * When the loop stops at `k`, the exception leaves it: each of `others` that is
   * not one of `cs[..k+1]` keeps the installation it had in `before`.
   */
  ghost predicate LaterKept(cs: seq<Component>, others: seq<Component>, before: seq<ComponentRecord>, outcome: Outcome)
    reads set c | c in cs, set c | c in others
  {
    outcome != Completed ==>
      exists k :: StoppedAt(cs, k)
        && forall j :: 0 <= j < |others| && j < |before| && others[j] !in cs[..k + 1] ==>
             others[j].installation == before[j].installation
  }

  /**
   * What the command does once the manifest is loaded, given the stored local
   * entries `records`: nothing found exits with -1; otherwise the components to
   * remove are the one found and then, in the search's order, the keys that
   * depend on it; a declined prompt ends without change, and otherwise they are
   * uninstalled in order.
   */
  ghost predicate RemovedAsRequested(records: seq<ComponentRecord>, component: string, version: DotnetVersion,
                                     yes: bool, confirmed: bool, removing: seq<Component>, outcome: Outcome,
                                     untouched: bool)
    reads set c | c in removing
  {
    var p := FindRequested(records, component, version);
    && (p == |records| ==> outcome == Exited(NotFoundCode) && untouched)
    && (p < |records| ==>
      var dependents := ReverseDependencies(DependencyGraph(records), records[p].key);
      && |removing| > 0 && removing[0].key == records[p].key && KeysOf(removing[1..]) == dependents
      && (|dependents| != 0 && !yes && !confirmed ==> outcome == Completed && untouched)
      && (|dependents| == 0 || yes || confirmed ==> UninstalledInOrder(removing, outcome)))
  }

  /**
   * The remove command. The install directory is looked up (an unset variable
   * escapes as an exception) and must exist (exit code -1 otherwise); the manifest
   * is loaded; the version argument is parsed, and a parse exception escapes; the
   * rest is RemovedAsRequested. `confirmed` is the answer to the prompt, asked
   * only when other components depend on the one found and --yes is not given.
   */
  method Handle(manifest: ManifestService, response: RemoteResponse, directoryExists: bool, component: string,
                version: string, yes: bool, confirmed: bool)
    returns (outcome: Outcome, ghost removing: seq<Component>)
    modifies manifest, manifest.host
    ensures manifest.installLocation.None? ==> outcome == Crashed(InstallLocationUnset) && unchanged(manifest, manifest.host)
    ensures manifest.installLocation.Some? && !directoryExists ==>
      outcome == Exited(NotFoundCode) && unchanged(manifest, manifest.host)
    ensures manifest.installLocation.Some? && directoryExists ==>
      && (Parse(version).Failure? ==> outcome == Unparsed(Parse(version).error) && unchanged(manifest.host))
      && (Parse(version).Success? ==>
            RemovedAsRequested(LoadLocal(old(manifest.host.manifestFile)), component, Parse(version).value,
                               yes, confirmed, removing, outcome, unchanged(manifest.host)))
  {
    removing := [];
    var location := manifest.DotnetInstallLocation();
    if location.Failure? {
      return Exit(location.error), removing;
    }
    if !directoryExists {
      return Exited(NotFoundCode), removing;
    }
    manifest.Initialize(response, false);
    var requestedVersion := Parse(version);
    if requestedVersion.Failure? {
      return Unparsed(requestedVersion.error), removing;
    }
    ghost var records := LoadLocal(manifest.host.manifestFile);
    FindRequestedIgnoresInstallation(records, component, requestedVersion.value);
    var p := FindRequested(Releases(manifest.local), component, requestedVersion.value);
    if p == |manifest.local| {
      return Exited(NotFoundCode), removing;
    }
    outcome, removing := RemoveFound(manifest, p, component, requestedVersion.value, yes, confirmed, records);
  }

  /** From the component found on: the prompt and the uninstalls. */
  method RemoveFound(manifest: ManifestService, p: nat, component: string, version: DotnetVersion,
                     yes: bool, confirmed: bool, ghost records: seq<ComponentRecord>)
    returns (outcome: Outcome, ghost removing: seq<Component>)
    requires manifest.installLocation.Some?
    requires p == FindRequested(records, component, version) && p < |records|
    requires |manifest.local| == |records| && Releases(manifest.local) == Stripped(records)
    modifies manifest, manifest.host, set c | c in manifest.local + manifest.remote
    ensures RemovedAsRequested(records, component, version, yes, confirmed, removing, outcome, unchanged(manifest.host))
    ensures LaterKept(removing, old(manifest.local), old(Snapshot(manifest.local)), outcome)
  {
    var all := Plan(manifest.local, p, records);
    removing := all;
    if |all| != 1 && !yes && !confirmed {
      return Completed, removing;
    }
    assert forall c :: c in all ==> c in manifest.local + manifest.remote;
    ghost var local0, before := manifest.local, Snapshot(manifest.local);
    ghost var beforeAll := Snapshot(all);
    assert before == old(Snapshot(manifest.local));
    outcome := UninstallAll(manifest, all);
    assert forall i :: 0 <= i < |local0| && local0[i] !in all ==> local0[i].installation == before[i].installation;
    KeptInLocal(all, local0, beforeAll, before, outcome);
  }

  /**
   * `all` is what the command would remove: the local component at `p`, then
   * one component per key the search over the entries' dependency graph lists
   * as depending on it, each taken from `local`.
   */
  ghost predicate Planned(all: seq<Component>, local: seq<Component>, p: nat, records: seq<ComponentRecord>)
    requires p < |records|
  {
    var dependents := ReverseDependencies(DependencyGraph(records), records[p].key);
    && |all| > 0 && all[0].key == records[p].key && KeysOf(all[1..]) == dependents
    && (forall c :: c in all ==> c in local)
  }

  /**
   * The components to remove: the one found, then those the dependency tree of
   * the local components lists as depending on it.
   */
  method Plan(local: seq<Component>, p: nat, ghost records: seq<ComponentRecord>) returns (all: seq<Component>)
    requires p < |local| && Releases(local) == Stripped(records)
    ensures Planned(all, local, p, records) && all[0] == local[p]
  {
    var requested := local[p];
    var tree := new DependencyTree(local);
    var dependents := tree.GetReverseDependencies(requested.key);
    all := [requested] + dependents;
    PlannedDependents(local, p, records, dependents);
  }

  /** What the search over the tree built from `local` lists, in terms of the stored entries. */
  lemma PlannedDependents(local: seq<Component>, p: nat, records: seq<ComponentRecord>, dependents: seq<Component>)
    requires p < |local| && Releases(local) == Stripped(records)
    requires var g := Graph(KeyOrder(local), map k | k in Index(local) :: Index(local)[k].dependencies);
      dependents == Lookup(Index(local), ReverseDependencies(g, local[p].key))
    ensures Planned([local[p]] + dependents, local, p, records)
  {
    var g := Graph(KeyOrder(local), map k | k in Index(local) :: Index(local)[k].dependencies);
    TreeSearch(local, p, records);
    var keys := ReverseDependencies(g, local[p].key);
    LookupOfIndex(local, keys);
    assert KeysOf(dependents) == keys;
    var all := [local[p]] + dependents;
    assert all[1..] == dependents;
  }

  /** The tree built from `local` has the graph of the stored entries, and the search lists only its keys. */
  lemma TreeSearch(local: seq<Component>, p: nat, records: seq<ComponentRecord>)
    requires p < |local| && Releases(local) == Stripped(records)
    ensures var g := Graph(KeyOrder(local), map k | k in Index(local) :: Index(local)[k].dependencies);
      && g == DependencyGraph(records)
      && local[p].key == records[p].key
      && forall k :: k in ReverseDependencies(g, local[p].key) ==> k in Index(local)
  {
    TreeGraph(local);
    DependencyGraphIgnoresInstallation(records);
    assert Releases(local)[p] == Stripped(records)[p];
  }

  /** Uninstalls each component in turn; the first exception ends the loop and escapes. */
  method UninstallAll(manifest: ManifestService, cs: seq<Component>) returns (outcome: Outcome)
    requires manifest.installLocation.Some?
    modifies manifest, manifest.host, set c | c in cs
    ensures UninstalledInOrder(cs, outcome)
    ensures LaterKept(cs, cs, old(Snapshot(cs)), outcome)
  {
    ghost var before := Snapshot(cs);
    var i := 0;
    while i < |cs|
      invariant 0 <= i <= |cs|
      invariant forall k :: 0 <= k < i ==> cs[k].installation.None?
      invariant KeptFrom(cs, before, i)
    {
      KeptPastOne(cs, before, i);
      var failure := UninstallStep(manifest, cs[i]);
      assert KeptFrom(cs, before, i + 1);
      if failure.Some? {
        assert StoppedAt(cs, i);
        KeptAfterStop(cs, before, i);
        outcome := Exit(failure.value);
        return;
      }
      i := i + 1;
    }
    outcome := Completed;
  }

  /** Every component from `i` on that is not one of `cs[..i]` keeps its installation from `before`. */
  ghost predicate KeptFrom(cs: seq<Component>, before: seq<ComponentRecord>, i: nat)
    reads set c | c in cs
  {
    forall j :: i <= j < |cs| && j < |before| && cs[j] !in cs[..i] ==> cs[j].installation == before[j].installation
  }

  /** Once `cs[i]` is done, the components after it that are not among `cs[..i+1]` are still as in `before`. */
  lemma KeptPastOne(cs: seq<Component>, before: seq<ComponentRecord>, i: nat)
    requires i < |cs| && KeptFrom(cs, before, i)
    ensures KeptFrom(cs, before, i + 1)
  {
    assert cs[..i + 1] == cs[..i] + [cs[i]];
  }

  /** A stop at `i` with the later components kept is what LaterKept asks for. */
  lemma KeptAfterStop(cs: seq<Component>, before: seq<ComponentRecord>, i: nat)
    requires |before| == |cs| && StoppedAt(cs, i) && KeptFrom(cs, before, i + 1)
    ensures forall outcome: Outcome :: outcome != Completed ==> LaterKept(cs, cs, before, outcome)
  {
  }

  /**
   * One uninstall as the loop sees it: success leaves the component uninstalled,
   * and a failure is a missing registration file with the component still installed.
   */
  method UninstallStep(manifest: ManifestService, c: Component) returns (failure: Option<Failure>)
    requires manifest.installLocation.Some?
    modifies c, manifest, manifest.host
    ensures old(c.installation).None? ==> failure.None?
    ensures failure.None? ==> c.installation.None?
    ensures failure.Some? ==> failure.value.RegistrationMissing? && c.installation.Some?
  {
    failure := c.Uninstall(manifest);
  }

  /**
   * The loop's LaterKept, carried over to a list `local` that holds every
   * component of `cs`: `beforeCs` and `before` are snapshots of the two lists
   * taken together, and the components of `local` outside `cs` were not touched.
   */
  lemma KeptInLocal(cs: seq<Component>, local: seq<Component>, beforeCs: seq<ComponentRecord>,
                    before: seq<ComponentRecord>, outcome: Outcome)
    requires |beforeCs| == |cs| && |before| == |local|
    requires forall j, i :: 0 <= j < |cs| && 0 <= i < |local| && cs[j] == local[i] ==>
               beforeCs[j].installation == before[i].installation
    requires forall i :: 0 <= i < |local| && local[i] !in cs ==> local[i].installation == before[i].installation
    requires LaterKept(cs, cs, beforeCs, outcome)
    ensures LaterKept(cs, local, before, outcome)
  {
    if outcome != Completed {
      var k :| StoppedAt(cs, k)
        && forall j :: 0 <= j < |cs| && j < |beforeCs| && cs[j] !in cs[..k + 1] ==>
             cs[j].installation == beforeCs[j].installation;
      forall i | 0 <= i < |local| && local[i] !in cs[..k + 1]
        ensures local[i].installation == before[i].installation
      {
        if local[i] in cs {
          var j :| 0 <= j < |cs| && cs[j] == local[i];
          assert cs[j] !in cs[..k + 1];
        }
      }
    }
  }
}
