/**
 * The older `update` verb. It takes either a component name or --all (the name is
 * only checked, never used), loads the manifest, and for each group of update
 * candidates (same major version, same name) pairs the installed member of lowest
 * version with the member not installed of highest version, like the update
 * command but without asking the limits whether the newer one may be installed.
 */
module UpdateVerbs {
  import opened Wrappers
  import opened DotnetVersions
  import opened DotNetText
  import opened ComponentRecords
  import opened Components
  import opened UpdateCommands

  /** How the verb ends. */
  datatype VerbOutcome =
    | Rejected          // neither or both of a component name and --all: an error message only
    | LocationUnset     // DOTNET_INSTALL_DIR is not set: the exception escapes
    | DirectoryMissing  // the install directory does not exist: nothing happens, silently
    | Visited(decisions: seq<Option<(nat, nat)>>)

  /**
   * The verb's decision on one group: the merged-list positions of the member to
   * uninstall and of the member to install, or None when either is missing (the
   * group is reported and skipped).
   */
  function VerbDecision(g: seq<Entry>, rs: seq<ComponentRecord>): (d: Option<(nat, nat)>)
    requires Positioned(g, rs)
    ensures d.Some? ==> d.value.0 < |rs| && d.value.1 < |rs|
  {
    match PairOf(Members(g, rs))
    case None => None
    case Some((u, v)) => Some((g[u].position, g[v].position))
  }

  /** The decisions, one per group the loop visits, in the loop's order. */
  function VerbPlan(rs: seq<ComponentRecord>): (plan: seq<Option<(nat, nat)>>)
    ensures |plan| == |UpdateGroups(rs)|
  {
    UpdateGroupsPositioned(rs);
    var groups := UpdateGroups(rs);
    seq(|groups|, i requires 0 <= i < |groups| => assert groups[i] in groups; VerbDecision(groups[i], rs))
  }

  /** The plan's entry for group `i` is that group's decision, and it extends the plan's prefix. */
  lemma PlanAt(rs: seq<ComponentRecord>, i: nat)
    requires i < |UpdateGroups(rs)|
    ensures Positioned(UpdateGroups(rs)[i], rs)
    ensures VerbPlan(rs)[..i + 1] == VerbPlan(rs)[..i] + [VerbDecision(UpdateGroups(rs)[i], rs)]
  {
    UpdateGroupsPositioned(rs);
    var groups, plan := UpdateGroups(rs), VerbPlan(rs);
    assert groups[i] in groups;
    assert plan[i] == VerbDecision(groups[i], rs);
    PrefixGrows(plan, i);
  }

  /** A prefix one longer ends with the next element. */
  lemma PrefixGrows<T>(s: seq<T>, i: nat)
    requires i < |s|
    ensures s[..i + 1] == s[..i] + [s[i]]
  {
  }

  /**
   * The verb's handler. The argument check comes first; the install directory is
   * looked up next (an unset variable escapes as an exception); a missing
   * directory ends the verb without a word; otherwise each group gets its decision
   * on the list as loaded.
   */
  method Handle(component: string, all: bool, installLocation: Option<string>, directoryExists: bool,
                response: RemoteResponse, file: StoredManifest)
    returns (outcome: VerbOutcome)
    ensures outcome.Rejected? <==> (IsWhiteSpaceOnly(component) <==> !all)
    ensures !outcome.Rejected? && installLocation.None? ==> outcome == LocationUnset
    ensures !outcome.Rejected? && installLocation.Some? && !directoryExists ==> outcome == DirectoryMissing
    ensures !outcome.Rejected? && installLocation.Some? && directoryExists ==>
      outcome == Visited(VerbPlan(Merge(LoadRemote(response), LoadLocal(file))))
  {
    var blank := IsWhiteSpaceOnly(component);
    if (!blank && all) || (blank && !all) {
      return Rejected;
    }
    if installLocation.None? {
      return LocationUnset;
    }
    if !directoryExists {
      return DirectoryMissing;
    }
    var records := Merge(LoadRemote(response), LoadLocal(file));
    var decisions := Decide(records);
    outcome := Visited(decisions);
  }

  /** The loop over the groups: one decision per group, in order. */
  method Decide(records: seq<ComponentRecord>) returns (decisions: seq<Option<(nat, nat)>>)
    ensures decisions == VerbPlan(records)
  {
    var groups := UpdateGroups(records);
    decisions := [];
    for i := 0 to |groups|
      invariant decisions == VerbPlan(records)[..i]
    {
      PlanAt(records, i);
      decisions := decisions + [VerbDecision(groups[i], records)];
    }
    assert VerbPlan(records)[..|groups|] == VerbPlan(records);
  }

  /**
   * A group is skipped exactly when all its members are installed or none is;
   * otherwise the verb uninstalls an installed member of the group's release with
   * the lowest version and installs a member not installed with the highest.
   */
  lemma VerbDecisionMeaning(rs: seq<ComponentRecord>, g: seq<Entry>)
    requires g in UpdateGroups(rs)
    ensures Positioned(g, rs)
    ensures VerbDecision(g, rs).None? <==>
      (forall e :: e in g ==> rs[e.position].installation.None?) || (forall e :: e in g ==> rs[e.position].installation.Some?)
    ensures VerbDecision(g, rs).Some? ==>
      var (p, q) := VerbDecision(g, rs).value;
      && Entry(p, rs[p]) in g && Entry(q, rs[q]) in g
      && SameRelease(rs[p], rs[q])
      && rs[p].installation.Some? && rs[q].installation.None?
      && (forall e :: e in g && rs[e.position].installation.Some? ==> LessOrEqual(rs[p].version, rs[e.position].version))
      && (forall e :: e in g && rs[e.position].installation.None? ==> LessOrEqual(rs[e.position].version, rs[q].version))
  {
    UpdateGroupsPositioned(rs);
    var ms := Members(g, rs);
    PairIsLowestAndHighest(ms);
    UpdateGroupIsRelease(rs, g);
    forall e | e in g ensures exists k :: 0 <= k < |g| && g[k] == e && ms[k] == rs[e.position] {
      var k :| 0 <= k < |g| && g[k] == e;
    }
    if PairOf(ms).Some? {
      var (u, v) := PairOf(ms).value;
      assert g[u] in g && g[v] in g;
      assert g[u] == Entry(g[u].position, rs[g[u].position]);
      assert g[v] == Entry(g[v].position, rs[g[v].position]);
    }
  }

  /**
   * The verb skips the same groups as the update command and, where the command
   * replaces, replaces the same pair; where the limits forbid the newer member the
   * command refuses and the verb replaces all the same.
   */
  lemma VerbIgnoresLimits(rs: seq<ComponentRecord>, g: seq<Entry>, limits: Limits)
    requires Positioned(g, rs)
    ensures var step := PlanGroup(Members(g, rs), limits);
      && (VerbDecision(g, rs).None? <==> step.Skipped?)
      && (step.Replaced? ==> VerbDecision(g, rs) == Some((g[step.uninstall].position, g[step.install].position)))
      && (step.Refused? ==> VerbDecision(g, rs).Some?)
  {
    PlanGroupMeaning(Members(g, rs), limits);
  }

  /** The verb decides nothing exactly when there are no update candidates. */
  lemma NoCandidatesNoDecisions(rs: seq<ComponentRecord>)
    ensures VerbPlan(rs) == [] <==> Candidates(rs) == []
  {
    CandidatesIffGroups(rs);
  }
}
