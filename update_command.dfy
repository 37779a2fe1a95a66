/**
 * The update command (Commands/UpdateCommand.cs): which components have an
 * update, how they are grouped, and which entry of a group is uninstalled and
 * which installed.
 *
 * The LINQ pipeline works on entries: an entry is a component of the merged
 * list, named by its position there, with what it holds (its record).
 */
module UpdateCommands {
  import opened Wrappers
  import opened DotnetVersions
  import opened ComponentRecords
  import opened Components
  import opened Outcomes

  // ---------------------------------------------------------------- GroupBy and Where

  /** A merged component: its position in the merged list and its record. */
  datatype Entry = Entry(position: nat, record: ComponentRecord)

  /** The merged list as entries. */
  function Entries(rs: seq<ComponentRecord>): (es: seq<Entry>)
    ensures |es| == |rs|
    ensures forall i :: 0 <= i < |rs| ==> es[i] == Entry(i, rs[i])
  {
    seq(|rs|, i requires 0 <= i < |rs| => Entry(i, rs[i]))
  }

  /** The two keys the command groups by: `c.Version.Major` and `c.Name`. */
  datatype Grouping = ByMajor | ByName
  datatype GroupKey = MajorKey(major: int) | NameKey(name: string)

  function KeyOf(e: Entry, grouping: Grouping): GroupKey {
    match grouping
    case ByMajor => MajorKey(e.record.version.major)
    case ByName => NameKey(e.record.name)
  }

  /** Same major version and same name: the entries one update decision is about. */
  predicate SameRelease(a: ComponentRecord, b: ComponentRecord) {
    a.version.major == b.version.major && a.name == b.name
  }

  predicate NoRepeats(es: seq<Entry>) {
    forall i, j :: 0 <= i < j < |es| ==> es[i] != es[j]
  }

  /** `Where(c => key(c) == k)`. */
  function Where(es: seq<Entry>, grouping: Grouping, k: GroupKey): (r: seq<Entry>)
    ensures forall e :: e in r <==> e in es && KeyOf(e, grouping) == k
    ensures NoRepeats(es) ==> NoRepeats(r)
    decreases |es|
  {
    if es == [] then []
    else
      var rest := Where(es[1..], grouping, k);
      assert forall e :: e in es <==> e == es[0] || e in es[1..];
      if KeyOf(es[0], grouping) == k then [es[0]] + rest else rest
  }

  /** `Where(c => key(c) != k)`: what is left once the group of `k` is taken out. */
  function WhereNot(es: seq<Entry>, grouping: Grouping, k: GroupKey): (r: seq<Entry>)
    ensures forall e :: e in r <==> e in es && KeyOf(e, grouping) != k
    ensures NoRepeats(es) ==> NoRepeats(r)
    ensures |r| <= |es|
    ensures es != [] && KeyOf(es[0], grouping) == k ==> |r| < |es|
    decreases |es|
  {
    if es == [] then []
    else
      var rest := WhereNot(es[1..], grouping, k);
      assert forall e :: e in es <==> e == es[0] || e in es[1..];
      if KeyOf(es[0], grouping) != k then [es[0]] + rest else rest
  }

  /**
   * `GroupBy(key)`: one group per key, in the order the keys first occur, each
   * group in the original order.
   */
  function GroupBy(es: seq<Entry>, grouping: Grouping): (groups: seq<seq<Entry>>)
    ensures forall i :: 0 <= i < |groups| ==> groups[i] != []
    ensures forall g :: g in groups ==> g != []
    decreases |es|
  {
    if es == [] then []
    else
      var k := KeyOf(es[0], grouping);
      [Where(es, grouping, k)] + GroupBy(WhereNot(es, grouping, k), grouping)
  }

  /** A group holds exactly the entries with its key. */
  lemma {:induction false} GroupHasOneKey(es: seq<Entry>, grouping: Grouping, g: seq<Entry>)
    requires g in GroupBy(es, grouping)
    ensures forall e :: e in g <==> e in es && KeyOf(e, grouping) == KeyOf(g[0], grouping)
    ensures NoRepeats(es) ==> NoRepeats(g)
    decreases |es|
  {
    var k := KeyOf(es[0], grouping);
    var first := Where(es, grouping, k);
    var rest := WhereNot(es, grouping, k);
    if g == first {
      assert first[0] in first;
    } else {
      assert g in GroupBy(rest, grouping);
      GroupHasOneKey(rest, grouping, g);
      assert g[0] in g;
    }
  }

  /** The same, for one entry. */
  lemma {:induction false} GroupMember(es: seq<Entry>, grouping: Grouping, g: seq<Entry>, e: Entry)
    requires g in GroupBy(es, grouping)
    ensures e in g <==> e in es && KeyOf(e, grouping) == KeyOf(g[0], grouping)
  {
    GroupHasOneKey(es, grouping, g);
  }

  /** Every entry is in a group. */
  lemma {:induction false} EveryEntryGrouped(es: seq<Entry>, grouping: Grouping, e: Entry)
    requires e in es
    ensures exists g :: g in GroupBy(es, grouping) && e in g
    decreases |es|
  {
    var k := KeyOf(es[0], grouping);
    var first := Where(es, grouping, k);
    var rest := WhereNot(es, grouping, k);
    var groups := GroupBy(es, grouping);
    assert groups == [first] + GroupBy(rest, grouping);
    if KeyOf(e, grouping) == k {
      assert first in groups;
    } else {
      EveryEntryGrouped(rest, grouping, e);
      var g :| g in GroupBy(rest, grouping) && e in g;
      assert g in groups;
    }
  }

  /** No key has two groups. */
  lemma {:induction false} GroupKeysDiffer(es: seq<Entry>, grouping: Grouping)
    ensures forall i, j :: 0 <= i < j < |GroupBy(es, grouping)| ==>
      KeyOf(GroupBy(es, grouping)[i][0], grouping) != KeyOf(GroupBy(es, grouping)[j][0], grouping)
    decreases |es|
  {
    if es != [] {
      var k := KeyOf(es[0], grouping);
      var first := Where(es, grouping, k);
      var rest := WhereNot(es, grouping, k);
      var tail := GroupBy(rest, grouping);
      GroupKeysDiffer(rest, grouping);
      var groups := GroupBy(es, grouping);
      assert groups == [first] + tail;
      assert first[0] in first;
      forall i, j | 0 <= i < j < |groups|
        ensures KeyOf(groups[i][0], grouping) != KeyOf(groups[j][0], grouping)
      {
        if i == 0 {
          assert groups[0] == first && groups[j] == tail[j - 1] && tail[j - 1] in tail;
          TailKeysDiffer(es, grouping, tail[j - 1]);
        } else {
          var a, b := i - 1, j - 1;
          assert 0 <= a < b < |tail|;
          assert groups[i] == tail[a] && groups[j] == tail[b];
        }
      }
    }
  }

  /** The groups after the first all have a key other than the first entry's. */
  lemma TailKeysDiffer(es: seq<Entry>, grouping: Grouping, t: seq<Entry>)
    requires es != []
    requires t in GroupBy(WhereNot(es, grouping, KeyOf(es[0], grouping)), grouping)
    ensures KeyOf(t[0], grouping) != KeyOf(Where(es, grouping, KeyOf(es[0], grouping))[0], grouping)
  {
    var k := KeyOf(es[0], grouping);
    var first := Where(es, grouping, k);
    assert first[0] in first;
    assert t[0] in t;
    GroupMember(WhereNot(es, grouping, k), grouping, t, t[0]);
  }

  // ---------------------------------------------------------------- Update candidates

  /** `group.Count(c2 => c2.Name.Equals(name))` */
  function NameCount(group: seq<Entry>, name: string): nat {
    |Where(group, ByName, NameKey(name))|
  }

  /** `group.Where(c1 => group.Count(c2 => c2.Name.Equals(c1.Name)) > 1)`, over the part `xs` of `group`. */
  function DuplicatesAmong(group: seq<Entry>, xs: seq<Entry>): (r: seq<Entry>)
    ensures forall e :: e in r <==> e in xs && NameCount(group, e.record.name) > 1
    decreases |xs|
  {
    if xs == [] then []
    else
      var rest := DuplicatesAmong(group, xs[1..]);
      assert forall e :: e in xs <==> e == xs[0] || e in xs[1..];
      if NameCount(group, xs[0].record.name) > 1 then [xs[0]] + rest else rest
  }

  /** The update candidates of the major-version groups `groups`, group after group. */
  function CandidatesOf(groups: seq<seq<Entry>>): seq<Entry>
    decreases |groups|
  {
    if groups == [] then []
    else DuplicatesAmong(groups[0], groups[0]) + CandidatesOf(groups[1..])
  }

  /** Each candidate comes from one of the groups. */
  lemma {:induction false} CandidateFromGroup(groups: seq<seq<Entry>>, e: Entry)
    requires e in CandidatesOf(groups)
    ensures exists g :: g in groups && e in DuplicatesAmong(g, g)
    decreases |groups|
  {
    if e !in DuplicatesAmong(groups[0], groups[0]) {
      CandidateFromGroup(groups[1..], e);
      var g :| g in groups[1..] && e in DuplicatesAmong(g, g);
      assert g in groups;
    } else {
      assert groups[0] in groups;
    }
  }

  /** The candidates of one of the groups are among all the candidates. */
  lemma {:induction false} CandidateOfGroup(groups: seq<seq<Entry>>, g: seq<Entry>, e: Entry)
    requires g in groups && e in DuplicatesAmong(g, g)
    ensures e in CandidatesOf(groups)
    decreases |groups|
  {
    if g != groups[0] {
      CandidateOfGroup(groups[1..], g, e);
    }
  }

  /** `componentsWithUpdates`: the merged entries whose name occurs more than once in their major group. */
  function Candidates(rs: seq<ComponentRecord>): seq<Entry> {
    CandidatesOf(GroupBy(Entries(rs), ByMajor))
  }

  lemma EntriesHaveNoRepeats(rs: seq<ComponentRecord>)
    ensures NoRepeats(Entries(rs))
    ensures forall e: Entry :: e in Entries(rs) <==> e.position < |rs| && e.record == rs[e.position]
  {
    forall e: Entry | e.position < |rs| && e.record == rs[e.position] ensures e in Entries(rs) {
      assert Entries(rs)[e.position] == e;
    }
  }

  /** A sequence without repeats that holds `e` has another element exactly when it is longer than one. */
  lemma OtherElement(s: seq<Entry>, e: Entry)
    requires NoRepeats(s) && e in s
    ensures |s| > 1 <==> exists d :: d in s && d != e
  {
    if |s| > 1 {
      if s[0] == e {
        assert s[1] in s && s[1] != e;
      } else {
        assert s[0] in s;
      }
    } else {
      assert forall d :: d in s ==> d == s[0];
    }
  }

  /** An entry kept by DuplicatesAmong has a different entry of its name in the group. */
  lemma NamesakeInGroup(g: seq<Entry>, e: Entry)
    requires NoRepeats(g) && e in DuplicatesAmong(g, g)
    ensures exists d :: d in g && d != e && d.record.name == e.record.name
  {
    var s := Where(g, ByName, NameKey(e.record.name));
    OtherElement(s, e);
    var d :| d in s && d != e;
  }

  /** A candidate is a merged entry with a twin: another entry of the same release. */
  lemma CandidateHasTwin(rs: seq<ComponentRecord>, e: Entry)
    requires e in Candidates(rs)
    ensures e.position < |rs| && e.record == rs[e.position]
    ensures exists q :: 0 <= q < |rs| && q != e.position && SameRelease(rs[q], e.record)
  {
    var all := Entries(rs);
    EntriesHaveNoRepeats(rs);
    CandidateFromGroup(GroupBy(all, ByMajor), e);
    var g :| g in GroupBy(all, ByMajor) && e in DuplicatesAmong(g, g);
    GroupHasOneKey(all, ByMajor, g);
    NamesakeInGroup(g, e);
    var d :| d in g && d != e && d.record.name == e.record.name;
    assert KeyOf(d, ByMajor) == KeyOf(g[0], ByMajor) == KeyOf(e, ByMajor);
    assert SameRelease(rs[d.position], e.record);
  }

  /** An entry with a twin is a candidate. */
  lemma TwinMakesCandidate(rs: seq<ComponentRecord>, p: nat, q: nat)
    requires p < |rs| && q < |rs| && q != p && SameRelease(rs[q], rs[p])
    ensures Entry(p, rs[p]) in Candidates(rs)
  {
    var all := Entries(rs);
    var groups := GroupBy(all, ByMajor);
    var e, d := Entry(p, rs[p]), Entry(q, rs[q]);
    EntriesHaveNoRepeats(rs);
    EveryEntryGrouped(all, ByMajor, e);
    var g :| g in groups && e in g;
    GroupHasOneKey(all, ByMajor, g);
    assert d in g;
    var s := Where(g, ByName, NameKey(rs[p].name));
    assert e in s && d in s;
    OtherElement(s, e);
    assert e in DuplicatesAmong(g, g);
    CandidateOfGroup(groups, g, e);
  }

  /**
   * A merged component is an update candidate exactly when another merged
   * component has the same major version and the same name; nothing else is.
   */
  lemma CandidatesAreRepeatedReleases(rs: seq<ComponentRecord>, p: nat)
    requires p < |rs|
    ensures Entry(p, rs[p]) in Candidates(rs) <==>
      exists q :: 0 <= q < |rs| && q != p && SameRelease(rs[q], rs[p])
    ensures forall e :: e in Candidates(rs) ==> e.position < |rs| && e.record == rs[e.position]
  {
    if Entry(p, rs[p]) in Candidates(rs) {
      CandidateHasTwin(rs, Entry(p, rs[p]));
    }
    if exists q :: 0 <= q < |rs| && q != p && SameRelease(rs[q], rs[p]) {
      var q :| 0 <= q < |rs| && q != p && SameRelease(rs[q], rs[p]);
      TwinMakesCandidate(rs, p, q);
    }
    forall e | e in Candidates(rs) ensures e.position < |rs| && e.record == rs[e.position] {
      CandidateHasTwin(rs, e);
    }
  }

  // ---------------------------------------------------------------- Update groups

  /** The inner loop's groups: each major group of the candidates grouped again by name. */
  function GroupsByName(majorGroups: seq<seq<Entry>>): (groups: seq<seq<Entry>>)
    ensures forall i :: 0 <= i < |groups| ==> groups[i] != []
    ensures forall g :: g in groups ==> g != []
    decreases |majorGroups|
  {
    if majorGroups == [] then []
    else GroupBy(majorGroups[0], ByName) + GroupsByName(majorGroups[1..])
  }

  /** Each inner group is a group of one of the major groups. */
  lemma {:induction false} InnerGroupFrom(majorGroups: seq<seq<Entry>>, g: seq<Entry>)
    requires g in GroupsByName(majorGroups)
    ensures exists vg :: vg in majorGroups && g in GroupBy(vg, ByName)
    decreases |majorGroups|
  {
    if g !in GroupBy(majorGroups[0], ByName) {
      InnerGroupFrom(majorGroups[1..], g);
      var vg :| vg in majorGroups[1..] && g in GroupBy(vg, ByName);
      assert vg in majorGroups;
    } else {
      assert majorGroups[0] in majorGroups;
    }
  }

  /** The groups the update loop visits, in order. */
  function UpdateGroups(rs: seq<ComponentRecord>): (groups: seq<seq<Entry>>)
    ensures forall i :: 0 <= i < |groups| ==> groups[i] != []
    ensures forall g :: g in groups ==> g != []
  {
    GroupsByName(GroupBy(Candidates(rs), ByMajor))
  }

  /** An inner group of one of the major groups is among the groups the loop visits. */
  lemma {:induction false} GroupsByNameHas(majorGroups: seq<seq<Entry>>, vg: seq<Entry>, g: seq<Entry>)
    requires vg in majorGroups && g in GroupBy(vg, ByName)
    ensures g in GroupsByName(majorGroups)
    decreases |majorGroups|
  {
    if vg != majorGroups[0] {
      GroupsByNameHas(majorGroups[1..], vg, g);
    }
  }

  /** An entry is in a visited group exactly when it is a merged component of the group's release. */
  lemma UpdateGroupMember(rs: seq<ComponentRecord>, g: seq<Entry>, e: Entry)
    requires g in UpdateGroups(rs)
    ensures g[0] in Candidates(rs)
    ensures e in g <==> e.position < |rs| && e.record == rs[e.position] && SameRelease(e.record, g[0].record)
  {
    var candidates := Candidates(rs);
    InnerGroupFrom(GroupBy(candidates, ByMajor), g);
    var vg :| vg in GroupBy(candidates, ByMajor) && g in GroupBy(vg, ByName);
    assert g[0] in g;
    GroupMember(vg, ByName, g, g[0]);
    GroupMember(candidates, ByMajor, vg, g[0]);
    GroupMember(vg, ByName, g, e);
    GroupMember(candidates, ByMajor, vg, e);
    if e in candidates {
      CandidateHasTwin(rs, e);
    }
    if e.position < |rs| && e.record == rs[e.position] && SameRelease(e.record, g[0].record) {
      CandidateHasTwin(rs, g[0]);
      if e.position != g[0].position {
        TwinMakesCandidate(rs, e.position, g[0].position);
      }
    }
  }

  /**
   * A group the update loop visits holds exactly the merged components of one
   * release (major version and name), and at least two of them.
   */
  lemma UpdateGroupIsRelease(rs: seq<ComponentRecord>, g: seq<Entry>)
    requires g in UpdateGroups(rs)
    ensures forall e :: e in g <==>
      e.position < |rs| && e.record == rs[e.position] && SameRelease(e.record, g[0].record)
    ensures |g| >= 2
  {
    forall e: Entry ensures e in g <==>
      e.position < |rs| && e.record == rs[e.position] && SameRelease(e.record, g[0].record)
    {
      UpdateGroupMember(rs, g, e);
    }
    UpdateGroupHasTwo(rs, g);
  }

  /** A visited group has at least two entries. */
  lemma UpdateGroupHasTwo(rs: seq<ComponentRecord>, g: seq<Entry>)
    requires g in UpdateGroups(rs)
    ensures |g| >= 2
  {
    var first := g[0];
    UpdateGroupMember(rs, g, first);
    CandidateHasTwin(rs, first);
    var q :| 0 <= q < |rs| && q != first.position && SameRelease(rs[q], first.record);
    var twin := Entry(q, rs[q]);
    UpdateGroupMember(rs, g, twin);
    var n :| 0 <= n < |g| && g[n] == twin;
    assert n != 0;
  }

  /** Every update candidate is in one of the groups the loop visits. */
  lemma CandidateIsVisited(rs: seq<ComponentRecord>, e: Entry)
    requires e in Candidates(rs)
    ensures exists g :: g in UpdateGroups(rs) && e in g
  {
    var majorGroups := GroupBy(Candidates(rs), ByMajor);
    EveryEntryGrouped(Candidates(rs), ByMajor, e);
    var vg :| vg in majorGroups && e in vg;
    EveryEntryGrouped(vg, ByName, e);
    var g :| g in GroupBy(vg, ByName) && e in g;
    GroupsByNameHas(majorGroups, vg, g);
  }

  /** The loop has groups to visit exactly when there are update candidates. */
  lemma CandidatesIffGroups(rs: seq<ComponentRecord>)
    ensures Candidates(rs) == [] <==> UpdateGroups(rs) == []
  {
    if UpdateGroups(rs) != [] {
      assert UpdateGroups(rs)[0] in UpdateGroups(rs);
      UpdateGroupMember(rs, UpdateGroups(rs)[0], UpdateGroups(rs)[0][0]);
    }
    if Candidates(rs) != [] {
      assert Candidates(rs)[0] in Candidates(rs);
      CandidateIsVisited(rs, Candidates(rs)[0]);
    }
  }

  // ---------------------------------------------------------------- Choosing the pair

  /** Every entry of the group names a position of the list. */
  predicate Positioned<T>(g: seq<Entry>, xs: seq<T>) {
    forall k :: 0 <= k < |g| ==> g[k].position < |xs|
  }

  /** Every group the loop visits names positions of the merged list. */
  lemma UpdateGroupsPositioned(rs: seq<ComponentRecord>)
    ensures forall g :: g in UpdateGroups(rs) ==> Positioned(g, rs)
  {
    forall g: seq<Entry> | g in UpdateGroups(rs) ensures Positioned(g, rs) {
      forall k: nat | k < |g| ensures g[k].position < |rs| {
        UpdateGroupMember(rs, g, g[k]);
      }
    }
  }

  /** The records, as they are now, of a group's entries. */
  function Members(g: seq<Entry>, rs: seq<ComponentRecord>): (ms: seq<ComponentRecord>)
    requires Positioned(g, rs)
    ensures |ms| == |g| && forall k :: 0 <= k < |g| ==> ms[k] == rs[g[k].position]
  {
    seq(|g|, k requires 0 <= k < |g| => rs[g[k].position])
  }

  /** A comparer of versions, as OrderBy uses one: "sorts no later than". */
  type VersionOrder = (WellFormedVersion, WellFormedVersion) -> bool

  /** A comparer that sorts consistently: every two versions compare, transitively. */
  ghost predicate TotalPreorder(atMost: VersionOrder) {
    && (forall a, b :: atMost(a, b) || atMost(b, a))
    && (forall a, b, c :: atMost(a, b) && atMost(b, c) ==> atMost(a, c))
  }

  /** `Comparer<DotnetVersion>.Default`: DotnetVersion's own CompareTo. */
  const ByVersion: VersionOrder := (a: WellFormedVersion, b: WellFormedVersion) => LessOrEqual(a, b)

  /** CompareTo sorts versions consistently. */
  lemma ByVersionIsTotalPreorder()
    ensures TotalPreorder(ByVersion)
  {
    forall a: WellFormedVersion, b: WellFormedVersion ensures ByVersion(a, b) || ByVersion(b, a) {
      CompareToAntisymmetric(a, b);
    }
    forall a: WellFormedVersion, b: WellFormedVersion, c: WellFormedVersion | ByVersion(a, b) && ByVersion(b, c)
      ensures ByVersion(a, c)
    {
      CompareToTransitive(a, b, c);
    }
  }

  /**
   * `OrderBy(c => c.Version).FirstOrDefault(c => c.Installation is not null)` over
   * the first `n` members. OrderBy is a stable sort, so this is the installed
   * member of lowest version, the earliest one among equal versions.
   */
  function LowestInstalledIn(ms: seq<ComponentRecord>, n: nat, atMost: VersionOrder): (r: Option<nat>)
    requires n <= |ms|
    ensures r.Some? ==> r.value < n && ms[r.value].installation.Some?
    ensures r.None? <==> forall k :: 0 <= k < n ==> ms[k].installation.None?
  {
    if n == 0 then None
    else
      var best := LowestInstalledIn(ms, n - 1, atMost);
      if ms[n - 1].installation.None? then best
      else if best.None? || !atMost(ms[best.value].version, ms[n - 1].version) then Some(n - 1)
      else best
  }

  function LowestInstalled(ms: seq<ComponentRecord>): Option<nat> {
    LowestInstalledIn(ms, |ms|, ByVersion)
  }

  /**
   * `OrderBy(c => c.Version).LastOrDefault(c => c.Installation is null)` over the
   * first `n` members: the member not installed of highest version, the latest one
   * among equal versions.
   */
  function HighestAvailableIn(ms: seq<ComponentRecord>, n: nat, atMost: VersionOrder): (r: Option<nat>)
    requires n <= |ms|
    ensures r.Some? ==> r.value < n && ms[r.value].installation.None?
    ensures r.None? <==> forall k :: 0 <= k < n ==> ms[k].installation.Some?
  {
    if n == 0 then None
    else
      var best := HighestAvailableIn(ms, n - 1, atMost);
      if ms[n - 1].installation.Some? then best
      else if best.None? || atMost(ms[best.value].version, ms[n - 1].version) then Some(n - 1)
      else best
  }

  function HighestAvailable(ms: seq<ComponentRecord>): Option<nat> {
    HighestAvailableIn(ms, |ms|, ByVersion)
  }

  /**
   * With a consistent comparer, the member LowestInstalledIn picks sorts no later
   * than any installed member, and strictly before every installed member ahead of it.
   */
  lemma {:induction false} LowestInstalledIsFirstLowest(ms: seq<ComponentRecord>, n: nat, atMost: VersionOrder)
    requires n <= |ms| && TotalPreorder(atMost)
    ensures var r := LowestInstalledIn(ms, n, atMost);
      r.Some? ==>
        && (forall k :: 0 <= k < n && ms[k].installation.Some? ==> atMost(ms[r.value].version, ms[k].version))
        && (forall k :: 0 <= k < r.value && ms[k].installation.Some? ==> !atMost(ms[k].version, ms[r.value].version))
  {
    if n > 0 {
      LowestInstalledIsFirstLowest(ms, n - 1, atMost);
    }
  }

  /**
   * With a consistent comparer, the member HighestAvailableIn picks sorts no earlier
   * than any member not installed, and strictly after every such member behind it.
   */
  lemma {:induction false} HighestAvailableIsLastHighest(ms: seq<ComponentRecord>, n: nat, atMost: VersionOrder)
    requires n <= |ms| && TotalPreorder(atMost)
    ensures var r := HighestAvailableIn(ms, n, atMost);
      r.Some? ==>
        && (forall k :: 0 <= k < n && ms[k].installation.None? ==> atMost(ms[k].version, ms[r.value].version))
        && (forall k :: r.value < k < n && ms[k].installation.None? ==> !atMost(ms[r.value].version, ms[k].version))
  {
    if n > 0 {
      HighestAvailableIsLastHighest(ms, n - 1, atMost);
    }
  }

  /** A version that does not sort at or before another sorts strictly after it. */
  lemma NotAtMostIsAbove(a: WellFormedVersion, b: WellFormedVersion)
    requires !LessOrEqual(a, b)
    ensures Less(b, a)
  {
    CompareToAntisymmetric(a, b);
  }

  /** The pair of a group: the member to uninstall and the member to install, when both exist. */
  function PairOf(ms: seq<ComponentRecord>): (pair: Option<(nat, nat)>)
    ensures pair.Some? ==> pair.value.0 < |ms| && pair.value.1 < |ms|
  {
    var older := LowestInstalled(ms);
    var newer := HighestAvailable(ms);
    if older.Some? && newer.Some? then Some((older.value, newer.value)) else None
  }

  /**
   * There is no pair exactly when every member is installed or none is; otherwise
   * the pair is the installed member of lowest version (the first among equals)
   * and the member not installed of highest version (the last among equals).
   */
  lemma PairIsLowestAndHighest(ms: seq<ComponentRecord>)
    ensures PairOf(ms).None? <==>
      (forall k :: 0 <= k < |ms| ==> ms[k].installation.None?) || (forall k :: 0 <= k < |ms| ==> ms[k].installation.Some?)
    ensures PairOf(ms).Some? ==>
      var (u, v) := PairOf(ms).value;
      && ms[u].installation.Some? && ms[v].installation.None?
      && (forall k :: 0 <= k < |ms| && ms[k].installation.Some? ==> LessOrEqual(ms[u].version, ms[k].version))
      && (forall k :: 0 <= k < u && ms[k].installation.Some? ==> Less(ms[u].version, ms[k].version))
      && (forall k :: 0 <= k < |ms| && ms[k].installation.None? ==> LessOrEqual(ms[k].version, ms[v].version))
      && (forall k :: v < k < |ms| && ms[k].installation.None? ==> Less(ms[k].version, ms[v].version))
  {
    if PairOf(ms).Some? {
      LowestInstalledIsLowest(ms);
      HighestAvailableIsHighest(ms);
    }
  }

  /** LowestInstalled by CompareTo: lowest among the installed members, first among equals. */
  lemma LowestInstalledIsLowest(ms: seq<ComponentRecord>)
    ensures var r := LowestInstalled(ms);
      r.Some? ==>
        && (forall k :: 0 <= k < |ms| && ms[k].installation.Some? ==> LessOrEqual(ms[r.value].version, ms[k].version))
        && (forall k :: 0 <= k < r.value && ms[k].installation.Some? ==> Less(ms[r.value].version, ms[k].version))
  {
    var r := LowestInstalled(ms);
    if r.Some? {
      ByVersionIsTotalPreorder();
      LowestInstalledIsFirstLowest(ms, |ms|, ByVersion);
      forall k | 0 <= k < r.value && ms[k].installation.Some? ensures Less(ms[r.value].version, ms[k].version) {
        NotAtMostIsAbove(ms[k].version, ms[r.value].version);
      }
    }
  }

  /** HighestAvailable by CompareTo: highest among the members not installed, last among equals. */
  lemma HighestAvailableIsHighest(ms: seq<ComponentRecord>)
    ensures var r := HighestAvailable(ms);
      r.Some? ==>
        && (forall k :: 0 <= k < |ms| && ms[k].installation.None? ==> LessOrEqual(ms[k].version, ms[r.value].version))
        && (forall k :: r.value < k < |ms| && ms[k].installation.None? ==> Less(ms[k].version, ms[r.value].version))
  {
    var r := HighestAvailable(ms);
    if r.Some? {
      ByVersionIsTotalPreorder();
      HighestAvailableIsLastHighest(ms, |ms|, ByVersion);
      forall k | r.value < k < |ms| && ms[k].installation.None? ensures Less(ms[k].version, ms[r.value].version) {
        NotAtMostIsAbove(ms[r.value].version, ms[k].version);
      }
    }
  }

  // ---------------------------------------------------------------- One group

  /** What the loop does with one group. */
  datatype GroupStep = Skipped | Refused(failure: Failure) | Replaced(uninstall: nat, install: nat)

  /**
   * The decision for one group, on its members as they are when the loop reaches
   * it: no pair, skip; otherwise CanInstall on the member to install decides
   * between replacing and failing.
   */
  function PlanGroup(ms: seq<ComponentRecord>, limits: Limits): GroupStep {
    match PairOf(ms)
    case None => Skipped
    case Some((u, v)) =>
      match CanInstall(ms[v].version, limits)
      case Failure(e) => Refused(e)
      case Success(allowed) =>
        if allowed then Replaced(u, v) else Refused(VersionTooHigh(LimitFor(ms[v].version, limits).value))
  }

  /**
   * A group is replaced exactly when it has a pair whose newer member is within its
   * limit. It is refused with VersionTooHigh, naming a limit strictly below the
   * newer version, when it is over its limit, and with NoLimitForFeatureBand when
   * an SDK's feature band has no limit.
   */
  lemma PlanGroupMeaning(ms: seq<ComponentRecord>, limits: Limits)
    ensures PlanGroup(ms, limits).Skipped? <==> PairOf(ms).None?
    ensures PlanGroup(ms, limits).Replaced? <==>
      PairOf(ms).Some? && CanInstall(ms[PairOf(ms).value.1].version, limits) == Success(true)
    ensures PlanGroup(ms, limits).Replaced? ==>
      PairOf(ms) == Some((PlanGroup(ms, limits).uninstall, PlanGroup(ms, limits).install))
    ensures PlanGroup(ms, limits).Refused? ==>
      PairOf(ms).Some? &&
      var version := ms[PairOf(ms).value.1].version;
      var failure := PlanGroup(ms, limits).failure;
      || (CanInstall(version, limits).Failure? && failure == NoLimitForFeatureBand)
      || (&& CanInstall(version, limits) == Success(false)
          && LimitFor(version, limits).Success?
          && failure == VersionTooHigh(LimitFor(version, limits).value)
          && Less(LimitFor(version, limits).value, version))
  {
    if PairOf(ms).Some? {
      var version := ms[PairOf(ms).value.1].version;
      if CanInstall(version, limits) == Success(false) {
        NotAtMostIsAbove(version, LimitFor(version, limits).value);
      }
    }
  }

  /** Two lists of entries that differ in installations at most. */
  predicate SameReleases(a: seq<ComponentRecord>, b: seq<ComponentRecord>) {
    Stripped(a) == Stripped(b)
  }

  /** SameReleases compares the lists entry by entry, installations aside. */
  lemma SameReleasesPointwise(a: seq<ComponentRecord>, b: seq<ComponentRecord>)
    ensures SameReleases(a, b) <==> |a| == |b| && forall i :: 0 <= i < |a| ==> SameButInstallation(a[i], b[i])
  {
    if |a| == |b| && forall i :: 0 <= i < |a| ==> SameButInstallation(a[i], b[i]) {
      assert forall i :: 0 <= i < |a| ==> Stripped(a)[i] == Stripped(b)[i];
    }
  }

  /** Every list seen differs from `records` in installations at most. */
  ghost predicate AllSameReleases(seen: seq<seq<ComponentRecord>>, records: seq<ComponentRecord>) {
    forall k :: 0 <= k < |seen| ==> SameReleases(seen[k], records)
  }

  /** A list with the same releases can join those seen. */
  lemma AllSameReleasesStep(seen: seq<seq<ComponentRecord>>, records: seq<ComponentRecord>, before: seq<ComponentRecord>)
    requires AllSameReleases(seen, records) && SameReleases(before, records)
    ensures AllSameReleases(seen + [before], records)
  {
    forall k | 0 <= k < |seen| + 1 ensures SameReleases((seen + [before])[k], records) {
      if k < |seen| {
        assert (seen + [before])[k] == seen[k];
      }
    }
  }

  /** A number above the rank of every key listed. */
  ghost function RankAbove(keys: seq<string>, rank: string -> nat): (bound: nat)
    ensures forall d :: d in keys ==> rank(d) < bound
  {
    if keys == [] then 0
    else
      var rest := RankAbove(keys[1..], rank);
      assert forall d :: d in keys ==> d == keys[0] || d in keys[1..];
      if rank(keys[0]) < rest then rest else rank(keys[0]) + 1
  }

  /**
   * The replacement of one group: the older member is uninstalled and, if that
   * went through, the newer one installed. The uninstall's effects come first; the
   * install then starts with the newer member's InstallationStarted event, unless
   * the architecture is not supported, which leaves the group with the older
   * member removed and nothing installed.
   */
  method Replace(manifest: ManifestService, older: Component, newer: Component, limits: Limits, now: int,
                 ghost rank: string -> nat)
    returns (failure: Option<Failure>, ghost mid: seq<Effect>)
    requires older.installation.Some? && newer.installation.None?
    requires CanInstall(newer.version, limits) == Success(true)
    requires Ranked(manifest.remote, rank)
    requires newer in manifest.local + manifest.remote + manifest.merged
    modifies manifest, manifest.host, older, set c | c in manifest.local + manifest.remote + manifest.merged
    ensures manifest.remote == old(manifest.remote) && manifest.merged == old(manifest.merged)
    ensures forall c :: c in manifest.local ==> c in old(manifest.local) || c in manifest.remote || c == newer
    ensures old(manifest.host.trace) <= mid <= manifest.host.trace
    ensures manifest.installLocation.None? ==>
      failure == Some(InstallLocationUnset) && mid == manifest.host.trace == old(manifest.host.trace)
    ensures manifest.installLocation.Some? ==>
      var directory := manifest.installLocation.value;
      var removal := RemovePackages(manifest.host, directory, old(manifest.host.files), older.packages);
      && (removal.failure.Some? ==>
        failure == removal.failure && mid == manifest.host.trace == old(manifest.host.trace) + removal.effects)
      && (removal.failure.None? ==>
        && |mid| == |old(manifest.host.trace)| + |removal.effects| + 2
        && mid[..|mid| - 2] == old(manifest.host.trace) + removal.effects
        && mid[|mid| - 2] == RemovedEmptyDirectories(directory) && mid[|mid| - 1].Saved?
        && (DebArchitecture(manifest.host.architecture).Failure? ==>
          failure == Some(UnsupportedArchitecture(manifest.host.architecture)) && manifest.host.trace == mid)
        && (DebArchitecture(manifest.host.architecture).Success? ==>
          |manifest.host.trace| > |mid| && manifest.host.trace[|mid|] == InstallationStarted(newer.key)))
    ensures failure.Some? && failure.value.DependencyMissing? ==>
      IndexOfKey(manifest.remote, failure.value.key) == |manifest.remote|
    ensures failure.None? ==>
      && (forall d :: d in newer.dependencies ==> IndexOfKey(manifest.remote, d) < |manifest.remote|)
      && exists landmark, starts ::
        OwnWorkThenDependencies(manifest.host.trace, |mid|, newer.key, false, newer.dependencies, landmark, starts)
  {
    failure := older.Uninstall(manifest);
    mid := manifest.host.trace;
    if failure.None? {
      RemoveFirstWithKeyShrinks(old(manifest.local), older.key);
      ghost var bound := RankAbove(newer.dependencies, rank);
      ghost var landmark, starts;
      failure, landmark, starts := newer.Install(limits, manifest, now, rank, bound);
      if failure.None? {
        assert OwnWorkThenDependencies(manifest.host.trace, |mid|, newer.key, false, newer.dependencies, landmark, starts);
      }
    }
  }

  /**
   * One group of the loop: the pair is chosen on the members as they are now;
   * a group without a pair is skipped and one over its limit fails without any
   * change; otherwise the pair is replaced.
   */
  method UpdateGroup(manifest: ManifestService, g: seq<Entry>, limits: Limits, now: int, ghost rank: string -> nat)
    returns (step: GroupStep, failure: Option<Failure>)
    requires Positioned(g, manifest.merged)
    requires Ranked(manifest.remote, rank)
    modifies manifest, manifest.host, set c | c in manifest.local + manifest.remote + manifest.merged
    ensures manifest.remote == old(manifest.remote) && manifest.merged == old(manifest.merged)
    ensures forall c :: c in manifest.local ==> c in old(manifest.local) || c in manifest.remote || c in manifest.merged
    ensures step == PlanGroup(Members(g, old(Snapshot(manifest.merged))), limits)
    ensures step.Skipped? ==> failure.None?
    ensures step.Refused? ==> failure == Some(step.failure)
    ensures !step.Replaced? ==> unchanged(manifest, manifest.host)
    ensures old(manifest.host.trace) <= manifest.host.trace
    ensures step.Replaced? ==>
      && old(manifest.merged[g[step.uninstall].position].installation).Some?
      && old(manifest.merged[g[step.install].position].installation).None?
      && CanInstall(manifest.merged[g[step.install].position].version, limits) == Success(true)
  {
    var ms := Members(g, Snapshot(manifest.merged));
    step := PlanGroup(ms, limits);
    match step
    case Skipped =>
      failure := None;
    case Refused(e) =>
      failure := Some(e);
    case Replaced(u, v) =>
      PlanGroupMeaning(ms, limits);
      var older := manifest.merged[g[u].position];
      var newer := manifest.merged[g[v].position];
      ghost var mid;
      failure, mid := Replace(manifest, older, newer, limits, now, rank);
  }

  // ---------------------------------------------------------------- The handler

  /** No dependency cycle through the remote entries: every dependency ranks below its dependent. */
  predicate RankedRecords(records: seq<ComponentRecord>, rank: string -> nat) {
    forall r, d :: r in records && d in r.dependencies ==> rank(d) < rank(r.key)
  }

  /** The remote components carry the keys and dependencies of the remote entries they were loaded from. */
  lemma RankedAfterLoad(remote: seq<Component>, merged: seq<Component>, remoteRecords: seq<ComponentRecord>,
                        localRecords: seq<ComponentRecord>, rank: string -> nat)
    requires |remote| == |remoteRecords|
    requires |merged| >= |remote| && merged[..|remote|] == remote
    requires Snapshot(merged) == Merge(remoteRecords, localRecords)
    requires RankedRecords(remoteRecords, rank)
    ensures Ranked(remote, rank)
  {
    MergeExtendsRemote(remoteRecords, localRecords);
    forall c, d | c in remote && d in c.dependencies ensures rank(d) < rank(c.key) {
      var i :| 0 <= i < |remote| && remote[i] == c;
      assert merged[i] == c;
      assert SameButInstallation(Snapshot(merged)[i], remoteRecords[i]);
      assert remoteRecords[i] in remoteRecords;
    }
  }

  /**
   * The decisions the loop took, in order, each on the members as they were when
   * it was taken (defined on the last decision, so that a proof unfolds one at a time).
   */
  ghost predicate FollowsPlan(groups: seq<seq<Entry>>, seen: seq<seq<ComponentRecord>>, steps: seq<GroupStep>, limits: Limits)
    decreases |steps|
  {
    && |seen| == |steps| <= |groups|
    && (steps != [] ==>
      var n := |steps| - 1;
      && FollowsPlan(groups, seen[..n], steps[..n], limits)
      && Positioned(groups[n], seen[n])
      && steps[n] == PlanGroup(Members(groups[n], seen[n]), limits))
  }

  /** Each decision of a plan is the one PlanGroup takes on its group's members as seen then. */
  lemma {:induction false} FollowsPlanAt(groups: seq<seq<Entry>>, seen: seq<seq<ComponentRecord>>, steps: seq<GroupStep>,
                                         limits: Limits, k: nat)
    requires FollowsPlan(groups, seen, steps, limits) && k < |steps|
    ensures Positioned(groups[k], seen[k]) && steps[k] == PlanGroup(Members(groups[k], seen[k]), limits)
    decreases |steps|
  {
    var n := |steps| - 1;
    if k < n {
      FollowsPlanAt(groups, seen[..n], steps[..n], limits, k);
      assert seen[..n][k] == seen[k] && steps[..n][k] == steps[k];
    }
  }

  /** One more decision, taken on the members as they are now, extends the plan. */
  lemma FollowsPlanStep(groups: seq<seq<Entry>>, seen: seq<seq<ComponentRecord>>, steps: seq<GroupStep>, limits: Limits,
                        before: seq<ComponentRecord>, step: GroupStep)
    requires FollowsPlan(groups, seen, steps, limits) && |steps| < |groups|
    requires Positioned(groups[|steps|], before)
    requires step == PlanGroup(Members(groups[|steps|], before), limits)
    ensures FollowsPlan(groups, seen + [before], steps + [step], limits)
  {
    assert (seen + [before])[..|seen|] == seen && (steps + [step])[..|steps|] == steps;
  }

  /**
   * What the loop over the groups promises: its decisions follow the plan, the
   * first is taken on the list as loaded, no list it sees differs from that one
   * but in installations, it visits every group unless a step fails, a failing
   * step is never a skipped group, and a refusal ends the loop with its exit code.
   */
  ghost predicate VisitedInOrder(groups: seq<seq<Entry>>, records: seq<ComponentRecord>, seen: seq<seq<ComponentRecord>>,
                                 steps: seq<GroupStep>, outcome: Outcome, limits: Limits) {
    && FollowsPlan(groups, seen, steps, limits)
    && (steps != [] ==> seen[0] == records)
    && AllSameReleases(seen, records)
    && (outcome == Completed ==> |steps| == |groups|)
    && (outcome != Completed ==> steps != [] && !steps[|steps| - 1].Skipped?)
    && (forall k :: 0 <= k < |steps| && steps[k].Refused? ==> k == |steps| - 1 && outcome == Exit(steps[k].failure))
  }

  /**
   * The update command. The install directory must exist (its lookup fails when
   * DOTNET_INSTALL_DIR is unset); the manifest is loaded; without candidates
   * nothing more happens. Otherwise the groups are visited in order, each decided
   * on its members as they are when it is reached, and the first failure ends the
   * command: with its exit code for the installer's own exceptions, as an uncaught
   * exception for the others.
   */
  method Update(manifest: ManifestService, response: RemoteResponse, directoryExists: bool, limits: Limits, now: int,
                ghost rank: string -> nat)
    returns (outcome: Outcome, ghost steps: seq<GroupStep>, ghost seen: seq<seq<ComponentRecord>>)
    requires RankedRecords(LoadRemote(response), rank)
    modifies manifest, manifest.host
    ensures manifest.installLocation.None? || !directoryExists ==> steps == [] && unchanged(manifest, manifest.host)
    ensures manifest.installLocation.None? ==> outcome == Crashed(InstallLocationUnset)
    ensures manifest.installLocation.Some? && !directoryExists ==> outcome == Exited(NotFoundCode)
    ensures manifest.installLocation.Some? && directoryExists ==>
      var records := Merge(LoadRemote(response), LoadLocal(old(manifest.host.manifestFile)));
      && VisitedInOrder(UpdateGroups(records), records, seen, steps, outcome, limits)
      && (Candidates(records) == [] ==> outcome == Completed && steps == [] && unchanged(manifest.host))
  {
    steps, seen := [], [];
    var location := manifest.DotnetInstallLocation();
    if location.Failure? {
      outcome := Exit(location.error);
      return;
    }
    if !directoryExists {
      outcome := Exited(NotFoundCode);
      return;
    }
    manifest.Initialize(response, false);
    ghost var records := Snapshot(manifest.merged);
    var candidates := Candidates(Snapshot(manifest.merged));
    if candidates == [] {
      outcome := Completed;
      CandidatesIffGroups(records);
      return;
    }
    var groups := UpdateGroups(Snapshot(manifest.merged));
    ghost var merged0, remote0 := manifest.merged, manifest.remote;
    RankedAfterLoad(remote0, merged0, LoadRemote(response), LoadLocal(old(manifest.host.manifestFile)), rank);
    UpdateGroupsPositioned(records);
    outcome, steps, seen := VisitGroups(manifest, groups, records, limits, now, rank);
  }

  /**
   * The loop's state between groups: the decisions so far follow the plan, the
   * first was taken on the list as loaded, every list seen has the loaded
   * releases, and no decision so far was a refusal.
   */
  ghost predicate Visiting(groups: seq<seq<Entry>>, records: seq<ComponentRecord>, seen: seq<seq<ComponentRecord>>,
                           steps: seq<GroupStep>, limits: Limits) {
    && FollowsPlan(groups, seen, steps, limits)
    && (steps != [] ==> seen[0] == records)
    && AllSameReleases(seen, records)
    && (forall k :: 0 <= k < |steps| ==> !steps[k].Refused?)
  }

  /**
   * One more decision, taken on a list with the loaded releases: the loop goes on
   * after it if it did not fail, and otherwise ends as VisitedInOrder describes.
   */
  lemma VisitStep(groups: seq<seq<Entry>>, records: seq<ComponentRecord>, seen: seq<seq<ComponentRecord>>,
                  steps: seq<GroupStep>, limits: Limits, before: seq<ComponentRecord>, step: GroupStep,
                  failure: Option<Failure>)
    requires Visiting(groups, records, seen, steps, limits) && |steps| < |groups|
    requires steps == [] ==> before == records
    requires SameReleases(before, records)
    requires Positioned(groups[|steps|], before)
    requires step == PlanGroup(Members(groups[|steps|], before), limits)
    requires step.Refused? ==> failure == Some(step.failure)
    requires step.Skipped? ==> failure.None?
    ensures failure.None? ==> Visiting(groups, records, seen + [before], steps + [step], limits)
    ensures failure.Some? ==> VisitedInOrder(groups, records, seen + [before], steps + [step], Exit(failure.value), limits)
  {
    FollowsPlanStep(groups, seen, steps, limits, before, step);
    AllSameReleasesStep(seen, records, before);
    var steps', seen' := steps + [step], seen + [before];
    assert seen'[0] == records by {
      if steps != [] { assert seen'[0] == seen[0]; }
    }
    forall k | 0 <= k < |steps| ensures steps'[k] == steps[k] { }
  }

  /** The loop ends after the last group with every decision taken and none refused. */
  lemma VisitedAll(groups: seq<seq<Entry>>, records: seq<ComponentRecord>, seen: seq<seq<ComponentRecord>>,
                   steps: seq<GroupStep>, limits: Limits)
    requires Visiting(groups, records, seen, steps, limits) && |steps| == |groups|
    ensures VisitedInOrder(groups, records, seen, steps, Completed, limits)
  {
  }

  /** The loop over the groups, until the first failure. */
  method VisitGroups(manifest: ManifestService, groups: seq<seq<Entry>>, ghost records: seq<ComponentRecord>,
                     limits: Limits, now: int, ghost rank: string -> nat)
    returns (outcome: Outcome, ghost steps: seq<GroupStep>, ghost seen: seq<seq<ComponentRecord>>)
    requires forall g :: g in groups ==> Positioned(g, records)
    requires Snapshot(manifest.merged) == records
    requires Ranked(manifest.remote, rank)
    modifies manifest, manifest.host, set c | c in manifest.local + manifest.remote + manifest.merged
    ensures manifest.remote == old(manifest.remote) && manifest.merged == old(manifest.merged)
    ensures forall c :: c in manifest.local ==> c in old(manifest.local) || c in manifest.remote || c in manifest.merged
    ensures VisitedInOrder(groups, records, seen, steps, outcome, limits)
  {
    SnapshotReleases(manifest.merged);
    steps, seen := [], [];
    var i := 0;
    while i < |groups|
      invariant 0 <= i <= |groups| && |steps| == i
      invariant manifest.remote == old(manifest.remote) && manifest.merged == old(manifest.merged)
      invariant forall c :: c in manifest.local ==> c in old(manifest.local) || c in manifest.remote || c in manifest.merged
      invariant Stripped(records) == Releases(manifest.merged)
      invariant Visiting(groups, records, seen, steps, limits)
      invariant i == 0 ==> Snapshot(manifest.merged) == records
    {
      var step, failure, before := VisitOne(manifest, groups, i, records, limits, now, rank, steps, seen);
      steps, seen := steps + [step], seen + [before];
      if failure.Some? {
        outcome := Exit(failure.value);
        return;
      }
      i := i + 1;
    }
    VisitedAll(groups, records, seen, steps, limits);
    outcome := Completed;
  }

  /** One pass of the loop of VisitGroups: the next group, recorded in the plan. */
  method VisitOne(manifest: ManifestService, groups: seq<seq<Entry>>, i: nat, ghost records: seq<ComponentRecord>,
                  limits: Limits, now: int, ghost rank: string -> nat,
                  ghost steps: seq<GroupStep>, ghost seen: seq<seq<ComponentRecord>>)
    returns (step: GroupStep, failure: Option<Failure>, ghost before: seq<ComponentRecord>)
    requires |steps| == i < |groups|
    requires forall g :: g in groups ==> Positioned(g, records)
    requires Ranked(manifest.remote, rank)
    requires Stripped(records) == Releases(manifest.merged)
    requires Visiting(groups, records, seen, steps, limits)
    requires i == 0 ==> Snapshot(manifest.merged) == records
    modifies manifest, manifest.host, set c | c in manifest.local + manifest.remote + manifest.merged
    ensures manifest.remote == old(manifest.remote) && manifest.merged == old(manifest.merged)
    ensures forall c :: c in manifest.local ==> c in old(manifest.local) || c in manifest.remote || c in manifest.merged
    ensures failure.None? ==> Visiting(groups, records, seen + [before], steps + [step], limits)
    ensures failure.Some? ==> VisitedInOrder(groups, records, seen + [before], steps + [step], Exit(failure.value), limits)
  {
    before := Snapshot(manifest.merged);
    SnapshotReleases(manifest.merged);
    var g := groups[i];
    assert g in groups;
    step, failure := UpdateGroup(manifest, g, limits, now, rank);
    VisitStep(groups, records, seen, steps, limits, before, step, failure);
  }
}
