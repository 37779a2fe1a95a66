/**
 * Components as the manifest files hold them, and the rule by which the manifest
 * service merges the remote list (what can be downloaded) with the local list (what
 * is installed): remote entries first, in their order; a local entry whose key is
 * already present only lends its installation to the first entry with that key;
 * any other local entry is appended.
 *
 * The same loop appears in Services/Implementations/ManifestService.Private.cs,
 * Models/Manifest.Private.cs and the two Domain Manifest.Private.cs files; this is
 * its value-level statement, and Components.MergeComponents carries it out on
 * objects.
 */
module ComponentRecords {
  import opened Wrappers
  import opened DotnetVersions

  datatype Package = Package(name: string, version: string)

  /** When the component was installed, as the clock reported it. */
  datatype Installation = Installation(installedAt: int)

  /** A component entry as stored in a manifest file. */
  datatype ComponentRecord = ComponentRecord(
    key: string,
    name: string,
    description: string,
    baseUrl: string,
    version: WellFormedVersion,
    latestVersion: WellFormedVersion,
    packages: seq<Package>,
    dependencies: seq<string>,
    installation: Option<Installation>)

  function Keys(rs: seq<ComponentRecord>): set<string> {
    set r | r in rs :: r.key
  }

  function KeySeq(rs: seq<ComponentRecord>): (keys: seq<string>)
    ensures |keys| == |rs| && forall i :: 0 <= i < |rs| ==> keys[i] == rs[i].key
  {
    seq(|rs|, i requires 0 <= i < |rs| => rs[i].key)
  }

  predicate DistinctKeys(rs: seq<ComponentRecord>) {
    forall i, j :: 0 <= i < j < |rs| ==> rs[i].key != rs[j].key
  }

  /** Two entries that differ at most in their installation. */
  predicate SameButInstallation(a: ComponentRecord, b: ComponentRecord) {
    a.(installation := None) == b.(installation := None)
  }

  /** The position of the first entry with `key`, or |rs| when there is none. */
  function FirstWithKey(rs: seq<ComponentRecord>, key: string): (p: nat)
    ensures p <= |rs|
    ensures p < |rs| ==> rs[p].key == key
    ensures forall i :: 0 <= i < p ==> rs[i].key != key
  {
    if rs == [] then 0
    else if rs[0].key == key then 0
    else 1 + FirstWithKey(rs[1..], key)
  }

  /** The position of the last entry with `key`. */
  function LastWithKey(rs: seq<ComponentRecord>, key: string): (p: nat)
    requires key in Keys(rs)
    ensures p < |rs| && rs[p].key == key
    ensures forall i :: p < i < |rs| ==> rs[i].key != key
  {
    var n := |rs| - 1;
    if rs[n].key == key then n
    else
      assert rs[..n][FirstWithKey(rs, key)] == rs[FirstWithKey(rs, key)];
      LastWithKey(rs[..n], key)
  }

  /** One pass of the merge loop, for the local entry `local`. */
  function MergeStep(result: seq<ComponentRecord>, local: ComponentRecord): seq<ComponentRecord> {
    var p := FirstWithKey(result, local.key);
    if p == |result| then result + [local]
    else result[p := result[p].(installation := local.installation)]
  }

  /** The merged list: the loop run over every local entry in turn. */
  function Merge(remote: seq<ComponentRecord>, local: seq<ComponentRecord>): seq<ComponentRecord>
    decreases |local|
  {
    if local == [] then remote
    else MergeStep(Merge(remote, local[..|local| - 1]), local[|local| - 1])
  }

  /**
   * The keys of the local list, in order, that are new: neither in `seen` nor
   * earlier in the local list.
   */
  function FreshKeys(seen: set<string>, local: seq<ComponentRecord>): seq<string>
    decreases |local|
  {
    if local == [] then []
    else
      var keys := FreshKeys(seen, local[..|local| - 1]);
      var key := local[|local| - 1].key;
      if key in seen || key in keys then keys else keys + [key]
  }

  // ---------------------------------------------------------------- Lemmas

  lemma KeysOfSnoc(rs: seq<ComponentRecord>, r: ComponentRecord)
    ensures Keys(rs + [r]) == Keys(rs) + {r.key}
  {
    assert forall x :: x in rs + [r] <==> x in rs || x == r;
  }

  lemma KeysOfUpdate(rs: seq<ComponentRecord>, p: nat, installation: Option<Installation>)
    requires p < |rs|
    ensures Keys(rs[p := rs[p].(installation := installation)]) == Keys(rs)
    ensures KeySeq(rs[p := rs[p].(installation := installation)]) == KeySeq(rs)
  {
    var updated := rs[p := rs[p].(installation := installation)];
    forall k | k in Keys(rs) ensures k in Keys(updated) {
      var i :| 0 <= i < |rs| && rs[i].key == k;
      assert updated[i].key == k;
    }
    forall k | k in Keys(updated) ensures k in Keys(rs) {
      var i :| 0 <= i < |updated| && updated[i].key == k;
      assert rs[i].key == k;
    }
  }

  lemma NotFirstWithKey(rs: seq<ComponentRecord>, key: string)
    ensures FirstWithKey(rs, key) == |rs| <==> key !in Keys(rs)
  {
    if key in Keys(rs) {
      var i :| 0 <= i < |rs| && rs[i].key == key;
    }
  }

  /**
   * The merged list is the remote list with some installations replaced, followed by
   * entries taken from the local list.
   */
  lemma {:induction false} MergeExtendsRemote(remote: seq<ComponentRecord>, local: seq<ComponentRecord>)
    ensures var merged := Merge(remote, local);
      && |merged| >= |remote|
      && (forall i :: 0 <= i < |remote| ==> SameButInstallation(merged[i], remote[i]))
      && (forall i :: |remote| <= i < |merged| ==> exists j :: 0 <= j < |local| && SameButInstallation(merged[i], local[j]))
    decreases |local|
  {
    if local != [] {
      var n := |local| - 1;
      MergeExtendsRemote(remote, local[..n]);
      var result := Merge(remote, local[..n]);
      forall i | |remote| <= i < |result| ensures exists j :: 0 <= j < |local| && SameButInstallation(result[i], local[j]) {
        var j :| 0 <= j < n && SameButInstallation(result[i], local[..n][j]);
        assert local[..n][j] == local[j];
      }
    }
  }

  /** Every key of either list is a key of the merged list, and no other. */
  lemma {:induction false} MergeKeys(remote: seq<ComponentRecord>, local: seq<ComponentRecord>)
    ensures Keys(Merge(remote, local)) == Keys(remote) + Keys(local)
    decreases |local|
  {
    if local != [] {
      var n := |local| - 1;
      MergeKeys(remote, local[..n]);
      var result := Merge(remote, local[..n]);
      assert local == local[..n] + [local[n]];
      KeysOfSnoc(local[..n], local[n]);
      var p := FirstWithKey(result, local[n].key);
      if p == |result| {
        KeysOfSnoc(result, local[n]);
      } else {
        KeysOfUpdate(result, p, local[n].installation);
      }
    }
  }

  /**
   * Remote keys come first, in remote order; after them come the new local keys,
   * each once, in local order.
   */
  lemma {:induction false} MergeKeyOrder(remote: seq<ComponentRecord>, local: seq<ComponentRecord>)
    ensures KeySeq(Merge(remote, local)) == KeySeq(remote) + FreshKeys(Keys(remote), local)
    decreases |local|
  {
    if local != [] {
      var n := |local| - 1;
      MergeKeyOrder(remote, local[..n]);
      var result := Merge(remote, local[..n]);
      var key := local[n].key;
      var p := FirstWithKey(result, key);
      NotFirstWithKey(result, key);
      MergeKeys(remote, local[..n]);
      FreshKeysSet(Keys(remote), local[..n]);
      if p == |result| {
        assert KeySeq(result + [local[n]]) == KeySeq(result) + [key];
      } else {
        KeysOfUpdate(result, p, local[n].installation);
      }
    }
  }

  /** The new keys are exactly the local keys not in `seen`. */
  lemma {:induction false} FreshKeysSet(seen: set<string>, local: seq<ComponentRecord>)
    ensures forall k :: k in FreshKeys(seen, local) <==> k in Keys(local) && k !in seen
    decreases |local|
  {
    if local != [] {
      var n := |local| - 1;
      assert local == local[..n] + [local[n]];
      KeysOfSnoc(local[..n], local[n]);
      FreshKeysSet(seen, local[..n]);
    }
  }

  lemma {:induction false} FreshKeysAvoidSeen(seen: set<string>, local: seq<ComponentRecord>)
    ensures forall i :: 0 <= i < |FreshKeys(seen, local)| ==> FreshKeys(seen, local)[i] !in seen
    ensures forall i, j :: 0 <= i < j < |FreshKeys(seen, local)| ==> FreshKeys(seen, local)[i] != FreshKeys(seen, local)[j]
    decreases |local|
  {
    if local != [] {
      var n := |local| - 1;
      var keys := FreshKeys(seen, local[..n]);
      FreshKeysAvoidSeen(seen, local[..n]);
      var key := local[n].key;
      assert FreshKeys(seen, local) == if key in seen || key in keys then keys else keys + [key];
      if !(key in seen || key in keys) {
        var extended := keys + [key];
        assert forall i :: 0 <= i < |keys| ==> extended[i] == keys[i] != key;
        assert extended == FreshKeys(seen, local);
      } else {
        assert keys == FreshKeys(seen, local);
      }
    }
  }

  /** Merging keeps keys distinct when the remote keys are, whatever the local list repeats. */
  lemma MergeDistinctKeys(remote: seq<ComponentRecord>, local: seq<ComponentRecord>)
    requires DistinctKeys(remote)
    ensures DistinctKeys(Merge(remote, local))
  {
    var merged := Merge(remote, local);
    var newKeys := FreshKeys(Keys(remote), local);
    MergeKeyOrder(remote, local);
    FreshKeysAvoidSeen(Keys(remote), local);
    forall i, j | 0 <= i < j < |merged| ensures merged[i].key != merged[j].key {
      assert merged[i].key == KeySeq(merged)[i] && merged[j].key == KeySeq(merged)[j];
      if j < |remote| {
        assert merged[i].key == remote[i].key && merged[j].key == remote[j].key;
      } else if i < |remote| {
        assert merged[i].key == remote[i].key && remote[i].key in Keys(remote);
        assert merged[j].key == newKeys[j - |remote|];
      } else {
        assert merged[i].key == newKeys[i - |remote|] && merged[j].key == newKeys[j - |remote|];
      }
    }
  }

  lemma {:induction false} DistinctKeysCount(rs: seq<ComponentRecord>)
    requires DistinctKeys(rs)
    ensures |Keys(rs)| == |rs|
  {
    if rs != [] {
      var n := |rs| - 1;
      assert rs == rs[..n] + [rs[n]];
      DistinctKeysCount(rs[..n]);
      KeysOfSnoc(rs[..n], rs[n]);
      forall r | r in rs[..n] ensures r.key != rs[n].key {
        var i :| 0 <= i < n && rs[..n][i] == r;
        assert rs[i] == r;
      }
    }
  }

  /**
   * With distinct remote keys, the merged list holds exactly one entry per key of
   * either list: the remote ones plus one per new local key.
   */
  lemma MergeLength(remote: seq<ComponentRecord>, local: seq<ComponentRecord>)
    requires DistinctKeys(remote)
    ensures |Merge(remote, local)| == |Keys(remote) + Keys(local)|
    ensures |Merge(remote, local)| == |remote| + |Keys(local) - Keys(remote)|
  {
    MergeDistinctKeys(remote, local);
    DistinctKeysCount(remote);
    DistinctKeysCount(Merge(remote, local));
    MergeKeys(remote, local);
    assert Keys(remote) + Keys(local) == Keys(remote) + (Keys(local) - Keys(remote));
  }

  /**
   * The first merged entry with a key that the local list has carries the
   * installation of the LAST local entry with that key.
   */
  lemma {:induction false} MergeInstallation(remote: seq<ComponentRecord>, local: seq<ComponentRecord>, key: string)
    requires key in Keys(local)
    ensures var merged := Merge(remote, local);
      var p := FirstWithKey(merged, key);
      p < |merged| && merged[p].installation == local[LastWithKey(local, key)].installation
    decreases |local|
  {
    var n := |local| - 1;
    var result := Merge(remote, local[..n]);
    var p := FirstWithKey(result, local[n].key);
    if local[n].key == key {
      if p == |result| {
        assert FirstWithKey(result + [local[n]], key) == |result| by {
          FirstWithKeyOfExtension(result, [local[n]], key);
        }
      } else {
        FirstWithKeyOfUpdate(result, p, local[n].installation, key);
      }
    } else {
      assert key in Keys(local[..n]) by {
        var i :| 0 <= i < |local| && local[i].key == key;
        assert i < n && local[..n][i] == local[i];
      }
      MergeInstallation(remote, local[..n], key);
      var q := FirstWithKey(result, key);
      if p == |result| {
        FirstWithKeyOfExtension(result, [local[n]], key);
      } else {
        FirstWithKeyOfUpdate(result, p, local[n].installation, key);
      }
      assert LastWithKey(local, key) == LastWithKey(local[..n], key);
    }
  }

  /** FirstWithKey is the position before which no entry has the key. */
  lemma {:induction false} FirstWithKeyIs(rs: seq<ComponentRecord>, key: string, p: nat)
    requires p <= |rs| && (p < |rs| ==> rs[p].key == key)
    requires forall i :: 0 <= i < p ==> rs[i].key != key
    ensures FirstWithKey(rs, key) == p
  {
    if p > 0 {
      FirstWithKeyIs(rs[1..], key, p - 1);
    }
  }

  lemma FirstWithKeyOfExtension(rs: seq<ComponentRecord>, more: seq<ComponentRecord>, key: string)
    requires FirstWithKey(rs, key) < |rs| || (more != [] && more[0].key == key)
    ensures FirstWithKey(rs + more, key) == FirstWithKey(rs, key)
    ensures FirstWithKey(rs, key) < |rs| ==> (rs + more)[FirstWithKey(rs, key)] == rs[FirstWithKey(rs, key)]
  {
    var p := FirstWithKey(rs, key);
    assert forall i :: 0 <= i < |rs| ==> (rs + more)[i] == rs[i];
    FirstWithKeyIs(rs + more, key, p);
  }

  lemma FirstWithKeyOfUpdate(rs: seq<ComponentRecord>, p: nat, installation: Option<Installation>, key: string)
    requires p < |rs|
    ensures FirstWithKey(rs[p := rs[p].(installation := installation)], key) == FirstWithKey(rs, key)
  {
    var updated := rs[p := rs[p].(installation := installation)];
    assert forall i :: 0 <= i < |rs| ==> updated[i].key == rs[i].key;
    FirstWithKeyIs(updated, key, FirstWithKey(rs, key));
  }

  /**
   * A remote entry keeps its installation unless the local list has its key and it
   * is the first entry with that key.
   */
  lemma {:induction false} MergeLeavesOthers(remote: seq<ComponentRecord>, local: seq<ComponentRecord>, i: nat)
    requires i < |remote|
    requires remote[i].key !in Keys(local) || FirstWithKey(remote, remote[i].key) != i
    ensures i < |Merge(remote, local)| && Merge(remote, local)[i] == remote[i]
    decreases |local|
  {
    if local != [] {
      var n := |local| - 1;
      assert remote[i].key !in Keys(local[..n]) || FirstWithKey(remote, remote[i].key) != i by {
        if remote[i].key in Keys(local[..n]) {
          var j :| 0 <= j < n && local[..n][j].key == remote[i].key;
          assert local[j] == local[..n][j];
        }
      }
      MergeLeavesOthers(remote, local[..n], i);
      var result := Merge(remote, local[..n]);
      var p := FirstWithKey(result, local[n].key);
      MergeExtendsRemote(remote, local[..n]);
      assert result[i].key == remote[i].key;
      if p < |result| && local[n].key == remote[i].key {
        var f := FirstWithKey(remote, remote[i].key);
        assert f < i && result[f].key == remote[f].key;
      }
    }
  }
}
