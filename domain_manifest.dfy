// The older, static manifest of the Domain library: every Add and Remove
// re-reads the stored local list, edits it and writes it back whole; Load
// merges the remote list with the stored one.

module DomainManifests {
  import opened Wrappers
  import opened ComponentRecords
  import opened Components

  /** The local list after Add: the component, now marked installed, appended last. */
  function Appended(local: seq<ComponentRecord>, c: ComponentRecord, now: int): seq<ComponentRecord> {
    local + [c.(installation := Some(Installation(now)))]
  }

  /**
   * The local list after Remove: the first entry with `key` dropped, if
   * there is one; a list without the key stays as it is.
   */
  function WithoutFirst(local: seq<ComponentRecord>, key: string): (r: seq<ComponentRecord>)
    ensures key !in Keys(local) ==> r == local
  {
    var p := FirstWithKey(local, key);
    if p == |local| then local
    else
      assert local[p].key in Keys(local);
      local[..p] + local[p + 1..]
  }

  /** Cutting one entry out of a sequence removes exactly that entry from its multiset. */
  lemma MultisetWithout<T>(s: seq<T>, p: nat)
    requires p < |s|
    ensures multiset(s[..p] + s[p + 1..]) + multiset{s[p]} == multiset(s)
  {
    assert s == s[..p] + [s[p]] + s[p + 1..];
  }

  /**
   * Remove drops exactly one entry, the first with the key, and keeps the
   * others in order.
   */
  lemma WithoutFirstDropsOne(local: seq<ComponentRecord>, key: string)
    requires key in Keys(local)
    ensures var p := FirstWithKey(local, key);
      && p < |local| && local[p].key == key
      && WithoutFirst(local, key) == local[..p] + local[p + 1..]
      && multiset(WithoutFirst(local, key)) + multiset{local[p]} == multiset(local)
  {
    var p := FirstWithKey(local, key);
    var i :| 0 <= i < |local| && local[i].key == key;
    assert p <= i;
    MultisetWithout(local, p);
  }

  /** Removing a component just added to a list without its key restores the list. */
  lemma RemoveUndoesAdd(local: seq<ComponentRecord>, c: ComponentRecord, now: int)
    requires c.key !in Keys(local)
    ensures WithoutFirst(Appended(local, c, now), c.key) == local
  {
    var added := Appended(local, c, now);
    FirstWithKeyIs(added, c.key, |local|);
    assert added[..|local|] == local;
  }

  /** After Add, loading the manifest shows the component's key as installed at `now`. */
  lemma LoadShowsAdded(remote: seq<ComponentRecord>, local: seq<ComponentRecord>, c: ComponentRecord, now: int)
    ensures var merged := Merge(remote, Appended(local, c, now));
      var p := FirstWithKey(merged, c.key);
      p < |merged| && merged[p].key == c.key && merged[p].installation == Some(Installation(now))
  {
    var added := Appended(local, c, now);
    assert added[|local|].key == c.key;
    MergeInstallation(remote, added, c.key);
    assert LastWithKey(added, c.key) == |local|;
  }

  /**
   * LoadRemote of the Domain.Models copy: the "latest" list, or an empty
   * list when the request fails or the document is null. Asking for the
   * archive as well adds nothing.
   */
  function LoadRemoteLatest(response: RemoteResponse, latestOnly: bool): (records: seq<ComponentRecord>)
    ensures response.Unsuccessful? || response.content.None? ==> records == []
    ensures response.Successful? && response.content.Some? ==> records == response.content.value
  {
    // the archive branch of the source is an empty placeholder
    if response.Successful? && response.content.Some? then response.content.value else []
  }

  /** The archive flag has no effect on what is loaded. */
  lemma ArchiveFlagIgnored(response: RemoteResponse)
    ensures LoadRemoteLatest(response, false) == LoadRemoteLatest(response, true) == LoadRemote(response)
  {
  }

  /**
   * The manifest's state: the stored local list (the file under DOTNET_ROOT)
   * and the lists written to it, in order.
   */
  class DomainManifest {
    var file: StoredManifest
    var writes: seq<seq<ComponentRecord>>

    constructor (file: StoredManifest)
      ensures this.file == file && writes == []
    {
      this.file := file;
      writes := [];
    }

    /** Load: the remote list merged with the stored local list; nothing is written. */
    method Load(response: RemoteResponse) returns (components: seq<ComponentRecord>)
      ensures components == Merge(LoadRemote(response), LoadLocal(file))
      ensures |components| >= |LoadRemote(response)|
      ensures Keys(components) == Keys(LoadRemote(response)) + Keys(LoadLocal(file))
    {
      var local := LoadLocal(file);
      var remote := LoadRemote(response);
      components := Merge(remote, local);
      MergeExtendsRemote(remote, local);
      MergeKeys(remote, local);
    }

    /** Writes `components` as the new stored list. */
    method Save(components: seq<ComponentRecord>)
      modifies this
      ensures file == Stored(Some(components))
      ensures writes == old(writes) + [components]
    {
      file := Stored(Some(components));
      writes := writes + [components];
    }

    /**
     * Add re-reads the stored list, marks the component installed, appends
     * it last and writes the list back once. The component it returns is the
     * caller's, now carrying its installation.
     */
    method Add(c: ComponentRecord, now: int) returns (added: ComponentRecord)
      modifies this
      ensures added == c.(installation := Some(Installation(now)))
      ensures file == Stored(Some(Appended(LoadLocal(old(file)), c, now)))
      ensures writes == old(writes) + [Appended(LoadLocal(old(file)), c, now)]
    {
      var local := LoadLocal(file);
      added := c.(installation := Some(Installation(now)));
      local := local + [added];
      Save(local);
    }

    /**
     * Remove re-reads the stored list, drops the first entry with the
     * component's key, if any, and writes the list back once in either case.
     */
    method Remove(c: ComponentRecord)
      modifies this
      ensures file == Stored(Some(WithoutFirst(LoadLocal(old(file)), c.key)))
      ensures writes == old(writes) + [WithoutFirst(LoadLocal(old(file)), c.key)]
    {
      var local := LoadLocal(file);
      var p := FirstWithKey(local, c.key);
      if p < |local| {
        local := local[..p] + local[p + 1..];
      }
      Save(local);
    }
  }
}
