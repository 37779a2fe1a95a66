// The dependency tree of the installer: components indexed by key, in the order
// the keys were first inserted, and the depth-first search that lists every
// component depending (directly or transitively) on a given one.

module DependencyTrees {
  import opened ComponentRecords
  import opened Components

  /** The value the search reads: the key order and each key's dependencies. */
  datatype Graph<K> = Graph(order: seq<K>, deps: map<K, seq<K>>)

  /** The search scans every key of the map. */
  ghost predicate WellFormed<K(!new)>(g: Graph<K>) {
    forall k :: k in g.deps ==> k in g.order
  }

  /** `d` depends on `u`: `d` is a component whose dependencies mention `u`. */
  predicate Edge<K(==,!new)>(g: Graph<K>, u: K, d: K) {
    d in g.deps && u in g.deps[d]
  }

  /** `p` walks from `a` to `b` along dependents. */
  ghost predicate Walk<K(!new)>(g: Graph<K>, p: seq<K>, a: K, b: K) {
    |p| >= 1 && p[0] == a && p[|p| - 1] == b &&
    forall i :: 0 <= i < |p| - 1 ==> Edge(g, p[i], p[i + 1])
  }

  ghost predicate Reaches<K(!new)>(g: Graph<K>, a: K, b: K) {
    exists p :: Walk(g, p, a, b)
  }

  /** `b` depends on `a` through at least one dependency step. */
  ghost predicate DependsOn<K(!new)>(g: Graph<K>, a: K, b: K) {
    exists p :: Walk(g, p, a, b) && |p| >= 2
  }

  lemma CardinalityMonotone<T>(a: set<T>, b: set<T>)
    requires a <= b
    ensures |a| <= |b|
    decreases |b|
  {
    if a != {} {
      var x :| x in a;
      CardinalityMonotone(a - {x}, b - {x});
    }
  }

  /**
   * The search from `key` with `visited` already seen: the dependents it
   * appends, in order, and the visited set afterwards. A key that is unknown
   * or already visited contributes nothing; otherwise every key, in insertion
   * order, whose dependencies mention `key` is searched and then appended.
   */
  function Traverse<K(==,!new)>(g: Graph<K>, key: K, visited: set<K>): (r: (seq<K>, set<K>))
    ensures visited <= r.1 <= visited + g.deps.Keys
    ensures forall x :: x in r.0 ==> x in g.deps
    decreases |g.deps.Keys - visited|, 0
  {
    if key !in g.deps || key in visited then ([], visited)
    else
      assert g.deps.Keys - visited == (g.deps.Keys - (visited + {key})) + {key};
      TraverseFrom(g, key, g.order, visited + {key})
  }

  /** The loop of the search of `key` over the remaining keys `ks`. */
  function TraverseFrom<K(==,!new)>(g: Graph<K>, key: K, ks: seq<K>, visited: set<K>): (r: (seq<K>, set<K>))
    ensures visited <= r.1 <= visited + g.deps.Keys
    ensures forall x :: x in r.0 ==> x in g.deps
    decreases |g.deps.Keys - visited|, 1, |ks|
  {
    if ks == [] then ([], visited)
    else if Edge(g, key, ks[0]) then
      var first := Traverse(g, ks[0], visited);
      CardinalityMonotone(g.deps.Keys - first.1, g.deps.Keys - visited);
      var rest := TraverseFrom(g, key, ks[1..], first.1);
      (first.0 + [ks[0]] + rest.0, rest.1)
    else
      TraverseFrom(g, key, ks[1..], visited)
  }

  /** One step of the scan over `ks`, as the two components of the result. */
  lemma TraverseFromStep<K(!new)>(g: Graph<K>, key: K, ks: seq<K>, visited: set<K>)
    requires ks != []
    ensures var first := Traverse(g, ks[0], visited);
      Edge(g, key, ks[0]) ==>
        && TraverseFrom(g, key, ks, visited).0
           == first.0 + [ks[0]] + TraverseFrom(g, key, ks[1..], first.1).0
        && TraverseFrom(g, key, ks, visited).1 == TraverseFrom(g, key, ks[1..], first.1).1
    ensures !Edge(g, key, ks[0]) ==>
      && TraverseFrom(g, key, ks, visited).0 == TraverseFrom(g, key, ks[1..], visited).0
      && TraverseFrom(g, key, ks, visited).1 == TraverseFrom(g, key, ks[1..], visited).1
  {
  }

  /** The keys GetReverseDependencies returns for `start`. */
  function ReverseDependencies<K(==,!new)>(g: Graph<K>, start: K): seq<K>
  {
    Traverse(g, start, {}).0
  }

  /** Every successor of `u` is visited and listed. */
  ghost predicate Expanded<K(!new)>(g: Graph<K>, u: K, out: seq<K>, visited: set<K>) {
    forall d :: Edge(g, u, d) ==> d in visited && d in out
  }

  lemma WalkPrepend<K(!new)>(g: Graph<K>, u: K, p: seq<K>, d: K, b: K)
    requires Edge(g, u, d) && Walk(g, p, d, b)
    ensures Walk(g, [u] + p, u, b)
  {
    var q := [u] + p;
    forall i | 0 <= i < |q| - 1
      ensures Edge(g, q[i], q[i + 1])
    {
      if i > 0 {
        assert q[i] == p[i - 1] && q[i + 1] == p[i];
      }
    }
  }

  /** What one search from `key` establishes about the keys it newly visits. */
  lemma {:induction false} TraverseFacts<K(!new)>(g: Graph<K>, key: K, visited: set<K>)
    requires WellFormed(g)
    ensures var r := Traverse(g, key, visited);
      (key in g.deps ==> key in r.1) &&
      (forall u :: u in r.1 && u !in visited ==> Expanded(g, u, r.0, r.1)) &&
      (forall u :: u in r.1 && u !in visited ==> Reaches(g, key, u)) &&
      (forall x :: x in r.0 ==> exists u :: u in r.1 && u !in visited && Edge(g, u, x))
    decreases |g.deps.Keys - visited|, 0
  {
    if key !in g.deps || key in visited {
    } else {
      var v1 := visited + {key};
      assert g.deps.Keys - visited == (g.deps.Keys - v1) + {key};
      TraverseFromFacts(g, key, g.order, v1);
      var r := Traverse(g, key, visited);
      assert r == TraverseFrom(g, key, g.order, v1);
      forall u | u in r.1 && u !in visited
        ensures Expanded(g, u, r.0, r.1) && Reaches(g, key, u)
      {
        if u == key {
          assert Walk(g, [key], key, key);
          forall d | Edge(g, u, d)
            ensures d in r.1 && d in r.0
          {
            assert d in g.order;
          }
        }
      }
      forall x | x in r.0
        ensures exists u :: u in r.1 && u !in visited && Edge(g, u, x)
      {
        if Edge(g, key, x) {
          assert key in r.1 && key !in visited;
        }
      }
    }
  }

  lemma {:induction false} TraverseFromFacts<K(!new)>(g: Graph<K>, key: K, ks: seq<K>, visited: set<K>)
    requires WellFormed(g)
    ensures var r := TraverseFrom(g, key, ks, visited);
      (forall d :: d in ks && Edge(g, key, d) ==> d in r.1 && d in r.0) &&
      (forall u :: u in r.1 && u !in visited ==> Expanded(g, u, r.0, r.1)) &&
      (forall u :: u in r.1 && u !in visited ==> Reaches(g, key, u)) &&
      (forall x :: x in r.0 ==> Edge(g, key, x) || exists u :: u in r.1 && u !in visited && Edge(g, u, x))
    decreases |g.deps.Keys - visited|, 1, |ks|
  {
    if ks == [] {
    } else if Edge(g, key, ks[0]) {
      var k := ks[0];
      var first := Traverse(g, k, visited);
      CardinalityMonotone(g.deps.Keys - first.1, g.deps.Keys - visited);
      TraverseFacts(g, k, visited);
      TraverseFromFacts(g, key, ks[1..], first.1);
      var rest := TraverseFrom(g, key, ks[1..], first.1);
      var r := TraverseFrom(g, key, ks, visited);
      assert r == (first.0 + [k] + rest.0, rest.1);
      forall d | d in ks && Edge(g, key, d)
        ensures d in r.1 && d in r.0
      {
        if d != k {
          assert d in ks[1..];
        }
      }
      forall u | u in r.1 && u !in visited
        ensures Expanded(g, u, r.0, r.1) && Reaches(g, key, u)
      {
        if u in first.1 {
          assert Expanded(g, u, first.0, first.1);
          assert Reaches(g, k, u);
          var p :| Walk(g, p, k, u);
          WalkPrepend(g, key, p, k, u);
        } else {
          assert Expanded(g, u, rest.0, rest.1);
        }
      }
      forall x | x in r.0
        ensures Edge(g, key, x) || exists u :: u in r.1 && u !in visited && Edge(g, u, x)
      {
        if x in first.0 {
          var u :| u in first.1 && u !in visited && Edge(g, u, x);
          assert u in r.1;
        } else if x in rest.0 && !Edge(g, key, x) {
          var u :| u in rest.1 && u !in first.1 && Edge(g, u, x);
          assert u !in visited;
        }
      }
    } else {
      assert forall d :: d in ks && d != ks[0] ==> d in ks[1..];
      TraverseFromFacts(g, key, ks[1..], visited);
    }
  }

  /** Along a walk whose start is visited, every key is visited and every later key listed. */
  lemma {:induction false} ClosedAlongWalk<K(!new)>(g: Graph<K>, p: seq<K>, out: seq<K>, visited: set<K>)
    requires |p| >= 1 && p[0] in visited
    requires forall i :: 0 <= i < |p| - 1 ==> Edge(g, p[i], p[i + 1])
    requires forall u :: u in visited ==> Expanded(g, u, out, visited)
    ensures forall i :: 0 <= i < |p| ==> p[i] in visited
    ensures forall i :: 0 < i < |p| ==> p[i] in out
  {
    if |p| > 1 {
      ClosedAlongWalk(g, p[..|p| - 1], out, visited);
      assert Edge(g, p[|p| - 2], p[|p| - 1]);
      assert Expanded(g, p[|p| - 2], out, visited);
    }
  }

  /**
   * The keys listed for a known start are exactly the keys that depend on it,
   * directly or through other components; an unknown start lists nothing.
   */
  lemma ReverseDependenciesAreDependents<K(!new)>(g: Graph<K>, start: K)
    requires WellFormed(g)
    ensures start !in g.deps ==> ReverseDependencies(g, start) == []
    ensures start in g.deps ==>
      forall x :: x in ReverseDependencies(g, start) <==> DependsOn(g, start, x)
  {
    if start in g.deps {
      var r := Traverse(g, start, {});
      TraverseFacts(g, start, {});
      forall x
        ensures x in r.0 <==> DependsOn(g, start, x)
      {
        if x in r.0 {
          var u :| u in r.1 && Edge(g, u, x);
          var p :| Walk(g, p, start, u);
          var q := p + [x];
          assert Walk(g, q, start, x) by {
            forall i | 0 <= i < |q| - 1
              ensures Edge(g, q[i], q[i + 1])
            {
              if i < |p| - 1 {
                assert q[i] == p[i] && q[i + 1] == p[i + 1];
              }
            }
          }
        }
        if DependsOn(g, start, x) {
          var p :| Walk(g, p, start, x) && |p| >= 2;
          ClosedAlongWalk(g, p, r.0, r.1);
        }
      }
    }
  }

  /**
   * Three components where 3 depends on 2 and 2 on 1: the search from 1 lists
   * 3 and then 2, from 2 it lists 3, and from 3 nothing.
   */
  lemma ChainDependents()
    ensures ReverseDependencies(Graph([1, 2, 3], map[1 := [], 2 := [1], 3 := [2]]), 1) == [3, 2]
    ensures ReverseDependencies(Graph([1, 2, 3], map[1 := [], 2 := [1], 3 := [2]]), 2) == [3]
    ensures ReverseDependencies(Graph([1, 2, 3], map[1 := [], 2 := [1], 3 := [2]]), 3) == []
  {
    var g := Graph([1, 2, 3], map[1 := [], 2 := [1], 3 := [2]]);
    assert {} + {3} == {3} && {} + {2} == {2} && {} + {1} == {1};
    assert {1} + {2} == {1, 2} && {1, 2} + {3} == {1, 2, 3} && {2} + {3} == {2, 3};
    assert TraverseFrom(g, 3, [1, 2, 3], {1, 2, 3}).0 == [];
    assert Traverse(g, 3, {1, 2}).0 == [];
    assert TraverseFrom(g, 2, [1, 2, 3], {1, 2}).0 == [3];
    assert Traverse(g, 2, {1}).0 == [3];
    assert TraverseFrom(g, 1, [1, 2, 3], {1}).0 == [3, 2];
    assert TraverseFrom(g, 3, [1, 2, 3], {2, 3}).0 == [];
    assert TraverseFrom(g, 2, [1, 2, 3], {2}).0 == [3];
    assert TraverseFrom(g, 3, [1, 2, 3], {3}).0 == [];
  }

  /** A diamond: 2 and 3 depend on 1, and 4 depends on both. */
  function Diamond(): Graph<int> {
    Graph([1, 2, 3, 4], map[1 := [], 2 := [1], 3 := [1], 4 := [2, 3]])
  }

  /** Below 2, with 1 visited, the search lists 4. */
  lemma DiamondBelowTwo()
    ensures Traverse(Diamond(), 2, {1}) == ([4], {1, 2, 4})
  {
    var g := Diamond();
    assert {1} + {2} == {1, 2} && {1, 2} + {4} == {1, 2, 4};
    assert [1, 2, 3, 4][1..] == [2, 3, 4] && [2, 3, 4][1..] == [3, 4] && [3, 4][1..] == [4];
    assert TraverseFrom(g, 4, [1, 2, 3, 4], {1, 2, 4}) == ([], {1, 2, 4});
    assert Traverse(g, 4, {1, 2}) == ([], {1, 2, 4});
    assert [4][1..] == [] && [] + [4] + [] == [4];
    assert TraverseFrom(g, 2, [4], {1, 2}) == ([4], {1, 2, 4});
    assert TraverseFrom(g, 2, [3, 4], {1, 2}) == ([4], {1, 2, 4});
    assert TraverseFrom(g, 2, [2, 3, 4], {1, 2}) == ([4], {1, 2, 4});
    assert TraverseFrom(g, 2, [1, 2, 3, 4], {1, 2}) == ([4], {1, 2, 4});
  }

  /** Below 3, with 1, 2 and 4 visited, the search lists 4 again. */
  lemma DiamondBelowThree()
    ensures Traverse(Diamond(), 3, {1, 2, 4}) == ([4], {1, 2, 3, 4})
  {
    var g := Diamond();
    assert {1, 2, 4} + {3} == {1, 2, 3, 4};
    assert [1, 2, 3, 4][1..] == [2, 3, 4] && [2, 3, 4][1..] == [3, 4] && [3, 4][1..] == [4];
    assert Traverse(g, 4, {1, 2, 3, 4}) == ([], {1, 2, 3, 4});
    assert [4][1..] == [] && [] + [4] + [] == [4];
    assert TraverseFrom(g, 3, [4], {1, 2, 3, 4}) == ([4], {1, 2, 3, 4});
    assert TraverseFrom(g, 3, [3, 4], {1, 2, 3, 4}) == ([4], {1, 2, 3, 4});
    assert TraverseFrom(g, 3, [2, 3, 4], {1, 2, 3, 4}) == ([4], {1, 2, 3, 4});
    assert TraverseFrom(g, 3, [1, 2, 3, 4], {1, 2, 3, 4}) == ([4], {1, 2, 3, 4});
  }

  /**
   * The search from 1 in the diamond lists 4 twice, once below 2 and once below
   * 3, although 4 was already visited the second time.
   */
  lemma DiamondListsSharedDependentTwice()
    ensures ReverseDependencies(Diamond(), 1) == [4, 2, 4, 3]
  {
    var g := Diamond();
    DiamondBelowTwo();
    DiamondBelowThree();
    assert {} + {1} == {1};
    assert [1, 2, 3, 4][1..] == [2, 3, 4] && [2, 3, 4][1..] == [3, 4] && [3, 4][1..] == [4];
    assert TraverseFrom(g, 1, [4], {1, 2, 3, 4}).0 == [];
    assert TraverseFrom(g, 1, [3, 4], {1, 2, 4}).0 == [4, 3];
    assert TraverseFrom(g, 1, [2, 3, 4], {1}).0 == [4, 2, 4, 3];
  }

  /** The dictionary after inserting `cs` in turn: a later component replaces an earlier one with its key. */
  function Index(cs: seq<Component>): map<string, Component>
  {
    if cs == [] then map[] else Index(cs[..|cs| - 1])[cs[|cs| - 1].key := cs[|cs| - 1]]
  }

  /** The dictionary's key order after inserting `cs`: each key where it was first inserted. */
  function KeyOrder(cs: seq<Component>): seq<string>
  {
    if cs == [] then []
    else if cs[|cs| - 1].key in KeyOrder(cs[..|cs| - 1]) then KeyOrder(cs[..|cs| - 1])
    else KeyOrder(cs[..|cs| - 1]) + [cs[|cs| - 1].key]
  }

  /** The components bound to `keys` in `m`, in the same order. */
  function Lookup(m: map<string, Component>, keys: seq<string>): (r: seq<Component>)
    requires forall k :: k in keys ==> k in m
    ensures |r| == |keys|
  {
    if keys == [] then []
    else Lookup(m, keys[..|keys| - 1]) + [m[keys[|keys| - 1]]]
  }

  lemma {:induction false} LookupAt(m: map<string, Component>, keys: seq<string>)
    requires forall k :: k in keys ==> k in m
    ensures forall i :: 0 <= i < |keys| ==> Lookup(m, keys)[i] == m[keys[i]]
  {
    if keys != [] {
      LookupAt(m, keys[..|keys| - 1]);
    }
  }

  lemma {:induction false} LookupAppend(m: map<string, Component>, a: seq<string>, b: seq<string>)
    requires forall k :: k in a ==> k in m
    requires forall k :: k in b ==> k in m
    ensures Lookup(m, a + b) == Lookup(m, a) + Lookup(m, b)
  {
    if b != [] {
      assert (a + b)[..|a + b| - 1] == a + b[..|b| - 1];
      LookupAppend(m, a, b[..|b| - 1]);
    } else {
      assert a + b == a;
    }
  }

  /** Appending the listing of `b` and then `k` to a listing of `a` lists `a + b + [k]`. */
  lemma LookupExtend(m: map<string, Component>, out: seq<Component>, a: seq<string>, b: seq<string>, k: string,
                     x: seq<Component>, y: seq<Component>, z: seq<Component>)
    requires forall k :: k in a ==> k in m
    requires forall k :: k in b ==> k in m
    requires k in m
    requires x == out + Lookup(m, a) && y == x + Lookup(m, b) && z == y + [m[k]]
    ensures z == out + Lookup(m, a + b + [k])
  {
    LookupAppend(m, a, b);
    LookupAppend(m, a + b, [k]);
    assert Lookup(m, [k]) == [m[k]];
  }

  lemma ListedThenRest<K>(listed: seq<K>, found: seq<K>, k: K, rest: seq<K>)
    ensures listed + (found + [k] + rest) == (listed + found + [k]) + rest
  {
  }

  /** `cs[i]` is the last component of `cs` with key `k`. */
  ghost predicate LastWithKey(cs: seq<Component>, i: int, k: string) {
    0 <= i < |cs| && cs[i].key == k && forall j :: i < j < |cs| ==> cs[j].key != k
  }

  /** The tree built from `cs` holds each key of `cs`, bound to the last component with that key. */
  lemma {:induction false} IndexKeepsLast(cs: seq<Component>)
    ensures forall k :: k in Index(cs) <==> exists i :: 0 <= i < |cs| && cs[i].key == k
    ensures forall k :: k in Index(cs) ==> exists i :: LastWithKey(cs, i, k) && cs[i] == Index(cs)[k]
  {
    if cs != [] {
      var init, c := cs[..|cs| - 1], cs[|cs| - 1];
      IndexKeepsLast(init);
      forall k | k in Index(cs)
        ensures exists i :: LastWithKey(cs, i, k) && cs[i] == Index(cs)[k]
      {
        if k == c.key {
          assert LastWithKey(cs, |cs| - 1, k);
        } else {
          assert k in Index(init);
          var i :| LastWithKey(init, i, k) && init[i] == Index(init)[k];
          assert LastWithKey(cs, i, k);
        }
      }
      forall k
        ensures k in Index(cs) <==> exists i :: 0 <= i < |cs| && cs[i].key == k
      {
        if exists i :: 0 <= i < |cs| && cs[i].key == k {
          var i :| 0 <= i < |cs| && cs[i].key == k;
          if i < |init| {
            assert init[i].key == k;
          }
        }
        if k in Index(init) {
          var i :| 0 <= i < |init| && init[i].key == k;
          assert cs[i].key == k;
        }
      }
    }
  }

  /** The key order lists each key of the tree exactly once. */
  lemma {:induction false} KeyOrderListsKeys(cs: seq<Component>)
    ensures forall k :: k in KeyOrder(cs) <==> k in Index(cs)
    ensures forall i, j :: 0 <= i < j < |KeyOrder(cs)| ==> KeyOrder(cs)[i] != KeyOrder(cs)[j]
  {
    if cs != [] {
      KeyOrderListsKeys(cs[..|cs| - 1]);
    }
  }

  /**
   * The graph of the tree built from the entries `rs`: each key where it first
   * appears, with the dependencies of the last entry with that key.
   */
  function DependencyGraph(rs: seq<ComponentRecord>): Graph<string>
  {
    if rs == [] then Graph([], map[])
    else
      var g := DependencyGraph(rs[..|rs| - 1]);
      var r := rs[|rs| - 1];
      Graph(if r.key in g.order then g.order else g.order + [r.key], g.deps[r.key := r.dependencies])
  }

  /** The graph lists every key of the entries, once each, and the search can scan it. */
  lemma {:induction false} DependencyGraphWellFormed(rs: seq<ComponentRecord>)
    ensures WellFormed(DependencyGraph(rs))
    ensures forall k :: k in DependencyGraph(rs).order <==> k in DependencyGraph(rs).deps
    ensures forall k :: k in DependencyGraph(rs).deps <==> k in Keys(rs)
  {
    if rs != [] {
      var init := rs[..|rs| - 1];
      DependencyGraphWellFormed(init);
      assert rs == init + [rs[|rs| - 1]];
    }
  }

  /** Installations play no part in the graph. */
  lemma {:induction false} DependencyGraphIgnoresInstallation(rs: seq<ComponentRecord>)
    ensures DependencyGraph(Stripped(rs)) == DependencyGraph(rs)
  {
    if rs != [] {
      var init := rs[..|rs| - 1];
      DependencyGraphIgnoresInstallation(init);
      assert Stripped(rs)[..|rs| - 1] == Stripped(init);
    }
  }

  /** The tree built from `cs` has the graph of their entries. */
  lemma {:induction false} TreeGraph(cs: seq<Component>)
    ensures DependencyGraph(Releases(cs)) == Graph(KeyOrder(cs), map k | k in Index(cs) :: Index(cs)[k].dependencies)
  {
    if cs != [] {
      var init, c := cs[..|cs| - 1], cs[|cs| - 1];
      TreeGraph(init);
      KeyOrderListsKeys(init);
      assert Releases(cs)[..|cs| - 1] == Releases(init);
      var before := map k | k in Index(init) :: Index(init)[k].dependencies;
      var after := map k | k in Index(cs) :: Index(cs)[k].dependencies;
      assert after == before[c.key := c.dependencies];
    }
  }

  /** The components the tree built from `cs` binds to `keys` come from `cs` and carry those keys. */
  lemma LookupOfIndex(cs: seq<Component>, keys: seq<string>)
    requires forall k :: k in keys ==> k in Index(cs)
    ensures forall c :: c in Lookup(Index(cs), keys) ==> c in cs
    ensures forall i :: 0 <= i < |keys| ==> Lookup(Index(cs), keys)[i].key == keys[i]
  {
    IndexKeepsLast(cs);
    LookupAt(Index(cs), keys);
    forall c | c in Lookup(Index(cs), keys) ensures c in cs {
      var i :| 0 <= i < |keys| && Lookup(Index(cs), keys)[i] == c;
      var j :| LastWithKey(cs, j, keys[i]) && cs[j] == Index(cs)[keys[i]];
    }
  }

  /**
   * Listing the components bound to the keys the search finds lists a component
   * exactly when its key depends on the start.
   */
  lemma LookupListsDependents(m: map<string, Component>, g: Graph<string>, start: string)
    requires WellFormed(g) && start in g.deps
    requires forall k :: k in m ==> m[k].key == k
    requires forall k :: k in ReverseDependencies(g, start) ==> k in m
    ensures forall k :: k in m ==> (m[k] in Lookup(m, ReverseDependencies(g, start)) <==> DependsOn(g, start, k))
  {
    var keys := ReverseDependencies(g, start);
    var result := Lookup(m, keys);
    ReverseDependenciesAreDependents(g, start);
    LookupAt(m, keys);
    forall k | k in m
      ensures m[k] in result <==> DependsOn(g, start, k)
    {
      if m[k] in result {
        var i :| 0 <= i < |result| && result[i] == m[k];
        assert m[keys[i]].key == keys[i];
      }
      if DependsOn(g, start, k) {
        var i :| 0 <= i < |keys| && keys[i] == k;
        assert result[i] == m[k];
      }
    }
  }

  /**
   * The loop of the search of `key` over the key order, after the keys before
   * `i`: `listed` are the keys appended so far, and the rest of the search goes
   * on from `visited`.
   */
  ghost predicate ScanState(g: Graph<string>, key: string, i: nat, start: set<string>, visited: set<string>,
                            listed: seq<string>)
  {
    && i <= |g.order|
    && start <= visited <= start + g.deps.Keys
    && (forall k :: k in listed ==> k in g.deps)
    && TraverseFrom(g, key, g.order, start).0 == listed + TraverseFrom(g, key, g.order[i..], visited).0
    && TraverseFrom(g, key, g.order, start).1 == TraverseFrom(g, key, g.order[i..], visited).1
  }

  /** The keys listed once the key at `i` is scanned. */
  ghost function ScanListed(g: Graph<string>, key: string, i: nat, visited: set<string>, listed: seq<string>): seq<string>
    requires i < |g.order|
  {
    var k := g.order[i];
    if Edge(g, key, k) then listed + Traverse(g, k, visited).0 + [k] else listed
  }

  /** The keys visited once the key at `i` is scanned. */
  ghost function ScanVisited(g: Graph<string>, key: string, i: nat, visited: set<string>): set<string>
    requires i < |g.order|
  {
    var k := g.order[i];
    if Edge(g, key, k) then Traverse(g, k, visited).1 else visited
  }

  lemma ScanStep(g: Graph<string>, key: string, i: nat, start: set<string>, visited: set<string>, listed: seq<string>)
    requires i < |g.order| && ScanState(g, key, i, start, visited, listed)
    ensures ScanState(g, key, i + 1, start, ScanVisited(g, key, i, visited), ScanListed(g, key, i, visited, listed))
  {
    var k := g.order[i];
    assert g.order[i..][1..] == g.order[i + 1..];
    TraverseFromStep(g, key, g.order[i..], visited);
    if Edge(g, key, k) {
      var first := Traverse(g, k, visited);
      ListedThenRest(listed, first.0, k, TraverseFrom(g, key, g.order[i + 1..], first.1).0);
    }
  }

  lemma ScanBegins(g: Graph<string>, key: string, start: set<string>)
    ensures ScanState(g, key, 0, start, start, [])
  {
    assert g.order[0..] == g.order;
  }

  lemma ScanDone(g: Graph<string>, key: string, start: set<string>, visited: set<string>, listed: seq<string>)
    requires ScanState(g, key, |g.order|, start, visited, listed)
    ensures TraverseFrom(g, key, g.order, start) == (listed, visited)
  {
    assert g.order[|g.order|..] == [];
    assert TraverseFrom(g, key, [], visited) == ([], visited);
    assert listed + [] == listed;
  }

  /**
   * The installer's dependency tree: components by key. Keys keep the position
   * of their first insertion, which is the order in which the dictionary
   * enumerates them, since nothing is ever removed from it.
   */
  class DependencyTree {
    var order: seq<string>
    var components: map<string, Component>

    ghost predicate Valid()
      reads this
    {
      (forall i, j :: 0 <= i < j < |order| ==> order[i] != order[j]) &&
      (forall k :: k in order <==> k in components) &&
      (forall k :: k in components ==> components[k].key == k)
    }

    /** What the search reads: the key order and each component's dependencies. */
    function View(): (g: Graph<string>)
      reads this
      ensures g.deps.Keys == components.Keys
    {
      Graph(order, map k | k in components :: components[k].dependencies)
    }

    constructor Empty()
      ensures Valid()
      ensures order == [] && components == map[]
    {
      order, components := [], map[];
    }

    constructor (cs: seq<Component>)
      ensures Valid()
      ensures order == KeyOrder(cs) && components == Index(cs)
    {
      order, components := [], map[];
      new;
      var i := 0;
      while i < |cs|
        invariant 0 <= i <= |cs|
        invariant order == KeyOrder(cs[..i]) && components == Index(cs[..i])
      {
        assert cs[..i + 1][..i] == cs[..i];
        KeyOrderListsKeys(cs[..i]);
        if cs[i].key !in components {
          order := order + [cs[i].key];
        }
        components := components[cs[i].key := cs[i]];
        i := i + 1;
      }
      assert cs[..|cs|] == cs;
      KeyOrderListsKeys(cs);
      IndexKeepsLast(cs);
    }

    /** Add binds the component's key to it, replacing any earlier component with that key. */
    method Add(c: Component)
      requires Valid()
      modifies this
      ensures Valid()
      ensures components == old(components)[c.key := c]
      ensures order == if c.key in old(components) then old(order) else old(order) + [c.key]
    {
      if c.key !in components {
        order := order + [c.key];
      }
      components := components[c.key := c];
    }

    /**
     * The components that depend on `startKey`, directly or through others: a
     * component reached along several dependency paths is listed once per
     * path's last step, each after its own dependents.
     */
    method GetReverseDependencies(startKey: string) returns (result: seq<Component>)
      requires Valid()
      ensures result == Lookup(components, ReverseDependencies(View(), startKey))
      ensures startKey !in components ==> result == []
      ensures startKey in components ==>
        forall k :: k in components ==> (components[k] in result <==> DependsOn(View(), startKey, k))
    {
      var visited;
      result, visited := TraverseReverseDependencies(startKey, [], {});
      ReverseDependenciesAreDependents(View(), startKey);
      if startKey in components {
        LookupListsDependents(components, View(), startKey);
      }
    }

    /** The depth-first search from `key`, appending to `out` and growing `visited`. */
    method TraverseReverseDependencies(key: string, out: seq<Component>, visited: set<string>)
      returns (out': seq<Component>, visited': set<string>)
      requires Valid()
      ensures out' == out + Lookup(components, Traverse(View(), key, visited).0)
      ensures visited' == Traverse(View(), key, visited).1
      decreases |components.Keys - visited|, 0
    {
      if key !in components || key in visited {
        return out, visited;
      }
      assert components.Keys - visited == (components.Keys - (visited + {key})) + {key};
      out', visited' := VisitDependents(key, out, visited + {key});
    }

    /** One step of that loop: the search below dependent `k`, then `k` itself. */
    method VisitDependent(k: string, out: seq<Component>, visited: set<string>)
      returns (out': seq<Component>, visited': set<string>)
      requires Valid() && k in components
      ensures out' == out + Lookup(components, Traverse(View(), k, visited).0) + [components[k]]
      ensures visited' == Traverse(View(), k, visited).1
      decreases |components.Keys - visited|, 1
    {
      out', visited' := TraverseReverseDependencies(k, out, visited);
      out' := out' + [components[k]];
    }

    /**
     * The loop of the search of `key`: every component whose dependencies
     * mention `key`, in key order, is searched and then appended.
     */
    method VisitDependents(key: string, out: seq<Component>, start: set<string>)
      returns (out': seq<Component>, visited': set<string>)
      requires Valid()
      ensures out' == out + Lookup(components, TraverseFrom(View(), key, order, start).0)
      ensures visited' == TraverseFrom(View(), key, order, start).1
      decreases |components.Keys - start|, 3
    {
      ghost var g := View();
      visited' := start;
      out' := out;
      ghost var listed: seq<string> := [];
      var i := 0;
      ScanBegins(g, key, start);
      while i < |order|
        invariant 0 <= i <= |order|
        invariant Scanning(g, key, i, out, start, out', visited', listed)
      {
        out', visited', listed := VisitKey(g, key, i, out, start, out', visited', listed);
        i := i + 1;
      }
      ScanDone(g, key, start, visited', listed);
    }

    /**
     * The loop's state before the key at `i`: the tree is as it was, `listed`
     * is what the scan has found so far and `current` is `out` with those
     * components appended.
     */
    ghost predicate Scanning(g: Graph<string>, key: string, i: nat, out: seq<Component>, start: set<string>,
                             current: seq<Component>, visited: set<string>, listed: seq<string>)
      reads this
    {
      Valid() && g == View() && ScanState(g, key, i, start, visited, listed) && current == out + Lookup(components, listed)
    }

    /** One pass of that loop: the key at `i` is searched and appended when it depends on `key`. */
    method VisitKey(ghost g: Graph<string>, key: string, i: nat, out: seq<Component>, start: set<string>,
                    current: seq<Component>, visited: set<string>, ghost listed: seq<string>)
      returns (current': seq<Component>, visited': set<string>, ghost listed': seq<string>)
      requires i < |order| && Scanning(g, key, i, out, start, current, visited, listed)
      ensures Scanning(g, key, i + 1, out, start, current', visited', listed')
      decreases |components.Keys - start|, 2
    {
      var k := order[i];
      ScanStep(g, key, i, start, visited, listed);
      listed' := ScanListed(g, key, i, visited, listed);
      assert g.deps[k] == components[k].dependencies;
      if key in components[k].dependencies {
        CardinalityMonotone(components.Keys - visited, components.Keys - start);
        current', visited' := VisitDependent(k, current, visited);
        LookupExtend(components, out, listed, Traverse(g, k, visited).0, k, current, current'[..|current'| - 1], current');
      } else {
        current', visited' := current, visited;
      }
    }
  }
}
