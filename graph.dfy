/**
 * An undirected graph over a set of nodes. The neighbourhood ordered map holds,
 * for every node, the elements of its neighbour set in insertion order; the
 * ghost map `adj` is the neighbour relation they stand for.
 */
module Graphs {
  import opened Seqs
  import opened OrderedMaps
  import opened Sets
  import opened Lists

  /** The neighbour relation is symmetric. */
  ghost predicate Symmetric<V(!new)>(adj: map<V, set<V>>)
  {
    forall u, v :: Mutual(adj, u, v)
  }

  /** `v` is a neighbour of `u` exactly when `u` is one of `v`. */
  ghost predicate Mutual<V>(adj: map<V, set<V>>, u: V, v: V)
  {
    u in adj && v in adj ==> (v in adj[u] <==> u in adj[v])
  }

  /**
   * The stored neighbour lists `m` stand for `adj`: the same nodes, each list
   * duplicate-free with exactly the node's neighbours, all of them nodes.
   */
  ghost predicate Represents<V(!new)>(m: map<V, seq<V>>, adj: map<V, set<V>>)
  {
    && m.Keys == adj.Keys
    && forall v :: ListOk(m, adj, v)
  }

  /** The stored list of `v`, if `v` is a node, stands for its neighbours. */
  ghost predicate ListOk<V>(m: map<V, seq<V>>, adj: map<V, set<V>>, v: V)
  {
    v in m ==> v in adj && Distinct(m[v]) && Elems(m[v]) == adj[v] && adj[v] <= adj.Keys
  }

  /** A neighbour list after `Set.Add(x)`: `x` goes at the end unless already present. */
  function Added<V(==)>(s: seq<V>, x: V): (r: seq<V>)
    ensures Distinct(s) ==> Distinct(r)
    ensures Elems(r) == Elems(s) + {x}
    ensures x in s ==> r == s
  {
    if x in s then s
    else if Distinct(s) then
      DistinctSnoc(s, x);
      ElemsSnoc(s, x);
      s + [x]
    else
      ElemsSnoc(s, x);
      s + [x]
  }

  /** The relation with no edge on the nodes of `m`. */
  ghost function EmptyAdj<V>(m: map<V, seq<V>>): map<V, set<V>>
  {
    map v | v in m :: {}
  }

  /** Empty neighbour lists stand for the relation with no edge, which is symmetric. */
  lemma EmptyRepresents<V(!new)>(m: map<V, seq<V>>, order: seq<V>)
    requires m.Keys == Elems(order)
    requires forall v :: v in m ==> m[v] == []
    ensures Represents(m, EmptyAdj(m)) && Symmetric(EmptyAdj(m))
    ensures EmptyAdj(m).Keys == Elems(order)
    ensures forall v :: v in EmptyAdj(m) ==> EmptyAdj(m)[v] == {}
  {
  }

  /** Connecting two nodes each way keeps the lists faithful and the relation symmetric. */
  lemma ConnectRepresents<V(!new)>(m: map<V, seq<V>>, adj: map<V, set<V>>, v1: V, v2: V)
    requires Represents(m, adj) && Symmetric(adj) && v1 in m && v2 in m
    ensures var m1 := m[v1 := Added(m[v1], v2)];
      Represents(m1[v2 := Added(m1[v2], v1)], adj[v1 := adj[v1] + {v2}][v2 := adj[v2] + {v1}])
    ensures Symmetric(adj[v1 := adj[v1] + {v2}][v2 := adj[v2] + {v1}])
  {
    var m1 := m[v1 := Added(m[v1], v2)];
    var m2 := m1[v2 := Added(m1[v2], v1)];
    var a2 := adj[v1 := adj[v1] + {v2}][v2 := adj[v2] + {v1}];
    forall v
      ensures ListOk(m2, a2, v)
    {
      assert ListOk(m, adj, v) && ListOk(m, adj, v1) && ListOk(m, adj, v2);
    }
    forall u, v
      ensures Mutual(a2, u, v)
    {
      assert Mutual(adj, u, v);
    }
  }

  /**
   * `p` is a walk along edges of `adj` that never enters `avoid`.
   */
  ghost predicate Walk<V>(adj: map<V, set<V>>, p: seq<V>, avoid: set<V>)
  {
    && (forall i :: 0 <= i < |p| ==> p[i] in adj && p[i] !in avoid)
    && (forall i :: 0 <= i < |p| - 1 ==> p[i + 1] in adj[p[i]])
  }

  /** Some walk from `from` to `to` stays out of `avoid`. */
  ghost predicate Reaches<V(!new)>(adj: map<V, set<V>>, avoid: set<V>, from: V, to: V)
  {
    exists p :: |p| > 0 && p[0] == from && p[|p| - 1] == to && Walk(adj, p, avoid)
  }

  lemma ReachesSelf<V(!new)>(adj: map<V, set<V>>, avoid: set<V>, x: V)
    requires x in adj && x !in avoid
    ensures Reaches(adj, avoid, x, x)
  {
    assert Walk(adj, [x], avoid);
  }

  /** A walk from a neighbour of `x` avoiding `avoid'` extends to a walk from `x` avoiding `avoid <= avoid'`. */
  lemma ReachesPrepend<V(!new)>(adj: map<V, set<V>>, avoid: set<V>, avoid': set<V>, x: V, u: V, w: V)
    requires x in adj && x !in avoid && u in adj[x] && avoid <= avoid'
    requires Reaches(adj, avoid', u, w)
    ensures Reaches(adj, avoid, x, w)
  {
    var p :| |p| > 0 && p[0] == u && p[|p| - 1] == w && Walk(adj, p, avoid');
    var q := [x] + p;
    assert forall i :: 0 < i < |q| ==> q[i] == p[i - 1];
    assert Walk(adj, q, avoid);
  }

  /** If `w` is in `s` but not in `done`, it is a node whose neighbours are all in `s`. */
  ghost predicate Explored<V>(adj: map<V, set<V>>, s: set<V>, done: set<V>, w: V)
  {
    w in s && w !in done ==> w in adj && adj[w] <= s
  }

  /** If `w` is in `s` but not in `start`, a walk from `node` outside `start` reaches it. */
  ghost predicate Reached<V(!new)>(adj: map<V, set<V>>, start: set<V>, node: V, s: set<V>, w: V)
  {
    w in s && w !in start ==> Reaches(adj, start, node, w)
  }

  /** A walk that starts in `inside` and leaves `outside` only through nodes closed in `inside` stays in `inside`. */
  lemma {:induction false} WalkStays<V>(adj: map<V, set<V>>, outside: set<V>, inside: set<V>, p: seq<V>, k: nat)
    requires Walk(adj, p, outside) && |p| > 0 && p[0] in inside && k < |p|
    requires forall w :: w in inside - outside ==> w in adj && adj[w] <= inside
    ensures p[k] in inside
  {
    if k > 0 {
      WalkStays(adj, outside, inside, p, k - 1);
    }
  }

  /**
   * What `dfs` leaves behind: started from `comp` and `node`, every node it
   * added is reachable from `node` outside `comp` and has all its neighbours
   * in the result. Then the result is exactly `comp` plus those nodes.
   */
  lemma SearchResult<V(!new)>(adj: map<V, set<V>>, comp: set<V>, comp': set<V>, node: V)
    requires comp <= comp' && node in comp'
    requires forall w :: Explored(adj, comp', comp, w)
    requires forall w :: Reached(adj, comp, node, comp', w)
    ensures forall w :: w in comp' <==> w in comp || Reaches(adj, comp, node, w)
  {
    forall w | w in comp' - comp
      ensures w in adj && adj[w] <= comp'
    {
      assert Explored(adj, comp', comp, w);
    }
    forall w
      ensures w in comp' <==> w in comp || Reaches(adj, comp, node, w)
    {
      assert Reached(adj, comp, node, comp', w);
      if Reaches(adj, comp, node, w) {
        var p :| |p| > 0 && p[0] == node && p[|p| - 1] == w && Walk(adj, p, comp);
        WalkStays(adj, comp, comp', p, |p| - 1);
      }
    }
  }

  /**
   * One neighbour `u` of `node` searched: what the inner search added from
   * `before` to `after` keeps the closure and reachability facts of the outer one.
   */
  lemma SearchStep<V(!new)>(adj: map<V, set<V>>, start: set<V>, node: V, before: set<V>, after: set<V>, u: V)
    requires node in adj && node !in start && u in adj[node] && start + {node} <= before <= after
    requires forall w :: Explored(adj, before, start + {node}, w)
    requires forall w :: Reached(adj, start, node, before, w)
    requires forall w :: Explored(adj, after, before, w)
    requires forall w :: Reached(adj, before, u, after, w)
    ensures forall w :: Explored(adj, after, start + {node}, w)
    ensures forall w :: Reached(adj, start, node, after, w)
  {
    forall w
      ensures Explored(adj, after, start + {node}, w) && Reached(adj, start, node, after, w)
    {
      assert Explored(adj, before, start + {node}, w) && Reached(adj, start, node, before, w);
      assert Explored(adj, after, before, w) && Reached(adj, before, u, after, w);
      if w in after - before {
        ReachesPrepend(adj, start, before, node, u, w);
      }
    }
  }

  /** The first `i + 1` neighbours are in `after` once the first `i` were in `before <= after` and the next one is too. */
  lemma CoveredStep<V>(neighbors: seq<V>, i: nat, before: set<V>, after: set<V>)
    requires i < |neighbors| && before <= after && neighbors[i] in after
    requires forall j :: 0 <= j < i ==> neighbors[j] in before
    ensures forall j :: 0 <= j < i + 1 ==> neighbors[j] in after
  {
  }

  /** Once every neighbour of `node` is in `s`, `node` itself is explored too. */
  lemma SearchFinish<V>(adj: map<V, set<V>>, start: set<V>, node: V, s: set<V>, neighbors: seq<V>)
    requires node in adj && Elems(neighbors) == adj[node]
    requires forall j :: 0 <= j < |neighbors| ==> neighbors[j] in s
    requires forall w :: Explored(adj, s, start + {node}, w)
    ensures forall w :: Explored(adj, s, start, w)
  {
    forall w
      ensures Explored(adj, s, start, w)
    {
      assert Explored(adj, s, start + {node}, w);
    }
  }

  /** Every node of `s` is a node whose neighbours are all in `s`. */
  ghost predicate Closed<V>(adj: map<V, set<V>>, s: set<V>)
  {
    forall w :: w in s ==> w in adj && adj[w] <= s
  }

  /** A closed set that leaves no node of `adj` out is all of the nodes. */
  lemma ClosedCovers<V>(adj: map<V, set<V>>, s: set<V>)
    requires Closed(adj, s) && adj.Keys - s == {}
    ensures s == adj.Keys
  {
    forall x | x in adj.Keys
      ensures x in s
    {
      assert x !in adj.Keys - s;
    }
  }

  /** `c` is a connected component: closed under neighbours, and every member is reachable from some member. */
  ghost predicate IsComponent<V(!new)>(adj: map<V, set<V>>, c: set<V>)
  {
    Closed(adj, c) && exists r :: r in c && forall w :: w in c ==> Reaches(adj, {}, r, w)
  }

  /** Every part is a connected component, stated part by part from the last. */
  ghost predicate AllComponents<V(!new)>(adj: map<V, set<V>>, parts: seq<set<V>>)
    decreases |parts|
  {
    parts != [] ==> AllComponents(adj, parts[..|parts| - 1]) && IsComponent(adj, parts[|parts| - 1])
  }

  lemma {:induction false} AllComponentsAt<V(!new)>(adj: map<V, set<V>>, parts: seq<set<V>>, k: int)
    requires AllComponents(adj, parts) && 0 <= k < |parts|
    ensures IsComponent(adj, parts[k])
    decreases |parts|
  {
    if k < |parts| - 1 {
      AllComponentsAt(adj, parts[..|parts| - 1], k);
    }
  }

  lemma Grow<V(!new)>(adj: map<V, set<V>>, parts: seq<set<V>>, covered: set<V>, c: set<V>)
    requires Partition(parts, covered) && AllComponents(adj, parts)
    requires c != {} && c * covered == {} && IsComponent(adj, c)
    ensures Partition(parts + [c], covered + c) && AllComponents(adj, parts + [c])
  {
    PartitionSnoc(parts, covered, c);
    assert (parts + [c])[..|parts|] == parts;
  }

  /**
   * Recording a new component `c` outside the covered nodes keeps the parts a
   * partition into components of what is covered, and the uncovered nodes
   * lose exactly `c`.
   */
  lemma Advance<V(!new)>(adj: map<V, set<V>>, parts: seq<set<V>>, covered: set<V>, c: set<V>, rest: set<V>)
    requires Partition(parts, covered) && AllComponents(adj, parts)
    requires c != {} && c * covered == {} && IsComponent(adj, c) && Closed(adj, covered + c)
    requires rest == adj.Keys - covered
    ensures Partition(parts + [c], covered + c) && AllComponents(adj, parts + [c]) && Closed(adj, covered + c)
    ensures rest - c == adj.Keys - (covered + c)
  {
    Grow(adj, parts, covered, c);
  }

  /** The nodes of all the parts. */
  ghost function Union<V>(parts: seq<set<V>>): set<V>
  {
    if parts == [] then {} else Union(parts[..|parts| - 1]) + parts[|parts| - 1]
  }

  lemma {:induction false} UnionContains<V>(parts: seq<set<V>>, k: nat)
    requires k < |parts|
    ensures parts[k] <= Union(parts)
  {
    if k < |parts| - 1 {
      UnionContains(parts[..|parts| - 1], k);
    }
  }

  /** A node of the union lies in one of the parts. */
  lemma {:induction false} UnionCovers<V>(parts: seq<set<V>>, x: V)
    requires x in Union(parts)
    ensures exists k :: 0 <= k < |parts| && x in parts[k]
  {
    if x !in parts[|parts| - 1] {
      UnionCovers(parts[..|parts| - 1], x);
      var k :| 0 <= k < |parts| - 1 && x in parts[..|parts| - 1][k];
      assert x in parts[k];
    }
  }

  /** The parts are non-empty, pairwise disjoint and together make up `s`. */
  ghost predicate Partition<V>(parts: seq<set<V>>, s: set<V>)
  {
    && (forall k :: 0 <= k < |parts| ==> parts[k] != {})
    && (forall k, l :: 0 <= k < l < |parts| ==> parts[k] * parts[l] == {})
    && Union(parts) == s
  }

  /** A further non-empty part disjoint from the ones so far extends the partition. */
  lemma PartitionSnoc<V>(parts: seq<set<V>>, s: set<V>, c: set<V>)
    requires Partition(parts, s) && c != {} && c * s == {}
    ensures Partition(parts + [c], s + c)
  {
    var parts' := parts + [c];
    assert parts'[..|parts|] == parts;
    forall k | 0 <= k < |parts|
      ensures parts[k] * c == {}
    {
      UnionContains(parts, k);
    }
  }

  /**
   * A search from a node outside the closed set `covered` finds a connected
   * component that shares nothing with `covered`: a walk cannot enter a
   * closed set from outside, because the relation is symmetric.
   */
  lemma NewComponent<V(!new)>(adj: map<V, set<V>>, covered: set<V>, c: set<V>, node: V)
    requires Symmetric(adj) && Closed(adj, adj.Keys) && Closed(adj, covered)
    requires node in adj && node !in covered && node in c
    requires forall w :: Explored(adj, c, {}, w)
    requires forall w :: Reached(adj, {}, node, c, w)
    ensures c * covered == {}
    ensures IsComponent(adj, c) && Closed(adj, covered + c)
  {
    forall w | w in c
      ensures w in adj && adj[w] <= c && Reaches(adj, {}, node, w)
    {
      assert Explored(adj, c, {}, w) && Reached(adj, {}, node, c, w);
    }
    var inside := adj.Keys - covered;
    forall w | w in inside - {}
      ensures w in adj && adj[w] <= inside
    {
      forall u | u in adj[w]
        ensures u in inside
      {
        assert Mutual(adj, w, u);
      }
    }
    forall w | w in c
      ensures w !in covered
    {
      var p :| |p| > 0 && p[0] == node && p[|p| - 1] == w && Walk(adj, p, {});
      WalkStays(adj, {}, inside, p, |p| - 1);
    }
  }

  /** Every neighbour of a node is a node. */
  lemma KeysClosed<V(!new)>(m: map<V, seq<V>>, adj: map<V, set<V>>)
    requires Represents(m, adj)
    ensures Closed(adj, adj.Keys)
  {
    forall w | w in adj
      ensures adj[w] <= adj.Keys
    {
      assert ListOk(m, adj, w);
    }
  }

  /** The set handle `s` is valid and holds `part`. */
  ghost predicate Holds<V(!new)>(s: Set<V>, part: set<V>)
    reads s.members
  {
    s.Valid() && s.ElemSet() == part
  }

  /** Each of the found sets holds its part. */
  ghost predicate AllHold<V(!new)>(found: seq<Set<V>>, parts: seq<set<V>>)
    reads set k | 0 <= k < |found| :: found[k].members
  {
    |found| == |parts| && forall k :: 0 <= k < |found| ==> Holds(found[k], parts[k])
  }

  /** None of the found sets is stored in `m`. */
  predicate Separate<V>(found: seq<Set<V>>, m: OrderedMap<V, bool>)
  {
    forall k :: 0 <= k < |found| ==> found[k].members != m
  }

  lemma AllHoldSnoc<V(!new)>(found: seq<Set<V>>, parts: seq<set<V>>, s: Set<V>, part: set<V>)
    requires AllHold(found, parts) && Holds(s, part)
    ensures AllHold(found + [s], parts + [part])
  {
    var f, p := found + [s], parts + [part];
    forall k | 0 <= k < |f|
      ensures Holds(f[k], p[k])
    {
      if k < |found| {
        assert f[k] == found[k] && p[k] == parts[k];
      }
    }
  }

  /** Growing the excluded set never enlarges what is left of `keys`. */
  lemma ShrinksWeakly<V>(keys: set<V>, small: set<V>, big: set<V>)
    requires small <= big
    ensures |keys - big| <= |keys - small|
  {
    var a, b := keys - big, keys - small;
    assert a <= b;
    assert b == a + (b - a) && a * (b - a) == {};
  }

  /** Growing a subset of `keys` by a key it lacks shrinks what is left of `keys`. */
  lemma Shrinks<V>(keys: set<V>, small: set<V>, big: set<V>, x: V)
    requires small + {x} <= big && x in keys && x !in small
    ensures |keys - big| < |keys - small|
  {
    var a, b := keys - big, keys - small;
    assert a <= b && x in b - a;
    assert b == a + (b - a) && a * (b - a) == {};
    assert |b - a| > 0;
  }

  /**
   * Removes the elements of a found component, which holds the first of
   * `nodes`, from `nodes`.
   */
  method TakeOut<V(!new)>(nodes: Set<V>, found: Set<V>, ghost part: set<V>)
    requires nodes.Valid() && Holds(found, part) && found.members != nodes.members
    requires nodes.Elements() != [] && nodes.Elements()[0] in part
    modifies nodes.members
    ensures nodes.Valid()
    ensures nodes.ElemSet() == old(nodes.ElemSet()) - part
    ensures |nodes.Elements()| < old(|nodes.Elements()|)
  {
    ghost var before := nodes.Elements();
    var _ := nodes.Diff(found);
    FilteredShorter(before, x => x !in part, before[0]);
  }

  class Graph<V(==, !new)> {
    const Nodes: Set<V>
    const Neighborhood: OrderedMap<V, seq<V>>
    /** The neighbour relation. */
    ghost var adj: map<V, set<V>>

    /**
     * The neighbourhood has exactly the nodes as keys, in the order of the
     * node set, its lists stand for `adj`, and `adj` is symmetric.
     */
    ghost predicate Valid()
      reads this, Nodes.members, Neighborhood
    {
      && Nodes.Valid() && Neighborhood.Valid()
      && Neighborhood.order == Nodes.Elements()
      && Represents(Neighborhood.Model(), adj)
      && Symmetric(adj)
    }

    /** A graph over `nodes` (shared, not copied) in which no node has a neighbour. */
    constructor (nodes: Set<V>)
      requires nodes.Valid()
      ensures Valid() && Nodes == nodes
      ensures adj.Keys == nodes.ElemSet()
      ensures forall v :: v in adj ==> adj[v] == {}
      ensures fresh(Neighborhood)
    {
      var n := nodes.Size();
      var neighborhood := new OrderedMap<V, seq<V>>(n, []);
      var slice := nodes.ToSlice();
      nodes.ElementsDistinct();
      for i := 0 to |slice|
        invariant neighborhood.Valid() && fresh(neighborhood)
        invariant neighborhood.order == slice[..i]
        invariant forall v :: v in neighborhood.Model() ==> neighborhood.Model()[v] == []
      {
        assert slice[..i + 1] == slice[..i] + [slice[i]];
        assert slice[i] !in slice[..i];
        neighborhood.Set(slice[i], []);
      }
      assert slice[..|slice|] == slice;
      neighborhood.ModelKeys();
      EmptyRepresents(neighborhood.Model(), slice);
      Nodes := nodes;
      Neighborhood := neighborhood;
      adj := EmptyAdj(neighborhood.Model());
    }

    /** Records `v2` as a neighbour of `v1` and `v1` as a neighbour of `v2`. */
    method Connect(v1: V, v2: V)
      requires Valid() && v1 in adj && v2 in adj
      modifies this, Neighborhood
      ensures Valid()
      ensures adj == old(adj)[v1 := old(adj)[v1] + {v2}][v2 := old(adj)[v2] + {v1}]
    {
      ConnectRepresents(Neighborhood.Model(), adj, v1, v2);
      Neighborhood.ModelKeys();
      assert v1 in Neighborhood.order && v2 in Neighborhood.order by {
        assert v1 in Elems(Neighborhood.order) && v2 in Elems(Neighborhood.order);
      }
      var e1 := Neighborhood.Get(v1);
      Neighborhood.Set(v1, Added(e1, v2));
      var e2 := Neighborhood.Get(v2);
      Neighborhood.Set(v2, Added(e2, v1));
      adj := adj[v1 := adj[v1] + {v2}][v2 := adj[v2] + {v1}];
    }

    /** Whether `v2` is a recorded neighbour of `v1`. */
    method Connected(v1: V, v2: V) returns (b: bool)
      requires Valid() && v1 in adj
      ensures b <==> v2 in adj[v1]
    {
      var e1 := Neighborhood.Get(v1);
      assert ListOk(Neighborhood.Model(), adj, v1);
      b := v2 in e1;
    }

    /**
     * Depth-first search from `node`, growing the component `comp` (its
     * elements in insertion order): adds `node` and, through the neighbour
     * lists, every node reachable from it without passing through what
     * `comp` already held, keeping what was there as a prefix.
     */
    method Dfs(comp: Set<V>, node: V)
      requires Valid() && comp.Valid() && comp.members != Nodes.members && node in adj
      modifies comp.members
      decreases |adj.Keys - comp.ElemSet()|
      ensures comp.Valid()
      ensures old(comp.ElemSet()) <= comp.ElemSet() && node in comp.ElemSet()
      ensures forall w :: Explored(adj, comp.ElemSet(), old(comp.ElemSet()), w)
      ensures forall w :: Reached(adj, old(comp.ElemSet()), node, comp.ElemSet(), w)
    {
      var has := comp.Has(node);
      if has {
        return;
      }
      ghost var start := comp.ElemSet();
      var _ := comp.Add(node);
      ReachesSelf(adj, start, node);
      var neighbors := Neighborhood.Get(node);
      assert ListOk(Neighborhood.Model(), adj, node);
      ghost var cur := comp.ElemSet();
      for i := 0 to |neighbors|
        invariant comp.Valid() && cur == comp.ElemSet()
        invariant start + {node} <= cur
        invariant forall j :: 0 <= j < i ==> neighbors[j] in cur
        invariant forall w :: Explored(adj, cur, start + {node}, w)
        invariant forall w :: Reached(adj, start, node, cur, w)
      {
        Shrinks(adj.Keys, start, cur, node);
        Dfs(comp, neighbors[i]);
        SearchStep(adj, start, node, cur, comp.ElemSet(), neighbors[i]);
        CoveredStep(neighbors, i, cur, comp.ElemSet());
        cur := comp.ElemSet();
      }
      SearchFinish(adj, start, node, cur, neighbors);
    }

    /**
     * One round of the search for components: a fresh set holding everything
     * reachable from the first of the remaining `nodes`, which are exactly the
     * nodes outside the closed set `covered`.
     */
    method NextComponent(nodes: Set<V>, n: nat, ghost covered: set<V>) returns (component: Set<V>)
      requires Valid() && nodes.Valid() && n == |nodes.Elements()| > 0
      requires nodes.ElemSet() == adj.Keys - covered && Closed(adj, covered)
      ensures component.Valid() && fresh(component.members)
      ensures nodes.Elements()[0] in component.ElemSet()
      ensures component.ElemSet() * covered == {}
      ensures IsComponent(adj, component.ElemSet()) && Closed(adj, covered + component.ElemSet())
    {
      var slice := nodes.ToSlice();
      var node := slice[0];
      component := new Set<V>(n);
      ghost var empty := component.ElemSet();
      assert empty == {};
      assert node in nodes.ElemSet();
      assert node in adj;
      assert component.members != Nodes.members;
      assert component.Valid();
      Dfs(component, node);
      KeysClosed(Neighborhood.Model(), adj);
      NewComponent(adj, covered, component.ElemSet(), node);
    }

    /**
     * One turn of the loop of `Components`: searches from the first remaining
     * node, returns the component found as a fresh set and removes its nodes
     * from `nodes`. The disjoint components `parts` that make up `covered`
     * grow by it, and `nodes` keeps holding the rest of the nodes.
     */
    method Round(nodes: Set<V>, n: nat, ghost covered: set<V>, ghost parts: seq<set<V>>)
      returns (component: Set<V>, ghost c: set<V>)
      requires Valid() && nodes.Valid() && nodes.members != Nodes.members && n == |nodes.Elements()| > 0
      requires nodes.ElemSet() == adj.Keys - covered && Partition(parts, covered) && Closed(adj, covered)
      requires AllComponents(adj, parts)
      modifies nodes.members
      ensures fresh(component.members) && Holds(component, c)
      ensures nodes.Valid() && |nodes.Elements()| < old(|nodes.Elements()|)
      ensures nodes.ElemSet() == adj.Keys - (covered + c) && Partition(parts + [c], covered + c)
      ensures Closed(adj, covered + c) && AllComponents(adj, parts + [c])
    {
      component := NextComponent(nodes, n, covered);
      c := component.ElemSet();
      Advance(adj, parts, covered, c, nodes.ElemSet());
      TakeOut(nodes, component, c);
    }

    /**
     * The body of the loop of `Components`: runs a `Round` and records the
     * component it found. Before and after, the sets `found` hold the
     * disjoint components `parts` that make up `covered`, `nodes` holds the
     * rest of the nodes and `n` is their number.
     */
    method Collect(found: seq<Set<V>>, nodes: Set<V>, n: nat, ghost covered: set<V>, ghost parts: seq<set<V>>)
      returns (found': seq<Set<V>>, n': nat, ghost covered': set<V>, ghost parts': seq<set<V>>)
      requires Valid() && nodes.Valid() && nodes.members != Nodes.members && n == |nodes.Elements()| > 0
      requires AllHold(found, parts) && Separate(found, nodes.members)
      requires nodes.ElemSet() == adj.Keys - covered && Partition(parts, covered) && Closed(adj, covered)
      requires AllComponents(adj, parts)
      modifies nodes.members
      ensures nodes.Valid() && n' == |nodes.Elements()| < n
      ensures AllHold(found', parts') && Separate(found', nodes.members)
      ensures nodes.ElemSet() == adj.Keys - covered' && Partition(parts', covered') && Closed(adj, covered')
      ensures AllComponents(adj, parts')
    {
      var component;
      ghost var c;
      component, c := Round(nodes, n, covered, parts);
      AllHoldSnoc(found, parts, component, c);
      found', covered', parts' := found + [component], covered + c, parts + [c];
      n' := nodes.Size();
    }

    /**
     * The connected components, each a fresh set, in the order in which
     * their first node appears among the remaining nodes: repeatedly searches
     * from the first node not yet covered and removes what it found.
     */
    method Components() returns (components: seq<Set<V>>, ghost parts: seq<set<V>>)
      requires Valid()
      ensures |components| == |parts|
      ensures forall k :: 0 <= k < |components| ==> Holds(components[k], parts[k])
      ensures Partition(parts, adj.Keys)
      ensures forall k :: 0 <= k < |parts| ==> IsComponent(adj, parts[k])
    {
      components := [];
      var nodes := Nodes.Copy();
      Neighborhood.ModelKeys();
      ghost var covered: set<V> := {};
      parts := [];
      var n := nodes.Size();
      while n > 0
        invariant nodes.Valid() && fresh(nodes.members) && n == |nodes.Elements()|
        invariant AllHold(components, parts) && Separate(components, nodes.members)
        invariant nodes.ElemSet() == adj.Keys - covered && Partition(parts, covered) && Closed(adj, covered)
        invariant AllComponents(adj, parts)
        decreases |nodes.Elements()|
      {
        components, n, covered, parts := Collect(components, nodes, n, covered, parts);
      }
      ClosedCovers(adj, covered);
      forall k | 0 <= k < |parts|
        ensures IsComponent(adj, parts[k])
      {
        AllComponentsAt(adj, parts, k);
      }
    }
  }
}
