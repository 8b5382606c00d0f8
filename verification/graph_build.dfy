/**
 * Building the causal graph from a finished traversal table
 * (`prune_traversal` and `produce_graph` in crates/aitia/src/graph.rs).
 *
 * Reachability follows failure lists: from a failing cause to each cause
 * that explains it. The work-list walk of `prune_traversal` keeps no
 * visited set, so it terminates only because the failures form a DAG; the
 * ghost `rank` of a coherent table (see `AitiaTraverse.RankedBy`) gives the
 * measure, the number of trails still to be walked.
 */
module AitiaGraph {
  import opened AitiaCause
  import opened AitiaTraverse

  /** An edge from the node at the first index to the node at the second. */
  type Edge = (nat, nat)

  /**
   * `CausalGraph`: the node with index i is `nodes[i]` (petgraph's
   * `NodeIndex` is the insertion position); `edges` in insertion order.
   */
  datatype CausalGraph<F> = CausalGraph(nodes: seq<Cause<F>>, edges: seq<Edge>)

  // ---------------------------------------------------------------------
  // Reachability along failure lists
  // ---------------------------------------------------------------------

  /** A trail: each cause after the first explains the failure of the one before. */
  ghost predicate IsTrail<F>(t: Table<F>, p: seq<Cause<F>>)
  {
    |p| > 0 && forall i :: 0 <= i < |p| - 1 ==> p[i + 1] in FailList(t, p[i])
  }

  /** `k` is met when the failures are followed from `s`. */
  ghost predicate Reachable<F(!new)>(t: Table<F>, s: Cause<F>, k: Cause<F>)
  {
    exists p :: IsTrail(t, p) && p[0] == s && p[|p| - 1] == k
  }

  ghost function Height<F>(rank: map<Cause<F>, nat>, x: Cause<F>): nat
  {
    if x in rank then rank[x] + 1 else 0
  }

  ghost function MaxHeight<F>(rank: map<Cause<F>, nat>, xs: seq<Cause<F>>): nat
  {
    if xs == [] then 0
    else
      var m := MaxHeight(rank, xs[1..]);
      if Height(rank, xs[0]) > m then Height(rank, xs[0]) else m
  }

  lemma {:induction false} MaxHeightAtMost<F>(rank: map<Cause<F>, nat>, xs: seq<Cause<F>>, b: nat)
    requires forall x :: x in xs ==> Height(rank, x) <= b
    ensures MaxHeight(rank, xs) <= b
    decreases |xs|
  {
    if xs != [] {
      assert xs[0] in xs;
      assert forall x :: x in xs[1..] ==> x in xs;
      MaxHeightAtMost(rank, xs[1..], b);
    }
  }

  /** The causes explaining a failure sit lower than the failure. */
  lemma FailListLower<F>(t: Table<F>, rank: map<Cause<F>, nat>, x: Cause<F>)
    requires RankedBy(t, rank)
    ensures FailList(t, x) == [] || MaxHeight(rank, FailList(t, x)) < Height(rank, x)
  {
    if FailList(t, x) != [] {
      assert x in t && FailList(t, x)[0] in FailList(t, x);
      MaxHeightAtMost(rank, FailList(t, x), rank[x]);
    }
  }

  /** Every cause met when the failures are followed from the causes of `xs`. */
  ghost function ReachAll<F>(t: Table<F>, rank: map<Cause<F>, nat>, xs: seq<Cause<F>>): set<Cause<F>>
    requires RankedBy(t, rank)
    decreases MaxHeight(rank, xs), |xs|
  {
    if xs == [] then {}
    else
      FailListLower(t, rank, xs[0]);
      {xs[0]} + ReachAll(t, rank, FailList(t, xs[0])) + ReachAll(t, rank, xs[1..])
  }

  /** The number of trails that start at the causes of `xs`. */
  ghost function Trails<F>(t: Table<F>, rank: map<Cause<F>, nat>, xs: seq<Cause<F>>): nat
    requires RankedBy(t, rank)
    decreases MaxHeight(rank, xs), |xs|
  {
    if xs == [] then 0
    else
      FailListLower(t, rank, xs[0]);
      1 + Trails(t, rank, FailList(t, xs[0])) + Trails(t, rank, xs[1..])
  }

  lemma {:induction false} ReachAllAppend<F>(t: Table<F>, rank: map<Cause<F>, nat>, a: seq<Cause<F>>, b: seq<Cause<F>>)
    requires RankedBy(t, rank)
    ensures ReachAll(t, rank, a + b) == ReachAll(t, rank, a) + ReachAll(t, rank, b)
    ensures Trails(t, rank, a + b) == Trails(t, rank, a) + Trails(t, rank, b)
    decreases |a|
  {
    if a == [] {
      assert a + b == b;
    } else {
      assert (a + b)[0] == a[0] && (a + b)[1..] == a[1..] + b;
      ReachAllAppend(t, rank, a[1..], b);
    }
  }

  lemma ReachAllSingle<F>(t: Table<F>, rank: map<Cause<F>, nat>, x: Cause<F>)
    requires RankedBy(t, rank)
    ensures ReachAll(t, rank, [x]) == {x} + ReachAll(t, rank, FailList(t, x))
    ensures Trails(t, rank, [x]) == 1 + Trails(t, rank, FailList(t, x))
  {
    assert [x][1..] == [];
  }

  lemma {:induction false} ReachAllOfMember<F>(t: Table<F>, rank: map<Cause<F>, nat>, xs: seq<Cause<F>>, y: Cause<F>)
    requires RankedBy(t, rank) && y in xs
    ensures ReachAll(t, rank, [y]) <= ReachAll(t, rank, xs)
    decreases |xs|
  {
    ReachAllSingle(t, rank, y);
    if xs[0] != y {
      ReachAllOfMember(t, rank, xs[1..], y);
    }
  }

  /** Whatever `ReachAll` collects lies at the end of a trail from one of `xs`. */
  lemma {:induction false} ReachAllHasTrail<F>(t: Table<F>, rank: map<Cause<F>, nat>, xs: seq<Cause<F>>, k: Cause<F>)
    requires RankedBy(t, rank) && k in ReachAll(t, rank, xs)
    ensures exists p :: IsTrail(t, p) && p[0] in xs && p[|p| - 1] == k
    decreases MaxHeight(rank, xs), |xs|
  {
    FailListLower(t, rank, xs[0]);
    var below := FailList(t, xs[0]);
    if k == xs[0] {
      var p := [k];
      assert IsTrail(t, p) && p[0] in xs && p[|p| - 1] == k;
    } else if k in ReachAll(t, rank, below) {
      ReachAllHasTrail(t, rank, below, k);
      TrailFromBelow(t, xs, k);
    } else {
      ReachAllHasTrail(t, rank, xs[1..], k);
      TrailFromRest(t, xs, k);
    }
  }

  lemma TrailFromBelow<F>(t: Table<F>, xs: seq<Cause<F>>, k: Cause<F>)
    requires xs != [] && exists q :: IsTrail(t, q) && q[0] in FailList(t, xs[0]) && q[|q| - 1] == k
    ensures exists p :: IsTrail(t, p) && p[0] in xs && p[|p| - 1] == k
  {
    var q :| IsTrail(t, q) && q[0] in FailList(t, xs[0]) && q[|q| - 1] == k;
    TrailCons(t, xs[0], q);
    var p := [xs[0]] + q;
    assert IsTrail(t, p) && p[0] in xs && p[|p| - 1] == k;
  }

  lemma TrailFromRest<F>(t: Table<F>, xs: seq<Cause<F>>, k: Cause<F>)
    requires xs != [] && exists p :: IsTrail(t, p) && p[0] in xs[1..] && p[|p| - 1] == k
    ensures exists p :: IsTrail(t, p) && p[0] in xs && p[|p| - 1] == k
  {
    var p :| IsTrail(t, p) && p[0] in xs[1..] && p[|p| - 1] == k;
    assert p[0] in xs;
  }

  /** A failure followed by a trail from one of the causes explaining it is a trail. */
  lemma TrailCons<F>(t: Table<F>, x: Cause<F>, q: seq<Cause<F>>)
    requires IsTrail(t, q) && q[0] in FailList(t, x)
    ensures IsTrail(t, [x] + q) && ([x] + q)[|q|] == q[|q| - 1]
  {
    var p := [x] + q;
    assert forall i :: 1 <= i < |p| ==> p[i] == q[i - 1];
  }

  /** The end of every trail is collected by `ReachAll` from its start. */
  lemma {:induction false} TrailIsReached<F>(t: Table<F>, rank: map<Cause<F>, nat>, p: seq<Cause<F>>)
    requires RankedBy(t, rank) && IsTrail(t, p)
    ensures p[|p| - 1] in ReachAll(t, rank, [p[0]])
    decreases |p|
  {
    ReachAllSingle(t, rank, p[0]);
    if |p| > 1 {
      var q := p[1..];
      assert IsTrail(t, q) by {
        assert forall i :: 0 <= i < |q| ==> q[i] == p[i + 1];
      }
      TrailIsReached(t, rank, q);
      ReachAllOfMember(t, rank, FailList(t, p[0]), p[1]);
    }
  }

  /** The causes a failure names are all in the table. */
  lemma FailListInTable<F>(t: Table<F>, rank: map<Cause<F>, nat>, k: Cause<F>)
    requires RankedBy(t, rank)
    ensures forall x :: x in FailList(t, k) ==> x in t
  {
    forall x | x in FailList(t, k)
      ensures x in t
    {
      assert IsResolved(t, x);
    }
  }

  lemma SplitLast<T>(s: seq<T>)
    requires s != []
    ensures s == s[..|s| - 1] + [s[|s| - 1]]
  {
  }

  /** Taking the last cause off the work-list and pushing what explains it. */
  lemma PopStep<F>(t: Table<F>, rank: map<Cause<F>, nat>, rest: seq<Cause<F>>, next: Cause<F>)
    requires RankedBy(t, rank)
    ensures ReachAll(t, rank, rest + [next]) == {next} + ReachAll(t, rank, rest + FailList(t, next))
    ensures Trails(t, rank, rest + [next]) == 1 + Trails(t, rank, rest + FailList(t, next))
  {
    ReachAllAppend(t, rank, rest, [next]);
    ReachAllAppend(t, rank, rest, FailList(t, next));
    ReachAllSingle(t, rank, next);
  }

  /** `ReachAll` from a single cause is exactly reachability. */
  lemma ReachAllIsReachable<F(!new)>(t: Table<F>, rank: map<Cause<F>, nat>, s: Cause<F>)
    requires RankedBy(t, rank)
    ensures forall k :: k in ReachAll(t, rank, [s]) <==> Reachable(t, s, k)
  {
    forall k
      ensures k in ReachAll(t, rank, [s]) <==> Reachable(t, s, k)
    {
      if k in ReachAll(t, rank, [s]) {
        ReachAllHasTrail(t, rank, [s], k);
      }
      if Reachable(t, s, k) {
        var p :| IsTrail(t, p) && p[0] == s && p[|p| - 1] == k;
        TrailIsReached(t, rank, p);
      }
    }
  }

  // ---------------------------------------------------------------------
  // prune_traversal
  // ---------------------------------------------------------------------

  /**
   * `prune_traversal`: walks the failures from `start` with a work-list,
   * recording each failing cause with its failure list in `sub` and each
   * passing cause in `passes`; causes still marked as under evaluation are
   * skipped. The lookup `table[&next]` needs `next` in the table: true of
   * `start` by the caller, and of every cause a failure names by coherence.
   */
  method PruneTraversal<F(!new)>(table: Table<F>, start: Cause<F>, ghost rank: map<Cause<F>, nat>)
    returns (sub: map<Cause<F>, seq<Cause<F>>>, passes: seq<Cause<F>>)
    requires RankedBy(table, rank) && start in table
    ensures forall k :: k in sub <==> IsFail(table, k) && Reachable(table, start, k)
    ensures forall k :: k in sub ==> sub[k] == FailList(table, k)
    ensures forall k :: k in passes <==> IsPass(table, k) && Reachable(table, start, k)
  {
    sub, passes := map[], [];
    var toAdd := [start];
    ghost var done: set<Cause<F>> := {};
    while toAdd != []
      invariant forall w :: w in toAdd ==> w in table
      invariant ReachAll(table, rank, [start]) == done + ReachAll(table, rank, toAdd)
      invariant forall k :: k in sub <==> k in done && IsFail(table, k)
      invariant forall k :: k in sub ==> sub[k] == FailList(table, k)
      invariant forall k :: k in passes <==> k in done && IsPass(table, k)
      decreases Trails(table, rank, toAdd)
    {
      var next := toAdd[|toAdd| - 1];
      SplitLast(toAdd);
      toAdd := toAdd[..|toAdd| - 1];
      PopStep(table, rank, toAdd, next);
      match table[next] {
        case Some(Fail(causes)) =>
          assert causes == FailList(table, next);
          FailListInTable(table, rank, next);
          toAdd := toAdd + causes;
          sub := sub[next := causes];
        case Some(Pass) =>
          assert toAdd + FailList(table, next) == toAdd;
          passes := passes + [next];
        case None =>
          assert toAdd + FailList(table, next) == toAdd;
      }
      done := done + {next};
    }
    ReachAllIsReachable(table, rank, start);
  }

  // ---------------------------------------------------------------------
  // produce_graph
  // ---------------------------------------------------------------------

  /** No cause appears twice. */
  ghost predicate Distinct<T>(s: seq<T>)
  {
    forall i, j :: 0 <= i < j < |s| ==> s[i] != s[j]
  }

  /** The nodes are the failing causes reachable from `start`. */
  ghost predicate KeepsReachableFailures<F(!new)>(t: Table<F>, start: Cause<F>, nodes: seq<Cause<F>>)
  {
    forall k :: k in nodes <==> IsFail(t, k) && Reachable(t, start, k)
  }

  /** Every edge goes from a node to a cause in that node's failure list. */
  ghost predicate EdgesExplain<F>(t: Table<F>, g: CausalGraph<F>)
  {
    forall e :: e in g.edges ==>
      e.0 < |g.nodes| && e.1 < |g.nodes| && g.nodes[e.1] in FailList(t, g.nodes[e.0])
  }

  /** Every cause in a node's failure list that is itself a node is joined to it. */
  ghost predicate EdgesComplete<F>(t: Table<F>, g: CausalGraph<F>)
  {
    forall i, j :: 0 <= i < |g.nodes| && 0 <= j < |g.nodes| && g.nodes[j] in FailList(t, g.nodes[i]) ==>
      (i, j) in g.edges
  }

  /**
   * What `produce_graph` promises: one node per failing cause reachable
   * from `start`, no node twice, an edge from a node to each node in its
   * failure list and no other edge, and the reachable passing causes.
   */
  ghost predicate Produced<F(!new)>(t: Table<F>, start: Cause<F>, g: CausalGraph<F>, passes: seq<Cause<F>>)
  {
    && Distinct(g.nodes)
    && KeepsReachableFailures(t, start, g.nodes)
    && EdgesExplain(t, g)
    && EdgesComplete(t, g)
    && (forall k :: k in passes <==> IsPass(t, k) && Reachable(t, start, k))
  }

  /** The keys of `m`, each once, in an order the map chooses (a `HashMap` walk). */
  method KeysInSomeOrder<K, V>(m: map<K, V>) returns (ks: seq<K>)
    ensures Distinct(ks)
    ensures forall k :: k in ks <==> k in m
  {
    ks := [];
    var rest := m.Keys;
    while rest != {}
      invariant rest <= m.Keys
      invariant Distinct(ks)
      invariant forall k :: k in ks <==> k in m && k !in rest
      decreases |rest|
    {
      var k :| k in rest;
      ks := ks + [k];
      rest := rest - {k};
    }
  }

  /**
   * The first loop of `produce_graph`: adds the rows as nodes in order and
   * maps each to its node index, which is its position among the rows.
   */
  method AddNodes<K>(rows: seq<K>) returns (nodes: seq<K>, nodemap: map<K, nat>)
    requires Distinct(rows)
    ensures nodes == rows
    ensures Indexes(nodes, nodemap)
  {
    nodes, nodemap := [], map[];
    for i := 0 to |rows|
      invariant nodes == rows[..i]
      invariant forall k :: k in nodemap <==> k in nodes
      invariant forall k :: k in nodemap ==> nodemap[k] < i && nodes[nodemap[k]] == k
    {
      var id := |nodes|;
      assert id == i;
      nodes := nodes + [rows[i]];
      nodemap := nodemap[rows[i] := id];
    }
  }

  /** The node index of each node, as `AddNodes` leaves it. */
  ghost predicate Indexes<K>(nodes: seq<K>, nodemap: map<K, nat>)
  {
    && (forall i :: 0 <= i < |nodes| ==> nodes[i] in nodemap)
    && (forall k :: k in nodemap ==> nodemap[k] < |nodes| && nodes[nodemap[k]] == k)
  }

  /**
   * The inner loop of the second loop of `produce_graph`: from node `i`,
   * an edge to each cause of `v` that is a node.
   */
  method AddEdgesFrom<K>(i: nat, v: seq<K>, nodes: seq<K>, nodemap: map<K, nat>, edges0: seq<Edge>)
    returns (edges: seq<Edge>)
    requires i < |nodes| && Indexes(nodes, nodemap) && Distinct(nodes) && nodemap[nodes[i]] == i
    ensures forall e :: e in edges0 ==> e in edges
    ensures forall e :: e in edges ==> e in edges0 || (e.0 == i && e.1 < |nodes| && nodes[e.1] in v)
    ensures forall b :: 0 <= b < |nodes| && nodes[b] in v ==> (i, b) in edges
  {
    edges := edges0;
    for j := 0 to |v|
      invariant forall e :: e in edges0 ==> e in edges
      invariant forall e :: e in edges ==> e in edges0 || (e.0 == i && e.1 < |nodes| && nodes[e.1] in v)
      invariant forall b :: 0 <= b < |nodes| && nodes[b] in v[..j] ==> (i, b) in edges
    {
      var c := v[j];
      assert v[..j + 1] == v[..j] + [c];
      if c in nodemap {
        var b := nodemap[c];
        assert b < |nodes| && nodes[b] == c;
        assert forall b' :: 0 <= b' < |nodes| && nodes[b'] == c ==> b' == b;
        edges := edges + [(i, b)];
      } else {
        assert forall b :: 0 <= b < |nodes| ==> nodes[b] != c;
      }
    }
    assert v[..|v|] == v;
  }

  /**
   * The second loop of `produce_graph`: for each node `k`, an edge to each
   * cause of `sub[k]` that is a node too.
   */
  method AddEdges<K>(sub: map<K, seq<K>>, nodes: seq<K>, nodemap: map<K, nat>) returns (edges: seq<Edge>)
    requires forall k :: k in nodes ==> k in sub
    requires Indexes(nodes, nodemap) && Distinct(nodes)
    ensures forall e :: e in edges ==> e.0 < |nodes| && e.1 < |nodes| && nodes[e.1] in sub[nodes[e.0]]
    ensures forall a, b :: 0 <= a < |nodes| && 0 <= b < |nodes| && nodes[b] in sub[nodes[a]] ==> (a, b) in edges
  {
    edges := [];
    for i := 0 to |nodes|
      invariant forall e :: e in edges ==> e.0 < i && e.1 < |nodes| && nodes[e.1] in sub[nodes[e.0]]
      invariant forall a, b :: 0 <= a < i && 0 <= b < |nodes| && nodes[b] in sub[nodes[a]] ==> (a, b) in edges
    {
      assert nodes[i] in nodemap && nodes[nodemap[nodes[i]]] == nodes[i];
      edges := AddEdgesFrom(i, sub[nodes[i]], nodes, nodemap, edges);
    }
  }

  /**
   * `produce_graph`: prunes the table from `start`, adds a node for every
   * failing cause kept, then an edge from each of them to each cause in its
   * failure list. Node order follows the walk of the pruned map.
   */
  method ProduceGraph<F(!new)>(table: Table<F>, start: Cause<F>, ghost rank: map<Cause<F>, nat>)
    returns (g: CausalGraph<F>, passes: seq<Cause<F>>)
    requires RankedBy(table, rank) && start in table
    ensures Produced(table, start, g, passes)
  {
    var sub, found := PruneTraversal(table, start, rank);
    var rows := KeysInSomeOrder(sub);
    var nodes, nodemap := AddNodes(rows);
    var edges := AddEdges(sub, nodes, nodemap);
    g := CausalGraph(nodes, edges);
    passes := found;
    assert KeepsReachableFailures(table, start, g.nodes);
    assert EdgesExplain(table, g);
    assert EdgesComplete(table, g);
  }

  // ---------------------------------------------------------------------
  // Properties of the produced graph
  // ---------------------------------------------------------------------

  /** `CausalGraph::nodes`: the set of causes in the graph. */
  function Nodes<F(==)>(g: CausalGraph<F>): (r: set<Cause<F>>)
    ensures forall i :: 0 <= i < |g.nodes| ==> g.nodes[i] in r
    ensures forall k :: k in r ==> k in g.nodes
  {
    set i | 0 <= i < |g.nodes| :: g.nodes[i]
  }

  /** A walk along the edges, given by node indices. */
  ghost predicate IsPath<F>(g: CausalGraph<F>, p: seq<nat>)
  {
    forall i :: 0 <= i < |p| - 1 ==> (p[i], p[i + 1]) in g.edges
  }

  ghost predicate Acyclic<F>(g: CausalGraph<F>)
  {
    forall p :: IsPath(g, p) && |p| > 1 ==> p[0] != p[|p| - 1]
  }

  /** Along a path of the produced graph the rank strictly falls. */
  lemma {:induction false} PathDescends<F>(t: Table<F>, rank: map<Cause<F>, nat>, g: CausalGraph<F>, p: seq<nat>)
    requires RankedBy(t, rank) && EdgesExplain(t, g)
    requires IsPath(g, p) && |p| > 1
    ensures p[0] < |g.nodes| && p[|p| - 1] < |g.nodes|
    ensures g.nodes[p[0]] in rank && g.nodes[p[|p| - 1]] in rank
    ensures rank[g.nodes[p[|p| - 1]]] < rank[g.nodes[p[0]]]
    decreases |p|
  {
    assert (p[0], p[1]) in g.edges;
    var a, b := g.nodes[p[0]], g.nodes[p[1]];
    assert b in FailList(t, a);
    if |p| > 2 {
      var q := p[1..];
      assert IsPath(g, q) by {
        assert forall i :: 0 <= i < |q| ==> q[i] == p[i + 1];
      }
      PathDescends(t, rank, g, q);
    }
  }

  /** The graph of a coherent table has no cycle. */
  lemma ProducedIsAcyclic<F(!new)>(t: Table<F>, start: Cause<F>, g: CausalGraph<F>, passes: seq<Cause<F>>)
    requires Coherent(t) && Produced(t, start, g, passes)
    ensures Acyclic(g)
  {
    var rank :| RankedBy(t, rank);
    forall p | IsPath(g, p) && |p| > 1
      ensures p[0] != p[|p| - 1]
    {
      PathDescends(t, rank, g, p);
    }
  }

  /** The edges of a graph as pairs of causes. */
  ghost function EdgeSet<F>(g: CausalGraph<F>): set<(Cause<F>, Cause<F>)>
  {
    set e | e in g.edges && e.0 < |g.nodes| && e.1 < |g.nodes| :: (g.nodes[e.0], g.nodes[e.1])
  }

  /** An edge of the produced graph joins two kept failures, the second explaining the first. */
  lemma EdgeSetOfProduced<F(!new)>(t: Table<F>, start: Cause<F>, g: CausalGraph<F>, passes: seq<Cause<F>>)
    requires Produced(t, start, g, passes)
    ensures forall a, b :: (a, b) in EdgeSet(g) <==>
      a in g.nodes && b in g.nodes && b in FailList(t, a)
  {
    forall a, b | a in g.nodes && b in g.nodes && b in FailList(t, a)
      ensures (a, b) in EdgeSet(g)
    {
      var i :| 0 <= i < |g.nodes| && g.nodes[i] == a;
      var j :| 0 <= j < |g.nodes| && g.nodes[j] == b;
      assert (i, j) in g.edges;
    }
  }

  /**
   * Whatever order the map walk picks, the graph has the same nodes, the
   * same edges between causes and the same passing causes.
   */
  lemma ProducedShapeIsDetermined<F(!new)>(t: Table<F>, start: Cause<F>,
                                           g1: CausalGraph<F>, p1: seq<Cause<F>>,
                                           g2: CausalGraph<F>, p2: seq<Cause<F>>)
    requires Produced(t, start, g1, p1) && Produced(t, start, g2, p2)
    ensures Nodes(g1) == Nodes(g2) && |g1.nodes| == |g2.nodes|
    ensures EdgeSet(g1) == EdgeSet(g2)
    ensures forall k :: k in p1 <==> k in p2
  {
    EdgeSetOfProduced(t, start, g1, p1);
    EdgeSetOfProduced(t, start, g2, p2);
    assert Nodes(g1) == Nodes(g2);
    DistinctCount(g1.nodes);
    DistinctCount(g2.nodes);
  }

  /** A sequence without repeats has as many elements as its set. */
  lemma {:induction false} DistinctCount<T>(s: seq<T>)
    requires Distinct(s)
    ensures |set i | 0 <= i < |s| :: s[i]| == |s|
    decreases |s|
  {
    if s != [] {
      var init := s[..|s| - 1];
      DistinctCount(init);
      var a := set i | 0 <= i < |init| :: init[i];
      var b := set i | 0 <= i < |s| :: s[i];
      assert b == a + {s[|s| - 1]};
      assert s[|s| - 1] !in a;
    }
  }
}
