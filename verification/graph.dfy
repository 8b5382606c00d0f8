/**
 * The entry point of the causal-graph engine (`traverse`, `Traversal` and
 * `Traversal::fail` in crates/aitia/src/graph.rs).
 */
module Aitia {
  import opened Wrappers
  import opened AitiaCause
  import opened AitiaTraverse
  import opened AitiaGraph

  /**
   * The outcome of a traversal: the root holds (`Pass`), it cannot be
   * decided because every path loops (`Groundless`), or it fails, with the
   * DAG of failing causes and the passing causes they lead to.
   */
  datatype Traversal<F> = Pass | Groundless | Fail(graph: CausalGraph<F>, passes: seq<Cause<F>>)

  /** `Traversal::fail`: the graph and passes of a failure, and nothing otherwise. */
  function FailOf<F>(tr: Traversal<F>): (r: Option<(CausalGraph<F>, seq<Cause<F>>)>)
    ensures r.Some? <==> tr.Fail?
    ensures r.Some? ==> r.value.0 == tr.graph && r.value.1 == tr.passes
  {
    match tr
    case Fail(graph, passes) => Some((graph, passes))
    case _ => None
  }

  /**
   * What `traverse` returns for `root`, read off the evaluation from an
   * empty table: undecided gives `Groundless`, a pass gives `Pass`, a
   * failure gives the acyclic graph built from the final table.
   */
  ghost predicate Describes<F(!new), C>(fs: Facts<F, C>, ctx: C, u: set<Cause<F>>, root: Cause<F>, tr: Traversal<F>)
    requires Closed(fs, ctx, u) && root in u
  {
    var (r, t) := Eval(fs, ctx, u, root, map[]);
    match r
    case None => tr.Groundless?
    case Some(check) =>
      if check.Pass? then tr.Pass?
      else tr.Fail? && Produced(t, root, tr.graph, tr.passes) && Acyclic(tr.graph)
  }

  /**
   * `traverse`: evaluates `root` from an empty table and maps the result;
   * on failure the graph is produced from the table the evaluation left.
   */
  method Traverse<F(==,!new), C>(fs: Facts<F, C>, ctx: C, ghost u: set<Cause<F>>, root: Cause<F>)
    returns (tr: Traversal<F>)
    requires Closed(fs, ctx, u) && root in u
    ensures Describes(fs, ctx, u, root, tr)
  {
    var r, table := TraverseInner(fs, ctx, u, root, map[]);
    match r {
      case Some(check) =>
        if check.Pass? {
          tr := Traversal.Pass;
        } else {
          EmptyIsCoherent<F>(map[]);
          EvalKeepsCoherent(fs, ctx, u, root, map[]);
          ghost var rank :| RankedBy(table, rank);
          var graph, passes := ProduceGraph(table, root, rank);
          ProducedIsAcyclic(table, root, graph, passes);
          tr := Traversal.Fail(graph, passes);
        }
      case None =>
        tr := Groundless;
    }
  }

  /** On failure the root is a node of the graph: the DAG has the original cause at its head. */
  lemma FailHasRootNode<F(!new), C>(fs: Facts<F, C>, ctx: C, u: set<Cause<F>>, root: Cause<F>, tr: Traversal<F>)
    requires Closed(fs, ctx, u) && root in u
    requires Describes(fs, ctx, u, root, tr)
    ensures tr.Fail? ==> root in tr.graph.nodes
  {
    var (r, t) := Eval(fs, ctx, u, root, map[]);
    assert IsTrail(t, [root]);
  }
}
