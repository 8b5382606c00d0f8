/**
 * The data model of aitia's causal claims. crates/aitia/src/cause.rs is not
 * part of this model; these definitions follow how crates/aitia/src/graph.rs
 * uses `Cause`, `Check` and the `Fact` capability.
 */
module AitiaCause {
  import opened Wrappers

  /** A causal claim over facts of type F: a single fact, or an OR / AND of claims. */
  datatype Cause<F> = Fact(fact: F) | Any(causes: seq<Cause<F>>) | Every(causes: seq<Cause<F>>)

  /** The outcome of evaluating one cause; a failure lists the causes that explain it. */
  datatype Check<F> = Pass | Fail(causes: seq<Cause<F>>)

  /**
   * The `Fact` capability of a fact type F with context type C:
   * `check` says whether the fact holds, `cause` names what would explain it
   * if it does not (None for an axiom).
   */
  datatype Facts<!F, -C> = Facts(check: (F, C) -> bool, cause: (F, C) -> Option<Cause<F>>)

  /** The causes that evaluating `c` visits next: the cause of a failing fact, or a combinator's children. */
  function Explains<F, C>(fs: Facts<F, C>, ctx: C, c: Cause<F>): seq<Cause<F>>
  {
    match c
    case Fact(f) =>
      if fs.check(f, ctx) then []
      else (match fs.cause(f, ctx) case None => [] case Some(d) => [d])
    case Any(cs) => cs
    case Every(cs) => cs
  }

  /**
   * A finite universe of causes closed under `Explains`: every cause a
   * traversal can reach from a member is itself a member.
   */
  ghost predicate Closed<F, C>(fs: Facts<F, C>, ctx: C, u: set<Cause<F>>)
  {
    forall k, x :: k in u && x in Explains(fs, ctx, k) ==> x in u
  }
}
