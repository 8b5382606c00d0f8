/**
 * What a traversal means (crates/aitia/src/graph.rs): the outcome of each
 * kind of cause, what loops do, and, when the causes form no loop and no
 * combinator is empty, that `traverse` decides the root exactly by the
 * logic of facts (a fact by its check, `Any` as "or", `Every` as "and").
 */
module AitiaSemantics {
  import opened Wrappers
  import opened AitiaCause
  import opened AitiaTraverse
  import opened AitiaGraph
  import Aitia

  // ---------------------------------------------------------------------
  // One evaluation step
  // ---------------------------------------------------------------------

  /** A cause met again while it is being evaluated is undeterminable, and the table is left as it is. */
  lemma EvalInProgress<F, C>(fs: Facts<F, C>, ctx: C, u: set<Cause<F>>, c: Cause<F>, t: Table<F>)
    requires Closed(fs, ctx, u) && c in u && t.Keys <= u
    requires c in t && t[c].None?
    ensures Eval(fs, ctx, u, c, t) == (None, t)
  {
  }

  /**
   * A resolved cause returns its stored check and leaves the table as it
   * is, whatever the facts and context: `check` and `cause` are not asked
   * again.
   */
  lemma EvalCachedIgnoresFacts<F, C>(fs1: Facts<F, C>, ctx1: C, fs2: Facts<F, C>, ctx2: C,
                                     u1: set<Cause<F>>, u2: set<Cause<F>>, c: Cause<F>, t: Table<F>)
    requires Closed(fs1, ctx1, u1) && c in u1 && t.Keys <= u1
    requires Closed(fs2, ctx2, u2) && c in u2 && t.Keys <= u2
    requires c in t && t[c].Some?
    ensures Eval(fs1, ctx1, u1, c, t) == Eval(fs2, ctx2, u2, c, t) == (t[c], t)
  {
  }

  /**
   * A fact visited for the first time: a pass when its check holds; a
   * failure with no explanation when it has no cause; otherwise a failure
   * naming its cause, whatever that resolved to, unless the cause was
   * undeterminable, in which case so is the fact, which then stays marked
   * as under evaluation.
   */
  lemma FactOutcome<F, C>(fs: Facts<F, C>, ctx: C, u: set<Cause<F>>, f: F, t: Table<F>)
    requires Closed(fs, ctx, u) && Fact(f) in u && t.Keys <= u && Fact(f) !in t
    ensures var (r, t') := Eval(fs, ctx, u, Fact(f), t);
            && (fs.check(f, ctx) ==> r == Some(Pass))
            && (!fs.check(f, ctx) && fs.cause(f, ctx).None? ==> r == Some(Fail([])))
            && (!fs.check(f, ctx) && fs.cause(f, ctx).Some? ==>
                  var d := fs.cause(f, ctx).value;
                  (r.None? <==> Eval(fs, ctx, u, d, t[Fact(f) := None]).0.None?)
                  && (r.Some? ==> r == Some(Fail([d]))))
            && (r.None? ==> t'[Fact(f)] == None)
  {
    assert t[Fact(f) := None].Keys == t.Keys + {Fact(f)};
  }

  /**
   * `Any` visited for the first time, with `sv` its surviving children:
   * undeterminable when none survived, a pass when one of them passed,
   * otherwise a failure listing the survivors, all failing.
   */
  lemma AnyOutcome<F, C>(fs: Facts<F, C>, ctx: C, u: set<Cause<F>>, cs: seq<Cause<F>>, t: Table<F>)
    requires Closed(fs, ctx, u) && Any(cs) in u && t.Keys <= u && Any(cs) !in t
    ensures Explains(fs, ctx, Any(cs)) == cs
    ensures var r := Eval(fs, ctx, u, Any(cs), t).0;
            var sv := EvalList(fs, ctx, u, cs, t[Any(cs) := None]).0;
            && (r.None? <==> sv == [])
            && (r == Some(Pass) <==> exists i :: 0 <= i < |sv| && sv[i].1.Pass?)
            && (r.Some? && r.value.Fail? ==>
                  r.value.causes == Survivors(sv) && forall i :: 0 <= i < |sv| ==> sv[i].1.Fail?)
  {
    assert t[Any(cs) := None].Keys == t.Keys + {Any(cs)};
  }

  /**
   * `Every` visited for the first time, with `sv` its surviving children:
   * undeterminable when none survived, a pass when all of them passed,
   * otherwise a failure listing all the survivors.
   */
  lemma EveryOutcome<F, C>(fs: Facts<F, C>, ctx: C, u: set<Cause<F>>, cs: seq<Cause<F>>, t: Table<F>)
    requires Closed(fs, ctx, u) && Every(cs) in u && t.Keys <= u && Every(cs) !in t
    ensures Explains(fs, ctx, Every(cs)) == cs
    ensures var r := Eval(fs, ctx, u, Every(cs), t).0;
            var sv := EvalList(fs, ctx, u, cs, t[Every(cs) := None]).0;
            && (r.None? <==> sv == [])
            && (r == Some(Pass) <==> sv != [] && forall i :: 0 <= i < |sv| ==> sv[i].1.Pass?)
            && (r.Some? && r.value.Fail? ==>
                  r.value.causes == Survivors(sv) && exists i :: 0 <= i < |sv| && sv[i].1.Fail?)
  {
    assert t[Every(cs) := None].Keys == t.Keys + {Every(cs)};
  }

  // ---------------------------------------------------------------------
  // Without loops, a traversal decides the root
  // ---------------------------------------------------------------------

  /**
   * The universe has no loop (`depth` falls along every explanation) and
   * no combinator without children.
   */
  ghost predicate Grounded<F, C>(fs: Facts<F, C>, ctx: C, u: set<Cause<F>>, depth: map<Cause<F>, nat>)
  {
    && Closed(fs, ctx, u)
    && (forall k :: k in u ==> k in depth)
    && (forall k, x :: k in u && x in Explains(fs, ctx, k) ==> x in depth && k in depth && depth[x] < depth[k])
    && (forall k :: k in u && !k.Fact? ==> k.causes != [])
  }

  /** The truth of a cause: a fact by its check, `Any` as "or", `Every` as "and". */
  ghost function Holds<F, C>(fs: Facts<F, C>, ctx: C, u: set<Cause<F>>, depth: map<Cause<F>, nat>, c: Cause<F>): bool
    requires Grounded(fs, ctx, u, depth) && c in u
    decreases depth[c]
  {
    match c
    case Fact(f) => fs.check(f, ctx)
    case Any(cs) =>
      assert Explains(fs, ctx, c) == cs;
      exists i :: 0 <= i < |cs| && Holds(fs, ctx, u, depth, cs[i])
    case Every(cs) =>
      assert Explains(fs, ctx, c) == cs;
      forall i :: 0 <= i < |cs| ==> Holds(fs, ctx, u, depth, cs[i])
  }

  /** `v` gives `k` the truth value the logic of facts gives it from its children's values. */
  ghost predicate Rule<F, C>(fs: Facts<F, C>, ctx: C, v: map<Cause<F>, bool>, k: Cause<F>)
    requires k in v && forall x :: x in Explains(fs, ctx, k) ==> x in v
  {
    match k
    case Fact(f) => v[k] == fs.check(f, ctx)
    case Any(cs) => v[k] == exists i :: 0 <= i < |cs| && v[cs[i]]
    case Every(cs) => v[k] == forall i :: 0 <= i < |cs| ==> v[cs[i]]
  }

  /** A truth value for every cause of the universe, each obeying its rule. */
  ghost predicate Valuation<F, C>(fs: Facts<F, C>, ctx: C, u: set<Cause<F>>, v: map<Cause<F>, bool>)
  {
    && Closed(fs, ctx, u)
    && (forall k :: k in u ==> k in v)
    && (forall k :: k in u ==> Rule(fs, ctx, v, k))
  }

  /** `Holds` is such a valuation. */
  lemma HoldsIsValuation<F, C>(fs: Facts<F, C>, ctx: C, u: set<Cause<F>>, depth: map<Cause<F>, nat>)
    requires Grounded(fs, ctx, u, depth)
    ensures Valuation(fs, ctx, u, map k | k in u :: Holds(fs, ctx, u, depth, k))
  {
    var v := map k | k in u :: Holds(fs, ctx, u, depth, k);
    forall k | k in u
      ensures Rule(fs, ctx, v, k)
    {
      match k
      case Fact(f) =>
      case Any(cs) =>
        assert Explains(fs, ctx, k) == cs;
        assert forall i :: 0 <= i < |cs| ==> cs[i] in u && v[cs[i]] == Holds(fs, ctx, u, depth, cs[i]);
      case Every(cs) =>
        assert Explains(fs, ctx, k) == cs;
        assert forall i :: 0 <= i < |cs| ==> cs[i] in u && v[cs[i]] == Holds(fs, ctx, u, depth, cs[i]);
    }
  }

  /** Every resolved entry of the table passes exactly when `v` makes its cause true. */
  ghost predicate Correct<F>(v: map<Cause<F>, bool>, t: Table<F>)
  {
    forall k :: k in t && t[k].Some? ==> k in v && (t[k].value.Pass? <==> v[k])
  }

  /** Every cause under evaluation lies deeper than `lo`. */
  ghost predicate PendingAbove<F>(depth: map<Cause<F>, nat>, t: Table<F>, lo: int)
  {
    forall k :: k in t && t[k].None? ==> k in depth && depth[k] > lo
  }

  /** Every cause under evaluation in `t'` already was in `t`. */
  ghost predicate NoNewPending<F>(t: Table<F>, t': Table<F>)
  {
    forall k :: k in t' && t'[k].None? ==> k in t && t[k].None?
  }

  lemma MarkKeepsCorrect<F>(v: map<Cause<F>, bool>, c: Cause<F>, t: Table<F>)
    requires Correct(v, t)
    ensures Correct(v, t[c := None])
  {
    var t1 := t[c := None];
    forall k | k in t1 && t1[k].Some?
      ensures k in v && (t1[k].value.Pass? <==> v[k])
    {
      assert k != c && t1[k] == t[k];
    }
  }

  lemma AnyDecides<F>(v: map<Cause<F>, bool>, cs: seq<Cause<F>>, sv: seq<Survivor<F>>)
    requires cs != [] && |sv| == |cs| && forall x :: x in cs ==> x in v
    requires forall i :: 0 <= i < |cs| ==> sv[i].0 == cs[i] && (sv[i].1.Pass? <==> v[cs[i]])
    ensures AnyCheck(sv).Some? && (AnyCheck(sv).value.Pass? <==> exists i :: 0 <= i < |cs| && v[cs[i]])
  {
  }

  lemma EveryDecides<F>(v: map<Cause<F>, bool>, cs: seq<Cause<F>>, sv: seq<Survivor<F>>)
    requires cs != [] && |sv| == |cs| && forall x :: x in cs ==> x in v
    requires forall i :: 0 <= i < |cs| ==> sv[i].0 == cs[i] && (sv[i].1.Pass? <==> v[cs[i]])
    ensures EveryCheck(sv).Some? && (EveryCheck(sv).value.Pass? <==> forall i :: 0 <= i < |cs| ==> v[cs[i]])
  {
  }

  lemma ResolveKeepsCorrect<F>(v: map<Cause<F>, bool>, t: Table<F>, c: Cause<F>, check: Check<F>)
    requires Correct(v, t) && c in v && (check.Pass? <==> v[c])
    ensures Correct(v, t[c := Some(check)])
  {
  }

  lemma PendingAfterResolve<F>(t: Table<F>, t2: Table<F>, c: Cause<F>, check: Check<F>)
    requires NoNewPending(t, t2)
    ensures forall k :: k in t2[c := Some(check)] && t2[c := Some(check)][k].None? ==> k in t && t[k].None? && k != c
  {
  }

  lemma {:induction false} EvalDecides<F, C>(fs: Facts<F, C>, ctx: C, u: set<Cause<F>>, depth: map<Cause<F>, nat>,
                                             v: map<Cause<F>, bool>, c: Cause<F>, t: Table<F>)
    requires Grounded(fs, ctx, u, depth) && Valuation(fs, ctx, u, v) && c in u && t.Keys <= u
    requires Correct(v, t) && PendingAbove(depth, t, depth[c])
    ensures EvalDecided(v, c, t, Eval(fs, ctx, u, c, t))
    decreases |u - t.Keys|, 1, 0
  {
    if c in t {
      assert t[c].Some?;
    } else {
      EvalFreshDecides(fs, ctx, u, depth, v, c, t);
    }
  }

  /** The first visit of `c`: it is marked, then visited. */
  lemma {:induction false} EvalFreshDecides<F, C>(fs: Facts<F, C>, ctx: C, u: set<Cause<F>>, depth: map<Cause<F>, nat>,
                                                  v: map<Cause<F>, bool>, c: Cause<F>, t: Table<F>)
    requires Grounded(fs, ctx, u, depth) && Valuation(fs, ctx, u, v) && c in u && t.Keys <= u && c !in t
    requires Correct(v, t) && PendingAbove(depth, t, depth[c])
    ensures EvalDecided(v, c, t, Eval(fs, ctx, u, c, t))
    decreases |u - t.Keys|, 0, 0
  {
    var t1 := t[c := None];
    EvalIsVisit(fs, ctx, u, c, t);
    ReadyAfterMark(fs, ctx, u, depth, v, c, t);
    VisitDecides(fs, ctx, u, depth, v, c, t1);
    PendingAfterVisit(t, c, Visit(fs, ctx, u, c, t1).1);
  }

  /** The evaluation of an unvisited cause is its visit once marked. */
  lemma EvalIsVisit<F, C>(fs: Facts<F, C>, ctx: C, u: set<Cause<F>>, c: Cause<F>, t: Table<F>)
    requires Closed(fs, ctx, u) && c in u && t.Keys <= u && c !in t
    ensures t[c := None].Keys <= u && |u - t[c := None].Keys| < |u - t.Keys|
    ensures Eval(fs, ctx, u, c, t) == Visit(fs, ctx, u, c, t[c := None])
  {
    UnvisitedDrops(u, t.Keys, c);
    assert t[c := None].Keys == t.Keys + {c};
  }

  lemma ReadyAfterMark<F, C>(fs: Facts<F, C>, ctx: C, u: set<Cause<F>>, depth: map<Cause<F>, nat>,
                             v: map<Cause<F>, bool>, c: Cause<F>, t: Table<F>)
    requires Grounded(fs, ctx, u, depth) && Valuation(fs, ctx, u, v) && c in u && t.Keys <= u && c !in t
    requires Correct(v, t) && PendingAbove(depth, t, depth[c])
    ensures VisitReady(fs, ctx, u, depth, v, c, t[c := None])
  {
    MarkKeepsCorrect(v, c, t);
  }

  lemma PendingAfterVisit<F>(t: Table<F>, c: Cause<F>, t': Table<F>)
    requires forall k :: k in t' && t'[k].None? ==> k in t[c := None] && t[c := None][k].None? && k != c
    ensures NoNewPending(t, t')
  {
    forall k | k in t' && t'[k].None?
      ensures k in t && t[k].None?
    {
      assert k in t[c := None] && k != c;
    }
  }

  /** What `EvalDecides` promises about the evaluation of `c` from `t`. */
  ghost predicate EvalDecided<F>(v: map<Cause<F>, bool>, c: Cause<F>, t: Table<F>, out: (Option<Check<F>>, Table<F>))
    requires c in v
  {
    && out.0.Some? && (out.0.value.Pass? <==> v[c])
    && Correct(v, out.1) && NoNewPending(t, out.1)
  }

  /** What `EvalListDecides` promises: every child survives, with its truth value. */
  ghost predicate ListDecided<F>(v: map<Cause<F>, bool>, cs: seq<Cause<F>>, t: Table<F>, out: (seq<Survivor<F>>, Table<F>))
    requires forall x :: x in cs ==> x in v
  {
    && |out.0| == |cs|
    && (forall i :: 0 <= i < |cs| ==> out.0[i].0 == cs[i] && (out.0[i].1.Pass? <==> v[cs[i]]))
    && Correct(v, out.1) && NoNewPending(t, out.1)
  }

  /** What `VisitDecides` and its cases promise about the visit of `c` from `t`. */
  ghost predicate VisitDecided<F>(v: map<Cause<F>, bool>, c: Cause<F>, t: Table<F>, out: (Option<Check<F>>, Table<F>))
    requires c in v
  {
    && out.0.Some? && (out.0.value.Pass? <==> v[c])
    && Correct(v, out.1)
    && forall k :: k in out.1 && out.1[k].None? ==> k in t && t[k].None? && k != c
  }

  /** What `VisitDecides` and its cases ask of the visit of `c` from `t`. */
  ghost predicate VisitReady<F, C>(fs: Facts<F, C>, ctx: C, u: set<Cause<F>>, depth: map<Cause<F>, nat>,
                                   v: map<Cause<F>, bool>, c: Cause<F>, t: Table<F>)
  {
    && Grounded(fs, ctx, u, depth) && Valuation(fs, ctx, u, v)
    && c in u && t.Keys <= u && c in t && t[c].None?
    && Correct(v, t)
    && forall k :: k in t && t[k].None? && k != c ==> k in depth && depth[k] > depth[c]
  }

  lemma {:induction false} VisitDecides<F, C>(fs: Facts<F, C>, ctx: C, u: set<Cause<F>>, depth: map<Cause<F>, nat>,
                                              v: map<Cause<F>, bool>, c: Cause<F>, t: Table<F>)
    requires VisitReady(fs, ctx, u, depth, v, c, t)
    ensures VisitDecided(v, c, t, Visit(fs, ctx, u, c, t))
    decreases |u - t.Keys|, 4, 0
  {
    match c
    case Fact(f) => VisitFactDecides(fs, ctx, u, depth, v, f, t);
    case Any(cs) => VisitAnyDecides(fs, ctx, u, depth, v, cs, t);
    case Every(cs) => VisitEveryDecides(fs, ctx, u, depth, v, cs, t);
  }

  lemma {:induction false} VisitFactDecides<F, C>(fs: Facts<F, C>, ctx: C, u: set<Cause<F>>, depth: map<Cause<F>, nat>,
                                                  v: map<Cause<F>, bool>, f: F, t: Table<F>)
    requires VisitReady(fs, ctx, u, depth, v, Fact(f), t)
    ensures VisitDecided(v, Fact(f), t, Visit(fs, ctx, u, Fact(f), t))
    decreases |u - t.Keys|, 3, 0
  {
    var c := Fact(f);
    assert Rule(fs, ctx, v, c);
    if fs.check(f, ctx) {
      assert Visit(fs, ctx, u, c, t) == (Some(Pass), t[c := Some(Pass)]);
      ResolveKeepsCorrect(v, t, c, Pass);
      PendingAfterResolve(t, t, c, Pass);
    } else if fs.cause(f, ctx).None? {
      assert Visit(fs, ctx, u, c, t) == (Some(Fail([])), t[c := Some(Fail([]))]);
      ResolveKeepsCorrect(v, t, c, Fail([]));
      PendingAfterResolve(t, t, c, Fail([]));
    } else {
      var d := fs.cause(f, ctx).value;
      assert d in Explains(fs, ctx, c);
      EvalDecides(fs, ctx, u, depth, v, d, t);
      var (r, t2) := Eval(fs, ctx, u, d, t);
      assert Visit(fs, ctx, u, c, t) == (Some(Fail([d])), t2[c := Some(Fail([d]))]);
      ResolveKeepsCorrect(v, t2, c, Fail([d]));
      PendingAfterResolve(t, t2, c, Fail([d]));
    }
  }

  lemma {:induction false} VisitAnyDecides<F, C>(fs: Facts<F, C>, ctx: C, u: set<Cause<F>>, depth: map<Cause<F>, nat>,
                                                 v: map<Cause<F>, bool>, cs: seq<Cause<F>>, t: Table<F>)
    requires VisitReady(fs, ctx, u, depth, v, Any(cs), t)
    ensures VisitDecided(v, Any(cs), t, Visit(fs, ctx, u, Any(cs), t))
    decreases |u - t.Keys|, 3, 0
  {
    var c := Any(cs);
    assert Rule(fs, ctx, v, c);
    assert Explains(fs, ctx, c) == cs && cs[0] in cs;
    EvalListDecides(fs, ctx, u, depth, v, cs, t, depth[c] as int - 1);
    var (sv, t2) := EvalList(fs, ctx, u, cs, t);
    var r := AnyCheck(sv);
    assert Visit(fs, ctx, u, c, t) == (r, t2[c := r]);
    AnyDecides(v, cs, sv);
    ResolveKeepsCorrect(v, t2, c, r.value);
    PendingAfterResolve(t, t2, c, r.value);
  }

  lemma {:induction false} VisitEveryDecides<F, C>(fs: Facts<F, C>, ctx: C, u: set<Cause<F>>, depth: map<Cause<F>, nat>,
                                                   v: map<Cause<F>, bool>, cs: seq<Cause<F>>, t: Table<F>)
    requires VisitReady(fs, ctx, u, depth, v, Every(cs), t)
    ensures VisitDecided(v, Every(cs), t, Visit(fs, ctx, u, Every(cs), t))
    decreases |u - t.Keys|, 3, 0
  {
    var c := Every(cs);
    assert Rule(fs, ctx, v, c);
    assert Explains(fs, ctx, c) == cs && cs[0] in cs;
    EvalListDecides(fs, ctx, u, depth, v, cs, t, depth[c] as int - 1);
    var (sv, t2) := EvalList(fs, ctx, u, cs, t);
    var r := EveryCheck(sv);
    assert Visit(fs, ctx, u, c, t) == (r, t2[c := r]);
    EveryDecides(v, cs, sv);
    ResolveKeepsCorrect(v, t2, c, r.value);
    PendingAfterResolve(t, t2, c, r.value);
  }

  lemma {:induction false} EvalListDecides<F, C>(fs: Facts<F, C>, ctx: C, u: set<Cause<F>>, depth: map<Cause<F>, nat>,
                                                 v: map<Cause<F>, bool>, cs: seq<Cause<F>>, t: Table<F>, lo: int)
    requires Grounded(fs, ctx, u, depth) && Valuation(fs, ctx, u, v)
    requires (forall x :: x in cs ==> x in u) && t.Keys <= u
    requires forall x :: x in cs ==> depth[x] <= lo
    requires Correct(v, t) && PendingAbove(depth, t, lo)
    ensures ListDecided(v, cs, t, EvalList(fs, ctx, u, cs, t))
    decreases |u - t.Keys|, 2, 2 * |cs| + 1
  {
    if cs != [] {
      var init, last := cs[..|cs| - 1], cs[|cs| - 1];
      assert cs == init + [last];
      assert forall x :: x in init ==> x in cs;
      EvalListSnocDecides(fs, ctx, u, depth, v, init, last, t, lo);
    }
  }

  /** The children but the last, then the last. */
  lemma {:induction false} EvalListSnocDecides<F, C>(fs: Facts<F, C>, ctx: C, u: set<Cause<F>>, depth: map<Cause<F>, nat>,
                                                     v: map<Cause<F>, bool>, init: seq<Cause<F>>, last: Cause<F>,
                                                     t: Table<F>, lo: int)
    requires Grounded(fs, ctx, u, depth) && Valuation(fs, ctx, u, v)
    requires (forall x :: x in init ==> x in u) && last in u && t.Keys <= u
    requires (forall x :: x in init ==> depth[x] <= lo) && depth[last] <= lo
    requires Correct(v, t) && PendingAbove(depth, t, lo)
    ensures ListDecided(v, init + [last], t, EvalList(fs, ctx, u, init + [last], t))
    decreases |u - t.Keys|, 2, 2 * |init| + 2
  {
    EvalListDecides(fs, ctx, u, depth, v, init, t, lo);
    var (sv, t1) := EvalList(fs, ctx, u, init, t);
    UnvisitedShrinks(u, t.Keys, t1.Keys);
    PendingStaysAbove(depth, t, t1, lo, depth[last]);
    EvalDecides(fs, ctx, u, depth, v, last, t1);
    var (r, t2) := Eval(fs, ctx, u, last, t1);
    EvalListSnoc(fs, ctx, u, init, last, t);
    AppendDecided(v, init, last, sv, r.value);
    PendingTransitive(t, t1, t2);
  }

  /** Evaluating one more child at the end, when it comes back determinable. */
  lemma EvalListSnoc<F, C>(fs: Facts<F, C>, ctx: C, u: set<Cause<F>>, init: seq<Cause<F>>, last: Cause<F>, t: Table<F>)
    requires Closed(fs, ctx, u) && (forall x :: x in init ==> x in u) && last in u && t.Keys <= u
    ensures var (sv, t1) := EvalList(fs, ctx, u, init, t);
            var (r, t2) := Eval(fs, ctx, u, last, t1);
            r.Some? ==> EvalList(fs, ctx, u, init + [last], t) == (sv + [(last, r.value)], t2)
  {
    var cs := init + [last];
    assert cs[..|cs| - 1] == init && cs[|cs| - 1] == last;
  }

  lemma PendingStaysAbove<F>(depth: map<Cause<F>, nat>, t: Table<F>, t1: Table<F>, lo: int, lo1: int)
    requires PendingAbove(depth, t, lo) && NoNewPending(t, t1) && lo1 <= lo
    ensures PendingAbove(depth, t1, lo1)
  {
  }

  lemma PendingTransitive<F>(t: Table<F>, t1: Table<F>, t2: Table<F>)
    requires NoNewPending(t, t1) && NoNewPending(t1, t2)
    ensures NoNewPending(t, t2)
  {
  }

  lemma AppendDecided<F>(v: map<Cause<F>, bool>, init: seq<Cause<F>>, last: Cause<F>, sv: seq<Survivor<F>>, check: Check<F>)
    requires last in v && (check.Pass? <==> v[last])
    requires |sv| == |init|
    requires forall i :: 0 <= i < |init| ==> init[i] in v && sv[i].0 == init[i] && (sv[i].1.Pass? <==> v[init[i]])
    ensures var cs, sv' := init + [last], sv + [(last, check)];
            && |sv'| == |cs|
            && forall i :: 0 <= i < |cs| ==> sv'[i].0 == cs[i] && (sv'[i].1.Pass? <==> v[cs[i]])
  {
  }

  /**
   * Without loops and empty combinators a traversal is never groundless,
   * and it passes exactly when the root holds.
   */
  lemma TraverseDecides<F(!new), C>(fs: Facts<F, C>, ctx: C, u: set<Cause<F>>, depth: map<Cause<F>, nat>,
                                    root: Cause<F>, tr: Aitia.Traversal<F>)
    requires Grounded(fs, ctx, u, depth) && root in u && Aitia.Describes(fs, ctx, u, root, tr)
    ensures !tr.Groundless?
    ensures tr.Pass? <==> Holds(fs, ctx, u, depth, root)
  {
    HoldsIsValuation(fs, ctx, u, depth);
    var v := map k | k in u :: Holds(fs, ctx, u, depth, k);
    EvalDecides(fs, ctx, u, depth, v, root, map[]);
  }

  // ---------------------------------------------------------------------
  // Small traversals
  // ---------------------------------------------------------------------

  /** A failing fact that names itself as its cause loops, so the traversal is groundless. */
  lemma SelfLoopIsGroundless<F(!new), C>(fs: Facts<F, C>, ctx: C, u: set<Cause<F>>, f: F, tr: Aitia.Traversal<F>)
    requires Closed(fs, ctx, u) && Fact(f) in u
    requires !fs.check(f, ctx) && fs.cause(f, ctx) == Some(Fact(f))
    requires Aitia.Describes(fs, ctx, u, Fact(f), tr)
    ensures tr.Groundless?
  {
    var c := Fact(f);
    var t0: Table<F> := map[];
    var t1 := t0[c := None];
    assert c in Explains(fs, ctx, c);
    assert Eval(fs, ctx, u, c, t1) == (None, t1);
    assert Eval(fs, ctx, u, c, t0).0 == None;
  }

  /** A combinator with no children is groundless, though nothing loops. */
  lemma EmptyCombinatorIsGroundless<F(!new), C>(fs: Facts<F, C>, ctx: C, u: set<Cause<F>>, c: Cause<F>, tr: Aitia.Traversal<F>)
    requires Closed(fs, ctx, u) && c in u && (c == Any([]) || c == Every([]))
    requires Aitia.Describes(fs, ctx, u, c, tr)
    ensures tr.Groundless?
  {
    var t0: Table<F> := map[];
    assert Eval(fs, ctx, u, c, t0).0 == None;
  }

  /**
   * A failing fact with no cause: the graph is that one failure, with no
   * edge, and nothing passes.
   */
  lemma LoneFailure<F(!new), C>(fs: Facts<F, C>, ctx: C, u: set<Cause<F>>, f: F, tr: Aitia.Traversal<F>)
    requires Closed(fs, ctx, u) && Fact(f) in u
    requires !fs.check(f, ctx) && fs.cause(f, ctx).None?
    requires Aitia.Describes(fs, ctx, u, Fact(f), tr)
    ensures tr.Fail? && tr.graph.nodes == [Fact(f)] && tr.graph.edges == [] && tr.passes == []
  {
    var c := Fact(f);
    var t0: Table<F> := map[];
    var t1 := t0[c := None];
    var t := t0[c := Some(Fail([]))];
    assert Visit(fs, ctx, u, c, t1) == (Some(Fail([])), t1[c := Some(Fail([]))]);
    assert t1[c := Some(Fail([]))] == t;
    assert Eval(fs, ctx, u, c, t0) == (Some(Fail([])), t);
    assert FailList(t, c) == [];
    forall k | Reachable(t, c, k)
      ensures k == c
    {
      var p :| IsTrail(t, p) && p[0] == c && p[|p| - 1] == k;
      TrailEndsAtLeaf(t, p, 0);
    }
    assert IsTrail(t, [c]);
    assert Reachable(t, c, c);
    OnlyNode(tr.graph.nodes, c);
    NoMemberIsEmpty(tr.passes);
    NoMemberIsEmpty(tr.graph.edges);
  }

  /**
   * A failing fact whose cause passes: the graph is the failure alone, the
   * passing cause is reported among the passes and is not a node.
   */
  lemma FailureWithPassingCause<F(!new), C>(fs: Facts<F, C>, ctx: C, u: set<Cause<F>>, f: F, g: F, tr: Aitia.Traversal<F>)
    requires Closed(fs, ctx, u) && Fact(f) in u
    requires !fs.check(f, ctx) && fs.cause(f, ctx) == Some(Fact(g)) && fs.check(g, ctx)
    requires Aitia.Describes(fs, ctx, u, Fact(f), tr)
    ensures tr.Fail? && tr.graph.nodes == [Fact(f)] && tr.graph.edges == []
    ensures forall k :: k in tr.passes <==> k == Fact(g)
  {
    var c, d := Fact(f), Fact(g);
    var t: Table<F> := map[c := Some(Fail([d])), d := Some(Pass)];
    PassingCauseTable(fs, ctx, u, f, g);
    assert FailList(t, c) == [d] && FailList(t, d) == [];
    forall k | Reachable(t, c, k)
      ensures k == c || k == d
    {
      var p :| IsTrail(t, p) && p[0] == c && p[|p| - 1] == k;
      if |p| > 1 {
        assert p[1] in FailList(t, p[0]);
        TrailEndsAtLeaf(t, p, 1);
      }
    }
    assert IsTrail(t, [c]) && IsTrail(t, [c, d]);
    assert Reachable(t, c, c) && Reachable(t, c, d);
    OnlyNode(tr.graph.nodes, c);
    NoMemberIsEmpty(tr.graph.edges);
  }

  /**
   * `Every([Fact(p), Fact(q)])` where `p` passes and `q` fails with that
   * same `Every` as its cause: `q` meets the `Every` still under evaluation,
   * so `q` is dropped as undeterminable and the `Every` passes on `p` alone,
   * although one of its facts is false.
   */
  lemma LoopDroppedFromEvery<F(!new), C>(fs: Facts<F, C>, ctx: C, u: set<Cause<F>>, p: F, q: F, tr: Aitia.Traversal<F>)
    requires Closed(fs, ctx, u) && Every([Fact(p), Fact(q)]) in u
    requires fs.check(p, ctx) && !fs.check(q, ctx) && fs.cause(q, ctx) == Some(Every([Fact(p), Fact(q)]))
    requires Aitia.Describes(fs, ctx, u, Every([Fact(p), Fact(q)]), tr)
    ensures tr.Pass?
  {
    var P, Q := Fact(p), Fact(q);
    var e := Every([P, Q]);
    assert Explains(fs, ctx, e) == [P, Q];
    assert P in u && Q in u;
    assert e in Explains(fs, ctx, Q);
    var t0: Table<F> := map[];
    var t1 := t0[e := None];
    var t2 := t1[P := Some(Pass)];
    var t3 := t2[Q := None];
    assert Visit(fs, ctx, u, P, t1[P := None]) == (Some(Pass), t1[P := None][P := Some(Pass)]);
    assert t1[P := None][P := Some(Pass)] == t2;
    assert Eval(fs, ctx, u, P, t1) == (Some(Pass), t2);
    assert EvalList(fs, ctx, u, [P], t1) == ([(P, Pass)], t2) by {
      assert [P][..0] == [];
      assert EvalList(fs, ctx, u, [], t1) == ([], t1);
      var none: seq<Survivor<F>> := [];
      assert none + [(P, Pass)] == [(P, Pass)];
    }
    assert Eval(fs, ctx, u, e, t3) == (None, t3);
    assert Eval(fs, ctx, u, Q, t2) == (None, t3);
    assert EvalList(fs, ctx, u, [P, Q], t1) == ([(P, Pass)], t3) by {
      assert [P, Q][..1] == [P];
    }
    assert EveryCheck([(P, Pass)]) == Some(Pass);
    assert Eval(fs, ctx, u, e, t0).0 == Some(Pass);
  }

  /** The table a failing fact with a passing cause leaves behind. */
  lemma PassingCauseTable<F, C>(fs: Facts<F, C>, ctx: C, u: set<Cause<F>>, f: F, g: F)
    requires Closed(fs, ctx, u) && Fact(f) in u
    requires !fs.check(f, ctx) && fs.cause(f, ctx) == Some(Fact(g)) && fs.check(g, ctx)
    ensures Eval(fs, ctx, u, Fact(f), map[]) == (Some(Fail([Fact(g)])), map[Fact(f) := Some(Fail([Fact(g)])), Fact(g) := Some(Pass)])
  {
    var c, d := Fact(f), Fact(g);
    assert d in Explains(fs, ctx, c);
    var t0: Table<F> := map[];
    var t1 := t0[c := None];
    var t2 := t1[d := Some(Pass)];
    assert f != g && d !in t1;
    var t3 := t1[d := None];
    assert Visit(fs, ctx, u, d, t3) == (Some(Pass), t3[d := Some(Pass)]);
    assert t3[d := Some(Pass)] == t2;
    assert Eval(fs, ctx, u, d, t1) == (Some(Pass), t2);
    assert t2[c := Some(Fail([d]))] == map[c := Some(Fail([d])), d := Some(Pass)];
  }

  /** A repeat-free sequence whose only element is `c`, which it holds, is `[c]`. */
  lemma OnlyNode<T>(s: seq<T>, c: T)
    requires Distinct(s) && c in s && forall x :: x in s ==> x == c
    ensures s == [c]
  {
    var elems := set i | 0 <= i < |s| :: s[i];
    DistinctCount(s);
    forall i | 0 <= i < |s|
      ensures s[i] == c
    {
      assert s[i] in s;
    }
    var j :| 0 <= j < |s| && s[j] == c;
    assert elems == {c};
  }

  /** A trail stops at the first cause whose failure list is empty. */
  lemma TrailEndsAtLeaf<F>(t: Table<F>, p: seq<Cause<F>>, i: nat)
    requires IsTrail(t, p) && i < |p| && FailList(t, p[i]) == []
    ensures |p| == i + 1
  {
    assert forall j {:trigger FailList(t, p[j])} :: 0 <= j < |p| - 1 ==> p[j + 1] in FailList(t, p[j]);
  }

  /** A sequence with no member is empty. */
  lemma NoMemberIsEmpty<T>(s: seq<T>)
    requires forall x :: x !in s
    ensures s == []
  {
    forall x
      ensures multiset(s)[x] == 0
    {
      assert x !in s;
    }
    assert multiset(s) == multiset{};
  }
}
