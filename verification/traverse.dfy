/**
 * The memoised evaluation of a cause (`traverse_inner` in
 * crates/aitia/src/graph.rs).
 *
 * The traversal table maps a cause to one of three states:
 * absent (not visited yet), `Some(None)` (being evaluated further up the
 * call stack) and `Some(Some(check))` (resolved). Here the inner option is
 * the `Option` value stored under the key, so "absent" is `c !in t`.
 *
 * `Eval`/`EvalList` are the specification, written as functions that take
 * and return the table; `TraverseInner`/`TraverseChildren` are the
 * imperative evaluator, proved equal to them.
 *
 * Termination: `cause()` creates causes lazily, so the recursion is not
 * structural. Every cause the traversal can reach lies in a finite ghost
 * universe `u` closed under `Explains`, and each call that recurses first
 * inserts its own, previously absent, cause; `|u - t.Keys|` decreases.
 */
module AitiaTraverse {
  import opened Wrappers
  import opened AitiaCause

  /** `TraversalMap`: None marks a cause under evaluation, Some(check) a resolved one. */
  type Table<F(==)> = map<Cause<F>, Option<Check<F>>>

  /** A child that came back determinable, with its check. */
  type Survivor<F> = (Cause<F>, Check<F>)

  // ---------------------------------------------------------------------
  // Combining the checks of the surviving children
  // ---------------------------------------------------------------------

  /** The causes of the surviving children, in order. */
  function Survivors<F>(sv: seq<Survivor<F>>): (r: seq<Cause<F>>)
    ensures |r| == |sv|
    ensures forall i :: 0 <= i < |sv| ==> r[i] == sv[i].0
  {
    if sv == [] then [] else [sv[0].0] + Survivors(sv[1..])
  }

  /** The causes of the surviving children that failed, in order. */
  function Failing<F>(sv: seq<Survivor<F>>): (r: seq<Cause<F>>)
    ensures |r| <= |sv|
    ensures |r| == |sv| <==> forall i :: 0 <= i < |sv| ==> sv[i].1.Fail?
    ensures |r| == 0 <==> forall i :: 0 <= i < |sv| ==> sv[i].1.Pass?
    ensures |r| == |sv| ==> r == Survivors(sv)
  {
    if sv == [] then []
    else
      var rest := Failing(sv[1..]);
      assert forall i :: 1 <= i < |sv| ==> sv[i] == sv[1..][i - 1];
      if sv[0].1.Fail? then [sv[0].0] + rest else rest
  }

  /**
   * `Cause::Any`: undeterminable when every child was; a pass when some
   * surviving child passed; otherwise a failure listing every survivor,
   * all of which failed.
   */
  function AnyCheck<F>(sv: seq<Survivor<F>>): (r: Option<Check<F>>)
    ensures r.None? <==> sv == []
    ensures r == Some(Pass) <==> exists i :: 0 <= i < |sv| && sv[i].1.Pass?
    ensures r.Some? && r.value.Fail? ==>
              r.value.causes == Survivors(sv) && forall i :: 0 <= i < |sv| ==> sv[i].1.Fail?
  {
    if sv == [] then None
    else
      var fails := Failing(sv);
      if |fails| < |sv| then Some(Pass) else Some(Fail(fails))
  }

  /**
   * `Cause::Every`: undeterminable when every child was; a pass when no
   * surviving child failed; otherwise a failure listing every survivor,
   * the passing ones included.
   */
  function EveryCheck<F>(sv: seq<Survivor<F>>): (r: Option<Check<F>>)
    ensures r.None? <==> sv == []
    ensures r == Some(Pass) <==> sv != [] && forall i :: 0 <= i < |sv| ==> sv[i].1.Pass?
    ensures r.Some? && r.value.Fail? ==>
              r.value.causes == Survivors(sv) && exists i :: 0 <= i < |sv| && sv[i].1.Fail?
  {
    if sv == [] then None
    else if |Failing(sv)| == 0 then Some(Pass)
    else Some(Fail(Survivors(sv)))
  }

  // ---------------------------------------------------------------------
  // Counting unvisited causes
  // ---------------------------------------------------------------------

  lemma UnvisitedShrinks<T>(u: set<T>, a: set<T>, b: set<T>)
    requires a <= b
    ensures |u - b| <= |u - a|
  {
    var lost := (u - a) - (u - b);
    assert u - a == (u - b) + lost;
    assert (u - b) * lost == {};
  }

  lemma UnvisitedDrops<T>(u: set<T>, a: set<T>, x: T)
    requires x in u && x !in a
    ensures |u - (a + {x})| < |u - a|
  {
    assert u - a == (u - (a + {x})) + {x};
  }

  // ---------------------------------------------------------------------
  // The specification of the evaluator
  // ---------------------------------------------------------------------

  /**
   * The evaluation of `c` against table `t`: the result (None when the
   * cause is undeterminable because of a loop) and the table afterwards.
   * Existing entries are never changed, only new causes are added, and
   * the table ends up mapping `c` to the returned value.
   */
  ghost function Eval<F, C>(fs: Facts<F, C>, ctx: C, u: set<Cause<F>>, c: Cause<F>, t: Table<F>)
    : (out: (Option<Check<F>>, Table<F>))
    requires Closed(fs, ctx, u) && c in u && t.Keys <= u
    ensures out.1.Keys <= u
    ensures forall k :: k in t ==> k in out.1 && out.1[k] == t[k]
    ensures c in out.1 && out.1[c] == out.0
    decreases |u - t.Keys|, 0, 0
  {
    if c in t then (t[c], t)
    else
      UnvisitedDrops(u, t.Keys, c);
      assert t[c := None].Keys == t.Keys + {c};
      Visit(fs, ctx, u, c, t[c := None])
  }

  /**
   * The evaluation of `c` once it is marked as under evaluation in `t`:
   * a fact by its own check, a combinator from its surviving children.
   * The result is recorded for `c` only when it is determinable.
   */
  ghost function Visit<F, C>(fs: Facts<F, C>, ctx: C, u: set<Cause<F>>, c: Cause<F>, t: Table<F>)
    : (out: (Option<Check<F>>, Table<F>))
    requires Closed(fs, ctx, u) && c in u && t.Keys <= u && c in t && t[c].None?
    ensures out.1.Keys <= u
    ensures forall k :: k in t && k != c ==> k in out.1 && out.1[k] == t[k]
    ensures c in out.1 && out.1[c] == out.0
    decreases |u - t.Keys|, 2, 0
  {
    match c
    case Fact(f) =>
      if fs.check(f, ctx) then (Some(Pass), t[c := Some(Pass)])
      else if fs.cause(f, ctx).None? then (Some(Fail([])), t[c := Some(Fail([]))])
      else
        var d := fs.cause(f, ctx).value;
        assert d in Explains(fs, ctx, c);
        var (r, t2) := Eval(fs, ctx, u, d, t);
        if r.None? then (None, t2) else (Some(Fail([d])), t2[c := Some(Fail([d]))])
    case Any(cs) =>
      assert Explains(fs, ctx, c) == cs;
      var (sv, t2) := EvalList(fs, ctx, u, cs, t);
      var r := AnyCheck(sv);
      (r, if r.None? then t2 else t2[c := r])
    case Every(cs) =>
      assert Explains(fs, ctx, c) == cs;
      var (sv, t2) := EvalList(fs, ctx, u, cs, t);
      var r := EveryCheck(sv);
      (r, if r.None? then t2 else t2[c := r])
  }

  /**
   * The evaluation of a combinator's children from left to right: the
   * children that came back determinable, in order, with their checks, and
   * the table afterwards. Each survivor is recorded as resolved.
   */
  ghost function EvalList<F, C>(fs: Facts<F, C>, ctx: C, u: set<Cause<F>>, cs: seq<Cause<F>>, t: Table<F>)
    : (out: (seq<Survivor<F>>, Table<F>))
    requires Closed(fs, ctx, u) && (forall x :: x in cs ==> x in u) && t.Keys <= u
    ensures out.1.Keys <= u
    ensures forall k :: k in t ==> k in out.1 && out.1[k] == t[k]
    ensures |out.0| <= |cs|
    ensures forall i :: 0 <= i < |out.0| ==>
              out.0[i].0 in cs && out.0[i].0 in out.1 && out.1[out.0[i].0] == Some(out.0[i].1)
    decreases |u - t.Keys|, 1, |cs|
  {
    if cs == [] then ([], t)
    else
      var last := cs[|cs| - 1];
      var (sv, t1) := EvalList(fs, ctx, u, cs[..|cs| - 1], t);
      UnvisitedShrinks(u, t.Keys, t1.Keys);
      var (r, t2) := Eval(fs, ctx, u, last, t1);
      (if r.None? then sv else sv + [(last, r.value)], t2)
  }

  // ---------------------------------------------------------------------
  // The state of the table after evaluation
  // ---------------------------------------------------------------------

  /** `k` has been evaluated to a check (`Some(Some(check))` in the source). */
  predicate IsResolved<F(==)>(t: Table<F>, k: Cause<F>)
  {
    k in t && t[k].Some?
  }

  predicate IsFail<F(==)>(t: Table<F>, k: Cause<F>)
  {
    IsResolved(t, k) && t[k].value.Fail?
  }

  predicate IsPass<F(==)>(t: Table<F>, k: Cause<F>)
  {
    IsResolved(t, k) && t[k].value.Pass?
  }

  /** The causes that explain `k`'s failure, or [] when `k` has not failed. */
  function FailList<F(==)>(t: Table<F>, k: Cause<F>): seq<Cause<F>>
  {
    if IsFail(t, k) then t[k].value.causes else []
  }

  /**
   * `rank` orders the resolved causes so that every cause in a failure's
   * list is itself resolved and ranked strictly lower. It witnesses that
   * the failures and their explanations form an acyclic graph.
   */
  ghost predicate RankedBy<F>(t: Table<F>, rank: map<Cause<F>, nat>)
  {
    (forall k :: k in t && t[k].Some? ==> k in rank) &&
    (forall k, x :: k in t && x in FailList(t, k) ==>
       IsResolved(t, x) && x in rank && k in rank && rank[x] < rank[k])
  }

  /** Every cause named in a failure is resolved, and failures never explain themselves. */
  ghost predicate Coherent<F(!new)>(t: Table<F>)
  {
    exists rank :: RankedBy(t, rank)
  }

  /** A rank above that of each of `xs`. */
  ghost function Above<F>(rank: map<Cause<F>, nat>, xs: seq<Cause<F>>): (r: nat)
    requires forall x :: x in xs ==> x in rank
    ensures forall x :: x in xs ==> rank[x] < r
  {
    if xs == [] then 0
    else
      var m := Above(rank, xs[1..]);
      if rank[xs[0]] + 1 > m then rank[xs[0]] + 1 else m
  }

  /** The empty table a traversal starts from is coherent. */
  lemma EmptyIsCoherent<F(!new)>(t: Table<F>)
    requires t == map[]
    ensures Coherent(t)
  {
    var rank: map<Cause<F>, nat> := map[];
    assert RankedBy(t, rank);
  }

  /** Marking an absent cause as under evaluation keeps the table coherent. */
  lemma MarkKeepsCoherent<F(!new)>(t: Table<F>, c: Cause<F>)
    requires Coherent(t) && c !in t
    ensures Coherent(t[c := None])
  {
    var rank :| RankedBy(t, rank);
    var t' := t[c := None];
    assert forall k :: IsResolved(t', k) <==> IsResolved(t, k);
    assert forall k :: FailList(t', k) == FailList(t, k);
    assert RankedBy(t', rank);
  }

  /**
   * Resolving a cause under evaluation keeps the table coherent, provided
   * every cause its check names is already resolved.
   */
  lemma ResolveKeepsCoherent<F(!new)>(t: Table<F>, c: Cause<F>, check: Check<F>)
    requires Coherent(t) && c in t && t[c].None?
    requires check.Fail? ==> forall x :: x in check.causes ==> IsResolved(t, x)
    ensures Coherent(t[c := Some(check)])
  {
    var rank :| RankedBy(t, rank);
    var t' := t[c := Some(check)];
    var rank' := rank[c := if check.Fail? then Above(rank, check.causes) else 0];
    forall k | k in t' && t'[k].Some?
      ensures k in rank'
    {
    }
    forall k, x | k in t' && x in FailList(t', k)
      ensures IsResolved(t', x) && x in rank' && k in rank' && rank'[x] < rank'[k]
    {
      if k == c {
        assert x in check.causes && IsResolved(t, x);
      } else {
        assert k in t && FailList(t', k) == FailList(t, k);
        assert IsResolved(t, x) && x != c;
      }
    }
    assert RankedBy(t', rank');
  }

  /** The surviving children of a combinator are resolved in the table that records them. */
  lemma SurvivorsResolved<F, C>(fs: Facts<F, C>, ctx: C, u: set<Cause<F>>, cs: seq<Cause<F>>, t: Table<F>)
    requires Closed(fs, ctx, u) && (forall x :: x in cs ==> x in u) && t.Keys <= u
    ensures var (sv, t') := EvalList(fs, ctx, u, cs, t);
            forall x :: x in Survivors(sv) ==> IsResolved(t', x)
  {
    var (sv, t') := EvalList(fs, ctx, u, cs, t);
    forall x | x in Survivors(sv)
      ensures IsResolved(t', x)
    {
      var i :| 0 <= i < |Survivors(sv)| && Survivors(sv)[i] == x;
      assert sv[i].0 == x;
    }
  }

  /** The children in `cs` that `t` records as resolved, in order and once per occurrence. */
  ghost function ResolvedOf<F>(t: Table<F>, cs: seq<Cause<F>>): seq<Cause<F>>
    decreases |cs|
  {
    if cs == [] then []
    else
      var last := cs[|cs| - 1];
      ResolvedOf(t, cs[..|cs| - 1]) + (if IsResolved(t, last) then [last] else [])
  }

  /** Entries that persist from `t1` to `t2` resolve the same children. */
  lemma {:induction false} ResolvedOfStable<F>(t1: Table<F>, t2: Table<F>, cs: seq<Cause<F>>)
    requires forall x :: x in cs ==> x in t1
    requires forall k :: k in t1 ==> k in t2 && t2[k] == t1[k]
    ensures ResolvedOf(t1, cs) == ResolvedOf(t2, cs)
    decreases |cs|
  {
    if cs != [] {
      var init := cs[..|cs| - 1];
      assert forall x :: x in init ==> x in cs;
      ResolvedOfStable(t1, t2, init);
      assert cs[|cs| - 1] in cs;
    }
  }

  /** Every child is in the table, and the survivors are the resolved children. */
  ghost predicate SurvivorsAreResolved<F>(cs: seq<Cause<F>>, out: (seq<Survivor<F>>, Table<F>))
  {
    (forall x :: x in cs ==> x in out.1) && Survivors(out.0) == ResolvedOf(out.1, cs)
  }

  /**
   * The `filter_map` over the children drops exactly the undeterminable
   * ones: every child ends up in the table, and the survivors are the
   * children resolved there, in order and once per occurrence.
   */
  lemma {:induction false} EvalListSurvivors<F, C>(fs: Facts<F, C>, ctx: C, u: set<Cause<F>>, cs: seq<Cause<F>>, t: Table<F>)
    requires Closed(fs, ctx, u) && (forall x :: x in cs ==> x in u) && t.Keys <= u
    ensures SurvivorsAreResolved(cs, EvalList(fs, ctx, u, cs, t))
    decreases |cs|
  {
    if cs != [] {
      var init, last := cs[..|cs| - 1], cs[|cs| - 1];
      assert forall x :: x in init ==> x in cs;
      EvalListSurvivors(fs, ctx, u, init, t);
      var (sv, t1) := EvalList(fs, ctx, u, init, t);
      UnvisitedShrinks(u, t.Keys, t1.Keys);
      var (r, t2) := Eval(fs, ctx, u, last, t1);
      AppendSurvivor(cs, sv, t1, r, t2);
    }
  }

  /** One more child: it survives exactly when the table resolves it. */
  lemma AppendSurvivor<F>(cs: seq<Cause<F>>, sv: seq<Survivor<F>>, t1: Table<F>, r: Option<Check<F>>, t2: Table<F>)
    requires cs != [] && SurvivorsAreResolved(cs[..|cs| - 1], (sv, t1))
    requires forall k :: k in t1 ==> k in t2 && t2[k] == t1[k]
    requires cs[|cs| - 1] in t2 && t2[cs[|cs| - 1]] == r
    ensures SurvivorsAreResolved(cs, (if r.None? then sv else sv + [(cs[|cs| - 1], r.value)], t2))
  {
    var init, last := cs[..|cs| - 1], cs[|cs| - 1];
    ResolvedOfStable(t1, t2, init);
    var sv2 := if r.None? then sv else sv + [(last, r.value)];
    forall x | x in cs
      ensures x in t2
    {
      if x != last {
        var i :| 0 <= i < |cs| && cs[i] == x;
        assert init[i] == x;
      }
    }
    if r.Some? {
      assert Survivors(sv2) == Survivors(sv) + [last];
    }
  }

  /**
   * Evaluation keeps the table coherent: whatever it resolves names only
   * causes resolved before it. So the lookups of `prune_traversal` never
   * miss, and the failures form a DAG.
   */
  lemma {:induction false} EvalKeepsCoherent<F(!new), C>(fs: Facts<F, C>, ctx: C, u: set<Cause<F>>, c: Cause<F>, t: Table<F>)
    requires Closed(fs, ctx, u) && c in u && t.Keys <= u && Coherent(t)
    ensures Coherent(Eval(fs, ctx, u, c, t).1)
    decreases |u - t.Keys|, 0, 0
  {
    if c !in t {
      UnvisitedDrops(u, t.Keys, c);
      var t1 := t[c := None];
      assert t1.Keys == t.Keys + {c};
      MarkKeepsCoherent(t, c);
      VisitKeepsCoherent(fs, ctx, u, c, t1);
    }
  }

  lemma {:induction false} VisitKeepsCoherent<F(!new), C>(fs: Facts<F, C>, ctx: C, u: set<Cause<F>>, c: Cause<F>, t: Table<F>)
    requires Closed(fs, ctx, u) && c in u && t.Keys <= u && c in t && t[c].None? && Coherent(t)
    ensures Coherent(Visit(fs, ctx, u, c, t).1)
    decreases |u - t.Keys|, 2, 0
  {
    match c
    case Fact(f) =>
      if fs.check(f, ctx) {
        ResolveKeepsCoherent(t, c, Pass);
      } else if fs.cause(f, ctx).None? {
        ResolveKeepsCoherent(t, c, Fail([]));
      } else {
        var d := fs.cause(f, ctx).value;
        assert d in Explains(fs, ctx, c);
        EvalKeepsCoherent(fs, ctx, u, d, t);
        var (r, t2) := Eval(fs, ctx, u, d, t);
        if r.Some? {
          ResolveKeepsCoherent(t2, c, Fail([d]));
        }
      }
    case Any(cs) =>
      assert Explains(fs, ctx, c) == cs;
      EvalListKeepsCoherent(fs, ctx, u, cs, t);
      SurvivorsResolved(fs, ctx, u, cs, t);
      var (sv, t2) := EvalList(fs, ctx, u, cs, t);
      var r := AnyCheck(sv);
      if r.Some? {
        ResolveKeepsCoherent(t2, c, r.value);
      }
    case Every(cs) =>
      assert Explains(fs, ctx, c) == cs;
      EvalListKeepsCoherent(fs, ctx, u, cs, t);
      SurvivorsResolved(fs, ctx, u, cs, t);
      var (sv, t2) := EvalList(fs, ctx, u, cs, t);
      var r := EveryCheck(sv);
      if r.Some? {
        ResolveKeepsCoherent(t2, c, r.value);
      }
  }

  lemma {:induction false} EvalListKeepsCoherent<F(!new), C>(fs: Facts<F, C>, ctx: C, u: set<Cause<F>>, cs: seq<Cause<F>>, t: Table<F>)
    requires Closed(fs, ctx, u) && (forall x :: x in cs ==> x in u) && t.Keys <= u && Coherent(t)
    ensures Coherent(EvalList(fs, ctx, u, cs, t).1)
    decreases |u - t.Keys|, 1, |cs|
  {
    if cs != [] {
      EvalListKeepsCoherent(fs, ctx, u, cs[..|cs| - 1], t);
      var (sv, t1) := EvalList(fs, ctx, u, cs[..|cs| - 1], t);
      UnvisitedShrinks(u, t.Keys, t1.Keys);
      EvalKeepsCoherent(fs, ctx, u, cs[|cs| - 1], t1);
    }
  }

  // ---------------------------------------------------------------------
  // The evaluator
  // ---------------------------------------------------------------------

  /** `traverse_inner`: evaluates `cause`, threading the traversal table through. */
  method TraverseInner<F(==), C>(fs: Facts<F, C>, ctx: C, ghost u: set<Cause<F>>, cause: Cause<F>, table: Table<F>)
    returns (r: Option<Check<F>>, table': Table<F>)
    requires Closed(fs, ctx, u) && cause in u && table.Keys <= u
    ensures (r, table') == Eval(fs, ctx, u, cause, table)
    decreases |u - table.Keys|, 0, 0
  {
    if cause in table {
      assert Eval(fs, ctx, u, cause, table) == (table[cause], table);
      match table[cause]
      case None =>
        // a loop: this cause is being evaluated further up
        return None, table;
      case Some(check) =>
        // resolved before: the cached check
        return Some(check), table;
    }
    // mark as visited but undetermined, in case the traversal loops back
    table' := table[cause := None];
    UnvisitedDrops(u, table.Keys, cause);
    assert table'.Keys == table.Keys + {cause};
    ghost var marked := table';
    assert Eval(fs, ctx, u, cause, table) == Visit(fs, ctx, u, cause, marked);
    var check: Check<F>;
    match cause {
      case Fact(f) =>
        if fs.check(f, ctx) {
          check := Pass;
          assert Visit(fs, ctx, u, cause, marked) == (Some(check), table'[cause := Some(check)]);
        } else {
          match fs.cause(f, ctx)
          case Some(next) =>
            assert next in Explains(fs, ctx, cause);
            var sub;
            sub, table' := TraverseInner(fs, ctx, u, next, table');
            if sub.None? {
              return None, table';
            }
            check := Fail([next]);
            assert Visit(fs, ctx, u, cause, marked) == (Some(check), table'[cause := Some(check)]);
          case None =>
            check := Fail([]);
            assert Visit(fs, ctx, u, cause, marked) == (Some(check), table'[cause := Some(check)]);
        }
      case Any(cs) =>
        assert Explains(fs, ctx, cause) == cs;
        var checks;
        checks, table' := TraverseChildren(fs, ctx, u, cs, table');
        if checks == [] {
          // all loops
          return None, table';
        }
        var fails := Failing(checks);
        check := if |fails| < |checks| then Pass else Fail(fails);
        assert Visit(fs, ctx, u, cause, marked) == (Some(check), table'[cause := Some(check)]);
      case Every(cs) =>
        assert Explains(fs, ctx, cause) == cs;
        var checks;
        checks, table' := TraverseChildren(fs, ctx, u, cs, table');
        if checks == [] {
          // all loops
          return None, table';
        }
        var fails := |Failing(checks)|;
        check := if fails == 0 then Pass else Fail(Survivors(checks));
        assert Visit(fs, ctx, u, cause, marked) == (Some(check), table'[cause := Some(check)]);
    }
    table' := table'[cause := Some(check)];
    r := Some(check);
  }

  /** The `filter_map` over a combinator's children: evaluates each, keeping the determinable ones. */
  method TraverseChildren<F(==), C>(fs: Facts<F, C>, ctx: C, ghost u: set<Cause<F>>, cs: seq<Cause<F>>, table: Table<F>)
    returns (checks: seq<Survivor<F>>, table': Table<F>)
    requires Closed(fs, ctx, u) && (forall x :: x in cs ==> x in u) && table.Keys <= u
    ensures (checks, table') == EvalList(fs, ctx, u, cs, table)
    decreases |u - table.Keys|, 1, |cs|
  {
    checks, table' := [], table;
    for i := 0 to |cs|
      invariant (checks, table') == EvalList(fs, ctx, u, cs[..i], table)
    {
      assert cs[..i + 1][..i] == cs[..i];
      UnvisitedShrinks(u, table.Keys, table'.Keys);
      var r;
      r, table' := TraverseInner(fs, ctx, u, cs[i], table');
      if r.Some? {
        checks := checks + [(cs[i], r.value)];
      }
    }
    assert cs[..|cs|] == cs;
  }
}
