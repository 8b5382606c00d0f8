/**
 * Wrappers around a stef state machine: `StoreEffects` queues the effect of
 * every transition for later, `RunEffects` hands each effect to a runner
 * function at once.
 *
 * The wrapped machine is its transition function `step`, from the state
 * and an action to the next state and the effect produced.
 */
module StefCombinators {

  /**
   * The state and the effects, in production order, after the actions `acts`
   * are applied one after another from `s`.
   */
  function Run<S, A, E>(step: (S, A) -> (S, E), s: S, acts: seq<A>): (r: (S, seq<E>))
    ensures |r.1| == |acts|
    decreases |acts|
  {
    if acts == [] then (s, [])
    else
      var (s1, es) := Run(step, s, acts[..|acts| - 1]);
      var (s2, e) := step(s1, acts[|acts| - 1]);
      (s2, es + [e])
  }

  /** Running `xs` and then `ys` is running `xs + ys`. */
  lemma {:induction false} RunAppend<S, A, E>(step: (S, A) -> (S, E), s: S, xs: seq<A>, ys: seq<A>)
    ensures var (s1, es1) := Run(step, s, xs);
            var (s2, es2) := Run(step, s1, ys);
            Run(step, s, xs + ys) == (s2, es1 + es2)
    decreases |ys|
  {
    if ys == [] {
      assert xs + ys == xs;
      assert Run(step, s, xs).1 + [] == Run(step, s, xs).1;
    } else {
      var init := ys[..|ys| - 1];
      assert (xs + ys)[..|xs + ys| - 1] == xs + init;
      assert (xs + ys)[|xs + ys| - 1] == ys[|ys| - 1];
      RunAppend(step, s, xs, init);
      var (s1, es1) := Run(step, s, xs);
      var (s2, es2) := Run(step, s1, init);
      var e := step(s2, ys[|ys| - 1]).1;
      assert es1 + (es2 + [e]) == (es1 + es2) + [e];
    }
  }

  /**
   * The `i`-th effect is the one the `i`-th action produced, from the state
   * the actions before it reached.
   */
  lemma {:induction false} RunEffectAt<S, A, E>(step: (S, A) -> (S, E), s: S, acts: seq<A>, i: nat)
    requires i < |acts|
    ensures Run(step, s, acts).1[i] == step(Run(step, s, acts[..i]).0, acts[i]).1
    decreases |acts|
  {
    var init := acts[..|acts| - 1];
    if i < |acts| - 1 {
      RunEffectAt(step, s, init, i);
      assert init[..i] == acts[..i];
    } else {
      assert init == acts[..i];
    }
  }

  /** The actions of `StoreEffects`'s own action type; not used by the wrappers. */
  datatype Act<A> = Push(action: A) | Pop

  /**
   * `StoreEffects`: the wrapped state and the queue of the effects not yet
   * drained. The ghost fields record the state at the last drain and the
   * actions applied since.
   */
  class StoreEffects<S, A, E> {
    const step: (S, A) -> (S, E)
    var state: S
    var effects: seq<E>
    ghost var origin: S
    ghost var actions: seq<A>

    /** The state and the queue are what the actions since the last drain produced. */
    ghost predicate Valid()
      reads this
    {
      Run(step, origin, actions) == (state, effects)
    }

    /** `StoreEffects::new`: the capacity is ignored and the queue starts empty. */
    constructor (step: (S, A) -> (S, E), state: S, capacity: nat)
      ensures Valid()
      ensures this.step == step && this.state == state && effects == []
      ensures origin == state && actions == []
    {
      this.step := step;
      this.state := state;
      effects := [];
      origin := state;
      actions := [];
    }

    /** `transition`: the wrapped state steps and its effect joins the back of the queue. */
    method Transition(a: A)
      requires Valid()
      modifies this
      ensures Valid()
      ensures state == step(old(state), a).0
      ensures effects == old(effects) + [step(old(state), a).1]
      ensures origin == old(origin) && actions == old(actions) + [a]
    {
      var (next, eff) := step(state, a);
      state := next;
      effects := effects + [eff];
      actions := actions + [a];
      assert actions[..|actions| - 1] == old(actions);
    }

    /** `effects`: the queue, which holds the effects of the actions since the last drain, in order. */
    function Effects(): (r: seq<E>)
      requires Valid()
      reads this
      ensures r == Run(step, origin, actions).1
      ensures |r| == |actions|
    {
      effects
    }

    /**
     * `drain_effects`: every queued effect, oldest first; the queue is left
     * empty and the wrapped state as it was.
     */
    method DrainEffects() returns (r: seq<E>)
      requires Valid()
      modifies this
      ensures Valid()
      ensures r == old(effects) && r == Run(step, old(origin), old(actions)).1
      ensures effects == [] && state == old(state)
      ensures origin == state && actions == []
    {
      r := effects;
      effects := [];
      origin := state;
      actions := [];
    }
  }

  /**
   * `RunEffects`: the wrapped state and a runner that turns each effect
   * into the wrapper's own effect.
   */
  class RunEffects<S, A, E, R> {
    const step: (S, A) -> (S, E)
    const runner: E -> R
    var state: S

    /** `RunEffects::new`. */
    constructor (step: (S, A) -> (S, E), state: S, runner: E -> R)
      ensures this.step == step && this.state == state && this.runner == runner
    {
      this.step := step;
      this.state := state;
      this.runner := runner;
    }

    /** `initial`: the wrapped machine's default state, with the given runner. */
    constructor Initial(step: (S, A) -> (S, E), default: S, runner: E -> R)
      ensures this.step == step && state == default && this.runner == runner
    {
      this.step := step;
      state := default;
      this.runner := runner;
    }

    /** `update`: the wrapped state steps and the runner is applied to its effect. */
    method Update(a: A) returns (r: R)
      modifies this
      ensures state == step(old(state), a).0
      ensures r == runner(step(old(state), a).1)
    {
      var (next, eff) := step(state, a);
      state := next;
      r := runner(eff);
    }
  }

  /**
   * The state and the runner's results after `RunEffects::update` is applied
   * for each of `acts` from `s`.
   */
  function RunAll<S, A, E, R>(step: (S, A) -> (S, E), runner: E -> R, s: S, acts: seq<A>): (r: (S, seq<R>))
    ensures |r.1| == |acts|
    decreases |acts|
  {
    if acts == [] then (s, [])
    else
      var (s1, rs) := RunAll(step, runner, s, acts[..|acts| - 1]);
      var (s2, e) := step(s1, acts[|acts| - 1]);
      (s2, rs + [runner(e)])
  }

  /**
   * Running each effect at once gives what storing them and running them
   * in order afterwards gives: the same state, and the runner's results
   * in production order.
   */
  lemma {:induction false} RunAllIsStoreThenRun<S, A, E, R>(step: (S, A) -> (S, E), runner: E -> R, s: S, acts: seq<A>)
    ensures var (s1, rs) := RunAll(step, runner, s, acts);
            var (s2, es) := Run(step, s, acts);
            s1 == s2 && |rs| == |es| && forall i :: 0 <= i < |es| ==> rs[i] == runner(es[i])
    decreases |acts|
  {
    if acts != [] {
      RunAllIsStoreThenRun(step, runner, s, acts[..|acts| - 1]);
    }
  }
}
