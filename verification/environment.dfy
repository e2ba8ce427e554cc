/**
 The interface of a wrapped environment. Its `step` is modelled as a
 deterministic transition function from a state and a discrete action to the
 next state and the five values a gymnasium step returns. Observations and
 opaque info values are type parameters; rewards are integers.
 */
module Environment {

  /** One `(obs, reward)` entry of the transition log (`prev_steps`). */
  datatype Transition<O> = Transition(obs: O, reward: int)

  /** A value of an info mapping: either an opaque value of the environment,
      or the record an action-repeat wrapper adds under its info key. */
  datatype InfoValue<O, V> =
    | Opaque(value: V)
    | RepeatRecord(prevSteps: seq<Transition<O>>, numSteps: int)

  /** The auxiliary info mapping returned with every step. */
  type Info<O, V> = map<string, InfoValue<O, V>>

  /** What one call of `step` returns: `(obs, reward, terminated, truncated, info)`. */
  datatype StepOutput<O, V> = StepOutput(obs: O, reward: int, terminated: bool, truncated: bool, info: Info<O, V>)
  {
    /** The episode ended at this step. */
    predicate Done() {
      terminated || truncated
    }
  }

  /** The environment's next state together with what its step returned. */
  datatype Next<S, O, V> = Next(state: S, out: StepOutput<O, V>)

  /** A deterministic environment: `step` as a function of the current state. */
  type Dynamics<!S, O, V> = (S, int) -> Next<S, O, V>

  /** The state reached from `s` by `n` plain steps with action `a`. */
  function Run<S, O, V>(dyn: Dynamics<S, O, V>, s: S, a: int, n: nat): S
    decreases n
  {
    if n == 0 then s else Run(dyn, dyn(s, a).state, a, n - 1)
  }

  /** Taking one more plain step from the state after `n` steps gives the
      state after `n + 1` steps. */
  lemma {:induction false} RunSnoc<S, O, V>(dyn: Dynamics<S, O, V>, s: S, a: int, n: nat)
    ensures Run(dyn, s, a, n + 1) == dyn(Run(dyn, s, a, n), a).state
    decreases n
  {
    if n > 0 {
      RunSnoc(dyn, dyn(s, a).state, a, n - 1);
    }
  }

  /** What the `i`-th plain step (counting from 0) with action `a` returns. */
  function PlainOutput<S, O, V>(dyn: Dynamics<S, O, V>, s: S, a: int, i: nat): StepOutput<O, V>
  {
    dyn(Run(dyn, s, a, i), a).out
  }

  /** The reward of the first `n` plain steps with action `a`, summed. */
  function PlainReward<S, O, V>(dyn: Dynamics<S, O, V>, s: S, a: int, n: nat): int
    decreases n
  {
    if n == 0 then 0 else PlainReward(dyn, s, a, n - 1) + PlainOutput(dyn, s, a, n - 1).reward
  }

  /** The rewards of the first `n` entries of a transition log, summed in order. */
  function PrefixReward<O>(log: seq<Transition<O>>, n: nat): int
    requires n <= |log|
    decreases n
  {
    if n == 0 then 0 else PrefixReward(log, n - 1) + log[n - 1].reward
  }

  /** The rewards of a transition log, summed in order. */
  function SumRewards<O>(log: seq<Transition<O>>): int
  {
    PrefixReward(log, |log|)
  }

  /** Prefix sums only look at the entries they cover. */
  lemma {:induction false} PrefixRewardAppend<O>(log: seq<Transition<O>>, t: Transition<O>, n: nat)
    requires n <= |log|
    ensures PrefixReward(log + [t], n) == PrefixReward(log, n)
    decreases n
  {
    if n > 0 {
      PrefixRewardAppend(log, t, n - 1);
    }
  }

  /** Appending a transition adds its reward to the sum. */
  lemma SumRewardsAppend<O>(log: seq<Transition<O>>, t: Transition<O>)
    ensures SumRewards(log + [t]) == SumRewards(log) + t.reward
  {
    PrefixRewardAppend(log, t, |log|);
  }

  /** A log whose entries carry the rewards of the plain steps sums to their reward. */
  lemma {:induction false} PrefixRewardOfPlainSteps<S, O, V>(dyn: Dynamics<S, O, V>, s: S, a: int, log: seq<Transition<O>>, n: nat)
    requires n <= |log|
    requires forall i :: 0 <= i < |log| ==> log[i].reward == PlainOutput(dyn, s, a, i).reward
    ensures PrefixReward(log, n) == PlainReward(dyn, s, a, n)
    decreases n
  {
    if n > 0 {
      PrefixRewardOfPlainSteps(dyn, s, a, log, n - 1);
    }
  }

  /** A log whose entries carry the rewards of the plain steps sums to their reward. */
  lemma SumRewardsOfPlainSteps<S, O, V>(dyn: Dynamics<S, O, V>, s: S, a: int, log: seq<Transition<O>>)
    requires forall i :: 0 <= i < |log| ==> log[i].reward == PlainOutput(dyn, s, a, i).reward
    ensures SumRewards(log) == PlainReward(dyn, s, a, |log|)
  {
    PrefixRewardOfPlainSteps(dyn, s, a, log, |log|);
  }
}
