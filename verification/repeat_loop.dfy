/**
 The repetition loop of the action-repeat wrapper as a pure function: step the
 wrapped environment with one base action up to `k` times, stopping right
 after the first step that reports terminated or truncated.
 */
module RepeatLoop {
  import opened Environment

  /** The environment state after the loop and every step output it produced, in order. */
  datatype RepeatRun<S, O, V> = RepeatRun(state: S, outs: seq<StepOutput<O, V>>)

  /** At most `k` steps; at least one when `k > 0`; and the loop ran short
      only because its last step ended the episode. */
  function Repeat<S, O, V>(dyn: Dynamics<S, O, V>, s: S, a: int, k: nat): (r: RepeatRun<S, O, V>)
    ensures |r.outs| <= k
    ensures k > 0 ==> |r.outs| > 0
    ensures 0 < |r.outs| < k ==> r.outs[|r.outs| - 1].Done()
    decreases k
  {
    if k == 0 then RepeatRun(s, [])
    else
      var next := dyn(s, a);
      if next.out.Done() then RepeatRun(next.state, [next.out])
      else
        var rest := Repeat(dyn, next.state, a, k - 1);
        RepeatRun(rest.state, [next.out] + rest.outs)
  }

  /** Every step before the last kept the episode running. */
  lemma {:induction false} RepeatEarlyStop<S, O, V>(dyn: Dynamics<S, O, V>, s: S, a: int, k: nat)
    ensures forall i :: 0 <= i < |Repeat(dyn, s, a, k).outs| - 1 ==> !Repeat(dyn, s, a, k).outs[i].Done()
    decreases k
  {
    var next := dyn(s, a);
    if k > 0 && !next.out.Done() {
      var r := Repeat(dyn, s, a, k);
      var rest := Repeat(dyn, next.state, a, k - 1);
      assert r.outs == [next.out] + rest.outs;
      RepeatEarlyStop(dyn, next.state, a, k - 1);
      forall i | 0 <= i < |r.outs| - 1
        ensures !r.outs[i].Done()
      {
        if i > 0 {
          assert r.outs[i] == rest.outs[i - 1];
          assert 0 <= i - 1 < |rest.outs| - 1;
          assert !rest.outs[i - 1].Done();
        } else {
          assert r.outs[i] == next.out;
        }
      }
    }
  }

  /** The loop is the plain environment stepped `|outs|` times with the same
      action: its `i`-th output is the `i`-th plain step's, and its final
      state is the state after exactly `|outs|` plain steps. */
  lemma {:induction false} RepeatTrace<S, O, V>(dyn: Dynamics<S, O, V>, s: S, a: int, k: nat)
    ensures var r := Repeat(dyn, s, a, k);
      && r.state == Run(dyn, s, a, |r.outs|)
      && forall i :: 0 <= i < |r.outs| ==> r.outs[i] == PlainOutput(dyn, s, a, i)
    decreases k
  {
    if k > 0 {
      var next := dyn(s, a);
      if !next.out.Done() {
        var r := Repeat(dyn, s, a, k);
        var rest := Repeat(dyn, next.state, a, k - 1);
        assert r == RepeatRun(rest.state, [next.out] + rest.outs);
        RepeatTrace(dyn, next.state, a, k - 1);
        assert Run(dyn, s, a, |r.outs|) == Run(dyn, next.state, a, |rest.outs|);
        forall i | 0 <= i < |r.outs|
          ensures r.outs[i] == PlainOutput(dyn, s, a, i)
        {
          if i > 0 {
            assert r.outs[i] == rest.outs[i - 1];
            assert Run(dyn, s, a, i) == Run(dyn, next.state, a, i - 1);
          }
        }
      }
    }
  }

  /** The loop's run is the only one that follows the plain steps, stops at
      most once and only at the end, and runs short only on a terminal step:
      any sequence of outputs with those properties is the loop's output, and
      the loop ends in the state after exactly that many plain steps. */
  lemma RepeatUnique<S, O, V>(dyn: Dynamics<S, O, V>, s: S, a: int, k: nat, outs: seq<StepOutput<O, V>>)
    requires |outs| <= k
    requires forall j :: 0 <= j < |outs| ==> outs[j] == PlainOutput(dyn, s, a, j)
    requires forall j :: 0 <= j < |outs| - 1 ==> !outs[j].Done()
    requires |outs| == k || (|outs| > 0 && outs[|outs| - 1].Done())
    ensures Repeat(dyn, s, a, k) == RepeatRun(Run(dyn, s, a, |outs|), outs)
  {
    var r := Repeat(dyn, s, a, k);
    RepeatTrace(dyn, s, a, k);
    RepeatEarlyStop(dyn, s, a, k);
    if |r.outs| < |outs| {
      assert false;
    } else if |outs| < |r.outs| {
      assert false;
    }
    assert r.outs == outs;
  }

  /** No step runs after one that ends the episode: once the loop has stopped
      on a terminal step, a larger repeat count gives the same run. */
  lemma {:induction false} RepeatStopsAtTerminal<S, O, V>(dyn: Dynamics<S, O, V>, s: S, a: int, k: nat, k': nat)
    requires k <= k'
    requires |Repeat(dyn, s, a, k).outs| > 0
    requires Repeat(dyn, s, a, k).outs[|Repeat(dyn, s, a, k).outs| - 1].Done()
    ensures Repeat(dyn, s, a, k') == Repeat(dyn, s, a, k)
    decreases k
  {
    var next := dyn(s, a);
    if !next.out.Done() {
      RepeatStopsAtTerminal(dyn, next.state, a, k - 1, k' - 1);
    }
  }

  /** Repeating `k1 + k2` times is repeating `k1` times and then `k2` times
      from where the first loop left off, when the first loop ran all `k1`
      steps without ending the episode. */
  lemma {:induction false} RepeatSplit<S, O, V>(dyn: Dynamics<S, O, V>, s: S, a: int, k1: nat, k2: nat)
    requires |Repeat(dyn, s, a, k1).outs| == k1
    requires k1 > 0 ==> !Repeat(dyn, s, a, k1).outs[k1 - 1].Done()
    ensures var first := Repeat(dyn, s, a, k1);
      var second := Repeat(dyn, first.state, a, k2);
      Repeat(dyn, s, a, k1 + k2) == RepeatRun(second.state, first.outs + second.outs)
    decreases k1
  {
    if k1 > 0 {
      var next := dyn(s, a);
      var rest := Repeat(dyn, next.state, a, k1 - 1);
      SplitStep(dyn, s, a, k1);
      RepeatSplit(dyn, next.state, a, k1 - 1, k2);
      var second := Repeat(dyn, rest.state, a, k2);
      var whole := Repeat(dyn, next.state, a, k1 - 1 + k2);
      assert Repeat(dyn, s, a, k1 + k2) == RepeatRun(whole.state, [next.out] + whole.outs);
    }
  }

  /** The first step of a loop that ran all `k` steps without ending the
      episode kept it running, and so did the rest of the loop. */
  lemma SplitStep<S, O, V>(dyn: Dynamics<S, O, V>, s: S, a: int, k: nat)
    requires k > 0
    requires |Repeat(dyn, s, a, k).outs| == k
    requires !Repeat(dyn, s, a, k).outs[k - 1].Done()
    ensures !dyn(s, a).out.Done()
    ensures var rest := Repeat(dyn, dyn(s, a).state, a, k - 1);
      && Repeat(dyn, s, a, k) == RepeatRun(rest.state, [dyn(s, a).out] + rest.outs)
      && |rest.outs| == k - 1
      && (k - 1 > 0 ==> !rest.outs[k - 2].Done())
  {
  }

  /** When none of the first `k` plain steps ends the episode, the loop runs
      all `k` of them. */
  lemma RepeatWithoutTermination<S, O, V>(dyn: Dynamics<S, O, V>, s: S, a: int, k: nat)
    requires forall i :: 0 <= i < k ==> !PlainOutput(dyn, s, a, i).Done()
    ensures var r := Repeat(dyn, s, a, k);
      && |r.outs| == k
      && r.state == Run(dyn, s, a, k)
      && forall i :: 0 <= i < k ==> r.outs[i] == PlainOutput(dyn, s, a, i)
  {
    RepeatTrace(dyn, s, a, k);
  }
}
