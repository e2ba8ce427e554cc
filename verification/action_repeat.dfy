/**
 The single-environment action-repeat wrapper. An outer action id encodes a
 base action of the wrapped environment and a position in the repeat
 schedule; one outer step runs the base action up to the scheduled number of
 times, stops early when the episode ends, sums the rewards, and reports the
 intermediate `(obs, reward)` pairs under a reserved info key.
 */
module ActionRepeat {
  import opened Outcomes
  import opened Environment
  import opened Decoding
  import opened RepeatLoop

  /** The info key used when the caller names none. */
  const DefaultInfoKey: string := "repeats"

  /** A constructed wrapper: the size of its discrete action space, the
      repeat schedule, and the reserved info key. */
  datatype Wrapper = Wrapper(actionCount: int, repeats: seq<int>, infoKey: string)

  /** Construction: the discrete action space of `n` base actions is enlarged
      to `n * |repeats|` outer actions. For a non-empty schedule that space is
      exactly the product of the base actions and the schedule positions: an
      outer id is valid exactly when its decoded base action is, every decoded
      schedule position is in range, and every pair of a valid base action and
      a schedule position has a valid outer id that decodes back to it. The
      schedule and the info key are kept as given. */
  function Wrap(n: int, repeats: seq<int>, infoKey: string := DefaultInfoKey): (w: Wrapper)
    ensures w.repeats == repeats && w.infoKey == infoKey
    ensures |repeats| > 0 ==>
      forall action :: 0 <= action < w.actionCount <==> 0 <= Decode(action, |repeats|).base < n
    ensures |repeats| > 0 ==>
      forall action :: Decode(action, |repeats|).repeatIndex < |w.repeats|
    ensures |repeats| > 0 ==>
      forall base, i: nat | 0 <= base < n && i < |repeats| ::
        && 0 <= Encode(base, i, |repeats|) < w.actionCount
        && Decode(Encode(base, i, |repeats|), |repeats|) == DecodedAction(base, i)
  {
    if |repeats| > 0 then
      ActionSpaceProduct(n, |repeats|);
      Wrapper(n * |repeats|, repeats, infoKey)
    else
      Wrapper(n * |repeats|, repeats, infoKey)
  }

  /** The ways an outer step fails: an empty schedule divides by zero when the
      action is decoded; a scheduled count below one runs no inner step, so
      there is no observation to return; and the inner info may already hold
      the reserved key. */
  datatype StepError = ZeroDivision | UnboundObservation | InfoKeyCollision

  /** The wrapped environment's state after an outer step (it has been
      stepped even when the outer step then fails) and what the step returned. */
  datatype StepOutcome<S, O, V> = StepOutcome(state: S, result: Result<StepOutput<O, V>, StepError>)

  /** How many times `for _ in range(repeat)` iterates. */
  function IterationCount(repeat: int): nat
  {
    if repeat > 0 then repeat else 0
  }

  /** The repeat count an outer action selects. */
  function SelectedRepeat(w: Wrapper, action: int): int
    requires |w.repeats| > 0
  {
    w.repeats[Decode(action, |w.repeats|).repeatIndex]
  }

  /** The inner steps an outer action runs. */
  function InnerRun<S, O, V>(w: Wrapper, dyn: Dynamics<S, O, V>, s: S, action: int): RepeatRun<S, O, V>
    requires |w.repeats| > 0
  {
    Repeat(dyn, s, Decode(action, |w.repeats|).base, IterationCount(SelectedRepeat(w, action)))
  }

  /** The transition log of the executed inner steps: each step's observation
      and reward, in order. */
  function Log<O, V>(outs: seq<StepOutput<O, V>>): seq<Transition<O>>
  {
    seq(|outs|, i requires 0 <= i < |outs| => Transition(outs[i].obs, outs[i].reward))
  }

  /** Running one more step logs its observation and reward at the end. */
  lemma LogAppend<O, V>(outs: seq<StepOutput<O, V>>, out: StepOutput<O, V>)
    ensures Log(outs + [out]) == Log(outs) + [Transition(out.obs, out.reward)]
  {
  }

  /** Assembling the outer step's result from the executed inner steps. It
      fails when no step ran or when the last step's info already holds the
      key; otherwise the log records every step, the step count is the log's
      length, the reward is the log's total, the observation and flags are
      those of the last step, and the info is the last step's info with
      exactly the reserved key added. */
  function Finish<O, V>(outs: seq<StepOutput<O, V>>, key: string): (r: Result<StepOutput<O, V>, StepError>)
    ensures |outs| == 0 ==> r == Failure(UnboundObservation)
    ensures |outs| > 0 && key in outs[|outs| - 1].info ==> r == Failure(InfoKeyCollision)
    ensures r.Success? <==> |outs| > 0 && key !in outs[|outs| - 1].info
    ensures r.Success? ==>
      var last := outs[|outs| - 1];
      && key in r.value.info
      && r.value.info[key].RepeatRecord?
      && var log := r.value.info[key].prevSteps;
      && r.value.info[key].numSteps == |log| == |outs|
      && (forall i :: 0 <= i < |outs| ==> log[i] == Transition(outs[i].obs, outs[i].reward))
      && r.value.reward == SumRewards(log)
      && r.value.obs == log[|log| - 1].obs
      && r.value.terminated == last.terminated
      && r.value.truncated == last.truncated
      && r.value.info.Keys == last.info.Keys + {key}
      && (forall k :: k in last.info ==> r.value.info[k] == last.info[k])
  {
    var info := if |outs| == 0 then map[] else outs[|outs| - 1].info;
    if key in info then Failure(InfoKeyCollision)
    else if |outs| == 0 then Failure(UnboundObservation)
    else
      var last := outs[|outs| - 1];
      var log := Log(outs);
      Success(StepOutput(last.obs, SumRewards(log), last.terminated, last.truncated,
                         info[key := RepeatRecord(log, |outs|)]))
  }

  /** One outer step. An empty schedule and a selected count below one fail
      without touching the environment; otherwise the step fails exactly when
      the last inner step's info already holds the reserved key. */
  function StepSpec<S, O, V>(w: Wrapper, dyn: Dynamics<S, O, V>, s: S, action: int): (o: StepOutcome<S, O, V>)
    ensures |w.repeats| == 0 ==> o == StepOutcome(s, Failure(ZeroDivision))
    ensures |w.repeats| > 0 && SelectedRepeat(w, action) <= 0 ==> o == StepOutcome(s, Failure(UnboundObservation))
    ensures |w.repeats| > 0 && SelectedRepeat(w, action) > 0 ==>
      var outs := InnerRun(w, dyn, s, action).outs;
      && |outs| > 0
      && (o.result.Success? <==> w.infoKey !in outs[|outs| - 1].info)
      && (o.result.Failure? ==> o.result.error == InfoKeyCollision)
  {
    if |w.repeats| == 0 then StepOutcome(s, Failure(ZeroDivision))
    else
      var run := InnerRun(w, dyn, s, action);
      StepOutcome(run.state, Finish(run.outs, w.infoKey))
  }

  /** A successful outer step is the wrapped environment stepped `n` times
      with the decoded base action, where `n` is the recorded step count:
      `1 <= n <=` the selected repeat count, the log holds the `n` plain
      steps' observations and rewards, no step before the last ended the
      episode, fewer than the selected count ran only because the last step
      ended it, and reward, observation and flags are the plain steps'. */
  lemma StepFollowsInnerEnvironment<S, O, V>(w: Wrapper, dyn: Dynamics<S, O, V>, s: S, action: int)
    requires StepSpec(w, dyn, s, action).result.Success?
    ensures |w.repeats| > 0
    ensures var o := StepSpec(w, dyn, s, action);
      var d := Decode(action, |w.repeats|);
      var out := o.result.value;
      && w.infoKey in out.info
      && out.info[w.infoKey].RepeatRecord?
      && var n := out.info[w.infoKey].numSteps;
      && var log := out.info[w.infoKey].prevSteps;
      && 1 <= n <= SelectedRepeat(w, action)
      && |log| == n
      && o.state == Run(dyn, s, d.base, n)
      && (forall i :: 0 <= i < n ==> log[i] == Transition(PlainOutput(dyn, s, d.base, i).obs, PlainOutput(dyn, s, d.base, i).reward))
      && (forall i :: 0 <= i < n - 1 ==> !PlainOutput(dyn, s, d.base, i).Done())
      && (n < SelectedRepeat(w, action) ==> PlainOutput(dyn, s, d.base, n - 1).Done())
      && out.reward == PlainReward(dyn, s, d.base, n)
      && out.obs == PlainOutput(dyn, s, d.base, n - 1).obs
      && out.terminated == PlainOutput(dyn, s, d.base, n - 1).terminated
      && out.truncated == PlainOutput(dyn, s, d.base, n - 1).truncated
  {
    var d := Decode(action, |w.repeats|);
    var run := InnerRun(w, dyn, s, action);
    RepeatTrace(dyn, s, d.base, IterationCount(SelectedRepeat(w, action)));
    RepeatEarlyStop(dyn, s, d.base, IterationCount(SelectedRepeat(w, action)));
    var log := StepSpec(w, dyn, s, action).result.value.info[w.infoKey].prevSteps;
    SumRewardsOfPlainSteps(dyn, s, d.base, log);
  }

  /** When none of the selected number of plain steps ends the episode and the
      last one's info lacks the reserved key, the outer step succeeds after
      exactly that many steps and its reward is their total. */
  lemma StepWithoutTermination<S, O, V>(w: Wrapper, dyn: Dynamics<S, O, V>, s: S, action: int)
    requires |w.repeats| > 0
    requires SelectedRepeat(w, action) >= 1
    requires var base := Decode(action, |w.repeats|).base;
      && (forall i :: 0 <= i < SelectedRepeat(w, action) ==> !PlainOutput(dyn, s, base, i).Done())
      && w.infoKey !in PlainOutput(dyn, s, base, SelectedRepeat(w, action) - 1).info
    ensures var o := StepSpec(w, dyn, s, action);
      var base := Decode(action, |w.repeats|).base;
      var k := SelectedRepeat(w, action);
      && o.result.Success?
      && o.result.value.info[w.infoKey].numSteps == k
      && o.result.value.reward == PlainReward(dyn, s, base, k)
      && o.state == Run(dyn, s, base, k)
  {
    var base := Decode(action, |w.repeats|).base;
    var k := SelectedRepeat(w, action);
    RepeatWithoutTermination(dyn, s, base, k);
    StepFollowsInnerEnvironment(w, dyn, s, action);
  }

  /** The repetition loop as the wrapper executes it: step `base` while fewer
      than `repeat` steps have run, adding each reward to the total, counting
      the step and logging its `(obs, reward)`, and leave the loop right after
      a step that ends the episode. It runs exactly the steps of `Repeat`, the
      count is the log's length, and the total is the log's reward sum. */
  method RepeatAction<S, O, V>(dyn: Dynamics<S, O, V>, s: S, base: int, repeat: int)
    returns (state: S, accReward: int, prevSteps: seq<Transition<O>>, numSteps: int,
             last: Option<StepOutput<O, V>>)
    ensures var run := Repeat(dyn, s, base, IterationCount(repeat));
      && state == run.state
      && prevSteps == Log(run.outs)
      && numSteps == |prevSteps|
      && accReward == SumRewards(prevSteps)
      && last == (if |run.outs| == 0 then None else Some(run.outs[|run.outs| - 1]))
  {
    accReward := 0;
    prevSteps := [];
    numSteps := 0;
    last := None;
    state := s;
    var count := IterationCount(repeat);
    ghost var outs: seq<StepOutput<O, V>> := [];
    var i: int := 0;
    var stopped := false;  // the loop's `break`
    while i < count && !stopped
      invariant 0 <= i <= count
      invariant numSteps == i == |outs|
      invariant prevSteps == Log(outs)
      invariant accReward == SumRewards(prevSteps)
      invariant last == (if i == 0 then None else Some(outs[i - 1]))
      invariant state == Run(dyn, s, base, i)
      invariant forall j :: 0 <= j < i ==> outs[j] == PlainOutput(dyn, s, base, j)
      invariant forall j :: 0 <= j < i - 1 ==> !outs[j].Done()
      invariant stopped <==> i > 0 && outs[i - 1].Done()
    {
      var next := dyn(state, base);
      RunSnoc(dyn, s, base, i);
      state := next.state;
      accReward := accReward + next.out.reward;
      numSteps := numSteps + 1;
      SumRewardsAppend(prevSteps, Transition(next.out.obs, next.out.reward));
      LogAppend(outs, next.out);
      prevSteps := prevSteps + [Transition(next.out.obs, next.out.reward)];
      outs := outs + [next.out];
      last := Some(next.out);
      i := i + 1;
      if next.out.Done() {
        stopped := true;
      }
    }
    RepeatUnique(dyn, s, base, count, outs);
  }

  /** The outer step as the wrapper executes it: decode the action, run the
      repetition loop, refuse a reserved key that is already present, and
      assemble the result. It computes exactly `StepSpec`. */
  method Step<S, O, V>(w: Wrapper, dyn: Dynamics<S, O, V>, s: S, action: int) returns (o: StepOutcome<S, O, V>)
    ensures o == StepSpec(w, dyn, s, action)
  {
    var m := |w.repeats|;
    if m == 0 {
      return StepOutcome(s, Failure(ZeroDivision));
    }
    var d := Decode(action, m);
    var repeat := w.repeats[d.repeatIndex];
    var base := d.base;

    var state, accReward, prevSteps, numSteps, last := RepeatAction(dyn, s, base, repeat);
    // the info of the last inner step, or the empty mapping the loop started from
    var info: Info<O, V> := if last.Some? then last.value.info else map[];
    ghost var outs := InnerRun(w, dyn, s, action).outs;

    var result: Result<StepOutput<O, V>, StepError>;
    if w.infoKey in info {
      result := Failure(InfoKeyCollision);
    } else if last.None? {
      result := Failure(UnboundObservation);
    } else {
      info := info[w.infoKey := RepeatRecord(prevSteps, numSteps)];
      var out := last.value;
      result := Success(StepOutput(out.obs, accReward, out.terminated, out.truncated, info));
    }
    assert result == Finish(outs, w.infoKey);
    return StepOutcome(state, result);
  }
}
