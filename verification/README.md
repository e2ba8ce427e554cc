# Action-repeat wrapper, modelled in Dafny

This project models `ActionRepeat`, the single-environment gymnasium wrapper in
`src/accumulate.py`. It lets an agent pick one outer action that stands for a
base action plus a repeat count. One outer step then runs the base action up to
that many times, accumulating reward into a single transition.

- **Construction** (`ActionRepeat.Wrap`). The wrapper is built from the wrapped
  environment's discrete action count `n`, a repeat schedule `repeats` and an info
  key, which defaults to `"repeats"`. The exposed action space has
  `n * len(repeats)` actions.
- **Decoding** (`Decoding.Decode`). An outer id `action` splits into
  `base = action // m` and `index = action % m`, where `m = len(repeats)`. The
  repeat count is `repeats[index]`. Python's floor division and Dafny's Euclidean
  division agree when the divisor is positive. The contract states the
  floor-division facts directly.
- **The loop** (`RepeatLoop.Repeat`, `ActionRepeat.RepeatAction`). The base action
  is stepped up to `repeat` times. Each step adds its reward to the total, counts
  itself, and appends `(obs, reward)` to `prev_steps`. The loop stops right after
  a step that reports `terminated` or `truncated`. The terminal step is logged,
  because it is appended before the check.
- **Finishing** (`ActionRepeat.Finish`). The step refuses an inner info that
  already holds the reserved key. Otherwise it returns the last inner step's
  observation and flags and the summed reward. The info returned is the last
  inner info plus one key, mapped to `{prev_steps, num_steps}`.

The wrapped environment is a deterministic transition function
`Dynamics<S, O, V> = (S, int) -> Next<S, O, V>`. It maps a state and a base action to
the next state and the five step values. Observations (`O`) and opaque info values
(`V`) are type parameters, and rewards are integers. `Environment.Run` and
`Environment.PlainOutput` describe the environment stepped plainly, without the
wrapper. They are the independent reference that the wrapper's results are
proved against.

The source does not guard against three failures, and the model returns each as
an error value instead of requiring it away:
- `ZeroDivision`: an empty schedule makes `action % len(self.repeats)` divide by zero.
- `UnboundObservation`: a selected count below one runs no inner step, and
  `return obs` then hits an unbound local.
- `InfoKeyCollision`: the reserved key is already present, so the `assert` fails.

The outcome also carries the environment state reached before the failure.
Under a key collision the inner steps have already run.

The loop is modelled twice:
- `RepeatLoop.Repeat` is a recursive function.
- `ActionRepeat.RepeatAction` is a `while` loop that follows the Python statement
  by statement. Its early exit is a stop flag in place of `break`.

`ActionRepeat.Step` assembles the outer step from `RepeatAction`. Its contract
states that it computes exactly the functional `ActionRepeat.StepSpec`.

Files: `outcomes.dfy` (Option, Result), `environment.dfy` (step interface and
plain runs), `decoding.dfy`, `repeat_loop.dfy`, `action_repeat.dfy`.

## Model

| member | source | states |
|---|---|---|
| Decoding.Decode | src/accumulate.py:30-31 | the repeat index lies in `[0, m)` and `base * m + index == action`. These are the floor division and modulo Python performs for a positive `m`, so `repeats[index]` is always in range |
| Decoding.DecodeUnique | src/accumulate.py:30-31 | any split of `action` into `base * m + index` with `0 <= index < m` is the decoded one, so the decoding is exactly Python's `//` and `%` |
| Decoding.DecodeEncode | src/accumulate.py:29-31 | decoding the id of base action `a` with schedule position `r` in the layout `[a0 r0, a0 r1, ..., a1 r0, ...]` gives back `(a, r)` |
| Decoding.DecodeInRange | src/accumulate.py:30-31 | an outer id lies in `[0, n * m)` exactly when its decoded base action lies in `[0, n)` (both directions) |
| ActionRepeat.Wrap | src/accumulate.py:12-18 | the schedule and info key are kept as given, and the info key defaults to `"repeats"`. For a non-empty schedule the enlarged space has exactly one outer id per pair of a valid base action and a schedule position. Valid ids decode to valid base actions and back, every decoded position indexes the schedule, and every pair has a valid id that decodes to it |
| Decoding.ActionSpaceProduct | src/accumulate.py:29-31 | in the layout `[a0 r0, a0 r1, ..., a1 r0, ...]`, an id lies in `[0, n * m)` exactly when its decoded base action lies in `[0, n)`, and every pair of a base action in `[0, n)` and a position in `[0, m)` has an id in that range that decodes back to it |
| RepeatLoop.Repeat | src/accumulate.py:35-44 | the loop runs at most `repeat` steps, and at least one when `repeat > 0`. It runs fewer than `repeat` only when its last step reported terminated or truncated |
| RepeatLoop.RepeatEarlyStop | src/accumulate.py:43-44 | every step before the last reported neither terminated nor truncated |
| RepeatLoop.RepeatTrace | src/accumulate.py:35-39 | the `i`-th output is the `i`-th plain step with the same base action. The final state is the environment stepped exactly `num_steps` times |
| RepeatLoop.RepeatUnique | src/accumulate.py:35-44 | the loop's output is the only sequence that fits. Any sequence of plain outputs with no early terminal step, of length `repeat` or ending on a terminal step, is the loop's output |
| RepeatLoop.RepeatStopsAtTerminal | src/accumulate.py:43-44 | no inner step runs after a terminal one: once the loop has stopped on a terminal step, a larger repeat count gives the same run |
| RepeatLoop.RepeatSplit | src/accumulate.py:35-44 | repeating `k1 + k2` times equals repeating `k1` times, then `k2` more, when the first `k1` steps did not end the episode |
| RepeatLoop.RepeatWithoutTermination | src/accumulate.py:35-44 | when none of the first `k` plain steps ends the episode, the loop runs all `k` of them |
| ActionRepeat.RepeatAction | src/accumulate.py:21-44 | the imperative loop runs exactly the steps of `Repeat`. `num_steps` is the log's length, `acc_reward` is the sum of the logged rewards, and the log holds every executed step's `(obs, reward)` in order |
| ActionRepeat.Finish | src/accumulate.py:46-53 | the step fails when no step ran or the reserved key is already present, and does not overwrite. On success, `num_steps` is the length of `prev_steps`. The reward is the sum of the logged rewards, and the observation is the last log entry's. The flags are the last step's. The info keys are the last inner info's plus the reserved key, and all other entries are unchanged |
| ActionRepeat.StepSpec | src/accumulate.py:20-53 | an empty schedule fails with a division by zero, and a selected count below one fails with no observation. Neither touches the environment. Otherwise the step fails exactly when the last inner step's info holds the reserved key |
| ActionRepeat.StepFollowsInnerEnvironment | src/accumulate.py:20-53 | a successful outer step is the wrapped environment stepped `n` times with the decoded base action, where `1 <= n <=` the selected count. The log holds those steps' observations and rewards, and the reward is their total. Observation and flags are the `n`-th step's. Only the last step can have ended the episode, and fewer than the count ran only because it did |
| ActionRepeat.StepWithoutTermination | src/accumulate.py:35-53 | with no termination among the selected number of plain steps and no key clash, the step succeeds with `num_steps` equal to that count and the reward equal to the plain steps' total |
| ActionRepeat.Step | src/accumulate.py:20-53 | decoding, the loop and the key check, executed in the source's order, compute exactly the functional `StepSpec`, including every error case and the environment state reached |

## Left out

- `SyncActionRepeatVector` (src/accumulate.py:56-113) is not modelled. It depends on gymnasium vector internals that are not part of this model: `envs`, `_actions`, `_add_info`, `concatenate` and the numpy buffers. As written it calls the schedule list as a function at line 71 and returns from inside the per-slot loop at lines 107-113, so there is no working behaviour to model.
- The `__main__` demo (src/accumulate.py:116-139) uses `gym.make`, random action sampling and `close`, which are I/O and a foreign library. Its commented reward check at lines 129-132 is stated by `Finish` and `RepeatAction`.
- The `print` calls (src/accumulate.py:33, 36) are debug output with no effect on the result.
- Rewards are integers, not floats. Observations and opaque info values are uninterpreted.
- `reset` and all other members inherited from `gym.Wrapper` pass straight through to the wrapped environment. They are not modelled. `super().step` is the abstract `Dynamics` function.
- Wrap: the source mutates the wrapped environment's `action_space.n` in place, so the wrapped environment also sees the enlarged count. The model gives the wrapper its own count and leaves the wrapped environment unchanged. It also ignores the `start` offset of a gymnasium `Discrete` space.
- Finish: the source adds the key to the very dict the wrapped environment returned (line 48), so an environment that keeps that dict sees the change. The model treats info mappings as values.
- StepSpec: the key check is modelled as always active. Python drops `assert` statements under `-O`, and the key would then be overwritten silently.
- Schedule entries are integers. A non-integer entry, which `range` would reject, is not modelled.
- The source performs no validation when the wrapper is constructed. An empty schedule fails at the first step. A count below one fails only at a step whose action selects it, not at construction: with `repeats = [0, 4]`, an odd id runs its base action up to four times, while an even id fails with no observation. The model follows the code.
