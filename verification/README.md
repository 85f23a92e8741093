# Reward recurrences and episode logging of cherry

This project models two pieces of bookkeeping from the cherry reinforcement
learning library and proves properties of them in Dafny.

- **Reward recurrences** (`rewards.dfy`, module `Rewards`). These are the
  list-based reference implementations that the library's `discount` and
  `generalized_advantage` are tested against:
  - `discount_rewards` computes discounted returns. It runs backwards over
    time, drops the carried return at every done step and takes a
    caller-supplied bootstrap for the step after the window.
  - `generalized_advantage_estimate` computes the generalized advantage
    estimate (GAE). It masks the next value and the carried advantage with
    `1 - done` instead of restarting.

  Each loop is a method proved equal to a recursive specification function
  (`Discount`, `Gae`). The properties are lemmas about those functions: the
  recurrence, no return crossing a done step, segments and the wrap-around of
  the test scenario, a closed form, and the agreement of GAE with `tau = 1` and
  the discounted return. The two worked scenarios of `test_discount` are
  lemmas too.
- **Episode arithmetic** (`episodes.dfy`, module `Episodes`). This module
  holds pure specification functions for the logger:
  - counting and locating done steps;
  - Python's clamping slice `s[lo:hi]`;
  - the split of a reward/done history into per-episode reward sums and
    lengths;
  - the window of recent episodes that `_episodes_stats` reports, both as
    written and as evidently intended.
- **The `Logger` wrapper** (`logger_wrapper.dfy`, module `LoggerWrapper`).
  This is a class with the wrapper's counters, reward and done history, and
  keyed value log with a read index per key. Its methods mirror
  `_episodes_length_rewards`, `_episodes_stats`, `_steps_stats`, `stats`,
  `log` and the counter part of `step`. The class invariant `Valid()` says:
  - one history entry per step;
  - one episode per done step;
  - every logged key has a read index pointing at one of its values.

Rewards, values, `gamma` and `tau` are exact `real`s.

## Model

| member | source | states |
|---|---|---|
| Rewards.Discount | tests/rewards_tests.py:23-35 | the discounted returns have exactly one entry per reward |
| Rewards.DiscountRewards | tests/rewards_tests.py:23-35 | with `bootstrap` defaulting to 0, the backward loop (zero the return on a done step, add the reward plus `gamma` times the carried return, prepend) computes `Discount` of the rewards and the first `len(rewards)` done flags |
| Rewards.DiscountAt | tests/rewards_tests.py:27-34 | `out[t] = rewards[t] + gamma * next`, where `next` is 0 after a done step, `bootstrap` at the last step, and `out[t+1]` otherwise |
| Rewards.DiscountSuffix | tests/rewards_tests.py:30-34 | the returns from step `i` on depend only on the steps from `i` on |
| Rewards.DiscountConcat | tests/rewards_tests.py:27-34 | discounting `r1 + r2` is discounting `r2`, then `r1` with the first return of `r2` as its bootstrap |
| Rewards.BootstrapIgnoredAfterDone | tests/rewards_tests.py:27-32 | when the last step is done, the bootstrap changes no return |
| Rewards.NoReturnCrossesDone | tests/rewards_tests.py:31-32 | the returns up to and including a done step are the same whatever follows it |
| Rewards.DiscountSegment | tests/rewards_tests.py:80-87 | discounting `r[i:j]` with bootstrap `out[j]` gives `out[i:j]` |
| Rewards.WrapAround | tests/rewards_tests.py:80-87 | when the last step is done, discounting `r[a:] + r[:c]` with bootstrap `out[c]` gives `out[a:] + out[:c]` |
| Rewards.DiscountHeadClosedForm | tests/rewards_tests.py:27-34 | when no step before the last is done, `out[0]` is the sum of `gamma^i * r[i]`, plus `gamma^T * bootstrap` unless the last step is done |
| Rewards.DiscountExample | tests/rewards_tests.py:64-78 | `gamma = 0.5`, five rewards of 8, only the last step done, bootstrap 0 gives `[15.5, 15.0, 14.0, 12.0, 8.0]` |
| Rewards.OverlapExample | tests/rewards_tests.py:80-87 | the buffer rearranged as `[2:] + [:3]` and discounted with bootstrap `discounted[3]` gives `discounted[2:] + discounted[:3]` |
| Rewards.Gae | tests/rewards_tests.py:38-53 | the advantages have exactly one entry per reward |
| Rewards.GeneralizedAdvantageEstimate | tests/rewards_tests.py:38-53 | fails exactly when the values, rewards and dones differ in length; otherwise the backward loop computes `Gae` |
| Rewards.GaeAt | tests/rewards_tests.py:48-52 | each advantage is its TD error plus the next advantage decayed by `tau * gamma` and masked by `1 - done`; the TD error uses the next step's value, or `next_value` at the last step |
| Rewards.GaeTauZero | tests/rewards_tests.py:49-50 | with `tau = 0` every advantage equals its one-step TD error |
| Rewards.GaeAtDone | tests/rewards_tests.py:49-50 | at a step with `done = 1` the advantage is `reward - value`, whatever the later steps and `next_value` |
| Rewards.GaeNoLeak | tests/rewards_tests.py:47-52 | no advantage leaks back across a step with `done = 1`: the advantages up to and including it are those of that prefix alone, whatever steps follow and whatever `next_value` is |
| Rewards.GaeTauOneIsReturnMinusValue | tests/rewards_tests.py:23-53 | for boolean dones and `tau = 1`, each advantage plus its value equals the discounted return bootstrapped with `next_value` |
| Episodes.Clamp | cherry/envs/logger_wrapper.py:89-90 | a Python slice bound: a bound in `[0, n]` is kept, a bound in `[-n, 0)` counts from the end, a bound above `n` becomes `n` and one below `-n` becomes 0 |
| Episodes.LastItems | cherry/envs/logger_wrapper.py:89-90 | `s[-interval:]` is the last `min(interval, len(s))` items for a positive interval, all of `s` for 0, and `s` without its first `-interval` items for a negative interval |
| Episodes.ScanShape | cherry/envs/logger_wrapper.py:49-60 | during the split there is one closed episode per done step, the open episode's length is the run of non-done steps at the end, and the closed lengths plus the open one add up to the non-done steps |
| Episodes.ScanRewards | cherry/envs/logger_wrapper.py:49-59 | the closed episode rewards plus the open accumulator add up to the rewards of the non-done steps |
| Episodes.SplitEpisodes | cherry/envs/logger_wrapper.py:39-64 | the per-episode reward and length lists have equal length |
| Episodes.SplitEpisodesZip | cherry/envs/logger_wrapper.py:49-63 | like `zip`, the split reads only the steps up to the shorter of the two sequences, and has one episode per done step among them plus one when the last of them is not done |
| Episodes.SplitEpisodesNonEmpty | cherry/envs/logger_wrapper.py:49-63 | a history of at least one step yields at least one episode |
| Episodes.SplitEpisodesTotals | cherry/envs/logger_wrapper.py:53-63 | the two lists have equal length; there is one episode per done step, plus one if the history ends on a non-done step; the lengths add up to the non-done steps; the episode rewards add up to the non-done rewards; a trailing episode has a positive length |
| Episodes.WindowAsWritten | cherry/envs/logger_wrapper.py:68-77 | `end` is the most recent done step (0 if there is none); `start` is non-zero exactly when at least one and at least `ep_interval + 1` done steps are recorded, and then it lies just after the oldest done step |
| Episodes.SuffixLastDoneStep | cherry/envs/logger_wrapper.py:72-75 | in the reverse scan, the first done step met is the most recent one |
| Episodes.WindowAsWrittenCount | cherry/envs/logger_wrapper.py:72-77 | as written, once at least two and more than `ep_interval` done steps are recorded, the window holds every done step but the oldest and the most recent |
| Episodes.WindowAsWrittenEpisodes | cherry/envs/logger_wrapper.py:66-86 | under the same condition, the split of the as-written window has one episode per recorded done step minus two, plus one when the step before the most recent done step is not done |
| Episodes.WindowExample | cherry/envs/logger_wrapper.py:66-81 | on dones `[F,T,F,T,F,T,F]` with `ep_interval = 1`, the as-written window `[2, 5)` has two episodes and the intended window `[4, 5)` has one |
| Episodes.IntendedWindow | cherry/envs/logger_wrapper.py:68-77 | the corrected window ends at the most recent done step |
| Episodes.KthLastDoneUnique | cherry/envs/logger_wrapper.py:72-77 | the done step whose suffix holds exactly `k` done steps is the `k`-th most recent one, and at least `k` done steps are recorded |
| Episodes.WindowEpisodes | cherry/envs/logger_wrapper.py:79-81 | the split of a window that starts just after a done step has one episode per done step in it, plus one unless its last step is done |
| Episodes.IntendedWindowCount | cherry/envs/logger_wrapper.py:66-77 | for `ep_interval >= 1`, with more than `ep_interval` done steps recorded, the corrected window is well formed and holds exactly `ep_interval - 1` done steps |
| Episodes.IntendedWindowEpisodes | cherry/envs/logger_wrapper.py:66-86 | under the same condition, the split of the corrected window has `ep_interval` episodes when the step before the most recent done step is not done, and `ep_interval - 1` when it is |
| LoggerWrapper.Logger.constructor | cherry/envs/logger_wrapper.py:17-26 | counters start at zero, histories and logs start empty, the intervals (by default 1000 and 10) are stored, and the invariant holds |
| LoggerWrapper.Logger.EpisodesLengthRewards | cherry/envs/logger_wrapper.py:39-64 | the forward loop over `zip(rewards, dones)` computes `SplitEpisodes`, and its two lists have equal length |
| LoggerWrapper.WindowReport | cherry/envs/logger_wrapper.py:79-86 | the episode report of a window is never empty and its two lists have equal length |
| LoggerWrapper.Logger.WindowStats | cherry/envs/logger_wrapper.py:79-86 | splits the steps in `[start, end)` and falls back to `[0.0]` / `[0]` when there is no episode; never empty, and the two lists have equal length |
| LoggerWrapper.Logger.EpisodesStats | cherry/envs/logger_wrapper.py:66-86 | the reverse scan as written computes the report of `WindowAsWritten`; never empty, and the two lists have equal length |
| LoggerWrapper.Logger.RecentEpisodesStats | cherry/envs/logger_wrapper.py:66-86 | the reverse scan stopped once `start` is set computes the report of `IntendedWindow` |
| LoggerWrapper.Logger.ReportValues | cherry/envs/logger_wrapper.py:97-101 | every logged key is reported with its values from its read index on (never empty); with `update_index` each read index becomes `len(values[key]) - 1`, otherwise it is unchanged |
| LoggerWrapper.Logger.StepsStats | cherry/envs/logger_wrapper.py:88-102 | with `update_index` defaulting to false, splits `all_rewards[-interval:]` and `all_dones[-interval:]`; `num_episodes` is the number of episodes reported; per key, reports the values from the old read index on and moves the index only with `update_index`; changes nothing else and keeps the log invariant |
| LoggerWrapper.Logger.Stats | cherry/envs/logger_wrapper.py:104-126 | callable only when `interval != 0` and `all_rewards[-interval:]` is not empty, the cases in which the source does not raise; the episode report is that of the as-written window; the step report splits `all_rewards[-interval:]` and `all_dones[-interval:]`, counts its episodes (at least one, so its mean exists), and gives every logged key its values from the old read index on; every read index ends at its key's last value and nothing else changes |
| LoggerWrapper.Logger.Log | cherry/envs/logger_wrapper.py:138-143 | the first use of a key creates an empty list with read index 0; each call appends exactly one value to that key; other keys and all counters are unchanged; the invariant is kept |
| LoggerWrapper.Logger.ReportIfDue | cherry/envs/logger_wrapper.py:150-158 | once at least one step is recorded, a report is returned exactly when `interval > 0` and `num_steps % interval == 0`; it then holds the episode and step reports that `Stats` states and moves the read indices; otherwise nothing changes |
| LoggerWrapper.Logger.Step | cherry/envs/logger_wrapper.py:145-165 | the reward and done flag are appended; `num_steps` grows by one; `num_episodes` grows by one exactly when the step is done; the read indices move only when a report is due; the invariant (lengths equal `num_steps`, `num_episodes` equals the number of done steps) is kept |

## Left out

- The library's own `cherry/rewards.py` and `cherry/experience_replay.py` are not part of this model. The test file's list-based implementations stand in for them.
- The torch test harness is not modelled: random tensors, `random.random`, the `close` tolerance, `ExperienceReplay` and the `.double()` casts. Only the deterministic scenarios of `test_discount` are kept, as `DiscountExample` and `OverlapExample`.
- `test_generalized_advantage` and the rest of the test class compare against the library, which is not part of this model.
- Floating point: all arithmetic is over exact reals, so rounding and the `1e-6` tolerance play no part.
- Rewards.DiscountRewards: the done flags are booleans. The source tests their truth value, so numeric flags are modelled by their truth. A `dones` shorter than `rewards` raises an `IndexError` in the source; the model requires `len(dones) >= len(rewards)` instead.
- Rewards.GeneralizedAdvantageEstimate: the failed `assert` becomes an `Err(LengthMismatch)` result.
- Vectorised environments are not modelled: array-valued rewards and dones reduced to their first component, and the `info[0]` placement. Rewards and dones are scalars.
- Step: a done flag that is not a boolean goes to the debugger branch (`pdb.set_trace()` and `sum(done)`), which is not modelled. Only boolean dones are taken.
- Environment delegation is not modelled: the wrapped `env.step` and `reset`, the title taken from `env.spec`, and the `logger` object. Each step receives its reward and done flag as arguments. The new state and the environment's own `info` entries are not returned; only the two reports that `step` places in `info` (`cherry/envs/logger_wrapper.py:156-157`) are, and `Step` returns them.
- Stats: the text message is not modelled. That includes `mean`, `pstdev`, `'%.2f'` formatting and `num_logs`. So is the call to `logger.info`. Two of these lines also decide whether `stats()` returns at all. `len(self.all_rewards) // self.interval` raises `ZeroDivisionError` when `interval == 0`. `mean(steps_stats['episode_lengths'])` raises `StatisticsError` when the step window is empty: no steps yet, or a negative `interval` with `-interval >= len(all_rewards)`. In both cases the read indices have already moved. The model's `Stats` requires `interval != 0` and a non-empty step window instead of modelling the raise. Inside `step` neither case arises, because a report runs only when `interval > 0` and at least one step is recorded.
- Step: returns the reports that the source stores in `info`. Its contract states only when a report is present; the report contents are stated by `ReportIfDue`, which `Step` calls.
- WindowStats: the fallback for `episode_lengths` is the integer `[0]` where the source writes `[0.0]`, because lengths are modelled as naturals.
- StepsStats: a logged key named `episode_rewards`, `episode_lengths` or `num_episodes` would overwrite that entry of the source's stats dictionary. The model keeps the logged values in a separate map.
- Log: `setattr(self, key, self.values[key])` is not modelled. It exposes each list as an attribute aliasing it, and a key that names an attribute of the wrapper (`num_steps`, `values`, `interval`, ...) replaces that attribute. The contract that counters, histories and intervals are unchanged therefore holds only for keys that name no attribute of the wrapper.
- ReportValues: the loop visits the keys in an arbitrary order, where Python follows dictionary insertion order. No result depends on the order.
- `cherry/__init__.py` holds only package re-exports and is not part of this model.

## Findings

| source | as written | input that shows it | evidently intended | confidence | as-written member | corrected member |
|---|---|---|---|---|---|---|
| cherry/envs/logger_wrapper.py:72-77 | the reverse scan never stops, so `start = i + 1` is overwritten at every older done step and ends up just after the OLDEST done step; the window then holds every done step but the oldest and the most recent, however small `ep_interval` is | `all_dones = [F, T, F, T, F, T, F]`, `ep_interval = 1`: window `[2, 5)` with two episodes | stop the scan once `count >= ep_interval + 1`, so that `start` lies just after the `(ep_interval + 1)`-th most recent done step and the window holds `ep_interval - 1` done steps: window `[4, 5)` with one episode | not executed | Episodes.WindowAsWritten, Episodes.WindowAsWrittenCount, Episodes.WindowAsWrittenEpisodes, Episodes.WindowExample, LoggerWrapper.Logger.EpisodesStats (called by `Stats`, as in the source) | Episodes.IntendedWindow, Episodes.IntendedWindowCount, Episodes.IntendedWindowEpisodes, LoggerWrapper.Logger.RecentEpisodesStats (a drop-in replacement for `EpisodesStats`) |
