/**
 * The bookkeeping of the environment wrapper `Logger`: step and episode
 * counters, the reward and done history, a keyed log of values with a
 * read index per key, and the statistics windows computed from them.
 * Delegation to the wrapped environment and the text report are not
 * modelled; each step brings its reward and done flag as arguments.
 */
module LoggerWrapper {
  import opened Episodes

  /**
   * What `_episodes_stats` reports for the window `[w.0, w.1)` of a
   * history: the split of the steps in it, or `[0.0]` / `[0]` when no
   * episode falls in it, so that the report is never empty.
   */
  function WindowReport(rewards: seq<real>, dones: seq<bool>, w: (nat, nat)): (r: EpisodeSplit)
    ensures |r.episodeRewards| > 0 && |r.episodeRewards| == |r.episodeLengths|
  {
    var split := SplitEpisodes(Slice(rewards, w.0, w.1), Slice(dones, w.0, w.1));
    EpisodeSplit(if |split.episodeRewards| > 0 then split.episodeRewards else [0.0],
                 if |split.episodeLengths| > 0 then split.episodeLengths else [0])
  }

  /** What `_steps_stats` reports: the split of the last steps and, per logged key, the values not yet reported. */
  datatype StepStats = StepStats(episodeRewards: seq<real>, episodeLengths: seq<nat>, numEpisodes: nat,
                                 logged: map<string, seq<real>>)

  /** The two reports `step` attaches to its `info` every `interval` steps. */
  datatype Report = Report(episodes: EpisodeSplit, steps: StepStats)

  datatype Option<T> = None | Some(value: T)

  /** A report is due when reports are enabled and the step count is a multiple of `interval`. */
  predicate ReportDue(numSteps: nat, interval: int)
  {
    interval > 0 && numSteps % interval == 0
  }

  class Logger {
    var numSteps: nat
    var numEpisodes: nat
    var allRewards: seq<real>
    var allDones: seq<bool>
    var interval: int
    var epInterval: int
    var values: map<string, seq<real>>
    var valuesIdx: map<string, int>

    /** The counters agree with the history: one entry per step, one episode per done step. */
    ghost predicate CountersValid()
      reads this
    {
      && |allRewards| == numSteps
      && |allDones| == numSteps
      && numEpisodes == CountDones(allDones)
    }

    /** Every logged key has a read index, and that index points at one of its values. */
    ghost predicate LogValid()
      reads this
    {
      && values.Keys == valuesIdx.Keys
      && forall key :: key in values ==> 0 <= valuesIdx[key] < |values[key]|
    }

    ghost predicate Valid()
      reads this
    {
      CountersValid() && LogValid()
    }

    /** Every key's read index is at its last value, where a report leaves it. */
    ghost predicate IndexAtLastValues()
      reads this
    {
      && valuesIdx.Keys == values.Keys
      && forall key :: key in values ==> valuesIdx[key] == |values[key]| - 1
    }

    constructor (interval: int := 1000, episodeInterval: int := 10)
      ensures Valid()
      ensures numSteps == 0 && numEpisodes == 0 && allRewards == [] && allDones == []
      ensures this.interval == interval && epInterval == episodeInterval
      ensures values == map[] && valuesIdx == map[]
    {
      numSteps := 0;
      numEpisodes := 0;
      allRewards := [];
      allDones := [];
      this.interval := interval;
      epInterval := episodeInterval;
      values := map[];
      valuesIdx := map[];
    }

    /**
     * `_episodes_length_rewards`: walks the steps in order, adding the
     * reward of every non-done step to the open episode and closing it at
     * each done step; reports the open episode at the end if it has steps.
     */
    static method EpisodesLengthRewards(rewards: seq<real>, dones: seq<bool>) returns (split: EpisodeSplit)
      ensures split == SplitEpisodes(rewards, dones)
      ensures |split.episodeRewards| == |split.episodeLengths|
    {
      var n := if |rewards| < |dones| then |rewards| else |dones|;
      var episodeRewards: seq<real> := [];
      var episodeLengths: seq<nat> := [];
      var accum := 0.0;
      var length: nat := 0;
      var i := 0;
      while i < n
        invariant 0 <= i <= n
        invariant ScanState(episodeRewards, episodeLengths, accum, length) == Scan(rewards[..i], dones[..i])
      {
        var r, d := rewards[i], dones[i];
        assert rewards[..i + 1][..i] == rewards[..i] && dones[..i + 1][..i] == dones[..i];
        assert Scan(rewards[..i + 1], dones[..i + 1]) == ScanStep(Scan(rewards[..i], dones[..i]), r, d);
        if !d {
          accum := accum + r;
          length := length + 1;
        } else {
          episodeRewards := episodeRewards + [accum];
          episodeLengths := episodeLengths + [length];
          accum := 0.0;
          length := 0;
        }
        i := i + 1;
      }
      if length > 0 {
        episodeRewards := episodeRewards + [accum];
        episodeLengths := episodeLengths + [length];
      }
      split := EpisodeSplit(episodeRewards, episodeLengths);
      SplitEpisodesTotals(rewards[..n], dones[..n]);
      assert rewards[..n][..n] == rewards[..n] && dones[..n][..n] == dones[..n];
    }

    /**
     * The second half of `_episodes_stats`: the steps in `[start, end)`
     * split into episodes, with `[0.0]` / `[0]` when there is none.
     */
    method WindowStats(start: nat, end: nat) returns (stats: EpisodeSplit)
      ensures stats == WindowReport(allRewards, allDones, (start, end))
      ensures |stats.episodeRewards| > 0 && |stats.episodeRewards| == |stats.episodeLengths|
    {
      var rewards := Slice(allRewards, start, end);
      var dones := Slice(allDones, start, end);
      var split := EpisodesLengthRewards(rewards, dones);
      stats := EpisodeSplit(if |split.episodeRewards| > 0 then split.episodeRewards else [0.0],
                            if |split.episodeLengths| > 0 then split.episodeLengths else [0]);
    }

    /**
     * `_episodes_stats`: a reverse scan over the done flags finds the most
     * recent done step (`end`) and the start of the window, then the steps
     * in `[start, end)` are split into episodes.
     */
    method EpisodesStats() returns (stats: EpisodeSplit)
      ensures stats == WindowReport(allRewards, allDones, WindowAsWritten(allDones, epInterval))
      ensures |stats.episodeRewards| > 0 && |stats.episodeRewards| == |stats.episodeLengths|
    {
      var start, end, count := 0, 0, 0;
      var i := |allDones|;
      while i > 0
        invariant 0 <= i <= |allDones|
        invariant count == CountDones(allDones[i..])
        invariant end == (if count > 0 then LastDone(allDones) else 0)
        invariant start == (if count > 0 && count >= epInterval + 1 then i + FirstDone(allDones[i..]) + 1 else 0)
      {
        i := i - 1;
        SuffixCountStep(allDones, i);
        SuffixFirstDoneStep(allDones, i);
        SuffixLastDoneStep(allDones, i);
        if allDones[i] {
          count := count + 1;
          if end == 0 {
            end := i;
          }
          if count >= epInterval + 1 {
            start := i + 1;
          }
        }
      }
      assert allDones[0..] == allDones;
      assert (start, end) == WindowAsWritten(allDones, epInterval);
      stats := WindowStats(start, end);
    }

    /**
     * `_episodes_stats` with the reverse scan stopped as soon as `start` is
     * set, so that the window starts just after the `(epInterval + 1)`-th
     * most recent done step.
     */
    method RecentEpisodesStats() returns (stats: EpisodeSplit)
      ensures stats == WindowReport(allRewards, allDones, IntendedWindow(allDones, epInterval))
      ensures |stats.episodeRewards| > 0 && |stats.episodeRewards| == |stats.episodeLengths|
    {
      var start, end, count := 0, 0, 0;
      var i := |allDones|;
      while i > 0
        invariant 0 <= i <= |allDones|
        invariant count == CountDones(allDones[i..]) < StartCount(epInterval)
        invariant end == (if count > 0 then LastDone(allDones) else 0)
        invariant start == 0
      {
        i := i - 1;
        SuffixCountStep(allDones, i);
        SuffixLastDoneStep(allDones, i);
        if allDones[i] {
          count := count + 1;
          if end == 0 {
            end := i;
          }
          if count >= epInterval + 1 {
            start := i + 1;
            KthLastDoneUnique(allDones, i, count);
            break;
          }
        }
      }
      assert allDones[0..] == allDones;
      assert (start, end) == IntendedWindow(allDones, epInterval);
      stats := WindowStats(start, end);
    }

    /**
     * The loop over the logged keys in `_steps_stats`: each key's values
     * from its read index on, and, with `updateIndex`, the read index moved
     * to the key's last value.
     */
    static method ReportValues(values: map<string, seq<real>>, valuesIdx: map<string, int>, updateIndex: bool)
      returns (logged: map<string, seq<real>>, newIdx: map<string, int>)
      requires values.Keys == valuesIdx.Keys
      requires forall key :: key in values ==> 0 <= valuesIdx[key] < |values[key]|
      ensures logged.Keys == values.Keys
      ensures forall key :: key in values ==> logged[key] == values[key][valuesIdx[key]..] && |logged[key]| > 0
      ensures newIdx.Keys == values.Keys
      ensures forall key :: key in values ==> newIdx[key] == if updateIndex then |values[key]| - 1 else valuesIdx[key]
    {
      logged := map[];
      newIdx := valuesIdx;
      var keys := values.Keys;
      while keys != {}
        invariant keys <= values.Keys
        invariant logged.Keys == values.Keys - keys
        invariant forall key :: key in logged ==> logged[key] == values[key][valuesIdx[key]..]
        invariant newIdx.Keys == values.Keys
        invariant forall key :: key in values ==>
                    newIdx[key] == if updateIndex && key in logged then |values[key]| - 1 else valuesIdx[key]
        decreases keys
      {
        var key :| key in keys;
        var idx := newIdx[key];
        logged := logged[key := values[key][idx..]];
        if updateIndex {
          newIdx := newIdx[key := |values[key]| - 1];
        }
        keys := keys - {key};
      }
    }

    /**
     * `_steps_stats`: splits the last `interval` steps into episodes and
     * reports, for every logged key, its values from the read index on;
     * with `updateIndex` each read index moves to the key's last value.
     */
    method StepsStats(updateIndex: bool := false) returns (stats: StepStats)
      requires LogValid()
      modifies this
      ensures LogValid()
      ensures numSteps == old(numSteps) && numEpisodes == old(numEpisodes)
      ensures allRewards == old(allRewards) && allDones == old(allDones)
      ensures interval == old(interval) && epInterval == old(epInterval) && values == old(values)
      ensures if updateIndex then IndexAtLastValues() else valuesIdx == old(valuesIdx)
      ensures EpisodeSplit(stats.episodeRewards, stats.episodeLengths)
           == SplitEpisodes(Slice(allRewards, -interval, |allRewards|), Slice(allDones, -interval, |allDones|))
      ensures stats.numEpisodes == |stats.episodeRewards| == |stats.episodeLengths|
      ensures stats.logged.Keys == values.Keys
      ensures forall key :: key in values ==>
                stats.logged[key] == values[key][old(valuesIdx)[key]..] && |stats.logged[key]| > 0
    {
      var rewards := Slice(allRewards, -interval, |allRewards|);
      var dones := Slice(allDones, -interval, |allDones|);
      var split := EpisodesLengthRewards(rewards, dones);
      var logged, newIdx := ReportValues(values, valuesIdx, updateIndex);
      if updateIndex {
        valuesIdx := newIdx;
      }
      stats := StepStats(split.episodeRewards, split.episodeLengths, |split.episodeRewards|, logged);
    }

    /**
     * `stats` without its text report: the episode window of
     * `_episodes_stats` as written, then the step window with the read
     * indices moved to every key's last value. The text report divides by
     * `interval` and takes the mean of the step window's episode lengths,
     * so the source raises unless `interval` is non-zero and the window
     * holds a step; the model requires both.
     */
    method Stats() returns (episodes: EpisodeSplit, steps: StepStats)
      requires LogValid() && |allRewards| == |allDones|
      requires interval != 0 && Slice(allRewards, -interval, |allRewards|) != []
      modifies this
      ensures numSteps == old(numSteps) && numEpisodes == old(numEpisodes)
      ensures allRewards == old(allRewards) && allDones == old(allDones)
      ensures interval == old(interval) && epInterval == old(epInterval) && values == old(values)
      ensures LogValid() && IndexAtLastValues()
      ensures episodes == WindowReport(allRewards, allDones, WindowAsWritten(allDones, epInterval))
      ensures EpisodeSplit(steps.episodeRewards, steps.episodeLengths)
           == SplitEpisodes(Slice(allRewards, -interval, |allRewards|), Slice(allDones, -interval, |allDones|))
      ensures steps.numEpisodes == |steps.episodeRewards| > 0
      ensures steps.logged.Keys == values.Keys
      ensures forall key :: key in values ==> steps.logged[key] == values[key][old(valuesIdx)[key]..]
    {
      SplitEpisodesNonEmpty(Slice(allRewards, -interval, |allRewards|), Slice(allDones, -interval, |allDones|));
      episodes := EpisodesStats();
      steps := StepsStats(true);
    }

    /**
     * `log`: the first use of a key gives it an empty list and read index
     * 0; every call appends the value to that key's list.
     */
    method Log(key: string, value: real)
      requires Valid()
      modifies this
      ensures Valid()
      ensures values == old(values)[key := (if key in old(values) then old(values)[key] else []) + [value]]
      ensures valuesIdx == if key in old(values) then old(valuesIdx) else old(valuesIdx)[key := 0]
      ensures numSteps == old(numSteps) && numEpisodes == old(numEpisodes)
      ensures allRewards == old(allRewards) && allDones == old(allDones)
      ensures interval == old(interval) && epInterval == old(epInterval)
    {
      if key !in values {
        values := values[key := []];
        valuesIdx := valuesIdx[key := 0];
      }
      values := values[key := values[key] + [value]];
    }

    /**
     * The reporting part of `step`: when a report is due, `stats` runs and
     * its two reports are returned for the step's `info`.
     */
    method ReportIfDue() returns (report: Option<Report>)
      requires LogValid() && 0 < |allRewards| == |allDones|
      modifies this
      ensures LogValid()
      ensures numSteps == old(numSteps) && numEpisodes == old(numEpisodes)
      ensures allRewards == old(allRewards) && allDones == old(allDones)
      ensures interval == old(interval) && epInterval == old(epInterval) && values == old(values)
      ensures if ReportDue(numSteps, interval) then IndexAtLastValues() else valuesIdx == old(valuesIdx)
      ensures report.Some? <==> ReportDue(numSteps, interval)
      ensures report.Some? ==>
                report.value.episodes == WindowReport(allRewards, allDones, WindowAsWritten(allDones, epInterval))
      ensures report.Some? ==>
                EpisodeSplit(report.value.steps.episodeRewards, report.value.steps.episodeLengths)
                == SplitEpisodes(Slice(allRewards, -interval, |allRewards|), Slice(allDones, -interval, |allDones|))
      ensures report.Some? ==> report.value.steps.numEpisodes == |report.value.steps.episodeRewards| > 0
      ensures report.Some? ==> report.value.steps.logged.Keys == values.Keys
      ensures report.Some? ==>
                forall key :: key in values ==> report.value.steps.logged[key] == values[key][old(valuesIdx)[key]..]
    {
      report := None;
      if ReportDue(numSteps, interval) {
        assert Slice(allRewards, -interval, |allRewards|) != [];
        var episodes, steps := Stats();
        report := Some(Report(episodes, steps));
        assert report.value.episodes == episodes && report.value.steps == steps;
      }
    }

    /**
     * The bookkeeping of `step` for a boolean done flag: the reward and the
     * flag join the history, the step counter grows by one, a report runs
     * every `interval` steps (moving the read indices), and the episode
     * counter grows by one exactly when the step is done.
     */
    method Step(reward: real, done: bool) returns (report: Option<Report>)
      requires Valid()
      modifies this
      ensures Valid()
      ensures allRewards == old(allRewards) + [reward] && allDones == old(allDones) + [done]
      ensures numSteps == old(numSteps) + 1
      ensures numEpisodes == old(numEpisodes) + (if done then 1 else 0)
      ensures values == old(values)
      ensures if ReportDue(numSteps, interval) then IndexAtLastValues() else valuesIdx == old(valuesIdx)
      ensures interval == old(interval) && epInterval == old(epInterval)
      ensures report.Some? <==> ReportDue(numSteps, interval)
    {
      CountDonesAppend(allDones, [done]);
      assert [done][..0] == [];
      allRewards := allRewards + [reward];
      allDones := allDones + [done];
      numSteps := numSteps + 1;
      report := ReportIfDue();
      if done {
        numEpisodes := numEpisodes + 1;
      }
    }
  }
}
