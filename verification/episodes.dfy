/**
 * The episode arithmetic behind the logging wrapper: counting and locating
 * done steps, Python's clamping slice, splitting a reward/done history into
 * per-episode reward sums and lengths, and the window of recent episodes.
 */
module Episodes {

  // ---------------------------------------------------------------------
  // Done flags
  // ---------------------------------------------------------------------

  /** The number of done steps. */
  function CountDones(dones: seq<bool>): (n: nat)
    ensures n <= |dones|
    decreases |dones|
  {
    if dones == [] then 0
    else CountDones(dones[..|dones| - 1]) + (if dones[|dones| - 1] then 1 else 0)
  }

  lemma {:induction false} CountDonesAppend(a: seq<bool>, b: seq<bool>)
    ensures CountDones(a + b) == CountDones(a) + CountDones(b)
    decreases |b|
  {
    if b == [] {
      assert a + b == a;
    } else {
      assert (a + b)[..|a + b| - 1] == a + b[..|b| - 1];
      assert (a + b)[|a + b| - 1] == b[|b| - 1];
      CountDonesAppend(a, b[..|b| - 1]);
    }
  }

  /** Done steps in `dones[i..k]` split at any `j` between. */
  lemma CountDonesSplit(dones: seq<bool>, i: nat, j: nat, k: nat)
    requires i <= j <= k <= |dones|
    ensures CountDones(dones[i..k]) == CountDones(dones[i..j]) + CountDones(dones[j..k])
  {
    assert dones[i..k] == dones[i..j] + dones[j..k];
    CountDonesAppend(dones[i..j], dones[j..k]);
  }

  /** A single step counts one exactly when it is done. */
  lemma CountDonesAt(dones: seq<bool>, i: nat)
    requires i < |dones|
    ensures CountDones(dones[i..i + 1]) == if dones[i] then 1 else 0
  {
    assert dones[i..i + 1][..0] == [];
  }

  /** No done step is counted exactly when there is none. */
  lemma {:induction false} CountDonesZero(dones: seq<bool>)
    ensures CountDones(dones) == 0 <==> forall i :: 0 <= i < |dones| ==> !dones[i]
    decreases |dones|
  {
    if dones != [] {
      CountDonesZero(dones[..|dones| - 1]);
      assert forall i :: 0 <= i < |dones| - 1 ==> dones[..|dones| - 1][i] == dones[i];
    }
  }

  /** The index of the first done step, or `|dones|` when there is none. */
  function FirstDone(dones: seq<bool>): (k: nat)
    ensures k <= |dones|
    ensures k < |dones| ==> dones[k]
    ensures forall i :: 0 <= i < k ==> !dones[i]
    decreases |dones|
  {
    if dones == [] then 0
    else if dones[0] then 0
    else 1 + FirstDone(dones[1..])
  }

  /** The index of the most recent done step, or 0 when there is none. */
  function LastDone(dones: seq<bool>): (k: nat)
    ensures CountDones(dones) == 0 ==> k == 0
    ensures CountDones(dones) > 0 ==> k < |dones| && dones[k] && forall i :: k < i < |dones| ==> !dones[i]
    decreases |dones|
  {
    if dones == [] then 0
    else if dones[|dones| - 1] then |dones| - 1
    else LastDone(dones[..|dones| - 1])
  }

  /** The index of the `k`-th most recent done step (`k = 1` is the most recent). */
  function KthLastDone(dones: seq<bool>, k: nat): (i: nat)
    requires 1 <= k <= CountDones(dones)
    ensures i < |dones| && dones[i] && CountDones(dones[i..]) == k
    decreases |dones|
  {
    var n := |dones|;
    var init := dones[..n - 1];
    assert dones == init + [dones[n - 1]];
    if dones[n - 1] && k == 1 then
      assert dones[n - 1..] == [dones[n - 1]];
      n - 1
    else
      var j := KthLastDone(init, if dones[n - 1] then k - 1 else k);
      assert dones[j..] == init[j..] + [dones[n - 1]];
      CountDonesAppend(init[j..], [dones[n - 1]]);
      j
  }

  // ---------------------------------------------------------------------
  // Python slicing
  // ---------------------------------------------------------------------

  /** A slice bound as Python reads it: negative counts from the end, then clamped to `[0, n]`. */
  function Clamp(i: int, n: nat): (j: nat)
    ensures j <= n
    ensures 0 <= i <= n ==> j == i
    ensures i < 0 && i + n >= 0 ==> j == n + i
    ensures i > n ==> j == n
    ensures i + n < 0 ==> j == 0
  {
    if i < 0 then (if i + n < 0 then 0 else i + n)
    else if i > n then n
    else i
  }

  /** `s[lo:hi]` in Python: bounds clamped, empty when they cross. */
  function Slice<T>(s: seq<T>, lo: int, hi: int): (r: seq<T>)
    ensures |r| <= |s|
  {
    var a, b := Clamp(lo, |s|), Clamp(hi, |s|);
    if a <= b then s[a..b] else []
  }

  /**
   * `s[-interval:]`: the last `interval` items when `interval` is positive,
   * everything when it is zero, everything but the first `-interval` items
   * when it is negative.
   */
  lemma LastItems<T>(s: seq<T>, interval: int)
    ensures var r := Slice(s, -interval, |s|);
      && (interval > 0 ==> |r| == (if interval < |s| then interval else |s|) && r == s[|s| - |r|..])
      && (interval == 0 ==> r == s)
      && (interval < 0 ==> r == s[(if -interval < |s| then -interval else |s|)..])
  {
  }

  // ---------------------------------------------------------------------
  // Splitting a history into episodes
  // ---------------------------------------------------------------------

  /** Per-episode reward sums and lengths, in episode order. */
  datatype EpisodeSplit = EpisodeSplit(episodeRewards: seq<real>, episodeLengths: seq<nat>)

  /** The episodes closed so far and the reward and length of the open one. */
  datatype ScanState = ScanState(episodeRewards: seq<real>, episodeLengths: seq<nat>, accum: real, length: nat)

  /** One step of the split: a non-done step extends the open episode, a done step closes it. */
  function ScanStep(st: ScanState, reward: real, done: bool): ScanState
  {
    if !done then st.(accum := st.accum + reward, length := st.length + 1)
    else ScanState(st.episodeRewards + [st.accum], st.episodeLengths + [st.length], 0.0, 0)
  }

  /** The split state after the whole history, step by step from the first. */
  function Scan(rewards: seq<real>, dones: seq<bool>): ScanState
    requires |rewards| == |dones|
    decreases |rewards|
  {
    if rewards == [] then ScanState([], [], 0.0, 0)
    else
      var n := |rewards|;
      ScanStep(Scan(rewards[..n - 1], dones[..n - 1]), rewards[n - 1], dones[n - 1])
  }

  /**
   * `_episodes_length_rewards`: the steps are paired up to the shorter of
   * the two sequences; the open episode is reported at the end only when
   * it has at least one step.
   */
  function SplitEpisodes(rewards: seq<real>, dones: seq<bool>): (split: EpisodeSplit)
    ensures |split.episodeRewards| == |split.episodeLengths|
  {
    var n := if |rewards| < |dones| then |rewards| else |dones|;
    ScanShape(rewards[..n], dones[..n]);
    var st := Scan(rewards[..n], dones[..n]);
    if st.length > 0 then EpisodeSplit(st.episodeRewards + [st.accum], st.episodeLengths + [st.length])
    else EpisodeSplit(st.episodeRewards, st.episodeLengths)
  }

  /** The number of non-done steps at the end of the history. */
  function TrailingSteps(dones: seq<bool>): (n: nat)
    ensures n <= |dones|
    decreases |dones|
  {
    if dones == [] || dones[|dones| - 1] then 0
    else TrailingSteps(dones[..|dones| - 1]) + 1
  }

  /** Sum of a sequence of reals. */
  function Sum(s: seq<real>): real
    decreases |s|
  {
    if s == [] then 0.0 else Sum(s[..|s| - 1]) + s[|s| - 1]
  }

  /** Sum of a sequence of naturals. */
  function Total(s: seq<nat>): nat
    decreases |s|
  {
    if s == [] then 0 else Total(s[..|s| - 1]) + s[|s| - 1]
  }

  /** The sum of the rewards of the non-done steps. */
  function NonDoneRewards(rewards: seq<real>, dones: seq<bool>): real
    requires |rewards| == |dones|
    decreases |rewards|
  {
    if rewards == [] then 0.0
    else
      var n := |rewards|;
      NonDoneRewards(rewards[..n - 1], dones[..n - 1]) + (if dones[n - 1] then 0.0 else rewards[n - 1])
  }

  lemma SumAppend(s: seq<real>, x: real)
    ensures Sum(s + [x]) == Sum(s) + x
  {
    assert (s + [x])[..|s|] == s;
  }

  lemma TotalAppend(s: seq<nat>, x: nat)
    ensures Total(s + [x]) == Total(s) + x
  {
    assert (s + [x])[..|s|] == s;
  }

  /**
   * What the split keeps while it walks the history: one closed episode
   * per done step, the open episode is the run of non-done steps at the
   * end, and the lengths add up to the non-done steps.
   */
  lemma {:induction false} ScanShape(rewards: seq<real>, dones: seq<bool>)
    requires |rewards| == |dones|
    ensures var st := Scan(rewards, dones);
      && |st.episodeRewards| == |st.episodeLengths| == CountDones(dones)
      && st.length == TrailingSteps(dones)
      && Total(st.episodeLengths) + st.length == |dones| - CountDones(dones)
    decreases |rewards|
  {
    if rewards != [] {
      var n := |rewards|;
      ScanShape(rewards[..n - 1], dones[..n - 1]);
      TotalAppend(Scan(rewards[..n - 1], dones[..n - 1]).episodeLengths, Scan(rewards[..n - 1], dones[..n - 1]).length);
    }
  }

  /** The closed episodes and the open one together hold the rewards of the non-done steps. */
  lemma {:induction false} ScanRewards(rewards: seq<real>, dones: seq<bool>)
    requires |rewards| == |dones|
    ensures var st := Scan(rewards, dones);
      Sum(st.episodeRewards) + st.accum == NonDoneRewards(rewards, dones)
    decreases |rewards|
  {
    if rewards != [] {
      var n := |rewards|;
      ScanRewards(rewards[..n - 1], dones[..n - 1]);
      var st := Scan(rewards[..n - 1], dones[..n - 1]);
      SumAppend(st.episodeRewards, st.accum);
    }
  }

  /**
   * There is one episode per done step, plus one when the history ends
   * with a non-empty run of non-done steps; the two lists have the same
   * length; the lengths add up to the non-done steps and the episode
   * rewards to the rewards of the non-done steps, so the reward at a done
   * step is never counted.
   */
  lemma SplitEpisodesTotals(rewards: seq<real>, dones: seq<bool>)
    requires |rewards| == |dones|
    ensures var split := SplitEpisodes(rewards, dones);
      && |split.episodeRewards| == |split.episodeLengths|
      && |split.episodeRewards| == CountDones(dones) + (if |dones| > 0 && !dones[|dones| - 1] then 1 else 0)
      && Total(split.episodeLengths) == |dones| - CountDones(dones)
      && Sum(split.episodeRewards) == NonDoneRewards(rewards, dones)
      && (|dones| > 0 && !dones[|dones| - 1] ==>
            split.episodeLengths[|split.episodeLengths| - 1] == TrailingSteps(dones) > 0)
  {
    assert rewards[..|rewards|] == rewards && dones[..|dones|] == dones;
    ScanShape(rewards, dones);
    ScanRewards(rewards, dones);
    var st := Scan(rewards, dones);
    SumAppend(st.episodeRewards, st.accum);
    TotalAppend(st.episodeLengths, st.length);
    if |dones| > 0 && !dones[|dones| - 1] {
      assert TrailingSteps(dones) > 0;
    }
  }

  /**
   * Like `zip`, the split reads the steps only up to the shorter of the two
   * sequences: one episode per done step among them, plus one when the
   * last of them is not done.
   */
  lemma SplitEpisodesZip(rewards: seq<real>, dones: seq<bool>)
    ensures var n := if |rewards| < |dones| then |rewards| else |dones|;
      && SplitEpisodes(rewards, dones) == SplitEpisodes(rewards[..n], dones[..n])
      && |SplitEpisodes(rewards, dones).episodeRewards|
         == CountDones(dones[..n]) + (if n > 0 && !dones[n - 1] then 1 else 0)
  {
    var n := if |rewards| < |dones| then |rewards| else |dones|;
    assert rewards[..n][..n] == rewards[..n] && dones[..n][..n] == dones[..n];
    SplitEpisodesTotals(rewards[..n], dones[..n]);
    assert n > 0 ==> dones[..n][n - 1] == dones[n - 1];
  }

  /** A history of at least one step has at least one episode. */
  lemma SplitEpisodesNonEmpty(rewards: seq<real>, dones: seq<bool>)
    requires |rewards| > 0 && |dones| > 0
    ensures |SplitEpisodes(rewards, dones).episodeRewards| > 0
  {
    SplitEpisodesZip(rewards, dones);
    var n := if |rewards| < |dones| then |rewards| else |dones|;
    if dones[n - 1] {
      CountDonesSplit(dones, 0, n - 1, n);
      CountDonesAt(dones, n - 1);
      assert dones[0..n] == dones[..n];
    }
  }

  // ---------------------------------------------------------------------
  // The window of recent episodes
  // ---------------------------------------------------------------------

  /**
   * The window `[start, end)` that `_episodes_stats` computes: `end` is the
   * most recent done step (0 when there is none); `start` moves off 0 only
   * when more than `epInterval` done steps are recorded, and then, because
   * the scan never stops, it lands just after the OLDEST done step.
   */
  function WindowAsWritten(dones: seq<bool>, epInterval: int): (w: (nat, nat))
    ensures w.1 == LastDone(dones)
    ensures w.0 != 0 <==> CountDones(dones) > 0 && CountDones(dones) >= epInterval + 1
    ensures w.0 != 0 ==> w.0 <= |dones| && dones[w.0 - 1] && forall i :: 0 <= i < w.0 - 1 ==> !dones[i]
  {
    CountDonesZero(dones);
    var count := CountDones(dones);
    (if count > 0 && count >= epInterval + 1 then FirstDone(dones) + 1 else 0, LastDone(dones))
  }

  /** One more step in a reverse scan: the done steps of the suffix from `i` on. */
  lemma SuffixCountStep(dones: seq<bool>, i: nat)
    requires i < |dones|
    ensures CountDones(dones[i..]) == CountDones(dones[i + 1..]) + (if dones[i] then 1 else 0)
    ensures CountDones(dones[i..]) <= CountDones(dones)
  {
    var n := |dones|;
    CountDonesSplit(dones, i, i + 1, n);
    CountDonesSplit(dones, 0, i, n);
    CountDonesAt(dones, i);
    assert dones[i..n] == dones[i..] && dones[i + 1..n] == dones[i + 1..] && dones[0..n] == dones;
  }

  /** The first done step of the suffix from `i` on, one step further back. */
  lemma SuffixFirstDoneStep(dones: seq<bool>, i: nat)
    requires i < |dones|
    ensures FirstDone(dones[i..]) == if dones[i] then 0 else 1 + FirstDone(dones[i + 1..])
  {
    assert dones[i..][1..] == dones[i + 1..];
  }

  /** Where the most recent done step lies relative to `i`, read off the suffix after `i`. */
  lemma SuffixLastDoneStep(dones: seq<bool>, i: nat)
    requires i < |dones|
    ensures dones[i] && CountDones(dones[i + 1..]) == 0 ==> LastDone(dones) == i
    ensures CountDones(dones[i + 1..]) > 0 ==> LastDone(dones) > i
  {
    SuffixCountStep(dones, i);
    CountDonesZero(dones[i + 1..]);
    if CountDones(dones[i + 1..]) > 0 {
      var j :| 0 <= j < |dones| - i - 1 && dones[i + 1..][j];
      assert dones[i + 1 + j];
    } else if dones[i] {
      forall j | i < j < |dones|
        ensures !dones[j]
      {
        assert dones[i + 1..][j - i - 1] == dones[j];
      }
    }
  }

  /**
   * The window as evidently intended: `start` is fixed the first time the
   * reverse scan has seen `epInterval + 1` done steps (at least one), that
   * is just after the `(epInterval + 1)`-th most recent done step.
   */
  function IntendedWindow(dones: seq<bool>, epInterval: int): (w: (nat, nat))
    ensures w.1 == LastDone(dones)
  {
    var k := StartCount(epInterval);
    (if CountDones(dones) >= k then KthLastDone(dones, k) + 1 else 0, LastDone(dones))
  }

  /** How many done steps the reverse scan sees before it fixes `start`: `epInterval + 1`, and at least one. */
  function StartCount(epInterval: int): (k: nat)
    ensures k >= 1 && k >= epInterval + 1
    ensures epInterval >= 0 ==> k == epInterval + 1
  {
    if epInterval + 1 >= 1 then epInterval + 1 else 1
  }

  /** A done step at `i` adds to the count of every suffix starting at or before it. */
  lemma MoreDonesBefore(dones: seq<bool>, i: nat, j: nat)
    requires i < j <= |dones| && dones[i]
    ensures CountDones(dones[i..]) > CountDones(dones[j..])
  {
    var n := |dones|;
    CountDonesSplit(dones, i, j, n);
    CountDonesSplit(dones, i, i + 1, j);
    CountDonesAt(dones, i);
    assert dones[i..n] == dones[i..] && dones[j..n] == dones[j..];
  }

  /** The done step whose suffix holds exactly `k` done steps is the `k`-th most recent one. */
  lemma KthLastDoneUnique(dones: seq<bool>, i: nat, k: nat)
    requires i < |dones| && dones[i] && CountDones(dones[i..]) == k && k >= 1
    ensures k <= CountDones(dones) && i == KthLastDone(dones, k)
  {
    SuffixCountStep(dones, i);
    var j := KthLastDone(dones, k);
    if i < j {
      MoreDonesBefore(dones, i, j);
    } else if j < i {
      MoreDonesBefore(dones, j, i);
    }
  }

  /** The most recent done step is the first most recent one. */
  lemma LastDoneIsFirstLast(dones: seq<bool>)
    requires CountDones(dones) > 0
    ensures LastDone(dones) == KthLastDone(dones, 1)
  {
    var e := LastDone(dones);
    SuffixCountStep(dones, e);
    CountDonesZero(dones[e + 1..]);
    var rest := dones[e + 1..];
    forall j | 0 <= j < |rest|
      ensures !rest[j]
    {
      assert rest[j] == dones[e + 1 + j];
    }
    KthLastDoneUnique(dones, e, 1);
  }

  /**
   * Between the `(epInterval + 1)`-th most recent done step and the most
   * recent one lie exactly `epInterval - 1` done steps.
   */
  lemma IntendedWindowCount(dones: seq<bool>, epInterval: int)
    requires 1 <= epInterval && CountDones(dones) >= epInterval + 1
    ensures var w := IntendedWindow(dones, epInterval);
      w.0 <= w.1 && CountDones(dones[w.0..w.1]) == epInterval - 1
  {
    var s := KthLastDone(dones, epInterval + 1);
    var e := LastDone(dones);
    LastDoneIsFirstLast(dones);
    assert CountDones(dones[e..]) == 1;
    assert s <= e;
    assert s != e;
    assert dones[s..] == [dones[s]] + dones[s + 1..e] + dones[e..];
    CountDonesAppend([dones[s]] + dones[s + 1..e], dones[e..]);
    CountDonesAppend([dones[s]], dones[s + 1..e]);
    assert [dones[s]] == [dones[s]][..0] + [dones[s]];
  }

  /**
   * The split of a window `[start, end)` that starts just after a done step:
   * one episode per done step in it, plus one unless the step before `end`
   * is done.
   */
  lemma WindowEpisodes(rewards: seq<real>, dones: seq<bool>, start: nat, end: nat)
    requires |rewards| == |dones|
    requires 0 < start <= end <= |dones| && dones[start - 1]
    ensures |SplitEpisodes(Slice(rewards, start, end), Slice(dones, start, end)).episodeRewards|
         == CountDones(dones[start..end]) + (if dones[end - 1] then 0 else 1)
  {
    var rs, ws := rewards[start..end], dones[start..end];
    assert Slice(rewards, start, end) == rs && Slice(dones, start, end) == ws;
    assert |SplitEpisodes(rs, ws).episodeRewards| == CountDones(ws) + (if |ws| > 0 && !ws[|ws| - 1] then 1 else 0) by {
      SplitEpisodesTotals(rs, ws);
    }
    assert (|ws| > 0 && !ws[|ws| - 1]) == !dones[end - 1] by {
      if start < end {
        assert ws[|ws| - 1] == dones[end - 1];
      }
    }
  }

  /**
   * The split of the intended window: its `epInterval - 1` done steps close
   * as many episodes, and the steps just before the most recent done step
   * form one more unless the step right before it is done too. So the
   * window holds `epInterval` episodes exactly when that step is not done.
   */
  lemma IntendedWindowEpisodes(rewards: seq<real>, dones: seq<bool>, epInterval: int)
    requires |rewards| == |dones|
    requires 1 <= epInterval && CountDones(dones) >= epInterval + 1
    ensures var w := IntendedWindow(dones, epInterval);
      var split := SplitEpisodes(Slice(rewards, w.0, w.1), Slice(dones, w.0, w.1));
      && 0 < w.1 < |dones|
      && |split.episodeRewards| == if dones[w.1 - 1] then epInterval - 1 else epInterval
  {
    var w := IntendedWindow(dones, epInterval);
    IntendedWindowCount(dones, epInterval);
    assert w.0 == KthLastDone(dones, epInterval + 1) + 1;
    WindowEpisodes(rewards, dones, w.0, w.1);
  }

  /** The steps before the first done step hold no done step. */
  lemma CountFromFirstDone(dones: seq<bool>)
    ensures CountDones(dones[FirstDone(dones)..]) == CountDones(dones)
  {
    var f := FirstDone(dones);
    CountDonesZero(dones[..f]);
    assert forall i :: 0 <= i < f ==> dones[..f][i] == dones[i];
    assert dones[0..f] == dones[..f] && dones[0..|dones|] == dones && dones[f..|dones|] == dones[f..];
    CountDonesSplit(dones, 0, f, |dones|);
  }

  /**
   * As written, the window keeps every done step but the oldest and the
   * most recent, however small `epInterval` is.
   */
  lemma WindowAsWrittenCount(dones: seq<bool>, epInterval: int)
    requires CountDones(dones) >= 2 && CountDones(dones) >= epInterval + 1
    ensures var w := WindowAsWritten(dones, epInterval);
      w.0 <= w.1 && CountDones(dones[w.0..w.1]) == CountDones(dones) - 2
  {
    var n := |dones|;
    var f := FirstDone(dones);
    var e := LastDone(dones);
    CountFromFirstDone(dones);
    LastDoneIsFirstLast(dones);
    assert f < e;
    assert dones[f..n] == dones[f..] && dones[e..n] == dones[e..];
    CountDonesSplit(dones, f, e, n);
    CountDonesSplit(dones, f, f + 1, e);
    CountDonesAt(dones, f);
  }

  /**
   * The split of the window as written: every done step but the oldest and
   * the most recent closes an episode, plus one more unless the step
   * before the most recent done step is done, whatever `epInterval` is.
   */
  lemma WindowAsWrittenEpisodes(rewards: seq<real>, dones: seq<bool>, epInterval: int)
    requires |rewards| == |dones|
    requires CountDones(dones) >= 2 && CountDones(dones) >= epInterval + 1
    ensures var w := WindowAsWritten(dones, epInterval);
      var split := SplitEpisodes(Slice(rewards, w.0, w.1), Slice(dones, w.0, w.1));
      && 0 < w.1 < |dones|
      && |split.episodeRewards| == CountDones(dones) - (if dones[w.1 - 1] then 2 else 1)
  {
    var w := WindowAsWritten(dones, epInterval);
    WindowAsWrittenCount(dones, epInterval);
    WindowEpisodes(rewards, dones, w.0, w.1);
  }

  /** A history with done steps at 1, 3 and 5, and one more step after the last. */
  const ExampleDones := [false, true, false, true, false, true, false]

  lemma ExampleDoneSteps()
    ensures CountDones(ExampleDones) == 3
    ensures FirstDone(ExampleDones) == 1 && LastDone(ExampleDones) == 5 && KthLastDone(ExampleDones, 2) == 3
  {
    var d := ExampleDones;
    assert d[..6] == [false, true, false, true, false, true];
    assert d[..5] == [false, true, false, true, false];
    assert d[..4] == [false, true, false, true];
    assert d[..3] == [false, true, false];
    assert d[..2] == [false, true];
    assert d[..1] == [false];
    assert CountDones(d[..1]) == 0 by { assert d[..1][..0] == []; }
    assert CountDones(d[..2]) == 1 by { assert d[..2][..1] == d[..1]; }
    assert CountDones(d[..3]) == 1 by { assert d[..3][..2] == d[..2]; }
    assert CountDones(d[..4]) == 2 by { assert d[..4][..3] == d[..3]; }
    assert CountDones(d[..5]) == 2 by { assert d[..5][..4] == d[..4]; }
    assert CountDones(d[..6]) == 3 by { assert d[..6][..5] == d[..5]; }
    assert d[1..][0];
    assert LastDone(d[..6]) == 5;
    assert KthLastDone(d[..4], 1) == 3;
    assert KthLastDone(d[..5], 1) == 3 by { assert d[..5][..4] == d[..4]; }
    assert KthLastDone(d[..6], 2) == 3 by { assert d[..6][..5] == d[..5]; }
  }

  /**
   * The discrepancy on that history with `epInterval = 1`: as written the
   * window is `[2, 5)` and yields two episodes; the intended window is
   * `[4, 5)` and yields one.
   */
  lemma WindowExample(rewards: seq<real>)
    requires |rewards| == |ExampleDones|
    ensures WindowAsWritten(ExampleDones, 1) == (2, 5)
    ensures IntendedWindow(ExampleDones, 1) == (4, 5)
    ensures |SplitEpisodes(rewards[2..5], ExampleDones[2..5]).episodeRewards| == 2
    ensures |SplitEpisodes(rewards[4..5], ExampleDones[4..5]).episodeRewards| == 1
  {
    ExampleDoneSteps();
    var r3, d3 := rewards[2..5], ExampleDones[2..5];
    assert d3 == [false, true, false];
    assert r3[..3] == r3 && d3[..3] == d3;
    assert r3[..2][..1] == r3[..1] && d3[..2][..1] == d3[..1];
    assert r3[..1][..0] == [] && d3[..1][..0] == [];
    assert Scan(r3[..1], d3[..1]) == ScanState([], [], r3[0], 1);
    assert d3[..2][1];
    assert Scan(r3[..2], d3[..2]).length == 0 && |Scan(r3[..2], d3[..2]).episodeRewards| == 1;
    assert Scan(r3, d3).length == 1 && |Scan(r3, d3).episodeRewards| == 1;
    var r1, d1 := rewards[4..5], ExampleDones[4..5];
    assert d1 == [false];
    assert r1[..1] == r1 && d1[..1] == d1;
    assert r1[..0] == [] && d1[..0] == [];
    assert Scan(r1, d1).length == 1 && Scan(r1, d1).episodeRewards == [];
  }
}
