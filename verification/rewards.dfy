/**
 * The list-based reward-shaping recurrences that the library's `discount`
 * and `generalized_advantage` are checked against: discounted returns that
 * restart at every done step and accept a bootstrap for the step after the
 * window, and the generalized advantage estimate, which masks with
 * `1 - done` instead of restarting.
 *
 * Rewards, values, `gamma` and `tau` are exact reals.
 */
module Rewards {

  datatype Error = LengthMismatch

  datatype Result<T> = Ok(value: T) | Err(error: Error)

  /** The first element of `s`, or `default` when `s` is empty. */
  function HeadOr(s: seq<real>, default: real): real
  {
    if s == [] then default else s[0]
  }

  // ---------------------------------------------------------------------
  // Discounted returns
  // ---------------------------------------------------------------------

  /** A reward plus the discounted return that follows it. */
  function AddDiscounted(gamma: real, reward: real, next: real): real
  {
    reward + gamma * next
  }

  /**
   * Specification of `discount_rewards`: the returns of the window, built
   * from its last step backwards. The running return after the window is
   * `bootstrap`; a done step drops everything carried from later steps.
   */
  function Discount(gamma: real, rewards: seq<real>, dones: seq<bool>, bootstrap: real): (out: seq<real>)
    requires |rewards| == |dones|
    ensures |out| == |rewards|
    decreases |rewards|
  {
    if rewards == [] then []
    else
      var later := Discount(gamma, rewards[1..], dones[1..], bootstrap);
      [AddDiscounted(gamma, rewards[0], if dones[0] then 0.0 else HeadOr(later, bootstrap))] + later
  }

  /**
   * The loop of `discount_rewards`: walks the time steps from last to first,
   * zeroes the running return on a done step, folds in the reward and puts
   * the return in front of those already computed. Only the first
   * `|rewards|` done flags are read.
   */
  method DiscountRewards(gamma: real, rewards: seq<real>, dones: seq<bool>, bootstrap: real := 0.0)
    returns (discounted: seq<real>)
    requires |rewards| <= |dones|
    ensures discounted == Discount(gamma, rewards, dones[..|rewards|], bootstrap)
  {
    var ds := dones[..|rewards|];
    var r := bootstrap;
    discounted := [];
    var t := |rewards|;
    while t > 0
      invariant 0 <= t <= |rewards|
      invariant discounted == Discount(gamma, rewards[t..], ds[t..], bootstrap)
      invariant r == HeadOr(discounted, bootstrap)
    {
      t := t - 1;
      if dones[t] {
        r := r * 0.0;
      }
      ghost var next := r;
      r := rewards[t] + gamma * r;
      assert rewards[t..][1..] == rewards[t + 1..] && ds[t..][1..] == ds[t + 1..];
      assert rewards[t..][0] == rewards[t] && ds[t..][0] == dones[t];
      assert r == AddDiscounted(gamma, rewards[t], next);
      discounted := [r] + discounted;
    }
  }

  /** Each return is its reward plus `gamma` times the next return, or zero after a done step. */
  lemma {:induction false} DiscountAt(gamma: real, rewards: seq<real>, dones: seq<bool>, bootstrap: real, t: nat)
    requires |rewards| == |dones| && t < |rewards|
    ensures var out := Discount(gamma, rewards, dones, bootstrap);
      out[t] == rewards[t] + gamma * (if dones[t] then 0.0
                                      else if t == |rewards| - 1 then bootstrap
                                      else out[t + 1])
    decreases t
  {
    if t > 0 {
      DiscountAt(gamma, rewards[1..], dones[1..], bootstrap, t - 1);
    }
  }

  /** The returns from step `i` on depend only on the steps from `i` on. */
  lemma {:induction false} DiscountSuffix(gamma: real, rewards: seq<real>, dones: seq<bool>, bootstrap: real, i: nat)
    requires |rewards| == |dones| && i <= |rewards|
    ensures Discount(gamma, rewards, dones, bootstrap)[i..] == Discount(gamma, rewards[i..], dones[i..], bootstrap)
    decreases i
  {
    if i > 0 {
      DiscountSuffix(gamma, rewards[1..], dones[1..], bootstrap, i - 1);
      assert rewards[1..][i - 1..] == rewards[i..] && dones[1..][i - 1..] == dones[i..];
    }
  }

  /**
   * Discounting a concatenation is discounting the second part with the
   * given bootstrap and the first part with the first return of the second
   * part as its bootstrap.
   */
  lemma {:induction false} DiscountConcat(gamma: real, r1: seq<real>, d1: seq<bool>, r2: seq<real>, d2: seq<bool>, bootstrap: real)
    requires |r1| == |d1| && |r2| == |d2|
    ensures var second := Discount(gamma, r2, d2, bootstrap);
      Discount(gamma, r1 + r2, d1 + d2, bootstrap) == Discount(gamma, r1, d1, HeadOr(second, bootstrap)) + second
    decreases |r1|
  {
    if r1 == [] {
      assert r1 + r2 == r2 && d1 + d2 == d2;
    } else {
      var second := Discount(gamma, r2, d2, bootstrap);
      var hb := HeadOr(second, bootstrap);
      assert (r1 + r2)[1..] == r1[1..] + r2 && (d1 + d2)[1..] == d1[1..] + d2;
      assert (r1 + r2)[0] == r1[0] && (d1 + d2)[0] == d1[0];
      DiscountConcat(gamma, r1[1..], d1[1..], r2, d2, bootstrap);

      var rest := Discount(gamma, r1[1..], d1[1..], hb);
      assert HeadOr(rest + second, bootstrap) == HeadOr(rest, hb);
    }
  }

  /**
   * No return crosses a done step: when `r1` ends on a done step, its
   * returns are the same whatever follows it and whatever the bootstrap.
   */
  lemma {:induction false} NoReturnCrossesDone(gamma: real, r1: seq<real>, d1: seq<bool>, r2: seq<real>, d2: seq<bool>,
                                              bootstrap: real, otherBootstrap: real)
    requires |r1| == |d1| && |r2| == |d2|
    requires |r1| > 0 && d1[|r1| - 1]
    ensures Discount(gamma, r1 + r2, d1 + d2, bootstrap)[..|r1|] == Discount(gamma, r1, d1, otherBootstrap)
  {
    DiscountConcat(gamma, r1, d1, r2, d2, bootstrap);
    BootstrapIgnoredAfterDone(gamma, r1, d1, HeadOr(Discount(gamma, r2, d2, bootstrap), bootstrap), otherBootstrap);
  }

  /** When the window ends on a done step, the bootstrap changes no return. */
  lemma {:induction false} BootstrapIgnoredAfterDone(gamma: real, rewards: seq<real>, dones: seq<bool>, b1: real, b2: real)
    requires |rewards| == |dones| && |rewards| > 0 && dones[|rewards| - 1]
    ensures Discount(gamma, rewards, dones, b1) == Discount(gamma, rewards, dones, b2)
    decreases |rewards|
  {
    if |rewards| > 1 {
      assert dones[1..][|rewards| - 2] == dones[|rewards| - 1];
      BootstrapIgnoredAfterDone(gamma, rewards[1..], dones[1..], b1, b2);

    }
  }

  /**
   * A segment `[i, j)` of the window, discounted with the return at `j` as
   * its bootstrap, reproduces the returns of that segment.
   */
  lemma DiscountSegment(gamma: real, rewards: seq<real>, dones: seq<bool>, bootstrap: real, i: nat, j: nat)
    requires |rewards| == |dones| && i <= j < |rewards|
    ensures var out := Discount(gamma, rewards, dones, bootstrap);
      Discount(gamma, rewards[i..j], dones[i..j], out[j]) == out[i..j]
  {
    var out := Discount(gamma, rewards, dones, bootstrap);
    DiscountSuffix(gamma, rewards, dones, bootstrap, i);
    DiscountSuffix(gamma, rewards, dones, bootstrap, j);
    assert rewards[i..] == rewards[i..j] + rewards[j..] && dones[i..] == dones[i..j] + dones[j..];
    DiscountConcat(gamma, rewards[i..j], dones[i..j], rewards[j..], dones[j..], bootstrap);
    assert out[i..j] == out[i..][..j - i];
  }

  /**
   * The wrap-around invariant: when the window ends on a done step, the
   * rearranged window `rewards[a..] + rewards[..c]` discounted with the
   * original return at `c` as bootstrap gives `out[a..] + out[..c]`.
   */
  lemma WrapAround(gamma: real, rewards: seq<real>, dones: seq<bool>, bootstrap: real, a: nat, c: nat)
    requires |rewards| == |dones| && |rewards| > 0 && dones[|rewards| - 1]
    requires a <= |rewards| && c < |rewards|
    ensures var out := Discount(gamma, rewards, dones, bootstrap);
      Discount(gamma, rewards[a..] + rewards[..c], dones[a..] + dones[..c], out[c]) == out[a..] + out[..c]
  {
    var out := Discount(gamma, rewards, dones, bootstrap);
    DiscountConcat(gamma, rewards[a..], dones[a..], rewards[..c], dones[..c], out[c]);
    DiscountSegment(gamma, rewards, dones, bootstrap, 0, c);
    assert rewards[0..c] == rewards[..c] && dones[0..c] == dones[..c] && out[0..c] == out[..c];
    DiscountSuffix(gamma, rewards, dones, bootstrap, a);
    if a < |rewards| {
      BootstrapIgnoredAfterDone(gamma, rewards[a..], dones[a..], HeadOr(out[..c], out[c]), bootstrap);
    }
  }

  /** `gamma` raised to the power `k`. */
  function Pow(gamma: real, k: nat): real
  {
    if k == 0 then 1.0 else gamma * Pow(gamma, k - 1)
  }

  /** The discounted sum of the rewards, `sum of gamma^i * rewards[i]`, adding the last term to the sum of the others. */
  function WeightedSum(gamma: real, rewards: seq<real>): real
    decreases |rewards|
  {
    if rewards == [] then 0.0
    else WeightedSum(gamma, rewards[..|rewards| - 1]) + Pow(gamma, |rewards| - 1) * rewards[|rewards| - 1]
  }

  /** `gamma^k1` is `gamma` times `gamma^k` when `k1` is `k + 1`. */
  lemma PowSucc(gamma: real, k: nat, k1: nat)
    requires k1 == k + 1
    ensures Pow(gamma, k1) == gamma * Pow(gamma, k)
  {
  }

  /** Unfolds `WeightedSum` once at its last element, the `n`-th reward. */
  lemma WeightedSumLast(gamma: real, rewards: seq<real>, n: nat)
    requires |rewards| == n + 1
    ensures WeightedSum(gamma, rewards) == WeightedSum(gamma, rewards[..n]) + Pow(gamma, n) * rewards[n]
  {
  }

  /** Putting a reward in front multiplies the weights of the others by `gamma`. */
  lemma {:induction false} WeightedSumCons(gamma: real, x: real, rewards: seq<real>)
    ensures WeightedSum(gamma, [x] + rewards) == AddDiscounted(gamma, x, WeightedSum(gamma, rewards))
    decreases |rewards|
  {
    var xs := [x] + rewards;
    if rewards == [] {
      WeightedSumLast(gamma, xs, 0);
      assert xs[..0] == [] && xs[0] == x;
      assert WeightedSum(gamma, xs) == x;
    } else {
      var n := |rewards|;
      var init := rewards[..n - 1];
      assert xs[..n] == [x] + init;
      assert xs[n] == rewards[n - 1];
      WeightedSumCons(gamma, x, init);
      WeightedSumLast(gamma, xs, n);
      WeightedSumLast(gamma, rewards, n - 1);
      PowSucc(gamma, n - 1, n);
      ConsStep(gamma, x, WeightedSum(gamma, init), Pow(gamma, n - 1), rewards[n - 1],
        WeightedSum(gamma, xs), WeightedSum(gamma, xs[..n]), Pow(gamma, n), WeightedSum(gamma, rewards));
    }
  }

  /**
   * The arithmetic of one step of `WeightedSumCons`: `initSum` and `sum` are
   * the weighted sums of `init` and `init + [last]`, `consInitSum` and
   * `consSum` those of `[first] + init` and `[first] + init + [last]`, and
   * `powPrev`, `powNext` the weights of `last` in each.
   */
  lemma ConsStep(gamma: real, first: real, initSum: real, powPrev: real, last: real,
                 consSum: real, consInitSum: real, powNext: real, sum: real)
    requires consSum == consInitSum + powNext * last
    requires consInitSum == AddDiscounted(gamma, first, initSum)
    requires powNext == gamma * powPrev
    requires sum == initSum + powPrev * last
    ensures consSum == AddDiscounted(gamma, first, sum)
  {
  }

  /** What the bootstrap contributes to the first return of `k` steps: nothing when the last step is done. */
  function BootstrapTerm(gamma: real, k: nat, lastDone: bool, bootstrap: real): real
  {
    if lastDone then 0.0 else Pow(gamma, k) * bootstrap
  }

  /** One more step in front discounts the bootstrap's contribution once more. */
  lemma BootstrapTermSucc(gamma: real, k: nat, k1: nat, lastDone: bool, bootstrap: real)
    requires k1 == k + 1
    ensures BootstrapTerm(gamma, k1, lastDone, bootstrap) == gamma * BootstrapTerm(gamma, k, lastDone, bootstrap)
  {
    PowSucc(gamma, k, k1);
  }

  /**
   * The arithmetic of one step of `DiscountHeadClosedForm`: `laterReturn` is
   * the return from the second step, `restSum` the weighted sum of the later
   * rewards, `tailTerm` the bootstrap term after them.
   */
  lemma ClosedFormStep(gamma: real, firstReward: real, restSum: real, tailTerm: real,
                       headReturn: real, laterReturn: real, sum: real, nextTailTerm: real)
    requires laterReturn == restSum + tailTerm
    requires headReturn == AddDiscounted(gamma, firstReward, laterReturn)
    requires sum == AddDiscounted(gamma, firstReward, restSum)
    requires nextTailTerm == gamma * tailTerm
    ensures headReturn == sum + nextTailTerm
  {
  }

  /** One step of `DiscountHeadClosedForm`, on the values it combines. */
  lemma ClosedFormCombine(gamma: real, firstReward: real, restSum: real, k: nat, n: nat, lastDone: bool, bootstrap: real,
                          headReturn: real, laterReturn: real, sum: real)
    requires n == k + 1
    requires laterReturn == restSum + BootstrapTerm(gamma, k, lastDone, bootstrap)
    requires headReturn == AddDiscounted(gamma, firstReward, laterReturn)
    requires sum == AddDiscounted(gamma, firstReward, restSum)
    ensures headReturn == sum + BootstrapTerm(gamma, n, lastDone, bootstrap)
  {
    BootstrapTermSucc(gamma, k, n, lastDone, bootstrap);
    ClosedFormStep(gamma, firstReward, restSum, BootstrapTerm(gamma, k, lastDone, bootstrap),
      headReturn, laterReturn, sum, BootstrapTerm(gamma, n, lastDone, bootstrap));
  }

  /** The first return of a window of two or more steps whose first step is not done. */
  lemma DiscountHeadStep(gamma: real, rewards: seq<real>, dones: seq<bool>, bootstrap: real)
    requires |rewards| == |dones| && |rewards| > 1 && !dones[0]
    ensures Discount(gamma, rewards, dones, bootstrap)[0]
         == AddDiscounted(gamma, rewards[0], Discount(gamma, rewards[1..], dones[1..], bootstrap)[0])
  {
  }

  /**
   * Closed form of the first return when no step before the last is done:
   * the discounted reward sum, plus `gamma^T * bootstrap` unless the last
   * step is done.
   */
  lemma {:induction false} DiscountHeadClosedForm(gamma: real, rewards: seq<real>, dones: seq<bool>, bootstrap: real)
    requires |rewards| == |dones| && |rewards| > 0
    requires forall i :: 0 <= i < |dones| - 1 ==> !dones[i]
    ensures Discount(gamma, rewards, dones, bootstrap)[0]
         == WeightedSum(gamma, rewards) + BootstrapTerm(gamma, |rewards|, dones[|dones| - 1], bootstrap)
    decreases |rewards|
  {
    var n := |rewards|;
    if n == 1 {
      assert rewards[1..] == [] && rewards[..0] == [];
      assert WeightedSum(gamma, rewards) == rewards[0];
      BootstrapTermSucc(gamma, 0, 1, dones[0], bootstrap);
    } else {
      var rs, ds := rewards[1..], dones[1..];
      assert forall i :: 0 <= i < |ds| - 1 ==> !ds[i] by {
        forall i | 0 <= i < |ds| - 1
          ensures !ds[i]
        {
          assert ds[i] == dones[i + 1];
        }
      }
      assert |rs| + 1 == n && ds[|ds| - 1] == dones[n - 1];
      DiscountHeadClosedForm(gamma, rs, ds, bootstrap);
      DiscountHeadStep(gamma, rewards, dones, bootstrap);
      assert rewards == [rewards[0]] + rs;
      WeightedSumCons(gamma, rewards[0], rs);
      ClosedFormCombine(gamma, rewards[0], WeightedSum(gamma, rs), |rs|, n, dones[n - 1], bootstrap,
        Discount(gamma, rewards, dones, bootstrap)[0], Discount(gamma, rs, ds, bootstrap)[0], WeightedSum(gamma, rewards));
    }
  }

  /** The worked example: `gamma = 0.5`, five rewards of 8, only the last step done. */
  lemma DiscountExample()
    ensures Discount(0.5, [8.0, 8.0, 8.0, 8.0, 8.0], [false, false, false, false, true], 0.0)
         == [15.5, 15.0, 14.0, 12.0, 8.0]
  {
    var r := [8.0, 8.0, 8.0, 8.0, 8.0];
    var d := [false, false, false, false, true];
    assert Discount(0.5, r[4..], d[4..], 0.0) == [8.0];
    assert Discount(0.5, r[3..], d[3..], 0.0) == [12.0, 8.0];
    assert Discount(0.5, r[2..], d[2..], 0.0) == [14.0, 12.0, 8.0];
    assert Discount(0.5, r[1..], d[1..], 0.0) == [15.0, 14.0, 12.0, 8.0];
  }

  /**
   * The overlap scenario of the worked example: the buffer rearranged as
   * `[2:] + [:3]` and discounted with the return at index 3 as bootstrap.
   */
  lemma OverlapExample()
    ensures Discount(0.5, [8.0, 8.0, 8.0, 8.0, 8.0, 8.0], [false, false, true, false, false, false], 12.0)
         == [14.0, 12.0, 8.0, 15.5, 15.0, 14.0]
  {
    var r := [8.0, 8.0, 8.0, 8.0, 8.0];
    var d := [false, false, false, false, true];
    DiscountExample();
    WrapAround(0.5, r, d, 0.0, 2, 3);
    assert r[2..] + r[..3] == [8.0, 8.0, 8.0, 8.0, 8.0, 8.0];
    assert d[2..] + d[..3] == [false, false, true, false, false, false];
  }

  // ---------------------------------------------------------------------
  // Generalized advantage estimate
  // ---------------------------------------------------------------------

  /** One-step temporal-difference error; `done` masks the next value. */
  function TdError(gamma: real, reward: real, done: real, value: real, nextValue: real): real
  {
    reward + (1.0 - done) * gamma * nextValue - value
  }

  /** The advantage at a step: the carried advantage, decayed by `tau * gamma` and masked by `1 - done`, plus the TD error. */
  function Accumulate(gamma: real, tau: real, done: real, advantage: real, tdError: real): real
  {
    advantage * tau * gamma * (1.0 - done) + tdError
  }

  /**
   * Specification of `generalized_advantage_estimate`, built from the last
   * step backwards: the value after the window is `nextValue`, the
   * advantage carried into the last step is zero, and `1 - done` masks both
   * the next value and the carried advantage.
   */
  function Gae(gamma: real, tau: real, rewards: seq<real>, dones: seq<real>, values: seq<real>, nextValue: real)
    : (advantages: seq<real>)
    requires |rewards| == |dones| == |values|
    ensures |advantages| == |rewards|
    decreases |rewards|
  {
    if rewards == [] then []
    else
      var later := Gae(gamma, tau, rewards[1..], dones[1..], values[1..], nextValue);
      var td := TdError(gamma, rewards[0], dones[0], values[0], HeadOr(values[1..], nextValue));
      [Accumulate(gamma, tau, dones[0], HeadOr(later, 0.0), td)] + later
  }

  /**
   * The loop of `generalized_advantage_estimate`: fails when the three
   * sequences differ in length, otherwise walks the steps from last to
   * first, carrying the advantage and the next value.
   */
  method GeneralizedAdvantageEstimate(gamma: real, tau: real, rewards: seq<real>, dones: seq<real>,
                                      values: seq<real>, nextValue: real)
    returns (result: Result<seq<real>>)
    ensures result.Err? <==> !(|values| == |rewards| == |dones|)
    ensures result.Ok? ==> |values| == |rewards| == |dones|
                           && result.value == Gae(gamma, tau, rewards, dones, values, nextValue)
  {
    if !(|values| == |rewards| == |dones|) {
      return Err(LengthMismatch);
    }
    var advantages: seq<real> := [];
    var advantage := 0.0;
    var next := nextValue;
    var i := |rewards|;
    while i > 0
      invariant 0 <= i <= |rewards|
      invariant advantages == Gae(gamma, tau, rewards[i..], dones[i..], values[i..], nextValue)
      invariant advantage == HeadOr(advantages, 0.0)
      invariant next == HeadOr(values[i..], nextValue)
    {
      i := i - 1;
      var tdError := rewards[i] + (1.0 - dones[i]) * gamma * next - values[i];
      advantage := advantage * tau * gamma * (1.0 - dones[i]) + tdError;
      assert rewards[i..][1..] == rewards[i + 1..] && dones[i..][1..] == dones[i + 1..]
          && values[i..][1..] == values[i + 1..];
      assert rewards[i..][0] == rewards[i] && dones[i..][0] == dones[i] && values[i..][0] == values[i];
      assert advantage == Accumulate(gamma, tau, dones[i], HeadOr(advantages, 0.0),
                                     TdError(gamma, rewards[i], dones[i], values[i], HeadOr(values[i + 1..], nextValue)));
      advantages := [advantage] + advantages;
      next := values[i];
    }
    return Ok(advantages);
  }

  /** The advantage recurrence: TD error plus the masked, decayed next advantage. */
  lemma {:induction false} GaeAt(gamma: real, tau: real, rewards: seq<real>, dones: seq<real>, values: seq<real>,
                                 nextValue: real, i: nat)
    requires |rewards| == |dones| == |values| && i < |rewards|
    ensures var adv := Gae(gamma, tau, rewards, dones, values, nextValue);
      var last := i == |rewards| - 1;
      adv[i] == Accumulate(gamma, tau, dones[i], if last then 0.0 else adv[i + 1],
                           TdError(gamma, rewards[i], dones[i], values[i], if last then nextValue else values[i + 1]))
    decreases i
  {
    if i > 0 {
      GaeAt(gamma, tau, rewards[1..], dones[1..], values[1..], nextValue, i - 1);
    }
  }

  /** With `tau = 0` every advantage is its one-step TD error. */
  lemma GaeTauZero(gamma: real, rewards: seq<real>, dones: seq<real>, values: seq<real>, nextValue: real, i: nat)
    requires |rewards| == |dones| == |values| && i < |rewards|
    ensures Gae(gamma, 0.0, rewards, dones, values, nextValue)[i]
         == TdError(gamma, rewards[i], dones[i], values[i], if i == |rewards| - 1 then nextValue else values[i + 1])
  {
    GaeAt(gamma, 0.0, rewards, dones, values, nextValue, i);
  }

  /**
   * At a done step the advantage is the reward minus the value, whatever
   * the later steps and the next value are.
   */
  lemma GaeAtDone(gamma: real, tau: real, rewards: seq<real>, dones: seq<real>, values: seq<real>, nextValue: real, i: nat)
    requires |rewards| == |dones| == |values| && i < |rewards| && dones[i] == 1.0
    ensures Gae(gamma, tau, rewards, dones, values, nextValue)[i] == rewards[i] - values[i]
  {
    GaeAt(gamma, tau, rewards, dones, values, nextValue, i);
  }

  /**
   * No advantage leaks back across a done step: when the first part of the
   * window ends with `done = 1`, its advantages are those of that part on
   * its own, whatever follows it and whatever the next value is.
   */
  lemma {:induction false} GaeNoLeak(gamma: real, tau: real, r1: seq<real>, d1: seq<real>, v1: seq<real>,
                                     r2: seq<real>, d2: seq<real>, v2: seq<real>,
                                     nextValue: real, otherNextValue: real)
    requires |r1| == |d1| == |v1| && |r2| == |d2| == |v2|
    requires |r1| > 0 && d1[|r1| - 1] == 1.0
    ensures Gae(gamma, tau, r1 + r2, d1 + d2, v1 + v2, nextValue)[..|r1|]
         == Gae(gamma, tau, r1, d1, v1, otherNextValue)
    decreases |r1|
  {
    var whole := Gae(gamma, tau, r1 + r2, d1 + d2, v1 + v2, nextValue);
    var part := Gae(gamma, tau, r1, d1, v1, otherNextValue);
    if |r1| == 1 {
      GaeAtDone(gamma, tau, r1 + r2, d1 + d2, v1 + v2, nextValue, 0);
      GaeAtDone(gamma, tau, r1, d1, v1, otherNextValue, 0);
      assert whole[..1] == [whole[0]];
    } else {
      assert (r1 + r2)[1..] == r1[1..] + r2 && (d1 + d2)[1..] == d1[1..] + d2 && (v1 + v2)[1..] == v1[1..] + v2;
      assert d1[1..][|r1| - 2] == d1[|r1| - 1];
      GaeNoLeak(gamma, tau, r1[1..], d1[1..], v1[1..], r2, d2, v2, nextValue, otherNextValue);
      assert whole[1..][..|r1| - 1] == part[1..];
      assert whole[0] == part[0];
      assert whole[..|r1|] == [whole[0]] + whole[1..][..|r1| - 1];
    }
  }

  /** Boolean done flags as the 0/1 mask that the advantage estimate reads. */
  function AsMask(dones: seq<bool>): (mask: seq<real>)
    ensures |mask| == |dones|
    ensures forall i :: 0 <= i < |dones| ==> mask[i] == if dones[i] then 1.0 else 0.0
  {
    seq(|dones|, i requires 0 <= i < |dones| => if dones[i] then 1.0 else 0.0)
  }

  /**
   * The mask and the reset agree on boolean dones: with `tau = 1` each
   * advantage plus its value is the discounted return bootstrapped with
   * `nextValue`.
   */
  lemma {:induction false} GaeTauOneIsReturnMinusValue(gamma: real, rewards: seq<real>, dones: seq<bool>,
                                                       values: seq<real>, nextValue: real)
    requires |rewards| == |dones| == |values|
    ensures var adv := Gae(gamma, 1.0, rewards, AsMask(dones), values, nextValue);
      var ret := Discount(gamma, rewards, dones, nextValue);
      forall i :: 0 <= i < |rewards| ==> adv[i] + values[i] == ret[i]
    decreases |rewards|
  {
    if rewards != [] {
      assert AsMask(dones)[1..] == AsMask(dones[1..]);
      GaeTauOneIsReturnMinusValue(gamma, rewards[1..], dones[1..], values[1..], nextValue);
      var adv := Gae(gamma, 1.0, rewards, AsMask(dones), values, nextValue);
      var ret := Discount(gamma, rewards, dones, nextValue);
      if |rewards| > 1 {
        assert adv[1] + values[1] == ret[1];
      }
      assert adv[0] + values[0] == ret[0];
      forall i | 1 <= i < |rewards|
        ensures adv[i] + values[i] == ret[i]
      {
        assert adv[i] == Gae(gamma, 1.0, rewards[1..], AsMask(dones[1..]), values[1..], nextValue)[i - 1];
      }
    }
  }
}
