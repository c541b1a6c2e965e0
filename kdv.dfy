/** The snapshot-sampling driver of the ETDRK4 KdV integrator `kdv_etdrk4`.

    The integer part of the driver is modelled exactly: the clamp of the
    requested snapshot count, the save interval computed with Python floor
    division (and its division by zero), the recording of the initial state,
    the Nt-step loop and the save condition `n % save_every == 0 or n == Nt`.
    The loop state is an abstract type `T`: the pair of the physical field
    `u` and its spectrum `U_hat` that KdV.py carries from step to step, with
    a snapshot standing for the pair's physical part. One ETDRK4 step is a
    parameter `step: T -> T`. A saved time `n*dt` is represented by its
    step index `n`.
 */
module KdV {

  /** The one exception the sampling prologue can raise: `Nt // 0`. */
  datatype Error = ZeroDivision

  datatype Result<T> = Ok(value: T) | Err(error: Error)

  /** What the integrator returns: the step index of every saved snapshot
      (the time list, `t = n*dt`) and the saved fields (the state list). */
  datatype Trajectory<T> = Trajectory(steps: seq<nat>, states: seq<T>)

  function Max(a: int, b: int): (m: int)
    ensures m >= a && m >= b && (m == a || m == b)
  {
    if a >= b then a else b
  }

  /** Python's `a // b`: the quotient rounded toward negative infinity,
      for divisors of either sign. */
  function FloorDiv(a: int, b: int): (q: int)
    requires b != 0
    ensures b > 0 ==> b * q <= a < b * q + b
    ensures b < 0 ==> b * q >= a > b * q + b
  {
    if b > 0 then a / b else (-a) / (-b)
  }

  /** The request after `if save_steps > Nt + 1: save_steps = Nt + 1`. */
  function ClampRequest(nt: int, saveSteps: int): (s: int)
    ensures s <= nt + 1 && s <= saveSteps
    ensures s == saveSteps || s == nt + 1
    ensures saveSteps <= nt + 1 ==> s == saveSteps
  {
    if saveSteps > nt + 1 then nt + 1 else saveSteps
  }

  /** `save_every = max(1, Nt // (save_steps - 1))` on the clamped request. */
  function SaveInterval(nt: int, saveSteps: int): (r: Result<nat>)
    ensures r.Err? <==> ClampRequest(nt, saveSteps) == 1
    ensures r.Err? <==> (saveSteps == 1 && nt >= 0) || (nt == 0 && saveSteps >= 1)
    ensures r.Ok? ==> r.value >= 1
    ensures r.Ok? && ClampRequest(nt, saveSteps) <= 0 ==> r.value == 1
    ensures r.Ok? && ClampRequest(nt, saveSteps) >= 2 ==>
      var d := ClampRequest(nt, saveSteps) - 1;
      r.value * d <= nt < (r.value + 1) * d
  {
    var s := ClampRequest(nt, saveSteps);
    if s - 1 == 0 then Err(ZeroDivision)
    else
      var q := FloorDiv(nt, s - 1);
      assert s <= 0 ==> q <= 1 by {
        if s <= 0 && nt < 0 { DivisorNoSmaller(nt, s - 1, q); }
      }
      assert s >= 2 ==> q >= 1 && q * (s - 1) <= nt < (q + 1) * (s - 1) by {
        if s >= 2 { DividendNoSmaller(nt, s - 1, q); }
      }
      Ok(Max(1, q))
  }

  /** A negative dividend over a divisor at least as large in magnitude
      has floor quotient at most 1. */
  lemma DivisorNoSmaller(a: int, b: int, q: int)
    requires b <= a < 0
    requires b * q >= a > b * q + b
    ensures q <= 1
  {
  }

  /** A dividend at least as large as a positive divisor has floor
      quotient at least 1. */
  lemma DividendNoSmaller(a: int, b: int, q: int)
    requires 1 <= b <= a
    requires b * q <= a < b * q + b
    ensures q >= 1 && q * b <= a < (q + 1) * b
  {
    assert b * (q + 1) > b;
    MulAwayFromZero(b, q);
  }

  /** With a non-positive clamped request the divisor is negative; Dafny's
      Euclidean `/` would give the interval 1 just as Python's `//` does. */
  lemma EuclideanAgrees(nt: int, saveSteps: int)
    requires ClampRequest(nt, saveSteps) <= 0
    ensures Max(1, nt / (ClampRequest(nt, saveSteps) - 1)) == 1
    ensures SaveInterval(nt, saveSteps) == Ok(1)
  {
  }

  /** KdV.py line 96: whether step `n` of the loop is saved. The final
      step always is, and with interval 1 every step is. */
  predicate IsSavedStep(n: int, nt: int, every: nat): (saved: bool)
    requires every >= 1
    ensures n == nt ==> saved
    ensures every == 1 ==> saved
    ensures n % every != 0 ==> (saved <==> n == nt)
  {
    n % every == 0 || n == nt
  }

  /** The steps among 1..k that KdV.py line 96 saves, in loop order
      (`SavedAmongShape` states what this sequence holds). */
  function SavedAmong(k: int, nt: int, every: nat): (r: seq<nat>)
    requires every >= 1
    decreases k
  {
    if k <= 0 then []
    else SavedAmong(k - 1, nt, every) + (if IsSavedStep(k, nt, every) then [k] else [])
  }

  /** Step indices of the whole trajectory: level 0, then the saved steps.
      It starts at 0, never holds more than Nt + 1 entries when Nt >= 0,
      and ends at Nt when Nt >= 1. */
  function Schedule(nt: int, every: nat): (r: seq<nat>)
    requires every >= 1
    ensures r != [] && r[0] == 0
    ensures nt >= 0 ==> |r| <= nt + 1
    ensures nt >= 1 ==> r[|r| - 1] == nt
  {
    SavedAmongShape(nt, nt, every);
    [0] + SavedAmong(nt, nt, every)
  }

  /** The state after `n` ETDRK4 steps from `u0`. */
  function Iterate<T>(step: T -> T, u0: T, n: nat): (u: T)
  {
    if n == 0 then u0 else step(Iterate(step, u0, n - 1))
  }

  /** Running `m` steps and then `k` more is running `m + k` steps: a
      snapshot, once copied, is the state the loop resumes from. */
  lemma {:induction false} IterateCompose<T>(step: T -> T, u0: T, m: nat, k: nat)
    ensures Iterate(step, Iterate(step, u0, m), k) == Iterate(step, u0, m + k)
  {
    if k > 0 {
      IterateCompose(step, u0, m, k - 1);
    }
  }

  /** The saved steps among 1..k are strictly increasing, lie in 1..k, are
      exactly those that satisfy the save condition, number at most one per
      step, and end with step k itself when k == Nt. */
  lemma {:induction false} SavedAmongShape(k: int, nt: int, every: nat)
    requires every >= 1
    ensures var r := SavedAmong(k, nt, every);
      (forall i :: 0 <= i < |r| ==> 1 <= r[i] <= k) &&
      (forall i, j :: 0 <= i < j < |r| ==> r[i] < r[j]) &&
      (forall n: nat :: n in r <==> 1 <= n <= k && IsSavedStep(n, nt, every)) &&
      |r| <= (if k >= 0 then k else 0) &&
      (k >= 1 && k == nt ==> r != [] && r[|r| - 1] == nt)
  {
    if k > 0 {
      SavedAmongShape(k - 1, nt, every);
    }
  }

  /** Which steps are recorded: level 0 and a step `n` in 1..Nt exactly when
      `n % save_every == 0 || n == Nt`. */
  lemma ScheduleMembership(nt: int, every: nat, n: nat)
    requires every >= 1
    ensures n in Schedule(nt, every) <==>
      n == 0 || (1 <= n <= nt && (n % every == 0 || n == nt))
  {
    SavedAmongShape(nt, nt, every);
  }

  /** The first entry is level 0, the entries are strictly increasing and
      lie in 0..Nt (just level 0 when Nt <= 0). */
  lemma ScheduleOrdered(nt: int, every: nat)
    requires every >= 1
    ensures var s := Schedule(nt, every);
      s[0] == 0 &&
      (forall i, j :: 0 <= i < j < |s| ==> s[i] < s[j]) &&
      (forall i :: 0 <= i < |s| ==> s[i] <= Max(nt, 0))
  {
    SavedAmongShape(nt, nt, every);
    var s := Schedule(nt, every);
    assert forall i :: 1 <= i < |s| ==> s[i] == SavedAmong(nt, nt, every)[i - 1];
  }

  /** With Nt >= 1 the last entry is step Nt, whether or not Nt is a
      multiple of the interval (a corollary of the contract of `Schedule`,
      stated here beside the case Nt <= 0, where the loop does not run and
      only level 0 is recorded). */
  lemma ScheduleLast(nt: int, every: nat)
    requires every >= 1
    ensures nt >= 1 ==> Schedule(nt, every)[|Schedule(nt, every)| - 1] == nt
    ensures nt <= 0 ==> Schedule(nt, every) == [0]
  {
  }

  /** Each snapshot is the previous one advanced by the steps in between:
      later steps leave earlier snapshots as they were when copied. */
  lemma SnapshotsChain<T>(nt: int, every: nat, step: T -> T, u0: T, tr: Trajectory<T>, i: nat)
    requires every >= 1
    requires tr.steps == Schedule(nt, every) && |tr.states| == |tr.steps|
    requires forall k :: 0 <= k < |tr.states| ==> tr.states[k] == Iterate(step, u0, tr.steps[k])
    requires i + 1 < |tr.steps|
    ensures tr.steps[i] < tr.steps[i + 1]
    ensures tr.states[i + 1] == Iterate(step, tr.states[i], tr.steps[i + 1] - tr.steps[i])
  {
    ScheduleOrdered(nt, every);
    IterateCompose(step, u0, tr.steps[i], tr.steps[i + 1] - tr.steps[i]);
  }

  /** The saved times `n*dt` are strictly increasing for `dt > 0`. */
  lemma SavedTimesIncreasing(nt: int, every: nat, dt: real)
    requires every >= 1 && dt > 0.0
    ensures var s := Schedule(nt, every);
      forall i, j :: 0 <= i < j < |s| ==> (s[i] as real) * dt < (s[j] as real) * dt
  {
    ScheduleOrdered(nt, every);
  }

  /** One more step adds one to the quotient exactly when it lands on a multiple. */
  lemma DivStep(k: nat, every: nat)
    requires k >= 1 && every >= 1
    ensures k / every == (k - 1) / every + (if k % every == 0 then 1 else 0)
  {
    var q, r := (k - 1) / every, (k - 1) % every;
    assert k == every * q + r + 1;
    if r + 1 == every {
      DivModUnique(k, every, q + 1, 0);
    } else {
      DivModUnique(k, every, q, r + 1);
    }
  }

  lemma DivModUnique(a: int, b: int, q: int, r: int)
    requires b >= 1 && 0 <= r < b && a == b * q + r
    ensures a / b == q && a % b == r
  {
    var q', r' := a / b, a % b;
    assert a == b * q' + r' && 0 <= r' < b;
    assert -b < b * (q - q') < b;
    MulAwayFromZero(b, q - q');
  }

  lemma MulAwayFromZero(b: int, x: int)
    requires b >= 1
    ensures x >= 1 ==> b * x >= b
    ensures x <= -1 ==> b * x <= -b
  {
  }

  /** Before the final step, one entry per multiple of the interval. */
  lemma {:induction false} SavedAmongCount(k: int, nt: int, every: nat)
    requires every >= 1 && 0 <= k < nt
    ensures |SavedAmong(k, nt, every)| == k / every
  {
    if k > 0 {
      SavedAmongCount(k - 1, nt, every);
      DivStep(k, every);
    }
  }

  /** The entry count is `1 + Nt // save_every`, plus one for the final
      step when it is not a multiple of the interval. */
  lemma ScheduleLength(nt: int, every: nat)
    requires every >= 1
    ensures nt >= 0 ==>
      |Schedule(nt, every)| == 1 + nt / every + (if nt % every != 0 then 1 else 0)
    ensures nt < 0 ==> |Schedule(nt, every)| == 1
  {
    if nt >= 1 {
      SavedAmongCount(nt - 1, nt, every);
      DivStep(nt, every);
    }
  }

  /** `q * d <= a` makes `a / q` at least `d`. */
  lemma QuotientAtLeast(a: int, q: int, d: int)
    requires q >= 1 && d >= 1 && q * d <= a
    ensures a / q >= d
  {
    var m := a / q;
    assert a == q * m + a % q && a % q < q;
    assert q * (m + 1 - d) > 0;
  }

  /** The trajectory holds at least as many entries as the clamped request
      (it may hold many more). */
  lemma CountCoversRequest(nt: int, saveSteps: int)
    requires SaveInterval(nt, saveSteps).Ok?
    ensures |Schedule(nt, SaveInterval(nt, saveSteps).value)| >= ClampRequest(nt, saveSteps)
  {
    var s := ClampRequest(nt, saveSteps);
    var every := SaveInterval(nt, saveSteps).value;
    ScheduleLength(nt, every);
    if s >= 2 {
      QuotientAtLeast(nt, every, s - 1);
    }
  }

  /** Nt = 10 with 7 snapshots requested: the interval is 1 and all 11
      time levels are saved. */
  lemma TenStepsSevenRequested()
    ensures SaveInterval(10, 7) == Ok(1)
    ensures |Schedule(10, SaveInterval(10, 7).value)| == 11
  {
  }

  /** One loop iteration extends the recorded steps by step `n` exactly
      when it meets the save condition. */
  lemma ScheduleStep(n: int, nt: int, every: nat)
    requires every >= 1 && n >= 1
    ensures [0] + SavedAmong(n, nt, every) ==
      ([0] + SavedAmong(n - 1, nt, every)) + (if n % every == 0 || n == nt then [n] else [])
  {
  }

  /** The sampling driver of `kdv_etdrk4`: clamp the request, compute the
      interval, record the initial state, run Nt steps and record a copy of
      the state after every step that meets the save condition. */
  method Integrate<T>(nt: int, saveSteps: int, u0: T, step: T -> T) returns (r: Result<Trajectory<T>>)
    ensures r.Err? <==> SaveInterval(nt, saveSteps).Err?
    ensures r.Ok? ==> r.value.steps == Schedule(nt, SaveInterval(nt, saveSteps).value)
    ensures r.Ok? ==> |r.value.states| == |r.value.steps|
    ensures r.Ok? ==> forall i :: 0 <= i < |r.value.states| ==>
      r.value.states[i] == Iterate(step, u0, r.value.steps[i])
    ensures r.Ok? ==> r.value.steps[0] == 0 && r.value.states[0] == u0
    ensures r.Ok? && nt >= 1 ==>
      r.value.steps[|r.value.steps| - 1] == nt &&
      r.value.states[|r.value.states| - 1] == Iterate(step, u0, nt)
  {
    var s := saveSteps;
    if s > nt + 1 {
      s := nt + 1;
    }
    if s - 1 == 0 {
      return Err(ZeroDivision);
    }
    var every := Max(1, FloorDiv(nt, s - 1));
    assert Ok(every) == SaveInterval(nt, saveSteps);

    var steps: seq<nat> := [0];
    var states: seq<T> := [u0];
    var u := u0;
    var n := 1;
    while n <= nt
      invariant 1 <= n && (n == 1 || n <= nt + 1)
      invariant u == Iterate(step, u0, n - 1)
      invariant steps == [0] + SavedAmong(n - 1, nt, every)
      invariant |states| == |steps|
      invariant forall i :: 0 <= i < |states| ==> states[i] == Iterate(step, u0, steps[i])
      decreases nt - n
    {
      u := step(u);
      ScheduleStep(n, nt, every);
      if n % every == 0 || n == nt {
        steps := steps + [n];
        states := states + [u];
      }
      n := n + 1;
    }
    assert SavedAmong(n - 1, nt, every) == SavedAmong(nt, nt, every);
    ScheduleLast(nt, every);
    r := Ok(Trajectory(steps, states));
  }
}
