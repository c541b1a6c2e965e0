# Snapshot sampling of the ETDRK4 KdV integrator

`kdv_etdrk4` in `noaki/rinko_04/KdV.py` integrates the Korteweg–de Vries
equation with an ETDRK4 spectral scheme and thins the trajectory down to a
requested number of snapshots. This project models the integer part of that
driver in Dafny (`kdv.dfy`, module `KdV`):

- the clamp of the requested count `save_steps` to at most `Nt + 1`;
- the save interval `save_every = max(1, Nt // (save_steps - 1))`, with
  Python floor division for divisors of either sign, and the
  `ZeroDivisionError` it raises when the clamped request is 1 (modelled as
  `Err(ZeroDivision)`);
- the recording of the initial state before any step;
- the loop over steps `n = 1 .. Nt`, and the copy of the state saved whenever
  `n % save_every == 0 or n == Nt`.

`Integrate` is an imperative method with the `for n` loop of `kdv_etdrk4`
(KdV.py:76-97). Its loop
invariants tie the growing time and state lists to two specification
functions: `Schedule`, the saved step indices, and `Iterate`, a step applied
`n` times. The lemmas then prove what the sampler promises about `Schedule`.
The loop state is an abstract type `T`, read as the pair of the physical
field `u` and its spectrum `U_hat`. One ETDRK4 step (lines 77-93) is a
parameter `step: T -> T`. `Nt` is an input integer. A saved time `t = n*dt`
is represented by its step index `n`.

Two behaviours of the code are worth knowing:

- The trajectory is not bounded by the requested count. `Nt = 10,
  save_steps = 7` gives interval 1 and 11 entries (`TenStepsSevenRequested`).
  What is proved is the lower bound `CountCoversRequest`.
- `save_steps = 1` with `Nt >= 0` does not return the initial and final
  snapshots. It raises division by zero (`SaveInterval`).

## Model

| member | source | states |
|---|---|---|
| KdV.FloorDiv | noaki/rinko_04/KdV.py:63 | `//` rounds toward negative infinity: for `b > 0`, `b*q <= a < b*q + b`; for `b < 0`, `b*q >= a > b*q + b` |
| KdV.ClampRequest | noaki/rinko_04/KdV.py:61-62 | the clamped request is at most `Nt + 1` and at most the request, equals one of the two, and a request already `<= Nt + 1` is left unchanged |
| KdV.SaveInterval | noaki/rinko_04/KdV.py:61-63 | raises division by zero exactly when the clamped request is 1, i.e. when `save_steps == 1 && Nt >= 0` or `Nt == 0 && save_steps >= 1`; otherwise the interval is `>= 1`, is 1 when the clamped request is `<= 0`, and for a clamped request `s >= 2` is the floor quotient `e*(s-1) <= Nt < (e+1)*(s-1)` |
| KdV.EuclideanAgrees | noaki/rinko_04/KdV.py:63 | for a non-positive clamped request (negative divisor) Euclidean division would give the same interval 1 as floor division |
| KdV.IsSavedStep | noaki/rinko_04/KdV.py:96 | defines the save condition `n % save_every == 0 or n == Nt`; the final step always meets it, interval 1 makes every step meet it, and off a multiple only `n == Nt` does |
| KdV.SavedAmong | noaki/rinko_04/KdV.py:76-97 | defines the steps among `1..k` that the loop saves, in loop order (its properties are stated by `KdV.SavedAmongShape`) |
| KdV.Schedule | noaki/rinko_04/KdV.py:72-97 | defines the step indices of the whole trajectory: step 0 saved at line 73, then the loop's saves; it starts at 0, holds at most `Nt + 1` entries for `Nt >= 0`, and ends at `Nt` for `Nt >= 1` |
| KdV.Iterate | noaki/rinko_04/KdV.py:76-93 | defines the loop state after `n` steps from the initial state |
| KdV.SavedAmongShape | noaki/rinko_04/KdV.py:76-97 | the steps saved by the loop up to step `k` lie in `1..k`, are strictly increasing, are exactly the steps meeting the save condition, number at most one per step, and end with `Nt` when `k == Nt >= 1` |
| KdV.ScheduleMembership | noaki/rinko_04/KdV.py:72-97 | step `n` is recorded iff `n == 0` or `1 <= n <= Nt` and (`n % save_every == 0` or `n == Nt`) |
| KdV.ScheduleOrdered | noaki/rinko_04/KdV.py:72-97 | the first entry is step 0; the entries are strictly increasing and all lie in `0..max(Nt, 0)` |
| KdV.ScheduleLast | noaki/rinko_04/KdV.py:76-97 | for `Nt >= 1` the last entry is step `Nt`, whether or not it is a multiple of the interval; for `Nt <= 0` the only entry is step 0 |
| KdV.ScheduleLength | noaki/rinko_04/KdV.py:63-97 | for `Nt >= 0` the number of entries is `1 + Nt // save_every + (1 if Nt % save_every != 0 else 0)`; for `Nt < 0` it is 1 |
| KdV.CountCoversRequest | noaki/rinko_04/KdV.py:61-97 | whenever no exception is raised, the number of entries is at least the clamped request |
| KdV.TenStepsSevenRequested | noaki/rinko_04/KdV.py:61-97 | `Nt = 10`, `save_steps = 7` gives interval 1 and 11 entries, more than requested |
| KdV.SavedTimesIncreasing | noaki/rinko_04/KdV.py:94-97 | for `dt > 0` the saved times `n*dt` (as exact reals) are strictly increasing |
| KdV.IterateCompose | noaki/rinko_04/KdV.py:76-93 | running `m` steps and then `k` more is the same as running `m + k` steps |
| KdV.SnapshotsChain | noaki/rinko_04/KdV.py:68-97 | each snapshot equals the previous snapshot advanced by the steps in between, so later steps do not change earlier snapshots |
| KdV.Integrate | noaki/rinko_04/KdV.py:60-97 | fails exactly when the interval computation divides by zero; otherwise the time list is `Schedule(Nt, save_every)`, the state list has the same length, the state saved at step `n` is `step` applied `n` times to the initial state, the first entry is step 0 with the unmodified initial state, and for `Nt >= 1` the last entry is step `Nt` with the final state |

## Left out

- Grid and wavenumber construction (lines 18-23): floating-point wrappers over `linspace` and `fftfreq`.
- The sech² initial condition (lines 27-30): a floating-point formula. The initial state is a parameter `u0`.
- `Nt = int(np.round(tmax / dt))` (line 60): float division followed by banker's rounding. `Nt` is an input.
- The ETDRK4 coefficients: `E` and `E2` (lines 33-34) are complex exponentials; `Q`, `f1`, `f2` and `f3` (lines 35-51) are complex floating-point contour averages.
- The nonlinear term and the four-stage update (lines 54-57, 77-93): FFT and float arithmetic. They are the parameter `step`.
- The spectrum `U_hat` as separate state (lines 75, 87-93): the loop carries `U_hat` from step to step, and line 93 keeps only the real part of its inverse transform, so in floating point the next `u` is not a function of the saved `u` alone. The model reads `T` as the pair (`u`, `U_hat`), the initial state `u0` as (`u`, `fft(u)`) from line 75, `step` as one update of the pair, and a snapshot as the pair's physical part `u`; the contracts hold under that reading.
- The saved times as floats (line 94): a time is its step index `n`. `SavedTimesIncreasing` treats `n*dt` as an exact real product.
- The `.copy()` (line 70): states are values in the model, so aliasing cannot arise. Independence of snapshots is stated as `SnapshotsChain` and the per-entry ensures of `Integrate`.
- The conversion of `t_save` and `U_save` to numpy arrays for the return value (lines 99-100): the model returns sequences.
- `plot_surface` and `main`: display and file output.
- `noaki/rinko_04/symple_KdV.py`: a closed-form float formula with no discrete logic.
