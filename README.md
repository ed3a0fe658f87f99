# fetchandpi, modelled in Dafny

`fetchandpi.py` starts a number of downloads and one π generator together in a
gevent pool. The main greenlet polls the pool. When the generator is the only
job left, the main greenlet kills it and prints the last record the generator
published. This project models three parts of that program:

- **The two generators.** Madhava–Leibniz (`pi_approx_classic`) and Chudnovsky
  (`pi_approx_ng`). Each has a state datatype and a one-step function. Each
  also has a method that runs the step for up to `n` iterations and returns
  the final state, the records published and the yield decision after each
  increment. A closed form gives the state after `n` iterations: the Leibniz
  partial sum, and the Chudnovsky series Σ M_j L_j / X_j with
  `M_j = (6j)! / ((3j)! (j!)^3)`.
- **The yield rule.** `i % piswitch == 0`, with Python's `%`, including the
  ZeroDivisionError raised when `piswitch` is 0.
- **The polling loop of `run`.** The pool is a class holding a set of jobs,
  and `AsyncResult` is a class holding the last value set. The scheduler's
  choices are parameters: which jobs leave during each sleep, and which
  records the generator sets during it.

Modules: `Wrappers` (Option), `PyInt` (Python's `//`, `%` and `**`), `Cadence`
(the yield rule), `Classic`, `Chudnovsky` and `Orchestrator` (`run`).

`Decimal` arithmetic is modelled with Dafny's `real`. This is exact rational
arithmetic: the model ignores the context precision (28 digits by default,
200 with `--quality`) and never rounds. All other state is exact integers, as
in Python.

Notes on how the code behaves:
- The Chudnovsky update `M = (K**3 - 16*K) * M // i**3` never truncates. `M`
  is always the integer `(6n)! / ((3n)! (n!)^3)`, so the floor division is exact.
- With `piswitch == 0` (and `copies > 0`), the generator publishes one record and then dies on
  `i % 0`. From then on the pi job is no longer in the pool, so `run` never
  sees its stop condition and polls forever.
- The code does not check that the pool's capacity is at least `copies + 1`.
  A download that fails raises inside its greenlet; nothing turns the failure
  into a value. Neither behaviour is modelled.
- With `copies == 0`, the first poll happens before the generator has run.
  The pi job is then killed before publishing anything, and `evt.get()` has
  no value to return. `Orchestrator.Run` proves that it reports `None` here: no
  write precedes poll 0, and killing a greenlet that has not started cancels it.
- `pool.killone(pijob)` blocks until the generator has exited. Until the kill
  reaches it, the generator can run on and set more records, so the printed
  record can be later than the last one set before the stopping poll.

## Model

| member | source | states |
|---|---|---|
| PyInt.FloorDiv | fetchandpi.py:78 | Python's `//`: for `b > 0` the result `q` satisfies `q*b <= a < q*b + b`, and the mirror image holds for `b < 0` |
| PyInt.Mod | fetchandpi.py:61 | Python's `%`: `a == b * (a // b) + r`, with `0 <= r < b` for `b > 0` and `b < r <= 0` for `b < 0` |
| PyInt.FloorDivExact | fetchandpi.py:78 | Floor division of an exact multiple `q*b` by `b > 0` returns `q` |
| PyInt.PowSign | fetchandpi.py:80 | A power of a non-zero base is non-zero; for a negative base it is positive exactly for even exponents |
| Cadence.AfterIncrement | fetchandpi.py:61-62 | The yield check raises ZeroDivisionError exactly when `piswitch == 0`; with the default `piswitch = 1` every iteration yields |
| Cadence.YieldsAtMultiples | fetchandpi.py:89-90 | Every post-increment counter that is a multiple of a non-zero `piswitch` yields, for either sign of `piswitch` |
| Cadence.ContinuesBetweenMultiples | fetchandpi.py:61-62 | No counter strictly between two consecutive multiples of `piswitch` yields |
| Classic.Estimate | fetchandpi.py:49-50 | The helper `pi(ppi) = 4*ppi`; `Classic.StepAt` and `Classic.Run` state the published estimate `4*S_{k+1}` through it |
| Classic.Step | fetchandpi.py:52-58 | One pass of the loop body; its contract is `Classic.StepAt`, which ties it to the closed-form Leibniz sum |
| Classic.StartIsAt | fetchandpi.py:47 | The initial `(S, i, sign) = (0, 0, 1)` is the closed form after zero iterations |
| Classic.StepAt | fetchandpi.py:52-58 | From the state after `n` iterations, one step gives `S = Σ_{j<=n} (-1)^j/(2j+1)`, `i = n+1`, `sign = (-1)^(n+1)`, and publishes `{'pi': 4*S, 'i': n}` |
| Classic.Run | fetchandpi.py:42-62 | After `n` iterations `i == n` and `sign == (-1)^n`. Record `k` is `{'pi': 4*S_{k+1}, 'i': k}`. The decision after iteration `k` is the yield rule at counter `k+1`. With `piswitch == 0` exactly one record is published (when `n > 0`) |
| Classic.BetweenPrevious | fetchandpi.py:54-55 | Each estimate from the third on lies strictly between the two before it |
| Chudnovsky.StartIsAt | fetchandpi.py:71 | The initial `(6, 1, 13591409, 1, 13591409, 1)` is the closed form after zero iterations |
| Chudnovsky.Step | fetchandpi.py:76-86 | One pass of the loop body; its contract is `Chudnovsky.StepAt` (closed form) together with `Chudnovsky.AtCanStep` (both divisors non-zero) |
| Chudnovsky.StepAt | fetchandpi.py:76-86 | From the state after `n` iterations, one step is defined and gives `K = 6+12(n+1)`, `M = M_{n+1}`, `L = 13591409+545140134(n+1)`, `X = (-262537412640768000)^(n+1)`, `S = Σ_{j<=n+1} M_j L_j / X_j` and `i = n+2`; it publishes `S` with counter `n+1` |
| Chudnovsky.AtCanStep | fetchandpi.py:78-82 | Every reachable state has `i != 0` and `X != 0`, so both divisions in the step are defined |
| Chudnovsky.MRecurrenceExact | fetchandpi.py:78 | `M_{n+1} * (n+1)^3 == (K^3 - 16K) * M_n` with `K = 12n+6`: the division by `i**3` is exact |
| Chudnovsky.MStep | fetchandpi.py:78 | The floor division on line 78 yields exactly the next closed-form `M` |
| Chudnovsky.MAtPositive | fetchandpi.py:71-78 | `M` is at least 1 after every number of iterations |
| Chudnovsky.MStaysPositive | fetchandpi.py:78 | If `K = 12i - 6`, `i >= 1` and `M >= 1`, then `(K^3 - 16K)*M >= i^3`, so the new `M` is at least 1 |
| Chudnovsky.XAtSign | fetchandpi.py:80-82 | `X` after `n` iterations is never zero, and it is positive exactly when `n` is even |
| Chudnovsky.Run | fetchandpi.py:65-90 | After `n` iterations `K = 6+12n`, `i = 1+n`, `L = 13591409+545140134n`, `M >= 1`, `X != 0`, and the state matches the closed form. Record `k` carries `S_{k+1}` and counter `k+1`, so published counters are 1, 2, 3, …. The decision after iteration `k` is the yield rule at counter `k+2` |
| Chudnovsky.TermSmall | fetchandpi.py:82 | From `j = 1` on, every series term `M_j L_j / X_j` is at most `2^-j` in magnitude |
| Chudnovsky.SeriesBounds | fetchandpi.py:73-77 | `S` after `n` iterations lies within `13591409 ± (1 - 2^-n)`, so it is positive and `pi(S)` never divides by zero |
| Orchestrator.Pool.constructor | fetchandpi.py:95 | A new pool has no members |
| Orchestrator.Pool.Len | fetchandpi.py:109 | `len(pool)`, the size of the membership; `Orchestrator.OnlyPiWhenFinished` states what the stop condition built from it means |
| Orchestrator.Pool.Contains | fetchandpi.py:109 | `pijob in pool`, membership; `Orchestrator.OnlyPiWhenFinished` states what the stop condition built from it means |
| Orchestrator.Pool.Start | fetchandpi.py:100 | `pool.start(job)` adds exactly that job to the membership |
| Orchestrator.Pool.Discard | fetchandpi.py:95 | gevent discards a finished greenlet from the `Pool` created at line 95: exactly that job leaves and nothing else changes |
| Orchestrator.Pool.KillOne | fetchandpi.py:110 | `pool.killone(job)` removes exactly that job and leaves the other members alone |
| Orchestrator.ResultCell.constructor | fetchandpi.py:94 | A new `AsyncResult` holds no value |
| Orchestrator.ResultCell.Set | fetchandpi.py:55 | `evt.set(v)` replaces whatever was held with `v` |
| Orchestrator.ResultCell.Get | fetchandpi.py:111 | `evt.get()` returns the value held; `None` means the call would block forever |
| Orchestrator.StartDownloads | fetchandpi.py:97-101 | Starts downloads `0 .. copies-1` in the pool and returns `dldjobs` in that order |
| Orchestrator.SetAll | fetchandpi.py:55 | After a run of `evt.set` calls the cell holds the last value set, or its earlier value if there was none |
| Orchestrator.KillAndJoin | fetchandpi.py:110 | `pool.killone(pijob)` removes exactly the pi job; while it joins the generator, the cell ends up holding the last record set during the join |
| Orchestrator.LetOthersRun | fetchandpi.py:118 | During a sleep the departing jobs leave the pool, and the cell ends up holding the last record set in that sleep |
| Orchestrator.Run | fetchandpi.py:93-118 | `run` returns at the poll `FirstStop` picks, where the pool's only member is the pi job. On return the pi job is removed and the pool is empty. `dldjobs` lists the downloads in start order. The report is the last record set before that poll or while `killone` joins the generator. If `run` is still polling when the script ends, no poll stopped. With `copies == 0` it stops at poll 0 and reports `None` |
| Orchestrator.Finished | fetchandpi.py:109 | The stop condition `len(pool) == 1 and pijob in pool`; `Orchestrator.OnlyPiWhenFinished` proves it holds exactly when the membership is `{pijob}` |
| Orchestrator.FirstStopIsFirst | fetchandpi.py:107-110 | The poll `FirstStop` returns meets the stop condition and no earlier poll does; when it returns `None`, no poll meets it |
| Orchestrator.PollNext | fetchandpi.py:118 | A sleep removes exactly the departing jobs from the membership. It leaves the cell holding the last record set during the sleep, or the earlier value if none was set |
| Orchestrator.LatestAppend | fetchandpi.py:111 | Setting a batch of values after earlier ones leaves the last value of the batch, or the earlier last value if the batch is empty |
| Orchestrator.OnlyPiWhenFinished | fetchandpi.py:109 | `len(pool) == 1 and pijob in pool` holds exactly when the membership is `{pijob}` |
| Orchestrator.AllDownloadsDoneFinishes | fetchandpi.py:107-116 | Once every download has left and the pi job has not, the next poll meets the stop condition |
| Orchestrator.PiCrashNeverFinishes | fetchandpi.py:107-118 | Once the pi job has left the pool, no later poll meets the stop condition |

## Left out

- `dld` (download, timing, SHA-256 checksum) is external I/O. A download is an opaque `Download(pid)` job that leaves the pool when the scheduler script says so. Its stats record and the printing of `dldjob.value` are not modelled.
- gevent scheduling, `monkey.patch_all` and `gevent.sleep` are not modelled. What happens during each sleep is a parameter of `Orchestrator.Run`.
- A negative `copies` (the command line accepts one) makes `xrange` empty, so the program behaves as with `copies == 0`; the model takes `copies` as a `nat`.
- Pool capacity (`greenlets`) is not modelled. In gevent, `pool.start` blocks when the pool is full.
- `Decimal` rounding is not modelled. `S` is an exact `real`, whatever the context precision (28 by default, 200 with `--quality`).
- The Chudnovsky estimate `426880 * sqrt(10005) / S` needs a square root and is not modelled. A Chudnovsky record carries `S` and the counter instead of the estimate.
- Classic.Run: the source loops forever until killed. The model runs at most `n` iterations, the number the scheduler allows before the kill.
- Chudnovsky.Run: the source loops forever until killed. The model runs at most `n` iterations, the number the scheduler allows before the kill.
- Orchestrator.Run: the source polls forever. The model polls `|departures| + 1` times and returns `StillPolling` if none of them stops.
- No convergence-rate or digits-of-π claims are made.
- Logging, `print`, the `click` command line and the wall-clock timing in `main` are not modelled.
