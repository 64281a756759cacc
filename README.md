# WGS84 ECEF velocity calculator: time lookup and query logic

This project models the core of a C++ velocity calculator in Dafny. The calculator loads a log of
position samples: a timestamp, latitude, longitude and height for each row, at a fixed sampling interval.
A query takes a time, finds the pair of samples that brackets it and divides the ECEF (Earth-Centered,
Earth-Fixed) distance between them by the sampling interval. The model covers:

- the recursive binary search `searchIndicesBinary`, which maps a time to the sample whose half-open
  interval `[ts[k], ts[k] + timeIncrement)` contains it (`TimeLookup.SearchIndicesBinary`);
- the three-way rejection of `isTimeValid`: too early, too late, or exactly the first sample, whose
  velocity is reported as 0 (`VelocityCalculator.ValidateTime`);
- the orchestration of `callVelocity`: validate, search, report an unusable index as a lookup error,
  step back from the last sample, and divide by `timeIncrement` (`WGS84ECEFVelocityCalculator.CallVelocity`);
- the loaded state: the row store of capacity 1000, the count `totalEntriesFound` and `timeIncrement`
  (`WGS84ECEFVelocityCalculator`, constructor `Load`).

Timestamps are modelled as `real`; the lookup only compares and subtracts them. The console output of the
source becomes the datatype `VelocityOutcome = Velocity | TooEarly | TooLate | AtOrigin | LookupError`.
The ECEF distance between the two bracketing rows is the parameter `distance` of `CallVelocity`.

The source assumes a uniform interval, computed from the first two rows only. The model states that
assumption as `FixedInterval`: `timeIncrement > 0`, and every consecutive pair of timestamps is exactly
`timeIncrement` apart. `Valid()` requires at least two rows (see Left out), at most 1000, and
`timeIncrement` equal to the gap between the first two rows. Without the uniform-interval assumption
the search can miss and the lookup error is reachable. `CallVelocity` states what it
guarantees in that case too, and proves the lookup error unreachable when the assumption holds.

## Model

| member | source | states |
|---|---|---|
| `TimeLookup.SearchIndicesBinary` | VelocityCalculator.cpp:251-276 | An empty range (`low > high`) gives -1. Any other result lies in `[low, high]` and its sample covers the query (`0 <= t - ts[r] < timeIncrement`). Every index read is in bounds when `0 <= low` and `high < N`. Each recursive call shrinks `high - low`, so the search terminates. |
| `TimeLookup.CoveringIndex` | VelocityCalculator.cpp:259-265 | Reference definition of the sample the search should find, computed by walking down from the last index. For a fixed-interval log and `ts[0] <= t < ts[hi] + timeIncrement`, it returns an index `<= hi` whose sample covers `t`. |
| `TimeLookup.FixedIntervalGap` | VelocityCalculator.cpp:244-245 | Under the uniform-interval assumption, samples `i < j` are at least one interval apart, so the timestamps strictly increase. |
| `TimeLookup.FixedIntervalIsSpaced` | VelocityCalculator.cpp:244-245 | A fixed-interval log is spaced: any two samples are at least `timeIncrement` apart. |
| `TimeLookup.SearchFindsCovering` | VelocityCalculator.cpp:251-276 | Completeness: in a spaced log, if sample `k` of `[low, high]` covers the query, the search over `[low, high]` returns exactly `k`. |
| `TimeLookup.NotFoundMeansUncovered` | VelocityCalculator.cpp:253-256 | In a spaced log, -1 is returned only when no sample of `[low, high]` covers the query. |
| `TimeLookup.SearchWithinRange` | VelocityCalculator.cpp:129-135 | For a fixed-interval log and `ts[0] <= t <= ts[N-1]`, the search over `[0, N-1]` returns an index in `[0, N-1]`, namely `CoveringIndex`. The `ERROR` branch is therefore unreachable after validation. |
| `TimeLookup.SearchSampleTime` | VelocityCalculator.cpp:251-276 | Searching for a recorded time `ts[i]` of a fixed-interval log returns `i`. |
| `VelocityCalculator.ValidateTime` | VelocityCalculator.cpp:178-206 | Exact classification, following the source's order of checks. Too small iff `t < ts[0]`, reporting `ts[0]`. Too large iff `ts[0] <= t` and `ts[N-1] < t`, reporting `ts[N-1]`. Starting position iff `t == ts[0] <= ts[N-1]`. Valid iff `ts[0] < t <= ts[N-1]`. |
| `VelocityCalculator.CalculateVelocity` | VelocityCalculator.cpp:86-89 | The result is the rate that covers `distance` in `time`: `v * time == distance`. It requires `time != 0`. That holds at its one call (VelocityCalculator.cpp:146), where the divisor is `timeIncrement`: a velocity is only computed for an index the search found, and such an index covers the query, which forces `timeIncrement > 0`. |
| `VelocityCalculator.VelocityOverBracketDuration` | VelocityCalculator.cpp:86-89 | In a fixed-interval log, dividing a distance by `timeIncrement` (set at line 245) equals dividing it by the elapsed time `ts[k+1] - ts[k]` of any sample pair, and that time is positive. The velocity is therefore distance over the pair's own duration, and it is non-negative for a non-negative distance. |
| `VelocityCalculator.CoveringSampleBrackets` | VelocityCalculator.cpp:137-141 | In a fixed-interval log, a covering sample `k` with `t <= ts[N-1]` brackets `t` with its successor (`ts[k] <= t < ts[k+1]`), one `timeIncrement` later. The exception is `k = N-1`, where `t == ts[N-1]` and `ts[N-2] < t`, which is why the step back gives a valid pair. |
| `VelocityCalculator.FoundSampleBrackets` | VelocityCalculator.cpp:129-141 | In a fixed-interval log of at least two rows, `ts[0] < ts[N-1]`. For `ts[0] <= t <= ts[N-1]` the search finds `CoveringIndex`. After the step back from `N-1`, the index `low` is `min(CoveringIndex, N-2)`, and `ts[low] <= t <= ts[low+1]` with `ts[low+1] - ts[low] == timeIncrement`. A query at `ts[N-1]` gives `low = N-2`. |
| `VelocityCalculator.WGS84ECEFVelocityCalculator.Load` | VelocityCalculator.cpp:211-246 | Loads at most 1000 rows and leaves every other row zero. `totalEntriesFound` is the number loaded, and `timeIncrement` is the gap between the first two timestamps. |
| `VelocityCalculator.WGS84ECEFVelocityCalculator.CallVelocity` | VelocityCalculator.cpp:120-151 | Rejections are exactly those of `ValidateTime` and carry its reported bound; no velocity is computed for them. For any log, the outcome is tied to the search over `[0, N-1]`: a lookup error occurs iff the time is in range and the search returns -1, so every in-range time the search finds yields a velocity. A velocity uses `lowIndex` = the search result, stepped back by one when it is `N-1`. The pair `(lowIndex, lowIndex+1)` lies inside the rows. The velocity equals `distance(row lowIndex, row lowIndex+1) / timeIncrement` with `timeIncrement > 0`. `lowIndex` covers the query, or is `N-2` with the query at the last time. Under the uniform interval: no lookup error; a query at `ts[0]` reports `AtOrigin`; `ts[lowIndex] <= t <= ts[lowIndex+1]`, and `ts[lowIndex+1] - ts[lowIndex] == timeIncrement`, so the divisor is the pair's elapsed time; every `ts[0] < t <= ts[N-1]` yields a velocity from `min(CoveringIndex, N-2)`; and a query at `ts[N-1]` uses the pair `(N-2, N-1)`. |

## Left out

- ECEF geometry (VelocityCalculator.cpp:38-41, 43-70, 75-81, 94-115, 156-159): the radius of curvature, the LLA to ECEF conversion, degrees to radians and the Euclidean distance are floating-point trigonometry with no exact Dafny counterpart. `CallVelocity` takes the distance between two rows as a parameter, and nothing is assumed about it.
- CSV parsing in `parseCSV` (VelocityCalculator.cpp:211-246): reading the file, splitting on commas, `stod` and scaling the height by 1000 are file I/O. `Load` receives already-parsed rows in meters. It models the 1000-row cap, the zero rows beyond the loaded ones and the `timeIncrement` setup.
- `Load` requires at least two rows. The source with fewer rows would read the zero-filled second row, giving a `timeIncrement` of `-ts[0]`. Even so, a one-row log rejects every query that is not NaN in `isTimeValid` before `timeIncrement` is used. With zero rows, line 189 reads `positionData[-1]`. Neither case is modelled.
- The interactive menu, prompts, `cin`/`cout`, `main`, the factory and the destructor (VelocityCalculator.cpp:283-350): console I/O and lifecycle. The printed messages become `VelocityOutcome` values.
- `CalculateVelocity` requires `time != 0` instead of modelling the IEEE result of a division by zero (an infinity, or NaN for `0 / 0`). In the source the divisor is always `timeIncrement`, and the division is reached only after the search has found an index. That index covers the query, `0 <= t - ts[k] < timeIncrement`, so `timeIncrement > 0` there on every log, uniform or not. The excluded case is unreachable from `callVelocity`.
- Floating point: timestamps and velocities are exact reals. Rounding in `timeVal - positionData[mid][0]` is not modelled. Neither are NaN queries, for which every comparison in `isTimeValid` is false, so the source accepts them and the search then returns -1.
- Integer width: `(low + high) / 2` cannot overflow with at most 1000 rows, so indices are unbounded integers. The operands are non-negative, where C++ truncating division and Dafny's Euclidean division agree.
- `CallVelocity` also returns `lowIndex`, the source's local variable after the step back, so that its contract can name the bracket it used. The source only prints the velocity.
