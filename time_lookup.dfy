/**
 * Time-indexed lookup over the timestamp column of the position log.
 *
 * The column is a sequence of sample times `ts`; sample `k` is taken to cover
 * the half-open interval [ts[k], ts[k] + timeIncrement). The binary search maps
 * a query time to the sample whose interval contains it, or to -1.
 */
module TimeLookup {

  /** Sample `k` covers time `t`: `t` lies in [ts[k], ts[k] + timeIncrement). */
  predicate Covers(ts: seq<real>, timeIncrement: real, t: real, k: int)
    requires 0 <= k < |ts|
  {
    0.0 <= t - ts[k] < timeIncrement
  }

  /** Sample `k + 1` follows sample `k` after exactly one interval. */
  predicate StepAt(ts: seq<real>, timeIncrement: real, k: int)
    requires 0 <= k < |ts| - 1
  {
    ts[k + 1] == ts[k] + timeIncrement
  }

  /**
   * The log's documented assumption: a positive sampling interval, and every
   * consecutive pair of timestamps exactly that interval apart.
   */
  predicate FixedInterval(ts: seq<real>, timeIncrement: real) {
    && 0.0 < timeIncrement
    && forall k :: 0 <= k < |ts| - 1 ==> StepAt(ts, timeIncrement, k)
  }

  /** Any two samples are at least one interval apart, so no time is covered twice. */
  ghost predicate Spaced(ts: seq<real>, timeIncrement: real) {
    forall i, j :: 0 <= i < j < |ts| ==> ts[i] + timeIncrement <= ts[j]
  }

  /**
   * The recursive binary search over the index range [low, high]. It returns
   * -1 once the range is empty; otherwise it tests the midpoint for coverage
   * before descending right (midpoint earlier than the query) or left.
   * The midpoint is computed on non-negative operands, where C++ truncating
   * division and Dafny's Euclidean division agree.
   */
  function SearchIndicesBinary(ts: seq<real>, timeIncrement: real, timeVal: real, low: int, high: int): (r: int)
    requires 0 <= low && high < |ts|
    ensures low > high ==> r == -1
    ensures r == -1 || (low <= r <= high && Covers(ts, timeIncrement, timeVal, r))
    decreases high - low
  {
    if low > high then
      -1
    else
      var mid := (low + high) / 2;
      var timeGap := timeVal - ts[mid];
      if timeGap >= 0.0 && timeGap < timeIncrement then
        mid
      else if ts[mid] < timeVal then
        SearchIndicesBinary(ts, timeIncrement, timeVal, mid + 1, high)
      else
        SearchIndicesBinary(ts, timeIncrement, timeVal, low, mid - 1)
  }

  /**
   * Reference definition of the covering sample, independent of the search:
   * walk down from index `hi` to the latest sample not after `t`.
   */
  ghost function CoveringIndex(ts: seq<real>, timeIncrement: real, t: real, hi: int): (k: int)
    requires FixedInterval(ts, timeIncrement)
    requires 0 <= hi < |ts| && ts[0] <= t < ts[hi] + timeIncrement
    ensures 0 <= k <= hi && Covers(ts, timeIncrement, t, k)
    decreases hi
  {
    if ts[hi] <= t then
      hi
    else
      assert StepAt(ts, timeIncrement, hi - 1);
      CoveringIndex(ts, timeIncrement, t, hi - 1)
  }

  /** With a fixed interval, samples `i < j` are at least one interval apart. */
  lemma {:induction false} FixedIntervalGap(ts: seq<real>, timeIncrement: real, i: int, j: int)
    requires FixedInterval(ts, timeIncrement)
    requires 0 <= i < j < |ts|
    ensures ts[i] + timeIncrement <= ts[j]
    decreases j - i
  {
    if i + 1 < j {
      FixedIntervalGap(ts, timeIncrement, i, j - 1);
      assert StepAt(ts, timeIncrement, j - 1);
    } else {
      assert StepAt(ts, timeIncrement, i);
    }
  }

  /** A fixed-interval log is spaced: in particular its timestamps strictly increase. */
  lemma FixedIntervalIsSpaced(ts: seq<real>, timeIncrement: real)
    requires FixedInterval(ts, timeIncrement)
    ensures Spaced(ts, timeIncrement)
  {
    forall i, j | 0 <= i < j < |ts|
      ensures ts[i] + timeIncrement <= ts[j]
    {
      FixedIntervalGap(ts, timeIncrement, i, j);
    }
  }

  /**
   * Completeness: in a spaced log, if some sample `k` of [low, high] covers the
   * query time, the search over [low, high] returns exactly `k`.
   */
  lemma {:induction false} SearchFindsCovering(ts: seq<real>, timeIncrement: real, t: real, low: int, high: int, k: int)
    requires Spaced(ts, timeIncrement)
    requires 0 <= low <= k <= high < |ts|
    requires Covers(ts, timeIncrement, t, k)
    ensures SearchIndicesBinary(ts, timeIncrement, t, low, high) == k
    decreases high - low
  {
    var mid := (low + high) / 2;
    if mid < k {
      assert ts[mid] + timeIncrement <= ts[k];
      SearchFindsCovering(ts, timeIncrement, t, mid + 1, high, k);
    } else if k < mid {
      assert ts[k] + timeIncrement <= ts[mid];
      SearchFindsCovering(ts, timeIncrement, t, low, mid - 1, k);
    }
  }

  /** The -1 result is exact in a spaced log: no sample of [low, high] covers the query. */
  lemma NotFoundMeansUncovered(ts: seq<real>, timeIncrement: real, t: real, low: int, high: int)
    requires Spaced(ts, timeIncrement)
    requires 0 <= low && high < |ts|
    requires SearchIndicesBinary(ts, timeIncrement, t, low, high) == -1
    ensures forall k :: low <= k <= high ==> !Covers(ts, timeIncrement, t, k)
  {
    forall k | low <= k <= high
      ensures !Covers(ts, timeIncrement, t, k)
    {
      if Covers(ts, timeIncrement, t, k) {
        SearchFindsCovering(ts, timeIncrement, t, low, high, k);
      }
    }
  }

  /**
   * Over a fixed-interval log, a query inside [ts[0], ts[N-1]] is always found
   * by the search over the whole range [0, N-1], and the index found is the
   * covering sample of the reference definition.
   */
  lemma SearchWithinRange(ts: seq<real>, timeIncrement: real, t: real)
    requires FixedInterval(ts, timeIncrement)
    requires |ts| >= 1 && ts[0] <= t <= ts[|ts| - 1]
    ensures 0 <= SearchIndicesBinary(ts, timeIncrement, t, 0, |ts| - 1) < |ts|
    ensures SearchIndicesBinary(ts, timeIncrement, t, 0, |ts| - 1) == CoveringIndex(ts, timeIncrement, t, |ts| - 1)
  {
    var k := CoveringIndex(ts, timeIncrement, t, |ts| - 1);
    FixedIntervalIsSpaced(ts, timeIncrement);
    SearchFindsCovering(ts, timeIncrement, t, 0, |ts| - 1, k);
  }

  /** Searching for a recorded sample time finds that very sample. */
  lemma SearchSampleTime(ts: seq<real>, timeIncrement: real, i: int)
    requires FixedInterval(ts, timeIncrement)
    requires 0 <= i < |ts|
    ensures SearchIndicesBinary(ts, timeIncrement, ts[i], 0, |ts| - 1) == i
  {
    FixedIntervalIsSpaced(ts, timeIncrement);
    SearchFindsCovering(ts, timeIncrement, ts[i], 0, |ts| - 1, i);
  }
}
