/**
 * The WGS84 ECEF velocity calculator: a log of position samples loaded once,
 * and a query that validates a time, finds the bracketing pair of samples and
 * divides their ECEF displacement by the sampling interval.
 *
 * The ECEF displacement itself (radius of curvature, LLA to ECEF, Euclidean
 * norm) is floating-point trigonometry and enters the model as the parameter
 * `distance` of CallVelocity.
 */
module VelocityCalculator {
  import opened TimeLookup

  /** One row of the log: time (seconds since the UNIX epoch), latitude and longitude in degrees, height in meters. */
  datatype Sample = Sample(timestamp: real, latitudeDegrees: real, longitudeDegrees: real, height: real)

  /** The value every unused row of the log holds. */
  const ZeroSample := Sample(0.0, 0.0, 0.0, 0.0)

  /** Capacity of the log: rows beyond it are not loaded. */
  const MaxNumEntries := 1000

  /** How a query time relates to the logged time range. */
  datatype TimeCheck =
    | TooSmall(minimum: real)   // before the first sample
    | TooLarge(maximum: real)   // after the last sample
    | StartingPosition          // exactly the first sample: velocity is 0 by convention
    | InRange                   // a velocity can be computed

  /** What a velocity query reports. */
  datatype VelocityOutcome =
    | Velocity(metersPerSecond: real)
    | TooEarly(minimum: real)
    | TooLate(maximum: real)
    | AtOrigin
    | LookupError               // the search produced no usable index

  /**
   * Validation of a query time against the first and last logged times, checked
   * in order: too small, too large, equal to the start.
   */
  function ValidateTime(ts: seq<real>, timeVal: real): (r: TimeCheck)
    requires |ts| >= 1
    ensures r == TooSmall(ts[0]) <==> timeVal < ts[0]
    ensures r == TooLarge(ts[|ts| - 1]) <==> ts[0] <= timeVal && ts[|ts| - 1] < timeVal
    ensures r == StartingPosition <==> timeVal == ts[0] && timeVal <= ts[|ts| - 1]
    ensures r == InRange <==> ts[0] < timeVal <= ts[|ts| - 1]
  {
    if ts[0] > timeVal then
      TooSmall(ts[0])
    else if ts[|ts| - 1] < timeVal then
      TooLarge(ts[|ts| - 1])
    else if ts[0] == timeVal then
      StartingPosition
    else
      InRange
  }

  /** Velocity as distance over elapsed time: the rate that covers `distance` in `time`. */
  function CalculateVelocity(distance: real, time: real): (v: real)
    requires time != 0.0
    ensures v * time == distance
  {
    distance / time
  }

  /** The timestamp column of a sequence of rows. */
  function TimestampColumn(rows: seq<Sample>): (ts: seq<real>)
    ensures |ts| == |rows|
    ensures forall i :: 0 <= i < |rows| ==> ts[i] == rows[i].timestamp
  {
    seq(|rows|, i requires 0 <= i < |rows| => rows[i].timestamp)
  }

  /**
   * In a fixed-interval log, a sample covering a time no later than the last
   * sample brackets it together with its successor; if it is the last sample,
   * the time is that sample's time and lies after the sample before it.
   */
  lemma CoveringSampleBrackets(ts: seq<real>, timeIncrement: real, t: real, k: int)
    requires FixedInterval(ts, timeIncrement) && |ts| >= 2
    requires 0 <= k < |ts| && Covers(ts, timeIncrement, t, k) && t <= ts[|ts| - 1]
    ensures k < |ts| - 1 ==> ts[k] <= t < ts[k + 1] && ts[k + 1] - ts[k] == timeIncrement
    ensures k == |ts| - 1 ==> ts[|ts| - 2] < t == ts[|ts| - 1] && ts[k] - ts[k - 1] == timeIncrement
  {
    if k < |ts| - 1 {
      assert StepAt(ts, timeIncrement, k);
    } else {
      assert StepAt(ts, timeIncrement, k - 1);
    }
  }

  /**
   * Over a fixed-interval log of at least two samples, the first time is
   * before the last, and a query inside the logged range is found by the
   * search, at the covering sample of the reference definition. Stepping back
   * from the last sample then gives a pair `(low, low + 1)` of rows, exactly
   * one interval apart, that brackets the query; a query at the last time
   * uses the last two rows.
   */
  lemma FoundSampleBrackets(ts: seq<real>, timeIncrement: real, t: real)
    requires FixedInterval(ts, timeIncrement) && |ts| >= 2
    ensures ts[0] < ts[|ts| - 1]
    ensures ts[0] <= t <= ts[|ts| - 1] ==>
      var found := SearchIndicesBinary(ts, timeIncrement, t, 0, |ts| - 1);
      var k := CoveringIndex(ts, timeIncrement, t, |ts| - 1);
      var low := if found == |ts| - 1 then found - 1 else found;
      && found == k
      && 0 <= low < |ts| - 1
      && low == (if k < |ts| - 1 then k else |ts| - 2)
      && ts[low] <= t <= ts[low + 1]
      && ts[low + 1] - ts[low] == timeIncrement
      && (t == ts[|ts| - 1] ==> low == |ts| - 2)
  {
    FixedIntervalGap(ts, timeIncrement, 0, |ts| - 1);
    if ts[0] <= t <= ts[|ts| - 1] {
      SearchWithinRange(ts, timeIncrement, t);
      var found := SearchIndicesBinary(ts, timeIncrement, t, 0, |ts| - 1);
      CoveringSampleBrackets(ts, timeIncrement, t, found);
      if t == ts[|ts| - 1] {
        SearchSampleTime(ts, timeIncrement, |ts| - 1);
      }
    }
  }

  /**
   * In a fixed-interval log, dividing by timeIncrement is dividing by the
   * elapsed time between any sample and its successor: the velocity of a
   * bracket is its distance over its own duration, and it is non-negative for
   * a non-negative distance.
   */
  lemma VelocityOverBracketDuration(ts: seq<real>, timeIncrement: real, k: int, distance: real)
    requires FixedInterval(ts, timeIncrement)
    requires 0 <= k < |ts| - 1
    ensures ts[k + 1] - ts[k] > 0.0
    ensures CalculateVelocity(distance, timeIncrement) == CalculateVelocity(distance, ts[k + 1] - ts[k])
    ensures 0.0 <= distance ==> 0.0 <= CalculateVelocity(distance, timeIncrement)
  {
    assert StepAt(ts, timeIncrement, k);
  }

  class WGS84ECEFVelocityCalculator {
    var positionData: array<Sample>
    var totalEntriesFound: int
    var timeIncrement: real

    /** At least two rows are loaded, and the interval is the gap between the first two. */
    ghost predicate Valid()
      reads this, positionData
    {
      && positionData.Length == MaxNumEntries
      && 2 <= totalEntriesFound <= MaxNumEntries
      && timeIncrement == positionData[1].timestamp - positionData[0].timestamp
    }

    /** The times of the loaded rows. */
    function Timestamps(): (ts: seq<real>)
      reads this, positionData
      requires Valid()
      ensures |ts| == totalEntriesFound
      ensures forall i :: 0 <= i < totalEntriesFound ==> ts[i] == positionData[i].timestamp
    {
      TimestampColumn(positionData[..totalEntriesFound])
    }

    /** The log's assumption: every consecutive pair of rows is exactly timeIncrement apart, timeIncrement > 0. */
    ghost predicate UniformTimestamps()
      reads this, positionData
      requires Valid()
    {
      FixedInterval(Timestamps(), timeIncrement)
    }

    /**
     * Installs the log: the first rows up to the capacity, every other row of
     * the store zero, and the interval taken from the first two timestamps.
     */
    constructor Load(rows: seq<Sample>)
      requires 2 <= |rows|
      ensures Valid() && fresh(positionData)
      ensures totalEntriesFound == if |rows| < MaxNumEntries then |rows| else MaxNumEntries
      ensures positionData[..totalEntriesFound] == rows[..totalEntriesFound]
      ensures forall i :: totalEntriesFound <= i < MaxNumEntries ==> positionData[i] == ZeroSample
      ensures timeIncrement == rows[1].timestamp - rows[0].timestamp
    {
      var n := if |rows| < MaxNumEntries then |rows| else MaxNumEntries;
      positionData := new Sample[MaxNumEntries](i => if 0 <= i < n then rows[i] else ZeroSample);
      totalEntriesFound := n;
      timeIncrement := rows[1].timestamp - rows[0].timestamp;
    }

    /**
     * A velocity query. Rejections are reported without searching; an
     * in-range time is searched over all rows, an index outside the rows is a
     * lookup error, the last row is stepped back by one so that the pair
     * (lowIndex, lowIndex + 1) exists, and the pair's distance is divided by
     * timeIncrement. `lowIndex` is the lower index of the pair used.
     */
    method CallVelocity(timeVal: real, distance: (Sample, Sample) -> real) returns (r: VelocityOutcome, lowIndex: int)
      requires Valid()
      ensures match ValidateTime(Timestamps(), timeVal)
        case TooSmall(minimum) => r == TooEarly(minimum)
        case TooLarge(maximum) => r == TooLate(maximum)
        case StartingPosition => r == AtOrigin
        case InRange => r.Velocity? || r.LookupError?
      ensures var found := SearchIndicesBinary(Timestamps(), timeIncrement, timeVal, 0, totalEntriesFound - 1);
        && (r.LookupError? <==> ValidateTime(Timestamps(), timeVal).InRange? && found == -1)
        && (r.Velocity? ==> lowIndex == (if found == totalEntriesFound - 1 then found - 1 else found))
      ensures r.Velocity? ==>
        && 0 <= lowIndex < totalEntriesFound - 1
        && 0.0 < timeIncrement
        && r.metersPerSecond == CalculateVelocity(distance(positionData[lowIndex], positionData[lowIndex + 1]), timeIncrement)
        && (|| Covers(Timestamps(), timeIncrement, timeVal, lowIndex)
            || (lowIndex == totalEntriesFound - 2 && timeVal == Timestamps()[totalEntriesFound - 1]))
      ensures UniformTimestamps() ==> !r.LookupError?
      ensures UniformTimestamps() && timeVal == Timestamps()[0] ==> r == AtOrigin
      ensures UniformTimestamps() && r.Velocity? ==>
        && Timestamps()[lowIndex] <= timeVal <= Timestamps()[lowIndex + 1]
        && Timestamps()[lowIndex + 1] - Timestamps()[lowIndex] == timeIncrement
      ensures UniformTimestamps() && Timestamps()[0] < timeVal <= Timestamps()[totalEntriesFound - 1] ==>
        var k := CoveringIndex(Timestamps(), timeIncrement, timeVal, totalEntriesFound - 1);
        r.Velocity? && lowIndex == (if k < totalEntriesFound - 1 then k else totalEntriesFound - 2)
      ensures UniformTimestamps() && timeVal == Timestamps()[totalEntriesFound - 1] ==>
        r.Velocity? && lowIndex == totalEntriesFound - 2
    {
      var ts := Timestamps();
      var check := ValidateTime(ts, timeVal);
      if UniformTimestamps() {
        FoundSampleBrackets(ts, timeIncrement, timeVal);
      }
      if !check.InRange? {
        r := match check
          case TooSmall(minimum) => TooEarly(minimum)
          case TooLarge(maximum) => TooLate(maximum)
          case _ => AtOrigin;
        lowIndex := -1;
      } else {
        lowIndex := SearchIndicesBinary(ts, timeIncrement, timeVal, 0, totalEntriesFound - 1);
        if lowIndex < 0 || lowIndex >= totalEntriesFound {
          r := LookupError;
        } else {
          if lowIndex == totalEntriesFound - 1 {
            lowIndex := lowIndex - 1;
          }
          var d := distance(positionData[lowIndex], positionData[lowIndex + 1]);
          r := Velocity(CalculateVelocity(d, timeIncrement));
        }
      }
    }
  }
}
