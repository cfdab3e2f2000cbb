/**
 * The per-path counter record (`SampleCount`): accumulated cumulative and
 * self ("method") time, the depth of the frame within the monitored
 * window, and the frame's text.
 */
module Counters {

  datatype SampleCount = SampleCount(cumulativeTime: int, methodTime: int, depth: nat, frameText: string)

  /** Self time never exceeds cumulative time and neither is negative. */
  ghost predicate Valid(c: SampleCount) {
    0 <= c.methodTime <= c.cumulativeTime
  }

  /** `new SampleCount(frameText, depth)`: no time yet, identity as given. */
  function NewCount(frameText: string, depth: nat): (c: SampleCount)
    ensures Valid(c)
    ensures c.cumulativeTime == 0 && c.methodTime == 0
    ensures c.depth == depth && c.frameText == frameText
  {
    SampleCount(0, 0, depth, frameText)
  }

  /**
   * `increment(millis, isCurrentMethod)`: cumulative time always grows by
   * `millis`, self time only for the innermost recorded frame.
   */
  function Increment(c: SampleCount, millis: int, isCurrentMethod: bool): (r: SampleCount)
    ensures r.depth == c.depth && r.frameText == c.frameText
    ensures Valid(c) && millis >= 0 ==> Valid(r)
    ensures millis >= 0 ==> r.cumulativeTime >= c.cumulativeTime && r.methodTime >= c.methodTime
    ensures r.methodTime != c.methodTime ==> isCurrentMethod
  {
    c.(cumulativeTime := c.cumulativeTime + millis,
       methodTime := if isCurrentMethod then c.methodTime + millis else c.methodTime)
  }

  /** Applies a series of `increment` calls in order. */
  function IncrementAll(c: SampleCount, calls: seq<(int, bool)>): SampleCount
    decreases |calls|
  {
    if |calls| == 0 then c else IncrementAll(Increment(c, calls[0].0, calls[0].1), calls[1..])
  }

  /** Total of the durations of a series of calls. */
  function TotalMillis(calls: seq<(int, bool)>): int {
    if |calls| == 0 then 0 else calls[0].0 + TotalMillis(calls[1..])
  }

  /** Total of the durations of the calls that flagged the current method. */
  function MethodMillis(calls: seq<(int, bool)>): int {
    if |calls| == 0 then 0 else (if calls[0].1 then calls[0].0 else 0) + MethodMillis(calls[1..])
  }

  /**
   * Over any series of increments the counter holds exactly the sum of the
   * durations as cumulative time and the sum of the flagged durations as
   * self time; its depth and frame text never change; with non-negative
   * durations it stays valid and never decreases.
   */
  lemma {:induction false} IncrementAllTotals(c: SampleCount, calls: seq<(int, bool)>)
    ensures IncrementAll(c, calls).cumulativeTime == c.cumulativeTime + TotalMillis(calls)
    ensures IncrementAll(c, calls).methodTime == c.methodTime + MethodMillis(calls)
    ensures IncrementAll(c, calls).depth == c.depth
    ensures IncrementAll(c, calls).frameText == c.frameText
    ensures (forall i :: 0 <= i < |calls| ==> calls[i].0 >= 0) ==>
              IncrementAll(c, calls).cumulativeTime >= c.cumulativeTime
              && IncrementAll(c, calls).methodTime >= c.methodTime
              && (Valid(c) ==> Valid(IncrementAll(c, calls)))
    decreases |calls|
  {
    if |calls| > 0 {
      IncrementAllTotals(Increment(c, calls[0].0, calls[0].1), calls[1..]);
      if forall i :: 0 <= i < |calls| ==> calls[i].0 >= 0 {
        assert forall i :: 0 <= i < |calls[1..]| ==> calls[1..][i].0 >= 0 by {
          forall i | 0 <= i < |calls[1..]|
            ensures calls[1..][i].0 >= 0
          {
            assert calls[1..][i] == calls[i + 1];
          }
        }
      }
    }
  }
}
