/**
 * The segmentation plan of `sequential_split`: how many files a track of
 * `length` milliseconds yields for a segment `duration`, and which
 * millisecond range each file holds.
 */
module Segmentation {

  /** The half-open range [start, end) of the track, in milliseconds. */
  datatype Segment = Segment(start: nat, end: nat)

  function Min(a: nat, b: nat): nat
  {
    if a <= b then a else b
  }

  /**
   * The announced file count: `int(length / duration)`, plus one when the
   * division leaves a remainder. It is the ceiling of length / duration:
   * the least count of whole durations that reaches the end of the track.
   */
  function FileCount(length: nat, duration: nat): (n: nat)
    requires duration > 0
    ensures n * duration >= length
    ensures n > 0 ==> (n - 1) * duration < length
  {
    var q, r := length / duration, length % duration;
    assert length == q * duration + r;
    if r > 0 then
      assert (q + 1) * duration == q * duration + duration;
      q + 1
    else
      q
  }

  /** The loop test `i < length` holds at the `k`-th step exactly for the first FileCount steps. */
  lemma StepsBeforeEnd(length: nat, duration: nat, k: nat)
    requires duration > 0
    ensures k * duration < length <==> k < FileCount(length, duration)
  {
    var n := FileCount(length, duration);
    if k < n {
      assert k * duration <= (n - 1) * duration by {
        MulMonotone(k, n - 1, duration);
      }
    } else {
      MulMonotone(n, k, duration);
    }
  }

  lemma MulMonotone(a: nat, b: nat, c: nat)
    requires a <= b
    ensures a * c <= b * c
  {
    assert b * c == a * c + (b - a) * c;
  }

  /**
   * The segments the loop `while i < length: song[i:i + duration]; i += duration`
   * visits from position `i` on; each slice stops at the end of the track.
   */
  function PlanFrom(i: nat, length: nat, duration: nat): seq<Segment>
    requires duration > 0
    decreases if i < length then length - i else 0
  {
    if i < length then [Segment(i, Min(i + duration, length))] + PlanFrom(i + duration, length, duration)
    else []
  }

  /** The segments of the whole track, in loop order. */
  function Plan(length: nat, duration: nat): seq<Segment>
    requires duration > 0
  {
    PlanFrom(0, length, duration)
  }

  /** From a step-aligned position k * duration, the loop yields the files k up to the announced count. */
  lemma {:induction false} PlanFromCount(k: nat, length: nat, duration: nat)
    requires duration > 0
    ensures |PlanFrom(k * duration, length, duration)| + k ==
            if k * duration < length then FileCount(length, duration) else k
    decreases if k * duration < length then length - k * duration else 0
  {
    var i := k * duration;
    if i < length {
      var n := FileCount(length, duration);
      assert (k + 1) * duration == i + duration;
      PlanFromCount(k + 1, length, duration);
      StepsBeforeEnd(length, duration, k);
      StepsBeforeEnd(length, duration, k + 1);
      assert |PlanFrom(i, length, duration)| == 1 + |PlanFrom(i + duration, length, duration)|;
      if i + duration < length {
        assert k + 1 < n;
      } else {
        assert k + 1 == n;
      }
    }
  }

  /** From a step-aligned position k * duration, the j-th remaining segment is range k + j. */
  lemma {:induction false} PlanFromShape(k: nat, length: nat, duration: nat)
    requires duration > 0
    ensures forall j :: 0 <= j < |PlanFrom(k * duration, length, duration)| ==>
      PlanFrom(k * duration, length, duration)[j] ==
        Segment((k + j) * duration, Min((k + j) * duration + duration, length))
    decreases if k * duration < length then length - k * duration else 0
  {
    var i := k * duration;
    if i < length {
      assert (k + 1) * duration == i + duration;
      PlanFromShape(k + 1, length, duration);
      var rest := PlanFrom(i + duration, length, duration);
      forall j | 0 < j < |PlanFrom(i, length, duration)|
        ensures PlanFrom(i, length, duration)[j] ==
          Segment((k + j) * duration, Min((k + j) * duration + duration, length))
      {
        assert PlanFrom(i, length, duration)[j] == rest[j - 1];
        assert (k + 1 + (j - 1)) == k + j;
      }
    }
  }

  /** The loop produces exactly the announced number of files, the ceiling of length / duration. */
  lemma PlanLength(length: nat, duration: nat)
    requires duration > 0
    ensures |Plan(length, duration)| == FileCount(length, duration)
  {
    PlanFromCount(0, length, duration);
  }

  /** Segment k (from 0) covers [k * duration, min((k + 1) * duration, length)). */
  lemma PlanSegment(length: nat, duration: nat, k: nat)
    requires duration > 0
    requires k < |Plan(length, duration)|
    ensures Plan(length, duration)[k] == Segment(k * duration, Min(k * duration + duration, length))
  {
    PlanFromShape(0, length, duration);
    assert 0 * duration == 0 && 0 + k == k;
  }

  /**
   * The segments are contiguous: the first starts at 0, each later one
   * starts where the one before it ended, and the last ends at the end of
   * the track.
   */
  lemma PlanContiguous(length: nat, duration: nat)
    requires duration > 0
    ensures length == 0 <==> Plan(length, duration) == []
    ensures length > 0 ==> Plan(length, duration)[0].start == 0
    ensures length > 0 ==> Plan(length, duration)[|Plan(length, duration)| - 1].end == length
    ensures forall k :: 0 < k < |Plan(length, duration)| ==>
      Plan(length, duration)[k].start == Plan(length, duration)[k - 1].end
  {
    var p := Plan(length, duration);
    var n := |p|;
    PlanLength(length, duration);
    if length > 0 {
      PlanSegment(length, duration, 0);
      PlanSegment(length, duration, n - 1);
      StepsBeforeEnd(length, duration, n);
      assert n * duration == (n - 1) * duration + duration;
    }
    forall k | 0 < k < n
      ensures p[k].start == p[k - 1].end
    {
      PlanSegment(length, duration, k);
      PlanSegment(length, duration, k - 1);
      StepsBeforeEnd(length, duration, k);
      assert k * duration == (k - 1) * duration + duration;
    }
  }

  /** Every segment is non-empty and at most one duration long; all but the last are exactly one duration. */
  lemma PlanSegmentLengths(length: nat, duration: nat)
    requires duration > 0
    ensures forall k :: 0 <= k < |Plan(length, duration)| ==>
      0 < Plan(length, duration)[k].end - Plan(length, duration)[k].start <= duration
    ensures forall k :: 0 <= k < |Plan(length, duration)| - 1 ==>
      Plan(length, duration)[k].end - Plan(length, duration)[k].start == duration
  {
    var p := Plan(length, duration);
    PlanLength(length, duration);
    forall k | 0 <= k < |p|
      ensures 0 < p[k].end - p[k].start <= duration
      ensures k < |p| - 1 ==> p[k].end - p[k].start == duration
    {
      PlanSegment(length, duration, k);
      StepsBeforeEnd(length, duration, k);
      if k < |p| - 1 {
        StepsBeforeEnd(length, duration, k + 1);
        assert (k + 1) * duration == k * duration + duration;
      }
    }
  }

  /** Of the step-aligned ranges [k * duration, (k + 1) * duration), only range q holds t. */
  lemma StepRangeHolds(k: nat, q: nat, duration: nat, t: nat)
    requires q * duration <= t < q * duration + duration
    ensures k * duration <= t < k * duration + duration <==> k == q
  {
    if k < q {
      MulMonotone(k + 1, q, duration);
      assert (k + 1) * duration == k * duration + duration;
    } else if k > q {
      MulMonotone(q + 1, k, duration);
      assert (q + 1) * duration == q * duration + duration;
    }
  }

  /** t lies in the step-aligned range number t / duration. */
  lemma StepOf(t: nat, duration: nat)
    requires duration > 0
    ensures (t / duration) * duration <= t < (t / duration) * duration + duration
  {
    assert t == (t / duration) * duration + t % duration;
  }

  /**
   * The segments partition [0, length): millisecond t lies in segment
   * t / duration and in no other.
   */
  lemma PlanPartition(length: nat, duration: nat, t: nat)
    requires duration > 0
    requires t < length
    ensures t / duration < |Plan(length, duration)|
    ensures forall k :: 0 <= k < |Plan(length, duration)| ==>
      (Plan(length, duration)[k].start <= t < Plan(length, duration)[k].end <==> k == t / duration)
  {
    SegmentOf(length, duration, t);
    forall k | 0 <= k < |Plan(length, duration)|
      ensures Plan(length, duration)[k].start <= t < Plan(length, duration)[k].end <==> k == t / duration
    {
      SegmentHolds(length, duration, t, k);
    }
  }

  /** Millisecond t of the track lies within the segments: t / duration is one of their indices. */
  lemma SegmentOf(length: nat, duration: nat, t: nat)
    requires duration > 0
    requires t < length
    ensures t / duration < |Plan(length, duration)|
  {
    StepOf(t, duration);
    PlanLength(length, duration);
    StepsBeforeEnd(length, duration, t / duration);
  }

  /** Segment k holds millisecond t exactly when k is t / duration. */
  lemma SegmentHolds(length: nat, duration: nat, t: nat, k: nat)
    requires duration > 0
    requires t < length && k < |Plan(length, duration)|
    ensures Plan(length, duration)[k].start <= t < Plan(length, duration)[k].end <==> k == t / duration
  {
    StepOf(t, duration);
    PlanSegment(length, duration, k);
    StepRangeHolds(k, t / duration, duration, t);
  }

  /** A track of 20 minutes 30 seconds (1230000 ms) cut into 10-minute pieces (600000 ms). */
  lemma SongPlan()
    ensures Plan(1230000, 600000) ==
      [Segment(0, 600000), Segment(600000, 1200000), Segment(1200000, 1230000)]
  {
    PlanLength(1230000, 600000);
    PlanSegment(1230000, 600000, 0);
    PlanSegment(1230000, 600000, 1);
    PlanSegment(1230000, 600000, 2);
  }
}
