/** Estimating when an endpoint's critical time will breach its service level agreement, from a
    sliding window of data points. Durations and instants are whole ticks; seconds are reals. */
module SlaEstimator {
  const MAX_DATAPOINTS: nat := 10
  const TICKS_PER_SECOND: real := 10000000.0

  /** The instants and durations are in ticks. */
  datatype DataPoint = DataPoint(criticalTime: int, occurredAt: int, processingTime: int)

  /** `Unlimited` stands for the largest double, shown when no breach is foreseen. */
  datatype Estimate = Unlimited | Seconds(seconds: real)

  function TotalSeconds(ticks: int): real {
    ticks as real / TICKS_PER_SECOND
  }

  // ----- The extrapolated line -----

  function First(points: seq<DataPoint>): DataPoint
    requires points != []
  {
    points[0]
  }

  function Last(points: seq<DataPoint>): DataPoint
    requires points != []
  {
    points[|points| - 1]
  }

  /** The critical time rose, over a positive time. */
  predicate Rising(points: seq<DataPoint>) {
    && |points| >= 2
    && First(points).criticalTime < Last(points).criticalTime
    && First(points).occurredAt < Last(points).occurredAt
  }

  function Slope(points: seq<DataPoint>): (slope: real)
    requires Rising(points)
    ensures slope > 0.0
    ensures slope * TotalSeconds(Last(points).occurredAt - First(points).occurredAt)
         == TotalSeconds(Last(points).criticalTime - First(points).criticalTime)
  {
    TotalSeconds(Last(points).criticalTime - First(points).criticalTime)
      / TotalSeconds(Last(points).occurredAt - First(points).occurredAt)
  }

  /** The line through the first and the last point, `seconds` after the last one. */
  function Extrapolated(points: seq<DataPoint>, seconds: real): real
    requires Rising(points)
  {
    TotalSeconds(Last(points).criticalTime) + Slope(points) * seconds
  }

  predicate Breached(points: seq<DataPoint>, sla: int, seconds: real)
    requires Rising(points)
  {
    Extrapolated(points, seconds) >= TotalSeconds(sla)
  }

  /** What the counter is meant to show: no limit unless the critical time is rising, and otherwise
      the first moment from now on at which the extrapolated line is at or above the agreement. */
  ghost predicate Foretells(points: seq<DataPoint>, sla: int, estimate: Estimate) {
    match estimate
    case Unlimited => !Rising(points)
    case Seconds(s) =>
      && Rising(points)
      && s >= 0.0
      && forall t: real :: t >= 0.0 ==> (Breached(points, sla, t) <==> t >= s)
  }

  lemma Crossing(slope: real, gap: real, t: real)
    requires slope > 0.0
    ensures slope * t >= gap <==> t >= gap / slope
  {
    assert gap == slope * (gap / slope);
    if t >= gap / slope {
      assert slope * (t - gap / slope) >= 0.0;
    } else {
      assert slope * (gap / slope - t) > 0.0;
    }
  }

  /** The meaning fixes the estimate. */
  lemma ForetoldOnce(points: seq<DataPoint>, sla: int, a: Estimate, b: Estimate)
    requires Foretells(points, sla, a) && Foretells(points, sla, b)
    ensures a == b
  {
    if a.Seconds? && b.Seconds? {
      assert Breached(points, sla, a.seconds);
      assert Breached(points, sla, b.seconds);
    }
  }

  /** The estimate is zero exactly when the agreement is reached already; otherwise the line lands
      exactly on the agreement. */
  lemma LandsOnAgreement(points: seq<DataPoint>, sla: int, seconds: real)
    requires Foretells(points, sla, Seconds(seconds))
    ensures seconds == 0.0 <==> Last(points).criticalTime >= sla
    ensures seconds > 0.0 ==> Extrapolated(points, seconds) == TotalSeconds(sla)
  {
    var slope := Slope(points);
    var gap := TotalSeconds(sla) - TotalSeconds(Last(points).criticalTime);
    var hit := gap / slope;
    assert Breached(points, sla, 0.0) <==> Last(points).criticalTime >= sla;
    if seconds > 0.0 {
      assert !Breached(points, sla, 0.0);
      Crossing(slope, gap, 0.0);
      Crossing(slope, gap, hit);
      Crossing(slope, gap, seconds);
      assert Breached(points, sla, seconds);
      assert Breached(points, sla, hit);
      assert slope * hit == gap;
    }
  }

  /** In ticks: per tick elapsed between the first point and the last, the critical time rises by its
      total rise; after that many seconds more it is at the agreement. No estimate is made unless
      there are two points between which it rises and time passes. */
  lemma InTicks(points: seq<DataPoint>, sla: int, estimate: Estimate)
    requires Foretells(points, sla, estimate)
    ensures estimate.Unlimited? <==>
              |points| < 2 || points[|points| - 1].criticalTime <= points[0].criticalTime ||
              points[|points| - 1].occurredAt <= points[0].occurredAt
    ensures estimate.Seconds? && points[|points| - 1].criticalTime < sla ==>
              var rise, elapsed := points[|points| - 1].criticalTime - points[0].criticalTime,
                                   points[|points| - 1].occurredAt - points[0].occurredAt;
              estimate.seconds * 10000000.0 * rise as real
              == (sla - points[|points| - 1].criticalTime) as real * elapsed as real
    ensures estimate.Seconds? && points[|points| - 1].criticalTime >= sla ==> estimate.seconds == 0.0
  {
    if estimate.Seconds? {
      LandsOnAgreement(points, sla, estimate.seconds);
      if points[|points| - 1].criticalTime < sla {
        var rise, elapsed := Last(points).criticalTime - First(points).criticalTime,
                             Last(points).occurredAt - First(points).occurredAt;
        Scaled(Slope(points), estimate.seconds, (sla - Last(points).criticalTime) as real, rise as real,
               elapsed as real);
      }
    }
  }

  lemma Scaled(slope: real, seconds: real, gap: real, rise: real, elapsed: real)
    requires slope * (elapsed / 10000000.0) == rise / 10000000.0 && slope * seconds == gap / 10000000.0
    ensures seconds * 10000000.0 * rise == gap * elapsed
  {
    assert slope * elapsed == rise;
    assert slope * seconds * 10000000.0 == gap;
    assert seconds * 10000000.0 * rise == seconds * 10000000.0 * (slope * elapsed);
    assert seconds * 10000000.0 * (slope * elapsed) == slope * seconds * 10000000.0 * elapsed;
  }

  /** A looser agreement is never breached earlier. */
  lemma LooserIsLater(points: seq<DataPoint>, tight: int, loose: int, a: real, b: real)
    requires tight <= loose
    requires Foretells(points, tight, Seconds(a)) && Foretells(points, loose, Seconds(b))
    ensures a <= b
  {
    assert Breached(points, loose, b);
    assert Breached(points, tight, b);
  }

  // ----- The window -----

  datatype Event = Processed(point: DataPoint) | TimerFired(utcNow: int)

  /** The calls made on the calculator, oldest first. */
  datatype Run = Started | Then(before: Run, event: Event)

  function Trimmed(points: seq<DataPoint>): (window: seq<DataPoint>) {
    if |points| > MAX_DATAPOINTS then points[|points| - MAX_DATAPOINTS..] else points
  }

  function Since(points: seq<DataPoint>, oldest: int): (kept: seq<DataPoint>)
    ensures |kept| <= |points|
    ensures forall p <- kept :: p in points && p.occurredAt >= oldest
  {
    if points == [] then []
    else if points[0].occurredAt < oldest then Since(points[1..], oldest)
    else [points[0]] + Since(points[1..], oldest)
  }

  function Pruned(points: seq<DataPoint>, utcNow: int): seq<DataPoint> {
    if points == [] then [] else Since(points, utcNow - Last(points).processingTime * 3)
  }

  function Window(run: Run): seq<DataPoint> {
    match run
    case Started => []
    case Then(before, Processed(point)) => Trimmed(Window(before) + [point])
    case Then(before, TimerFired(utcNow)) => Pruned(Window(before), utcNow)
  }

  function Points(run: Run): seq<DataPoint> {
    match run
    case Started => []
    case Then(before, Processed(point)) => Points(before) + [point]
    case Then(before, TimerFired(_)) => Points(before)
  }

  /** `part` is `whole` with some points struck out. */
  predicate Subsequence(part: seq<DataPoint>, whole: seq<DataPoint>)
    decreases |whole|
  {
    if part == [] then true
    else if |whole| < |part| then false
    else if Last(part) == Last(whole) && Subsequence(part[..|part| - 1], whole[..|whole| - 1]) then true
    else Subsequence(part, whole[..|whole| - 1])
  }

  lemma {:induction false} SubsequenceOfItself(points: seq<DataPoint>)
    ensures Subsequence(points, points)
  {
    if points != [] {
      SubsequenceOfItself(points[..|points| - 1]);
    }
  }

  lemma {:induction false} DropStays(part: seq<DataPoint>, whole: seq<DataPoint>)
    requires part != [] && Subsequence(part, whole)
    ensures Subsequence(part[1..], whole)
    decreases |whole|
  {
    if |part| > 1 {
      var shorter := whole[..|whole| - 1];
      if Last(part) == Last(whole) && Subsequence(part[..|part| - 1], shorter) {
        DropStays(part[..|part| - 1], shorter);
        assert part[1..][..|part| - 2] == part[..|part| - 1][1..];
      } else {
        DropStays(part, shorter);
      }
    }
  }

  lemma {:induction false} SubsequenceTransitive(a: seq<DataPoint>, b: seq<DataPoint>, c: seq<DataPoint>)
    requires Subsequence(a, b) && Subsequence(b, c)
    ensures Subsequence(a, c)
    decreases |b| + |c|
  {
    if a != [] && b != [] {
      var b', c' := b[..|b| - 1], c[..|c| - 1];
      if Last(b) == Last(c) && Subsequence(b', c') {
        if Last(a) == Last(b) && Subsequence(a[..|a| - 1], b') {
          SubsequenceTransitive(a[..|a| - 1], b', c');
          LengthBounded(a[..|a| - 1], c');
        } else {
          SubsequenceTransitive(a, b', c');
          LengthBounded(a, c');
        }
      } else {
        SubsequenceTransitive(a, b, c');
        LengthBounded(a, c');
      }
    }
  }

  lemma {:induction false} LengthBounded(part: seq<DataPoint>, whole: seq<DataPoint>)
    requires Subsequence(part, whole)
    ensures |part| <= |whole|
  {
  }

  /** The points older than that are gone, and no others. */
  ghost predicate KeptSince(points: seq<DataPoint>, kept: seq<DataPoint>, oldest: int) {
    forall p :: multiset(kept)[p] == if p.occurredAt < oldest then 0 else multiset(points)[p]
  }

  lemma {:induction false} SinceCounts(points: seq<DataPoint>, oldest: int)
    ensures KeptSince(points, Since(points, oldest), oldest)
  {
    if points != [] {
      SinceCounts(points[1..], oldest);
      assert points == [points[0]] + points[1..];
    }
  }

  lemma {:induction false} SinceAppends(points: seq<DataPoint>, p: DataPoint, oldest: int)
    ensures Since(points + [p], oldest)
         == Since(points, oldest) + (if p.occurredAt < oldest then [] else [p])
  {
    if points != [] {
      assert (points + [p])[1..] == points[1..] + [p];
      SinceAppends(points[1..], p, oldest);
    }
  }

  lemma SubsequenceGrows(part: seq<DataPoint>, whole: seq<DataPoint>, p: DataPoint)
    requires Subsequence(part, whole)
    ensures Subsequence(part, whole + [p])
    ensures Subsequence(part + [p], whole + [p])
  {
    LengthBounded(part, whole);
    assert (whole + [p])[..|whole|] == whole && (part + [p])[..|part|] == part;
  }

  lemma {:induction false} SinceIsSubsequence(points: seq<DataPoint>, oldest: int)
    ensures Subsequence(Since(points, oldest), points)
  {
    if points != [] {
      var front, p := points[..|points| - 1], Last(points);
      SinceIsSubsequence(front, oldest);
      SubsequenceGrows(Since(front, oldest), front, p);
      SinceAppends(front, p, oldest);
      assert points == front + [p];
      var kept := Since(front, oldest);
      assert kept + [] == kept;
      assert Since(points, oldest) == kept || Since(points, oldest) == kept + [p];
    }
  }

  lemma {:induction false} SuffixIsSubsequence(points: seq<DataPoint>, k: nat)
    requires k <= |points|
    ensures Subsequence(points[k..], points)
  {
    if k == 0 {
      SubsequenceOfItself(points);
      assert points[0..] == points;
    } else {
      SuffixIsSubsequence(points, k - 1);
      DropStays(points[k - 1..], points);
      assert points[k - 1..][1..] == points[k..];
    }
  }

  lemma TrimmedIsSubsequence(window: seq<DataPoint>, whole: seq<DataPoint>)
    requires Subsequence(window, whole)
    ensures Subsequence(Trimmed(window), whole)
  {
    SuffixIsSubsequence(window, |window| - |Trimmed(window)|);
    SubsequenceTransitive(Trimmed(window), window, whole);
  }

  lemma PrunedIsSubsequence(window: seq<DataPoint>, whole: seq<DataPoint>, utcNow: int)
    requires Subsequence(window, whole)
    ensures Subsequence(Pruned(window, utcNow), whole)
    ensures |Pruned(window, utcNow)| <= |window|
  {
    if window != [] {
      SinceIsSubsequence(window, utcNow - Last(window).processingTime * 3);
      SubsequenceTransitive(Pruned(window, utcNow), window, whole);
    }
  }

  /** After any calls, the window holds at most ten of the points seen, in the order they came. */
  lemma {:induction false} WindowIsRecent(run: Run)
    ensures |Window(run)| <= MAX_DATAPOINTS
    ensures Subsequence(Window(run), Points(run))
  {
    match run
    case Started =>
    case Then(before, Processed(point)) =>
      WindowIsRecent(before);
      SubsequenceGrows(Window(before), Points(before), point);
      TrimmedIsSubsequence(Window(before) + [point], Points(before) + [point]);
    case Then(before, TimerFired(utcNow)) =>
      WindowIsRecent(before);
      PrunedIsSubsequence(Window(before), Points(before), utcNow);
  }

  predicate InTimeOrder(points: seq<DataPoint>) {
    forall i, j :: 0 <= i < j < |points| ==> points[i].occurredAt <= points[j].occurredAt
  }

  predicate EndOf(part: seq<DataPoint>, whole: seq<DataPoint>) {
    |part| <= |whole| && part == whole[|whole| - |part|..]
  }

  lemma EndOfEnd(a: seq<DataPoint>, b: seq<DataPoint>, c: seq<DataPoint>)
    requires EndOf(a, b) && EndOf(b, c)
    ensures EndOf(a, c)
  {
    var k := |c| - |b|;
    assert c[k..][|b| - |a|..] == c[|c| - |a|..];
  }

  lemma EndGrows(part: seq<DataPoint>, whole: seq<DataPoint>, p: DataPoint)
    requires EndOf(part, whole)
    ensures EndOf(part + [p], whole + [p])
  {
    var k := |whole| - |part|;
    assert (whole + [p])[k..] == whole[k..] + [p];
  }

  lemma {:induction false} OrderedPruneIsEnd(points: seq<DataPoint>, oldest: int)
    requires InTimeOrder(points)
    ensures EndOf(Since(points, oldest), points)
  {
    if points != [] {
      var rest := points[1..];
      assert InTimeOrder(rest);
      if points[0].occurredAt < oldest {
        OrderedPruneIsEnd(rest, oldest);
        EndOfEnd(Since(rest, oldest), rest, points);
      } else {
        AllKept(points, oldest);
      }
    }
  }

  lemma {:induction false} AllKept(points: seq<DataPoint>, oldest: int)
    requires forall p <- points :: p.occurredAt >= oldest
    ensures Since(points, oldest) == points
  {
    if points != [] {
      AllKept(points[1..], oldest);
    }
  }

  lemma OrderedEnd(part: seq<DataPoint>, whole: seq<DataPoint>)
    requires EndOf(part, whole) && InTimeOrder(whole)
    ensures InTimeOrder(part)
  {
    var k := |whole| - |part|;
    assert forall i :: 0 <= i < |part| ==> part[i] == whole[k + i];
  }

  lemma OrderedFront(whole: seq<DataPoint>, p: DataPoint)
    requires InTimeOrder(whole + [p])
    ensures InTimeOrder(whole)
  {
    assert forall i :: 0 <= i < |whole| ==> whole[i] == (whole + [p])[i];
  }

  lemma TrimmedIsEnd(window: seq<DataPoint>, whole: seq<DataPoint>)
    requires EndOf(window, whole)
    ensures EndOf(Trimmed(window), whole)
  {
    EndOfEnd(Trimmed(window), window, whole);
  }

  lemma SinceIsEnd(window: seq<DataPoint>, whole: seq<DataPoint>, oldest: int)
    requires EndOf(window, whole) && InTimeOrder(whole)
    ensures EndOf(Since(window, oldest), whole)
  {
    assert EndOf(Since(window, oldest), window) by {
      OrderedEnd(window, whole);
      OrderedPruneIsEnd(window, oldest);
    }
    EndOfEnd(Since(window, oldest), window, whole);
  }

  lemma PrunedIsEnd(window: seq<DataPoint>, whole: seq<DataPoint>, utcNow: int)
    requires EndOf(window, whole) && InTimeOrder(whole)
    ensures EndOf(Pruned(window, utcNow), whole)
  {
    if window != [] {
      SinceIsEnd(window, whole, utcNow - Last(window).processingTime * 3);
    }
  }

  /** When points arrive in time order, the window is the unbroken end of what was seen. */
  lemma {:induction false} OrderedWindowIsEnd(run: Run)
    requires InTimeOrder(Points(run))
    ensures EndOf(Window(run), Points(run))
  {
    match run
    case Started =>
    case Then(before, Processed(point)) =>
      OrderedFront(Points(before), point);
      OrderedWindowIsEnd(before);
      EndGrows(Window(before), Points(before), point);
      TrimmedIsEnd(Window(before) + [point], Points(before) + [point]);
    case Then(before, TimerFired(utcNow)) =>
      OrderedWindowIsEnd(before);
      PrunedIsEnd(Window(before), Points(before), utcNow);
  }

  lemma SinceMeans(points: seq<DataPoint>, oldest: int)
    ensures Subsequence(Since(points, oldest), points) && KeptSince(points, Since(points, oldest), oldest)
  {
    SinceIsSubsequence(points, oldest);
    SinceCounts(points, oldest);
  }

  lemma OneMoreThanTen(window: seq<DataPoint>, point: DataPoint)
    requires |window| <= MAX_DATAPOINTS
    ensures |window| < 10 ==> Trimmed(window + [point]) == window + [point]
    ensures |window| == 10 ==> Trimmed(window + [point]) == window[1..] + [point]
  {
  }

  // ----- The calculator -----

  class EstimatedTimeToSLABreachCalculator {
    var dataPoints: seq<DataPoint>
    var endpointSLA: int
    var counter: Estimate
    ghost var history: Run

    ghost predicate Valid() reads this {
      dataPoints == Window(history)
    }

    constructor (sla: int)
      ensures Valid() && history == Started && endpointSLA == sla
    {
      dataPoints, endpointSLA, counter, history := [], sla, Unlimited, Started;
    }

    method Update(sent: int, processingStarted: int, processingEnded: int)
      requires Valid()
      modifies this
      ensures Valid() && endpointSLA == old(endpointSLA)
      ensures history == Then(old(history), Processed(
        DataPoint(processingEnded - sent, processingEnded, processingEnded - processingStarted)))
      ensures Foretells(Window(history), endpointSLA, counter)
      ensures dataPoints != [] && |dataPoints| <= 10
      ensures var was, point := old(dataPoints), dataPoints[|dataPoints| - 1];
              point.criticalTime == processingEnded - sent && point.occurredAt == processingEnded &&
              point.processingTime == processingEnded - processingStarted &&
              (|was| < 10 ==> dataPoints == was + [point]) && (|was| == 10 ==> dataPoints == was[1..] + [point])
    {
      WindowIsRecent(history);
      var point := DataPoint(processingEnded - sent, processingEnded, processingEnded - processingStarted);
      OneMoreThanTen(dataPoints, point);
      dataPoints := dataPoints + [point];
      if |dataPoints| > MAX_DATAPOINTS {
        dataPoints := dataPoints[|dataPoints| - MAX_DATAPOINTS..];
      }
      history := Then(history, Processed(point));
      counter := CalculateTimeToSLABreach(dataPoints, endpointSLA);
    }

    /** The locked part of what the timer does. */
    method KeepRecent(utcNow: int)
      modifies this`dataPoints
      ensures dataPoints == Pruned(old(dataPoints), utcNow)
      ensures Subsequence(dataPoints, old(dataPoints))
      ensures old(dataPoints) != [] ==>
                KeptSince(old(dataPoints), dataPoints,
                          utcNow - 3 * old(dataPoints)[|old(dataPoints)| - 1].processingTime)
    {
      if dataPoints != [] {
        var oldestDataToKeep := utcNow - Last(dataPoints).processingTime * 3;
        SinceMeans(dataPoints, oldestDataToKeep);
        dataPoints := Since(dataPoints, oldestDataToKeep);
      }
    }

    method RemoveOldDatapoints(utcNow: int)
      requires Valid()
      modifies this
      ensures Valid() && endpointSLA == old(endpointSLA)
      ensures history == Then(old(history), TimerFired(utcNow))
      ensures Foretells(Window(history), endpointSLA, counter)
      ensures Subsequence(dataPoints, old(dataPoints))
      ensures old(dataPoints) != [] ==>
                KeptSince(old(dataPoints), dataPoints,
                          utcNow - 3 * old(dataPoints)[|old(dataPoints)| - 1].processingTime)
    {
      KeepRecent(utcNow);
      history := Then(history, TimerFired(utcNow));
      counter := CalculateTimeToSLABreach(dataPoints, endpointSLA);
    }
  }

  /** The differences between neighbours are summed one by one; the answer depends on the ends. */
  method CalculateTimeToSLABreach(snapshots: seq<DataPoint>, sla: int) returns (estimate: Estimate)
    ensures Foretells(snapshots, sla, estimate)
  {
    if |snapshots| < 2 {
      return Unlimited;
    }
    var previous := snapshots[0];
    var criticalTimeDelta := 0;
    for i := 1 to |snapshots|
      invariant previous == snapshots[i - 1]
      invariant criticalTimeDelta == previous.criticalTime - snapshots[0].criticalTime
    {
      criticalTimeDelta := criticalTimeDelta + (snapshots[i].criticalTime - previous.criticalTime);
      previous := snapshots[i];
    }
    if TotalSeconds(criticalTimeDelta) <= 0.0 {
      return Unlimited;
    }
    var elapsedTime := Last(snapshots).occurredAt - First(snapshots).occurredAt;
    if TotalSeconds(elapsedTime) <= 0.0 {
      return Unlimited;
    }
    var perSecond := TotalSeconds(criticalTimeDelta) / TotalSeconds(elapsedTime);
    var gap := TotalSeconds(sla) - TotalSeconds(Last(snapshots).criticalTime);
    var seconds := gap / perSecond;
    estimate := Seconds(if seconds < 0.0 then 0.0 else seconds);
    forall t: real | t >= 0.0
      ensures Breached(snapshots, sla, t) <==> t >= estimate.seconds
    {
      Crossing(perSecond, gap, t);
    }
  }

  /** Without the timer the window is what came last, ten points of it at most. */
  lemma {:induction false} LastTen(run: Run)
    requires NoTimer(run)
    ensures Window(run) == if |Points(run)| <= 10 then Points(run) else Points(run)[|Points(run)| - 10..]
  {
    match run
    case Started =>
    case Then(before, Processed(point)) => LastTen(before);
  }

  predicate NoTimer(run: Run) {
    run.Then? ==> run.event.Processed? && NoTimer(run.before)
  }
}
