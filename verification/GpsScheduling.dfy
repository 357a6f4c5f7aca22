/**
  GPS timing of src/gps/GPSUpdateScheduling.cpp: the interpolated hard-sleep threshold, the time to
  the next search on a wrapping counter, and the smoothed lock-time prediction.
*/
module GpsScheduling {
  import opened Modular
  import opened Words

  // ---------------------------------------------------------------- the threshold curve

  const CURVE_SECS: seq<nat> := [0, 1, 2, 3, 5, 10, 15, 20, 30, 45, 60, 90, 120, 180, 240, 300, 450, 600, 900]
  const CURVE_MS: seq<nat> := [0, 2750, 6406, 10506, 19592, 45639, 74845, 106314, 174350, 285925, 406141, 666053, 946093,
                               1551548, 2203893, 2893481, 4745172, 6740269, 11053722]
  const CURVE_POINTS := 19

  function PointSecs(i: nat): u32
    requires i < CURVE_POINTS
  {
    CURVE_SECS[i]
  }

  function PointMs(i: nat): u32
    requires i < CURVE_POINTS
  {
    CURVE_MS[i]
  }

  lemma CurveStep(i: nat)
    requires i + 1 < CURVE_POINTS
    ensures PointSecs(i) < PointSecs(i + 1) && PointMs(i) < PointMs(i + 1)
  {
  }

  lemma CurveAscends(i: nat, j: nat)
    requires i < j < CURVE_POINTS
    ensures PointSecs(i) < PointSecs(j) && PointMs(i) < PointMs(j)
    decreases j
  {
    hide PointSecs, PointMs;
    CurveStep(j - 1);
    if i < j - 1 { CurveAscends(i, j - 1); }
  }

  lemma CurveEnds()
    ensures PointSecs(0) == 0 && PointSecs(CURVE_POINTS - 1) == 900 && PointMs(CURVE_POINTS - 1) == 11053722
  {
  }

  /** The straight line from (x0, y0) to (x1, y1) at x, rounded down. */
  function Interpolate(x0: nat, x1: nat, y0: nat, y1: nat, x: nat): nat
    requires x0 < x1 && y0 <= y1 && x0 <= x
  {
    ScaleIsNat(y1 - y0, x - x0);
    y0 + (y1 - y0) * (x - x0) / (x1 - x0)
  }

  lemma ScaleIsNat(a: nat, b: nat)
    ensures a * b >= 0
  {
  }

  lemma ScaleMonotone(a: nat, b: nat, c: nat)
    requires b <= c
    ensures a * b <= a * c
  {
  }

  /** Interpolation stays between the end points and reaches both. */
  lemma InterpolateBounds(x0: nat, x1: nat, y0: nat, y1: nat, x: nat)
    requires x0 < x1 && y0 <= y1 && x0 <= x <= x1
    ensures y0 <= Interpolate(x0, x1, y0, y1, x) <= y1
    ensures Interpolate(x0, x1, y0, y1, x0) == y0 && Interpolate(x0, x1, y0, y1, x1) == y1
  {
    ScaleIsNat(y1 - y0, x - x0);
    ScaleMonotone(y1 - y0, x - x0, x1 - x0);
    ModOfSum(y1 - y0, 0, x1 - x0);
    DivMonotone((y1 - y0) * (x - x0), (y1 - y0) * (x1 - x0), x1 - x0);
  }

  lemma InterpolateMonotone(x0: nat, x1: nat, y0: nat, y1: nat, x: nat, x': nat)
    requires x0 < x1 && y0 <= y1 && x0 <= x <= x'
    ensures Interpolate(x0, x1, y0, y1, x) <= Interpolate(x0, x1, y0, y1, x')
  {
    ScaleMonotone(y1 - y0, x - x0, x' - x0);
    DivMonotone((y1 - y0) * (x - x0), (y1 - y0) * (x' - x0), x1 - x0);
  }

  /** On the segment ending at point i. */
  function OnSegment(i: nat, x: nat): nat
    requires 0 < i < CURVE_POINTS && PointSecs(i - 1) <= x
  {
    CurveStep(i - 1);
    Interpolate(PointSecs(i - 1), PointSecs(i), PointMs(i - 1), PointMs(i), x)
  }

  /** The point that ends x's segment: the first one, after point 0, that is not before x. */
  ghost predicate EndsSegment(i: nat, x: nat) {
    0 < i < CURVE_POINTS && PointSecs(i - 1) <= x <= PointSecs(i) && (i > 1 ==> PointSecs(i - 1) < x)
  }

  /** The curve's value: past its end, the last point; before, interpolated on the segment. */
  ghost predicate IsThreshold(x: nat, ms: nat) {
    if x >= 900 then ms == 11053722 else exists i :: EndsSegment(i, x) && ms == OnSegment(i, x)
  }

  /** Every local is a machine word, so no index, product or sum here can go out of range. */
  method GpsHardsleepThresholdMs(predictedSearchSecs: u32) returns (ms: u32)
    ensures IsThreshold(predictedSearchSecs, ms)
  {
    hide PointSecs, PointMs, Interpolate;
    CurveEnds();
    if predictedSearchSecs >= PointSecs(CURVE_POINTS - 1) {
      return PointMs(CURVE_POINTS - 1);
    }
    var i := 1;
    while PointSecs(i) < predictedSearchSecs
      invariant 1 <= i < CURVE_POINTS && (i > 1 ==> PointSecs(i - 1) < predictedSearchSecs)
      decreases CURVE_POINTS - i
    {
      i := i + 1;
    }
    assert EndsSegment(i, predictedSearchSecs);
    CurveStep(i - 1);
    ms := InterpolateInWords(PointSecs(i - 1), PointSecs(i), PointMs(i - 1), PointMs(i), predictedSearchSecs);
  }

  method InterpolateInWords(x0: u32, x1: u32, y0: u32, y1: u32, x: u32) returns (y: u32)
    requires x0 < x1 && y0 <= y1 && x0 <= x <= x1
    ensures y == Interpolate(x0, x1, y0, y1, x)
  {
    InterpolateBounds(x0, x1, y0, y1, x);
    ProductFits(y1 - y0, x - x0);
    var product: u64 := (y1 - y0) * (x - x0);
    var quotient: u64 := product / (x1 - x0);
    y := y0 + quotient;
  }

  lemma ProductFits(a: u32, b: u32)
    ensures 0 <= a * b < TWO_64
  {
    ScaleIsNat(a, b);
    ScaleMonotone(a, b, TWO_32 - 1);
  }

  /** A segment stays between its end points and reaches both. */
  lemma SegmentBounds(i: nat, x: nat)
    requires EndsSegment(i, x)
    ensures PointSecs(i - 1) < PointSecs(i) && PointMs(i - 1) < PointMs(i)
    ensures PointMs(i - 1) <= OnSegment(i, x) <= PointMs(i)
    ensures x == PointSecs(i) ==> OnSegment(i, x) == PointMs(i)
    ensures x == PointSecs(i - 1) ==> OnSegment(i, x) == PointMs(i - 1)
  {
    hide Interpolate, PointSecs, PointMs;
    CurveStep(i - 1);
    InterpolateBounds(PointSecs(i - 1), PointSecs(i), PointMs(i - 1), PointMs(i), x);
  }

  lemma SegmentMonotone(i: nat, x: nat, x': nat)
    requires EndsSegment(i, x) && EndsSegment(i, x') && x <= x'
    ensures OnSegment(i, x) <= OnSegment(i, x')
  {
    hide Interpolate, PointSecs, PointMs;
    CurveStep(i - 1);
    InterpolateMonotone(PointSecs(i - 1), PointSecs(i), PointMs(i - 1), PointMs(i), x, x');
  }

  /** The threshold never decreases, over all 32-bit inputs. */
  lemma ThresholdMonotone(x: u32, x': u32, ms: nat, ms': nat)
    requires x <= x' && IsThreshold(x, ms) && IsThreshold(x', ms')
    ensures ms <= ms'
  {
    hide PointSecs, PointMs, Interpolate, OnSegment;
    CurveEnds();
    if x < 900 {
      var i: nat :| EndsSegment(i, x) && ms == OnSegment(i, x);
      SegmentBounds(i, x);
      if x' >= 900 {
        if i < 18 { CurveAscends(i, 18); }
      } else {
        var j: nat :| EndsSegment(j, x') && ms' == OnSegment(j, x');
        SegmentBounds(j, x');
        if i == j {
          SegmentMonotone(i, x, x');
        } else if i < j {
          if i < j - 1 { CurveAscends(i, j - 1); }
        } else {
          if j < i - 1 { CurveAscends(j, i - 1); }
        }
      }
    }
  }

  /** The threshold is unique, and exact at every sampled point. */
  lemma ThresholdHitsCurve(k: nat, ms: nat)
    requires k < CURVE_POINTS && IsThreshold(PointSecs(k), ms)
    ensures ms == PointMs(k)
  {
    hide PointSecs, PointMs, Interpolate, OnSegment;
    CurveEnds();
    if k < 18 {
      CurveAscends(k, 18);
      var i: nat :| EndsSegment(i, PointSecs(k)) && ms == OnSegment(i, PointSecs(k));
      SegmentBounds(i, PointSecs(k));
      if k < i - 1 { CurveAscends(k, i - 1); }
      if i < k { CurveAscends(i, k); }
    }
  }

  // ---------------------------------------------------------------- the scheduler's state

  const FAILURE_RETRY_CAP_MS: u32 := 3600000
  const TWO_31: int := 0x8000_0000

  datatype Timing = Timing(
    searching: bool, searchStartedMs: u32, searchEndedMs: u32,
    searchCount: u32, predictedMsToGetLock: u32, consecutiveFailures: u32)

  const FORGOTTEN := Timing(false, 0, 0, 0, 0, 0)

  /** A 32-bit word read as a signed number. */
  function Signed(x: u32): int { if x < TWO_31 then x else x - TWO_32 }

  function Positive(x: int): nat { if x < 0 then 0 else x }

  /** The time a wrapping counter says has passed, when read as a signed 32-bit number. */
  function SignedElapsed(from: u32, to: u32): nat {
    Positive(Signed((to - from) % TWO_32))
  }

  /** One fifth of the newest lock time and four fifths of the prediction so far, in exact arithmetic. */
  function Smoothed(lockTime: u32, predicted: u32): (r: u32)
    ensures 5 * r <= lockTime + 4 * predicted < 5 * r + 5
  {
    assert 0.2 * (lockTime as real) + 0.8 * (predicted as real) < TWO_32 as real;
    (lockTime as real * 0.2 + predicted as real * (1.0 - 0.2)).Floor
  }

  function Predicted(s: Timing, lockTime: u32): u32 {
    if s.searchCount == 1 then lockTime
    else if s.searchCount > 1 then Smoothed(lockTime, s.predictedMsToGetLock)
    else s.predictedMsToGetLock
  }

  function Searching(s: Timing, now: u32): Timing { s.(searching := true, searchStartedMs := now) }

  function Locked(s: Timing, now: u32): Timing {
    Timing(false, s.searchStartedMs, now, (s.searchCount + 1) % TWO_32,
           Predicted(s, SignedElapsed(s.searchStartedMs, now)), 0)
  }

  function Failed(s: Timing, now: u32): Timing {
    s.(searching := false, searchEndedMs := now, consecutiveFailures := (s.consecutiveFailures + 1) % TWO_32)
  }

  /** The interval between searches: after a failure, at least the broadcast interval, capped at an hour. */
  function Interval(failures: u32, updateMs: u32, broadcastMs: u32): (r: u32)
    ensures failures == 0 ==> r == updateMs
    ensures failures > 0 ==> r >= updateMs && (r >= broadcastMs || r >= 3_600_000)
    ensures failures > 0 && r > updateMs ==> r <= broadcastMs && r <= 3_600_000
  {
    if failures == 0 then updateMs
    else Max(updateMs, if broadcastMs > FAILURE_RETRY_CAP_MS then FAILURE_RETRY_CAP_MS else broadcastMs)
  }

  function Max(a: u32, b: u32): u32 { if a < b then b else a }

  function Wait(s: Timing, now: u32, updateMs: u32, broadcastMs: u32): u32 {
    Positive(Signed((s.searchEndedMs + Interval(s.consecutiveFailures, updateMs, broadcastMs)
                     - s.predictedMsToGetLock - now) % TWO_32))
  }

  /** The counter's reading at a true time. */
  predicate Stamps(time: nat, stamp: u32) { stamp == time % TWO_32 }

  class GPSUpdateScheduling {
    var searching: bool
    var searchStartedMs: u32
    var searchEndedMs: u32
    var searchCount: u32
    var predictedMsToGetLock: u32
    var consecutiveFailures: u32

    function State(): Timing
      reads this
    {
      Timing(searching, searchStartedMs, searchEndedMs, searchCount, predictedMsToGetLock, consecutiveFailures)
    }

    constructor ()
      ensures State() == FORGOTTEN && State() == Timing(false, 0, 0, 0, 0, 0)
    {
      searching, searchStartedMs, searchEndedMs := false, 0, 0;
      searchCount, predictedMsToGetLock, consecutiveFailures := 0, 0, 0;
    }

    method Reset()
      modifies this
      ensures State() == FORGOTTEN && State() == Timing(false, 0, 0, 0, 0, 0)
    {
      searching := false;
      searchStartedMs := 0;
      searchEndedMs := 0;
      searchCount := 0;
      predictedMsToGetLock := 0;
      consecutiveFailures := 0;
    }

    method InformSearching(now: u32)
      modifies this
      ensures State() == Searching(old(State()), now)
    {
      searching := true;
      searchStartedMs := now;
    }

    method InformGotLock(now: u32)
      modifies this
      ensures State() == Locked(old(State()), now)
    {
      searching := false;
      searchEndedMs := now;
      UpdateLockTimePrediction();
      consecutiveFailures := 0;
    }

    method InformSearchFailed(now: u32)
      modifies this
      ensures State() == Failed(old(State()), now)
    {
      searching := false;
      searchEndedMs := now;
      consecutiveFailures := (consecutiveFailures + 1) % TWO_32;
    }

    method UpdateLockTimePrediction()
      modifies this
      ensures State() == old(State()).(
                           predictedMsToGetLock :=
                             Predicted(old(State()), SignedElapsed(old(searchStartedMs), old(searchEndedMs))),
                           searchCount := (old(searchCount) + 1) % TWO_32)
    {
      var lockTime := Signed((searchEndedMs - searchStartedMs) % TWO_32);
      if lockTime < 0 {
        lockTime := 0;
      }
      if searchCount == 1 {
        predictedMsToGetLock := lockTime;
      } else if searchCount > 1 {
        predictedMsToGetLock := Smoothed(lockTime, predictedMsToGetLock);
      }
      searchCount := (searchCount + 1) % TWO_32;
    }

    /** Zero unless searching; then the true duration of any search under 2^32 ms, across wraps. */
    method ElapsedSearchMs(now: u32) returns (ms: u32)
      ensures !searching ==> ms == 0
      ensures searching ==> forall started: nat, at: nat ::
                Stamps(started, searchStartedMs) && Stamps(at, now) && started <= at < started + TWO_32 ==> ms == at - started
    {
      if !searching {
        return 0;
      }
      return (now - searchStartedMs) % TWO_32;
    }

    method MsUntilNextSearch(now: u32, updateMs: u32, broadcastMs: u32) returns (ms: u32)
      ensures ms == Wait(State(), now, updateMs, broadcastMs)
    {
      var updateInterval := updateMs;
      if consecutiveFailures > 0 {
        var failureSleepMs := broadcastMs;
        if failureSleepMs > FAILURE_RETRY_CAP_MS {
          failureSleepMs := FAILURE_RETRY_CAP_MS;
        }
        if updateInterval < failureSleepMs {
          updateInterval := failureSleepMs;
        }
      }
      var dueAtMs: u32 := (searchEndedMs + updateInterval) % TWO_32;
      var compensatedStart: u32 := (dueAtMs - predictedMsToGetLock) % TWO_32;
      var remainingMs := Signed((compensatedStart - now) % TWO_32);
      ModPlus3(searchEndedMs + updateInterval, predictedMsToGetLock, now);
      if remainingMs < 0 {
        remainingMs := 0;
      }
      ms := remainingMs;
    }
  }

  lemma ModPlus3(a: int, b: int, c: int)
    ensures ((a % TWO_32 - b) % TWO_32 - c) % TWO_32 == (a - b - c) % TWO_32
  {
  }

  // ---------------------------------------------------------------- the wait, in true time

  /**
    The true wait: until `ended + interval - predicted`, in a time that never wraps, and never
    negative.
  */
  function TrueWait(ended: nat, interval: u32, predicted: u32, now: nat): nat {
    Positive(ended + interval - predicted - now)
  }

  /**
    The computed wait is the true one exactly when the true difference is below 2^31 and, if it is
    negative beyond 31 bits, its wrapped image is not positive either.
  */
  lemma WaitIsExactIff(s: Timing, ended: nat, now: nat, updateMs: u32, broadcastMs: u32)
    requires s.searchEndedMs == ended % TWO_32
    ensures var interval := Interval(s.consecutiveFailures, updateMs, broadcastMs);
            var difference := ended + interval - s.predictedMsToGetLock - now;
            Wait(s, now % TWO_32, updateMs, broadcastMs) == TrueWait(ended, interval, s.predictedMsToGetLock, now)
            <==> difference < TWO_31
                 && (difference >= -TWO_31 || difference % TWO_32 == 0 || difference % TWO_32 >= TWO_31)
  {
    var interval := Interval(s.consecutiveFailures, updateMs, broadcastMs);
    WrapOfTimes(ended, interval - s.predictedMsToGetLock, now);
  }

  lemma WrapOfTimes(ended: nat, d: int, now: nat)
    ensures (ended % TWO_32 + d - now % TWO_32) % TWO_32 == (ended + d - now) % TWO_32
  {
  }

  // ---------------------------------------------------------------- predictions over whole runs

  /** What happens to the scheduler, each at its true time in milliseconds. */
  datatype Event = Start(at: nat) | GotLock(at: nat) | GaveUp(at: nat) | Forget

  /** The scheduler, and beside it, in true time, the start and end of the latest search (0 after a reset)
      the lock times since a reset, and the failures since the last lock or reset. */
  datatype World = World(s: Timing, startedAt: nat, endedAt: nat, locks: seq<nat>, failures: nat)

  const FRESH := World(FORGOTTEN, 0, 0, [], 0)

  function Next(w: World, e: Event): World {
    match e
    case Start(at) => w.(s := Searching(w.s, at % TWO_32), startedAt := at)
    case GotLock(at) => w.(s := Locked(w.s, at % TWO_32), endedAt := at, locks := w.locks + [Positive(at - w.startedAt)],
                           failures := 0)
    case GaveUp(at) => w.(s := Failed(w.s, at % TWO_32), endedAt := at, failures := w.failures + 1)
    case Forget => FRESH
  }

  /** A lock ends a search that is under way and took less than 2^31 ms. */
  predicate Possible(w: World, e: Event) {
    e.GotLock? ==> w.s.searching && w.startedAt <= e.at < w.startedAt + TWO_31
  }

  ghost predicate PossibleRun(w: World, es: seq<Event>)
    decreases |es|
  {
    es == [] || (Possible(w, es[0]) && PossibleRun(Next(w, es[0]), es[1..]))
  }

  function Run(w: World, es: seq<Event>): World
    decreases |es|
  {
    if es == [] then w else Run(Next(w, es[0]), es[1..])
  }

  /** Every lock time from the second on lies between lo and hi. */
  ghost predicate Within(locks: seq<nat>, lo: nat, hi: nat) {
    forall k :: 1 <= k < |locks| ==> lo <= locks[k] <= hi
  }

  ghost predicate Consistent(w: World) {
    && (w.s.searching ==> w.s.searchStartedMs == w.startedAt % TWO_32)
    && w.s.searchEndedMs == w.endedAt % TWO_32 && w.s.consecutiveFailures == w.failures % TWO_32
    && w.s.searchCount == |w.locks| % TWO_32
    && (|w.locks| <= 1 ==> w.s.predictedMsToGetLock == 0)
    && (forall lo: nat, hi: nat :: |w.locks| >= 2 && Within(w.locks, lo, hi) ==> lo <= w.s.predictedMsToGetLock <= hi)
  }

  lemma SmoothedBetween(lockTime: u32, predicted: u32, lo: nat, hi: nat)
    requires lo <= lockTime <= hi && lo <= predicted <= hi
    ensures lo <= Smoothed(lockTime, predicted) <= hi
  {
    var exact := lockTime as real * 0.2 + predicted as real * 0.8;
    assert lo as real <= exact <= hi as real;
  }

  lemma ElapsedIsTrue(from: nat, to: nat)
    requires from <= to < from + TWO_31
    ensures SignedElapsed(from % TWO_32, to % TWO_32) == to - from
  {
    WrapOfTimes(to, 0, from);
  }

  lemma WithinInit(locks: seq<nat>, x: nat, lo: nat, hi: nat)
    requires |locks| >= 1 && Within(locks + [x], lo, hi)
    ensures lo <= x <= hi && Within(locks, lo, hi)
  {
    assert (locks + [x])[|locks|] == x;
    forall k | 1 <= k < |locks| ensures lo <= locks[k] <= hi { assert (locks + [x])[k] == locks[k]; }
  }

  /** A new lock time keeps the prediction between any bounds on the lock times. */
  lemma PredictionFollows(w: World, x: u32, lo: nat, hi: nat)
    requires Consistent(w) && |w.locks| >= 1 && Within(w.locks + [x], lo, hi)
    ensures lo <= Predicted(w.s, x) <= hi
  {
    hide Smoothed, Within;
    WithinInit(w.locks, x, lo, hi);
    if w.s.searchCount > 1 { SmoothedBetween(x, w.s.predictedMsToGetLock, lo, hi); }
  }

  lemma NextConsistent(w: World, e: Event)
    requires Consistent(w) && Possible(w, e)
    ensures Consistent(Next(w, e))
  {
    hide Smoothed, SignedElapsed, Signed, Within, Predicted;
    if e.GotLock? {
      var w', x: u32 := Next(w, e), e.at - w.startedAt;
      ElapsedIsTrue(w.startedAt, e.at);
      FirstPrediction(w.s, x);
      forall lo: nat, hi: nat | |w'.locks| >= 2 && Within(w'.locks, lo, hi)
        ensures lo <= w'.s.predictedMsToGetLock <= hi
      {
        PredictionFollows(w, x, lo, hi);
      }
    }
  }

  lemma FirstPrediction(s: Timing, x: u32)
    ensures s.searchCount == 0 ==> Predicted(s, x) == s.predictedMsToGetLock
  {
  }

  /** What each event does, in true time: a start and an end are stamped, a failure leaves the prediction
      alone, and a lock clears the failures. Of the lock times since a reset the first is disregarded,
      the second becomes the prediction, and each later one moves it a fifth of the way (unless the
      32-bit count has just come round). */
  lemma EventMeaning(w: World, e: Event)
    requires Consistent(w) && Possible(w, e)
    ensures var s, t := w.s, Next(w, e).s;
            match e
            case Start(at) => t == s.(searching := true, searchStartedMs := at % 0x1_0000_0000)
            case GaveUp(at) =>
              t == s.(searching := false, searchEndedMs := at % 0x1_0000_0000,
                      consecutiveFailures := (w.failures + 1) % 0x1_0000_0000)
            case GotLock(at) =>
              var x, n, p, p' := at - w.startedAt, |w.locks|, s.predictedMsToGetLock, t.predictedMsToGetLock;
              && !t.searching && t.searchEndedMs == at % 0x1_0000_0000 && t.consecutiveFailures == 0
              && t.searchStartedMs == s.searchStartedMs && t.searchCount == (n + 1) % 0x1_0000_0000
              && (n == 0 ==> p' == 0) && (n == 1 ==> p' == x)
              && (n % 0x1_0000_0000 >= 2 ==> 5 * p' <= x + 4 * p < 5 * p' + 5)
            case Forget => t == Timing(false, 0, 0, 0, 0, 0)
  {
    if e.GotLock? { ElapsedIsTrue(w.startedAt, e.at); }
    hide SignedElapsed, Signed;
  }

  lemma {:induction false} RunConsistent(w: World, es: seq<Event>)
    requires Consistent(w) && PossibleRun(w, es)
    ensures Consistent(Run(w, es))
    decreases |es|
  {
    if es != [] {
      NextConsistent(w, es[0]);
      RunConsistent(Next(w, es[0]), es[1..]);
    }
  }

  /**
    From the second lock on, and whatever wraps, the prediction stays between the least and the
    greatest lock time since the second one after the latest reset.
  */
  lemma PredictionStaysBetween(es: seq<Event>, lo: nat, hi: nat)
    requires PossibleRun(FRESH, es)
    ensures var w := Run(FRESH, es);
            |w.locks| >= 2 && Within(w.locks, lo, hi) ==> lo <= w.s.predictedMsToGetLock <= hi
  {
    RunConsistent(FRESH, es);
  }

  /**
    After any run, the wait until the next search is the true one - to the end of the latest search plus
    the interval, less the predicted lock time - exactly when the true difference passes the test of
    `WaitIsExactIff`.
  */
  lemma WaitAfterRun(es: seq<Event>, now: nat, updateMs: u32, broadcastMs: u32)
    requires PossibleRun(FRESH, es)
    ensures var w := Run(FRESH, es);
            var interval := Interval(w.failures % TWO_32, updateMs, broadcastMs);
            var difference := w.endedAt + interval - w.s.predictedMsToGetLock - now;
            Wait(w.s, now % TWO_32, updateMs, broadcastMs) == Positive(difference)
            <==> difference < TWO_31
                 && (difference >= -TWO_31 || difference % TWO_32 == 0 || difference % TWO_32 >= TWO_31)
  {
    hide Wait, Interval, Run;
    RunConsistent(FRESH, es);
    WaitIsExactIff(Run(FRESH, es).s, Run(FRESH, es).endedAt, now, updateMs, broadcastMs);
  }
}
