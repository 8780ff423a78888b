/**
 * The stability of one peer's track under a stream of successful probes:
 * how far the smoothed delay can go, when the band stays, and how a constant
 * delay settles.
 */
module CostTracks {
  import opened Prelude
  import opened CostBands
  import opened Iteration

  datatype Sample = Sample(forward: int, rtt: int)

  /** The one-way delay of a sample; half the round trip when there is no positive one. */
  function Delay(s: Sample): int {
    if s.forward <= 0 then TruncDiv(s.rtt, 2) else s.forward
  }

  /** Hold counting: a target must be called for often enough in a row before the band moves. */
  function Evaluate(bands: Bands, t: Track): Track {
    var target := Target(bands, t.currentBand, t.forwardDelay);
    if target == t.currentBand then
      t.(pendingBand := target, holdCounter := 0)
    else
      TargetInRange(bands, t.currentBand, t.forwardDelay);
      var hold := if target == t.pendingBand then t.holdCounter + 1 else 1;
      if bands[target].hold <= hold then
        t.(currentBand := target, pendingBand := target, holdCounter := 0)
      else
        t.(pendingBand := target, holdCounter := hold)
  }

  function Smoothed(sm: Smoother, t: Track, s: Sample): Track {
    t.(forwardDelay := sm(t.forwardDelay, Delay(s)), rtt := sm(t.rtt, s.rtt))
  }

  /** What one successful probe does to a track. */
  function OnSample(bands: Bands, sm: Smoother, t: Track, s: Sample): Track {
    Evaluate(bands, Smoothed(sm, t, s))
  }

  /** The track after a stream of samples. */
  function Feed(bands: Bands, sm: Smoother, t: Track, ss: seq<Sample>): Track {
    if ss == [] then t
    else OnSample(bands, sm, Feed(bands, sm, t, ss[..|ss| - 1]), ss[|ss| - 1])
  }

  function Sampling(bands: Bands, sm: Smoother, s: Sample): Track -> Track {
    t => OnSample(bands, sm, t, s)
  }

  /** The track after n times the same sample. */
  function Repeat(bands: Bands, sm: Smoother, t: Track, s: Sample, n: nat): Track {
    Iterate(Sampling(bands, sm, s), t, n)
  }

  lemma {:induction false} FeedIsRepeat(bands: Bands, sm: Smoother, t: Track, s: Sample, ss: seq<Sample>)
    requires forall s' :: s' in ss ==> s' == s
    ensures Feed(bands, sm, t, ss) == Repeat(bands, sm, t, s, |ss|)
    decreases |ss|
  {
    if ss != [] {
      var rest := ss[..|ss| - 1];
      assert forall s' :: s' in rest ==> s' in ss;
      FeedIsRepeat(bands, sm, t, s, rest);
      assert ss[|ss| - 1] in ss;
    }
  }

  // ---------------------------------------------------------------- window stability

  /**
   * As long as the smoothed delay and every later delay stay in the window of the
   * current band, the band never moves, whatever is smoothed into what.
   */
  lemma {:induction false} WindowStability(bands: Bands, sm: Smoother, t: Track, ss: seq<Sample>)
    requires Averaging(sm)
    requires InWindow(bands, t.currentBand, t.forwardDelay)
    requires forall s :: s in ss ==> InWindow(bands, t.currentBand, Delay(s))
    ensures Feed(bands, sm, t, ss).currentBand == t.currentBand
    ensures InWindow(bands, t.currentBand, Feed(bands, sm, t, ss).forwardDelay)
    decreases |ss|
  {
    if ss != [] {
      var c, rest, s := t.currentBand, ss[..|ss| - 1], ss[|ss| - 1];
      WindowStability(bands, sm, t, rest);
      var prev := Feed(bands, sm, t, rest);
      assert s in ss;
      var d, e := prev.forwardDelay, Delay(s);
      TargetStaysIffInWindow(bands, c, sm(d, e));
    }
  }

  // ---------------------------------------------------------------- monotone step response

  /** What holds along a rise from t0 toward the delay d. */
  predicate Rising(bands: Bands, t0: Track, d: int, t: Track) {
    && t0.forwardDelay <= t.forwardDelay <= d
    && t0.currentBand <= t.currentBand <= Target(bands, t0.currentBand, t.forwardDelay)
    && t.currentBand <= Target(bands, t.currentBand, t.forwardDelay)
  }

  /** A climb that starts on the way of another goes no further than that. */
  lemma ClimbOnTheWay(bands: Bands, c0: BandIndex, c: BandIndex, d: int)
    requires c0 <= c <= Target(bands, c0, d) && c <= Target(bands, c, d)
    ensures Target(bands, c, d) <= Target(bands, c0, d)
  {
    if c0 < c < Target(bands, c, d) {
      ClimbReaches(bands, c0, d, Target(bands, c, d));
    }
  }

  lemma RiseOnce(bands: Bands, sm: Smoother, t0: Track, t: Track, s: Sample)
    requires Averaging(sm) && TopsHysteretic(bands) && Rising(bands, t0, Delay(s), t)
    ensures var t' := OnSample(bands, sm, t, s);
            && Rising(bands, t0, Delay(s), t')
            && t.forwardDelay <= t'.forwardDelay && t.currentBand <= t'.currentBand
  {
    var d := sm(t.forwardDelay, Delay(s));
    TargetMonotoneInDelay(bands, t.currentBand, t.forwardDelay, d);
    TargetMonotoneInDelay(bands, t0.currentBand, t.forwardDelay, d);
    TargetIdempotent(bands, t.currentBand, d);
    ClimbOnTheWay(bands, t0.currentBand, t.currentBand, d);
  }

  /**
   * A constant delay at or above the smoothed one never lowers the band, not even for a while,
   * and never takes it past what the scans from where it started call for, all the less past the
   * higher of where it started and the highest band that delay calls for.
   */
  lemma {:induction false} StepUp(bands: Bands, sm: Smoother, t: Track, s: Sample, n: nat)
    requires Averaging(sm) && TopsHysteretic(bands)
    requires t.forwardDelay <= Delay(s)
    requires t.currentBand <= Target(bands, t.currentBand, t.forwardDelay)
    ensures var now, next := Repeat(bands, sm, t, s, n), Repeat(bands, sm, t, s, n + 1);
            && Rising(bands, t, Delay(s), now) && Rising(bands, t, Delay(s), next)
            && now.forwardDelay <= next.forwardDelay && now.currentBand <= next.currentBand
            && next.currentBand <= Max(t.currentBand, Highest(bands, Delay(s)))
  {
    RiseKept(bands, sm, t, s, n);
    RiseOnce(bands, sm, t, Repeat(bands, sm, t, s, n), s);
    TargetCeiling(bands, t.currentBand, Repeat(bands, sm, t, s, n + 1).forwardDelay, Delay(s));
  }

  lemma {:induction false} RiseKept(bands: Bands, sm: Smoother, t: Track, s: Sample, n: nat)
    requires Averaging(sm) && TopsHysteretic(bands) && Rising(bands, t, Delay(s), t)
    ensures Rising(bands, t, Delay(s), Repeat(bands, sm, t, s, n))
  {
    var step, rising := Sampling(bands, sm, s), (x: Track) => Rising(bands, t, Delay(s), x);
    forall x: Track | rising(x)
      ensures rising(step(x))
    {
      RiseOnce(bands, sm, t, x, s);
    }
    IteratePreserves(step, rising, t, n);
  }

  /** No delay up to d calls for a band above both the current one and the highest that d calls for. */
  lemma TargetCeiling(bands: Bands, c: BandIndex, x: int, d: int)
    requires x <= d
    ensures Target(bands, c, x) <= Max(c, Highest(bands, d))
  {
  }

  /** What holds along a fall from t0 toward the delay d. */
  predicate Falling(bands: Bands, t0: Track, d: int, t: Track) {
    && d <= t.forwardDelay <= t0.forwardDelay
    && Target(bands, t0.currentBand, t.forwardDelay) <= t.currentBand <= t0.currentBand
    && Target(bands, t.currentBand, t.forwardDelay) <= t.currentBand
  }

  /** A descent that starts on the way of another goes no further than that. */
  lemma DescentOnTheWay(bands: Bands, c0: BandIndex, c: BandIndex, d: int)
    requires Target(bands, c0, d) <= c <= c0
    ensures Target(bands, c0, d) <= Target(bands, c, d)
  {
  }

  /** Less delay, and the band stays or follows the scans: what a fall keeps of it. */
  lemma FallenBand(bands: Bands, c0: BandIndex, c: BandIndex, d: int, d': int, c': BandIndex)
    requires TopsHysteretic(bands) && d' <= d && (c' == c || c' == Target(bands, c, d'))
    requires Target(bands, c0, d) <= c <= c0 && Target(bands, c, d) <= c
    ensures Target(bands, c0, d') <= c' <= c && Target(bands, c', d') <= c'
  {
    TargetMonotoneInDelay(bands, c, d', d);
    TargetMonotoneInDelay(bands, c0, d', d);
    TargetIdempotent(bands, c, d');
    DescentOnTheWay(bands, c0, c, d');
  }

  lemma FallOnce(bands: Bands, sm: Smoother, t0: Track, t: Track, s: Sample)
    requires Averaging(sm) && TopsHysteretic(bands) && Falling(bands, t0, Delay(s), t)
    ensures var t' := OnSample(bands, sm, t, s);
            && Falling(bands, t0, Delay(s), t')
            && t'.forwardDelay <= t.forwardDelay && t'.currentBand <= t.currentBand
  {
    var t' := OnSample(bands, sm, t, s);
    FallenBand(bands, t0.currentBand, t.currentBand, t.forwardDelay, t'.forwardDelay, t'.currentBand);
  }

  /**
   * The mirror image: a constant delay at or below the smoothed one never raises the band and
   * never takes it below what the scans from where it started call for.
   */
  lemma {:induction false} StepDown(bands: Bands, sm: Smoother, t: Track, s: Sample, n: nat)
    requires Averaging(sm) && TopsHysteretic(bands)
    requires Delay(s) <= t.forwardDelay
    requires Target(bands, t.currentBand, t.forwardDelay) <= t.currentBand
    ensures var now, next := Repeat(bands, sm, t, s, n), Repeat(bands, sm, t, s, n + 1);
            && Falling(bands, t, Delay(s), now) && Falling(bands, t, Delay(s), next)
            && next.forwardDelay <= now.forwardDelay && next.currentBand <= now.currentBand
            && Target(bands, t.currentBand, Delay(s)) <= next.currentBand
  {
    FallKept(bands, sm, t, s, n);
    FallOnce(bands, sm, t, Repeat(bands, sm, t, s, n), s);
    TargetMonotoneInDelay(bands, t.currentBand, Delay(s), Repeat(bands, sm, t, s, n + 1).forwardDelay);
  }

  lemma {:induction false} FallKept(bands: Bands, sm: Smoother, t: Track, s: Sample, n: nat)
    requires Averaging(sm) && TopsHysteretic(bands) && Falling(bands, t, Delay(s), t)
    ensures Falling(bands, t, Delay(s), Repeat(bands, sm, t, s, n))
  {
    var step, falling := Sampling(bands, sm, s), (x: Track) => Falling(bands, t, Delay(s), x);
    forall x: Track | falling(x)
      ensures falling(step(x))
    {
      FallOnce(bands, sm, t, x, s);
    }
    IteratePreserves(step, falling, t, n);
  }

  /** With ordered Ups that is no lower than the highest band the delay calls for, unless the start was. */
  lemma TargetFloor(bands: Bands, c: BandIndex, d: int)
    requires TopsHysteretic(bands) && UpsOrdered(bands)
    ensures Min(c, Highest(bands, d)) <= Target(bands, c, d)
  {
    var h := Highest(bands, d);
    if 0 < h <= c {
      assert h + 1 < |bands| ==> bands[h].up < bands[h + 1].up;
      assert bands[h].down <= d;
    } else if 0 < h {
      ClimbReaches(bands, c, d, h);
    }
  }

  // ---------------------------------------------------------------- settling

  /** The largest number of calls in a row that any band asks for, at least 1. */
  function MaxHold(bands: Bands): (m: nat)
    ensures 1 <= m
    ensures forall j :: 0 <= j < |bands| ==> bands[j].hold <= m
  {
    if bands == [] then 1 else Max(MaxHold(bands[..|bands| - 1]), bands[|bands| - 1].hold)
  }

  /** One more sample of this kind changes nothing at all. */
  predicate Settled(bands: Bands, sm: Smoother, t: Track, s: Sample) {
    OnSample(bands, sm, t, s) == t
  }

  predicate DelaysRest(sm: Smoother, t: Track, s: Sample) {
    Smoothed(sm, t, s) == t
  }

  function DelaySettlingTime(t: Track, s: Sample): nat {
    Max(Abs(Delay(s) - t.forwardDelay), Abs(s.rtt - t.rtt))
  }

  function SettlingTime(bands: Bands, t: Track, s: Sample): nat {
    DelaySettlingTime(t, s) + MaxHold(bands)
  }

  function Toward(sm: Smoother, goal: int): int -> int {
    x => sm(x, goal)
  }

  /** An average stands still after at most as many equal samples as it is away from them. */
  lemma AverageRests(sm: Smoother, x: int, goal: int, n: nat)
    requires Averaging(sm) && Abs(goal - x) <= n
    ensures var y := Iterate(Toward(sm, goal), x, n); sm(y, goal) == y
  {
    IterateRests(Toward(sm, goal), (y: int) => Abs(goal - y), x, n);
  }

  lemma {:induction false} RepeatSmooths(bands: Bands, sm: Smoother, t: Track, s: Sample, n: nat)
    ensures var t' := Repeat(bands, sm, t, s, n);
            && t'.forwardDelay == Iterate(Toward(sm, Delay(s)), t.forwardDelay, n)
            && t'.rtt == Iterate(Toward(sm, s.rtt), t.rtt, n)
  {
    if n > 0 {
      RepeatSmooths(bands, sm, t, s, n - 1);
    }
  }

  lemma DelaysSettle(bands: Bands, sm: Smoother, t: Track, s: Sample, n: nat)
    requires Averaging(sm) && DelaySettlingTime(t, s) <= n
    ensures DelaysRest(sm, Repeat(bands, sm, t, s, n), s)
  {
    AverageRests(sm, t.forwardDelay, Delay(s), n);
    AverageRests(sm, t.rtt, s.rtt, n);
    RepeatSmooths(bands, sm, t, s, n);
  }

  /** With the delays at rest: how many evaluations until nothing moves any more. */
  function HoldMeasure(bands: Bands, t: Track): nat {
    var target := Target(bands, t.currentBand, t.forwardDelay);
    if Evaluate(bands, t) == t then 0
    else if target == t.currentBand then 1
    else
      TargetInRange(bands, t.currentBand, t.forwardDelay);
      Max(1, bands[target].hold - if target == t.pendingBand then t.holdCounter else 0)
  }

  lemma HoldMeasureDrops(bands: Bands, t: Track)
    requires TopsHysteretic(bands)
    ensures Evaluate(bands, t) == t || HoldMeasure(bands, Evaluate(bands, t)) < HoldMeasure(bands, t)
    ensures HoldMeasure(bands, t) <= MaxHold(bands)
  {
    TargetIdempotent(bands, t.currentBand, t.forwardDelay);
  }

  function Evaluating(bands: Bands): Track -> Track {
    t => Evaluate(bands, t)
  }

  lemma EvaluationSettles(bands: Bands, t: Track, n: nat)
    requires TopsHysteretic(bands) && MaxHold(bands) <= n
    ensures var t' := Iterate(Evaluating(bands), t, n); Evaluate(bands, t') == t'
  {
    var step, measure := Evaluating(bands), (x: Track) => HoldMeasure(bands, x);
    forall x: Track
      ensures step(x) == x || measure(step(x)) < measure(x)
    {
      HoldMeasureDrops(bands, x);
    }
    HoldMeasureDrops(bands, t);
    IterateRests(step, measure, t, n);
  }

  /** While the smoothed delays rest, samples only evaluate. */
  lemma RestedOnlyEvaluates(bands: Bands, sm: Smoother, t: Track, s: Sample, n: nat)
    requires DelaysRest(sm, t, s)
    ensures var t' := Repeat(bands, sm, t, s, n);
            t' == Iterate(Evaluating(bands), t, n) && DelaysRest(sm, t', s)
  {
    var step, rests := Sampling(bands, sm, s), (x: Track) => DelaysRest(sm, x, s);
    forall x: Track | rests(x)
      ensures step(x) == Evaluating(bands)(x) && rests(step(x))
    {
    }
    IteratesAgree(step, Evaluating(bands), rests, t, n);
  }

  /** Once the smoothed delays rest, at most MaxHold further samples settle the whole track. */
  lemma HoldSettles(bands: Bands, sm: Smoother, t: Track, s: Sample, n: nat)
    requires TopsHysteretic(bands) && DelaysRest(sm, t, s) && MaxHold(bands) <= n
    ensures Settled(bands, sm, Repeat(bands, sm, t, s, n), s)
  {
    RestedOnlyEvaluates(bands, sm, t, s, n);
    EvaluationSettles(bands, t, n);
  }

  /**
   * Settling: under one sample repeated for ever, every track stops changing, and within a
   * number of samples that can be read off beforehand.
   */
  lemma Settling(bands: Bands, sm: Smoother, t: Track, s: Sample, n: nat)
    requires Averaging(sm) && TopsHysteretic(bands)
    requires SettlingTime(bands, t, s) <= n
    ensures Settled(bands, sm, Repeat(bands, sm, t, s, n), s)
  {
    var m := DelaySettlingTime(t, s);
    var rested := Repeat(bands, sm, t, s, m);
    DelaysSettle(bands, sm, t, s, m);
    HoldSettles(bands, sm, rested, s, n - m);
    IterateSplit(Sampling(bands, sm, s), t, m, n);
  }

  // ---------------------------------------------------------------- what a failure would reset

  /** What is left of a track when the count for another band starts over. */
  function Restarted(t: Track): Track {
    t.(pendingBand := t.currentBand, holdCounter := 0)
  }

  /** A track as evaluations leave it: counting for no band, or for its target and not yet often enough. */
  predicate Counting(bands: Bands, t: Track) {
    var target := Target(bands, t.currentBand, t.forwardDelay);
    t.holdCounter == 0 || (0 <= target < |bands| && target == t.pendingBand != t.currentBand
                           && t.holdCounter < bands[target].hold)
  }

  lemma EvaluatedCounts(bands: Bands, t: Track)
    ensures Counting(bands, Evaluate(bands, t))
  {
  }

  /** With no count running the pending band does not matter. */
  lemma PendingOnlyCounts(bands: Bands, t: Track, band: BandIndex)
    requires t.holdCounter == 0
    ensures Evaluate(bands, t) == Evaluate(bands, t.(pendingBand := band))
  {
  }

  lemma {:induction false} UncountedStarts(bands: Bands, sm: Smoother, t: Track, band: BandIndex, ss: seq<Sample>)
    requires t.holdCounter == 0
    ensures ss != [] ==> Feed(bands, sm, t, ss) == Feed(bands, sm, t.(pendingBand := band), ss)
    ensures Feed(bands, sm, t, ss).currentBand == Feed(bands, sm, t.(pendingBand := band), ss).currentBand
    decreases |ss|
  {
    if |ss| == 1 {
      PendingOnlyCounts(bands, Smoothed(sm, t, ss[0]), band);
      assert ss[..0] == [];
    } else if ss != [] {
      UncountedStarts(bands, sm, t, band, ss[..|ss| - 1]);
    }
  }

  /** A delay at rest that calls for another band counts up to that band's hold, ... */
  lemma {:induction false} CountsOn(bands: Bands, sm: Smoother, t: Track, s: Sample, n: nat)
    requires DelaysRest(sm, t, s)
    requires 0 <= t.pendingBand < |bands| && t.holdCounter + n < bands[t.pendingBand].hold
    requires t.pendingBand == Target(bands, t.currentBand, t.forwardDelay) != t.currentBand
    ensures Repeat(bands, sm, t, s, n) == t.(holdCounter := t.holdCounter + n)
  {
    if n > 0 {
      CountsOn(bands, sm, t, s, n - 1);
      CountsOnce(bands, sm, t.(holdCounter := t.holdCounter + n - 1), s);
    }
  }

  /** ... with which the band is entered. */
  lemma CountsOnce(bands: Bands, sm: Smoother, t: Track, s: Sample)
    requires DelaysRest(sm, t, s)
    requires 0 <= t.pendingBand < |bands| && t.holdCounter < bands[t.pendingBand].hold
    requires t.pendingBand == Target(bands, t.currentBand, t.forwardDelay) != t.currentBand
    ensures var t' := OnSample(bands, sm, t, s);
            if t.holdCounter + 1 < bands[t.pendingBand].hold then t' == t.(holdCounter := t.holdCounter + 1)
            else t' == t.(currentBand := t.pendingBand, holdCounter := 0)
  {
  }

  /** A running count is worth something: with it the band is entered while without it it is not. */
  lemma {:induction false} CountIsWorth(bands: Bands, sm: Smoother, t: Track) returns (ss: seq<Sample>)
    requires Averaging(sm) && 0 < t.forwardDelay && Counting(bands, t) && 0 < t.holdCounter
    ensures forall s :: s in ss ==> 0 < s.forward
    ensures Feed(bands, sm, t, ss).currentBand != Feed(bands, sm, Restarted(t), ss).currentBand
  {
    var s, n := Sample(t.forwardDelay, t.rtt), bands[t.pendingBand].hold - t.holdCounter;
    ss := seq(n, _ => s);
    FeedIsRepeat(bands, sm, t, s, ss);
    CountEnters(bands, sm, t, s, n);
    StartsOver(bands, sm, t, s, ss);
  }

  lemma {:induction false} CountEnters(bands: Bands, sm: Smoother, t: Track, s: Sample, n: nat)
    requires DelaysRest(sm, t, s)
    requires 0 <= t.pendingBand < |bands| && 0 < n && t.holdCounter + n == bands[t.pendingBand].hold
    requires t.pendingBand == Target(bands, t.currentBand, t.forwardDelay) != t.currentBand
    ensures Repeat(bands, sm, t, s, n).currentBand == t.pendingBand
  {
    CountsOn(bands, sm, t, s, n - 1);
    CountsOnce(bands, sm, t.(holdCounter := t.holdCounter + n - 1), s);
  }

  lemma {:induction false} StartsOver(bands: Bands, sm: Smoother, t: Track, s: Sample, ss: seq<Sample>)
    requires DelaysRest(sm, t, s) && forall s' :: s' in ss ==> s' == s
    requires 0 <= t.pendingBand < |bands| && |ss| < bands[t.pendingBand].hold
    requires t.pendingBand == Target(bands, t.currentBand, t.forwardDelay) != t.currentBand
    ensures Feed(bands, sm, Restarted(t), ss).currentBand == t.currentBand
  {
    var anew := t.(holdCounter := 0);
    UncountedStarts(bands, sm, anew, t.currentBand, ss);
    FeedIsRepeat(bands, sm, anew, s, ss);
    CountsOn(bands, sm, anew, s, |ss|);
  }

  /**
   * The documentation counts a hold over consecutive probes, so that a failure would start the count
   * over; in the code a failure leaves the track alone.  That makes no difference to the band under
   * any later samples exactly if no count is running.
   */
  lemma {:induction false} FailureCountsIff(bands: Bands, sm: Smoother, t: Track)
    requires Averaging(sm) && 0 < t.forwardDelay && Counting(bands, t)
    ensures (forall ss: seq<Sample> :: (forall s :: s in ss ==> 0 < s.forward) ==>
               Feed(bands, sm, t, ss).currentBand == Feed(bands, sm, Restarted(t), ss).currentBand)
            <==> t.holdCounter == 0
  {
    if t.holdCounter == 0 {
      forall ss: seq<Sample>
        ensures Feed(bands, sm, t, ss).currentBand == Feed(bands, sm, Restarted(t), ss).currentBand
      {
        UncountedStarts(bands, sm, t, t.currentBand, ss);
      }
    } else {
      var ss := CountIsWorth(bands, sm, t);
    }
  }

  /** A settled track is in the window of its band and counts toward no other. */
  lemma SettledInWindow(bands: Bands, sm: Smoother, t: Track, s: Sample)
    requires Settled(bands, sm, t, s)
    ensures InWindow(bands, t.currentBand, t.forwardDelay)
    ensures t.pendingBand == t.currentBand && t.holdCounter == 0
  {
    TargetStaysIffInWindow(bands, t.currentBand, Smoothed(sm, t, s).forwardDelay);
  }

  /** Where a band settles: on a rise or a fall, at what the scans call for from where it started. */
  lemma SettlesAtTarget(bands: Bands, sm: Smoother, t0: Track, t: Track, s: Sample)
    requires Settled(bands, sm, t, s)
    requires Rising(bands, t0, Delay(s), t) || Falling(bands, t0, Delay(s), t)
    ensures t.currentBand == Target(bands, t0.currentBand, t.forwardDelay)
  {
    SettledInWindow(bands, sm, t, s);
  }

  lemma {:induction false} AverageStaysBetween(sm: Smoother, x: int, goal: int, n: nat)
    requires Averaging(sm)
    ensures Min(x, goal) <= Iterate(Toward(sm, goal), x, n) <= Max(x, goal)
  {
    IteratePreserves(Toward(sm, goal), (y: int) => Min(x, goal) <= y <= Max(x, goal), x, n);
  }

  /**
   * Where exponential smoothing settles: coming from above exactly at the sample, coming from
   * below no further under it than that alpha times the rest is less than one nanosecond.
   */
  lemma {:induction false} SettledDelay(bands: Bands, a: Alpha, t: Track, s: Sample, n: nat)
    requires InUnitInterval(a) && 0 < a.num && 0 < t.forwardDelay && 0 < Delay(s)
    requires DelaySettlingTime(t, s) <= n
    ensures var x := Repeat(bands, Smoothing(a), t, s, n).forwardDelay;
            if Delay(s) <= t.forwardDelay then x == Delay(s)
            else t.forwardDelay <= x <= Delay(s) && a.num * (Delay(s) - x) < a.den
  {
    var sm := Smoothing(a);
    SmoothingAverages(a);
    RepeatSmooths(bands, sm, t, s, n);
    AverageStaysBetween(sm, t.forwardDelay, Delay(s), n);
    AverageRests(sm, t.forwardDelay, Delay(s), n);
    RestsAt(Iterate(Toward(sm, Delay(s)), t.forwardDelay, n), Delay(s), a);
  }

  /**
   * The landing band, whatever the holds: a rise ends where the scans from the first band at the
   * settled delay do ...
   */
  lemma {:induction false} RiseLands(bands: Bands, sm: Smoother, t: Track, s: Sample, n: nat)
    requires Averaging(sm) && TopsHysteretic(bands) && SettlingTime(bands, t, s) <= n
    requires t.forwardDelay <= Delay(s) && t.currentBand <= Target(bands, t.currentBand, t.forwardDelay)
    ensures var now := Repeat(bands, sm, t, s, n);
            now.currentBand == Target(bands, t.currentBand, now.forwardDelay)
  {
    Settling(bands, sm, t, s, n);
    StepUp(bands, sm, t, s, n);
    SettlesAtTarget(bands, sm, t, Repeat(bands, sm, t, s, n), s);
  }

  /** ... and so does a fall, ... */
  lemma {:induction false} FallSettles(bands: Bands, sm: Smoother, t: Track, s: Sample, n: nat)
    requires Averaging(sm) && TopsHysteretic(bands) && SettlingTime(bands, t, s) <= n
    requires Delay(s) <= t.forwardDelay && Target(bands, t.currentBand, t.forwardDelay) <= t.currentBand
    ensures var now := Repeat(bands, sm, t, s, n);
            now.currentBand == Target(bands, t.currentBand, now.forwardDelay)
  {
    Settling(bands, sm, t, s, n);
    StepDown(bands, sm, t, s, n);
    SettlesAtTarget(bands, sm, t, Repeat(bands, sm, t, s, n), s);
  }

  /** ... which exponential smoothing takes all the way to the sample: it lands where the sample says. */
  lemma {:induction false} FallLands(bands: Bands, a: Alpha, t: Track, s: Sample, n: nat)
    requires InUnitInterval(a) && 0 < a.num && TopsHysteretic(bands) && SettlingTime(bands, t, s) <= n
    requires 0 < Delay(s) <= t.forwardDelay && Target(bands, t.currentBand, t.forwardDelay) <= t.currentBand
    ensures Repeat(bands, Smoothing(a), t, s, n).currentBand == Target(bands, t.currentBand, Delay(s))
  {
    SmoothingAverages(a);
    SettledDelay(bands, a, t, s, n);
    FallSettles(bands, Smoothing(a), t, s, n);
  }

  ghost predicate EventuallySettles(bands: Bands, sm: Smoother, t: Track, s: Sample) {
    exists n: nat :: Settled(bands, sm, Repeat(bands, sm, t, s, n), s)
  }

  ghost predicate EveryTrackSettles(bands: Bands, sm: Smoother) {
    forall t: Track, s: Sample :: EventuallySettles(bands, sm, t, s)
  }

  /** A band that the next one does not share its Up with, and whose Down lies above that Up. */
  predicate Flaps(bands: Bands, j: int) {
    0 < j < |bands| && (j + 1 < |bands| ==> bands[j].up < bands[j + 1].up) && bands[j].up < bands[j].down
  }

  /** At its own Up such a band keeps every band at or below it moving. */
  lemma NeverRestsBelow(bands: Bands, j: nat, c: BandIndex)
    requires UpsOrdered(bands) && Flaps(bands, j) && c <= j
    ensures c != Target(bands, c, bands[j].up) <= j
  {
    if c < j {
      ClimbReaches(bands, c, bands[j].up, j);
    }
    if j + 1 < |bands| {
      ClimbStops(bands, c, bands[j].up, j + 1);
    }
  }

  /** So the track never settles, whatever the holds are. */
  lemma FlapsForEver(bands: Bands, sm: Smoother, j: nat, t: Track, s: Sample, n: nat)
    requires UpsOrdered(bands) && Flaps(bands, j)
    requires Averaging(sm) && Delay(s) == t.forwardDelay == bands[j].up && t.currentBand <= j
    ensures !Settled(bands, sm, Repeat(bands, sm, t, s, n), s)
  {
    var step := Sampling(bands, sm, s);
    var low := (x: Track) => x.forwardDelay == bands[j].up && x.currentBand <= j;
    forall x: Track | low(x)
      ensures low(step(x)) && step(x) != x
    {
      NeverRestsBelow(bands, j, x.currentBand);
    }
    IteratePreserves(step, low, t, n);
  }

  /**
   * The thresholds on which settling rests, exactly: with ordered Ups, equal ones included, every
   * track settles under every constant sample if and only if no Down lies above its own Up, where
   * of bands with equal Ups only the last one matters.
   */
  lemma {:induction false} SettlesIffHysteretic(bands: Bands, sm: Smoother)
    requires Averaging(sm) && UpsOrdered(bands)
    ensures EveryTrackSettles(bands, sm) <==> TopsHysteretic(bands)
  {
    if TopsHysteretic(bands) {
      forall t: Track, s: Sample
        ensures EventuallySettles(bands, sm, t, s)
      {
        Settling(bands, sm, t, s, SettlingTime(bands, t, s));
      }
    } else {
      var j :| 0 < j < |bands| && (j + 1 < |bands| ==> bands[j].up < bands[j + 1].up) && bands[j].up < bands[j].down;
      assert Flaps(bands, j);
      var d := bands[j].up;
      var t, s := NEW_TRACK.(forwardDelay := d), Sample(d, 2 * d);
      forall n: nat
        ensures !Settled(bands, sm, Repeat(bands, sm, t, s, n), s)
      {
        FlapsForEver(bands, sm, j, t, s, n);
      }
      assert !EventuallySettles(bands, sm, t, s);
    }
  }
}
