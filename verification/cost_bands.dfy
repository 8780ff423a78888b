/**
 * Cost bands: the hysteresis thresholds, the exponential smoothing, and what one
 * probe does to the record of one peer.  Everything here is about values; the
 * classes that update them in place are in CostEngine.
 */
module CostBands {
  import opened Prelude

  /** Entering a band from below needs delay >= up, leaving it downward needs delay < down. */
  datatype Band = Band(up: int, down: int, cost: uint32, hold: int)

  type Bands = seq<Band>

  /** The smoothing factor as an exact fraction. */
  datatype Fraction = Fraction(num: int, den: int)

  type Alpha = a: Fraction | 0 < a.den witness Fraction(3, 10)

  predicate InUnitInterval(a: Alpha) {
    0 <= a.num <= a.den
  }

  /** Band indices start at -1, the index a reload with no bands at all leaves behind. */
  type BandIndex = i: int | -1 <= i witness 0

  /** The part of a peer's record that successful probes evolve. */
  datatype Track = Track(forwardDelay: int, rtt: int, currentBand: BandIndex,
                         pendingBand: BandIndex, holdCounter: nat)

  const NEW_TRACK := Track(0, 0, 0, 0, 0)

  // ---------------------------------------------------------------- thresholds

  /** The up-scan: the highest band reached from c by climbing while the next Up is met. */
  function Climb(bands: Bands, c: BandIndex, d: int): (t: BandIndex)
    ensures c <= t && (t == c || t < |bands|)
    ensures forall j :: c < j <= t ==> bands[j].up <= d
    ensures t + 1 < |bands| ==> d < bands[t + 1].up
    decreases |bands| - c
  {
    if c + 1 < |bands| && bands[c + 1].up <= d then Climb(bands, c + 1, d) else c
  }

  /** The down-scan: the lowest band reached from c by leaving bands whose Down is undercut. */
  function Descend(bands: Bands, c: BandIndex, d: int): (t: BandIndex)
    ensures t <= c && (t == c || 0 <= t)
    ensures forall j :: t < j <= c ==> 0 < j < |bands| && d < bands[j].down
    ensures 0 < t < |bands| ==> bands[t].down <= d
    decreases c
  {
    if 0 < c < |bands| && d < bands[c].down then Descend(bands, c - 1, d) else c
  }

  /** The band a smoothed delay calls for; the down-scan runs only when the up-scan does not move. */
  function Target(bands: Bands, c: BandIndex, d: int): BandIndex {
    if Climb(bands, c, d) != c then Climb(bands, c, d) else Descend(bands, c, d)
  }

  /** The climb passes every run of bands whose Ups are met. */
  lemma {:induction false} ClimbReaches(bands: Bands, c: BandIndex, d: int, t: BandIndex)
    requires c <= t && (t == c || t < |bands|)
    requires forall j :: c < j <= t ==> bands[j].up <= d
    ensures t <= Climb(bands, c, d)
    decreases t - c
  {
    if c < t {
      ClimbReaches(bands, c + 1, d, t);
    }
  }

  /** The climb stops below every band whose Up is not met. */
  lemma ClimbStops(bands: Bands, c: BandIndex, d: int, t: BandIndex)
    requires c < t < |bands| && d < bands[t].up
    ensures Climb(bands, c, d) < t
  {
  }

  predicate UpsOrdered(bands: Bands) {
    forall i, j :: 0 <= i <= j < |bands| ==> bands[i].up <= bands[j].up
  }

  predicate UpsStrict(bands: Bands) {
    forall i, j :: 0 <= i < j < |bands| ==> bands[i].up < bands[j].up
  }

  /** Above band 0 the threshold to leave a band lies at or below the one to enter it. */
  predicate Hysteretic(bands: Bands) {
    forall j :: 0 < j < |bands| ==> bands[j].down <= bands[j].up
  }

  /** The same, but only for the last of a group of bands whose Ups are equal or fall. */
  predicate TopsHysteretic(bands: Bands) {
    forall j :: 0 < j < |bands| && (j + 1 < |bands| ==> bands[j].up < bands[j + 1].up) ==> bands[j].down <= bands[j].up
  }

  /** The delays at which band c is neither left upward nor left downward. */
  predicate InWindow(bands: Bands, c: BandIndex, d: int) {
    && (c + 1 < |bands| ==> d < bands[c + 1].up)
    && (0 < c < |bands| ==> bands[c].down <= d)
  }

  /** The scans stay put exactly inside the window of the current band. */
  lemma TargetStaysIffInWindow(bands: Bands, c: BandIndex, d: int)
    ensures Target(bands, c, d) == c <==> InWindow(bands, c, d)
  {
  }

  /** A moved-to band is an existing one. */
  lemma TargetInRange(bands: Bands, c: BandIndex, d: int)
    ensures Target(bands, c, d) != c ==> 0 <= Target(bands, c, d) < |bands|
  {
  }

  /** Reference definition: the highest band whose Up is met, band 0 if there is none. */
  function Highest(bands: Bands, d: int): (h: nat)
    ensures h == 0 || (h < |bands| && bands[h].up <= d)
    ensures forall j :: h < j < |bands| ==> d < bands[j].up
  {
    if bands == [] then 0
    else if bands[|bands| - 1].up <= d then |bands| - 1
    else Highest(bands[..|bands| - 1], d)
  }

  /**
   * What the two scans compute, without scanning: above the current band the highest band
   * whose Up is met; otherwise the one band t <= c such that every band in (t, c] is undercut
   * and t itself is not.
   */
  lemma {:induction false} TargetCharacterised(bands: Bands, c: BandIndex, d: int, t: BandIndex)
    requires UpsOrdered(bands) && 0 <= c < |bands|
    ensures t == Target(bands, c, d) <==>
            if c < Highest(bands, d) then t == Highest(bands, d)
            else && t <= c
                 && (forall j :: t < j <= c ==> 0 < j && d < bands[j].down)
                 && (0 < t ==> bands[t].down <= d)
  {
    var h := Highest(bands, d);
    if c < h {
      ClimbReaches(bands, c, d, h);
    }
  }

  /** An up-move and a down-move never compete: the code's scan order does not matter. */
  lemma ScansExclusive(bands: Bands, c: BandIndex, d: int)
    requires UpsOrdered(bands) && Hysteretic(bands) && 0 <= c < |bands|
    ensures Climb(bands, c, d) == c || Descend(bands, c, d) == c
  {
    if Climb(bands, c, d) != c && 0 < c {
      assert bands[c].down <= bands[c].up <= bands[c + 1].up <= d;
    }
  }

  /** A descent from below the next Up ends below the next Up. */
  lemma {:induction false} DescentEndsBelow(bands: Bands, t: BandIndex, c: BandIndex, d: int)
    requires TopsHysteretic(bands) && 0 <= t < c < |bands| && (c + 1 < |bands| ==> d < bands[c + 1].up)
    requires forall j :: t < j <= c ==> d < bands[j].down
    ensures d < bands[t + 1].up
    decreases c - t
  {
    if t + 1 < c && bands[t + 2].up <= bands[t + 1].up {
      DescentEndsBelow(bands, t + 1, c, d);
    }
  }

  /** The moved-to band is stable: no delay sends the target on to yet another band. */
  lemma {:induction false} TargetIdempotent(bands: Bands, c: BandIndex, d: int)
    requires TopsHysteretic(bands)
    ensures Target(bands, Target(bands, c, d), d) == Target(bands, c, d)
  {
    var t := Target(bands, c, d);
    TargetStaysIffInWindow(bands, t, d);
    if t < c {
      DescentEndsBelow(bands, t, c, d);
    }
  }

  /** And that takes no less than this condition on the thresholds, whatever their order. */
  lemma {:induction false} TargetIdempotentIff(bands: Bands)
    ensures (forall c: BandIndex, d: int :: Target(bands, Target(bands, c, d), d) == Target(bands, c, d))
            <==> TopsHysteretic(bands)
  {
    if TopsHysteretic(bands) {
      forall c: BandIndex, d: int
        ensures Target(bands, Target(bands, c, d), d) == Target(bands, c, d)
      {
        TargetIdempotent(bands, c, d);
      }
    } else {
      var j :| 0 < j < |bands| && (j + 1 < |bands| ==> bands[j].up < bands[j + 1].up) && bands[j].up < bands[j].down;
      ClimbReaches(bands, j - 1, bands[j].up, j);
      assert Target(bands, j - 1, bands[j].up) == j != Target(bands, j, bands[j].up);
    }
  }

  /** More delay never means a lower band; this needs nothing of the thresholds. */
  lemma TargetMonotoneInDelay(bands: Bands, c: BandIndex, d: int, d': int)
    requires d <= d'
    ensures Target(bands, c, d) <= Target(bands, c, d')
  {
    // climbing at d' does not stop below a band met at d, and descending stops at one not undercut at d
    if c < Target(bands, c, d) {
      ClimbReaches(bands, c, d', Target(bands, c, d));
    }
  }

  /** A higher current band never means a lower target. */
  lemma TargetMonotoneInBand(bands: Bands, c: BandIndex, c': BandIndex, d: int)
    requires UpsOrdered(bands) && Hysteretic(bands) && 0 <= c <= c' < |bands|
    ensures Target(bands, c, d) <= Target(bands, c', d)
  {
    var h, t, t' := Highest(bands, d), Target(bands, c, d), Target(bands, c', d);
    TargetCharacterised(bands, c, d, t);
    TargetCharacterised(bands, c', d, t');
    // below c' every band above t' is undercut, which t is not
    if c < h <= c' {
      assert bands[h].down <= bands[h].up <= d;
    }
  }

  // ---------------------------------------------------------------- smoothing

  /** alpha*sample + (1-alpha)*current, truncated toward zero as a conversion to Duration does. */
  function Ewma(current: int, sample: int, a: Alpha): int {
    TruncDiv(a.num * sample + (a.den - a.num) * current, a.den)
  }

  /** A zero average means that there is no history yet. */
  function Smooth(current: int, sample: int, a: Alpha): int {
    if current == 0 then sample else Ewma(current, sample, a)
  }

  /** A way to fold a sample into an average. */
  type Smoother = (int, int) -> int

  function Smoothing(a: Alpha): Smoother {
    (current, sample) => Smooth(current, sample, a)
  }

  /** All that stability asks of the smoothing; how it rounds in between does not matter. */
  ghost predicate Averaging(sm: Smoother) {
    forall c, s :: Min(c, s) <= sm(c, s) <= Max(c, s)
  }

  /** Truncated exponential smoothing averages, whatever the signs and even through zero. */
  lemma SmoothingAverages(a: Alpha)
    requires InUnitInterval(a)
    ensures Averaging(Smoothing(a))
  {
    forall c, s
      ensures Min(c, s) <= Smoothing(a)(c, s) <= Max(c, s)
    {
      SmoothBetween(c, s, a, Min(c, s), Max(c, s));
    }
  }

  /** The average never leaves an interval that holds both the old average and the sample. */
  lemma SmoothBetween(current: int, sample: int, a: Alpha, lo: int, hi: int)
    requires InUnitInterval(a)
    requires lo <= current <= hi && lo <= sample <= hi
    ensures lo <= Smooth(current, sample, a) <= hi
  {
    if current != 0 {
      Weighted(lo, sample, lo, current, a);
      Weighted(sample, hi, current, hi, a);
      TruncDivBetween(a.num * sample + (a.den - a.num) * current, a.den, lo, hi);
    }
  }

  /** A weighted sum is monotone; of twice the same number it is that number. */
  lemma Weighted(x: int, x': int, y: int, y': int, a: Alpha)
    requires InUnitInterval(a) && x <= x' && y <= y'
    ensures a.num * x + (a.den - a.num) * y <= a.num * x' + (a.den - a.num) * y'
    ensures a.num * x + (a.den - a.num) * x == x * a.den
    ensures a.num * x' + (a.den - a.num) * x' == x' * a.den
  {
    MulMonotone(x, x', a.num);
    MulMonotone(y, y', a.den - a.num);
  }

  /**
   * Where a positive average comes to rest under positive samples: from above exactly at the
   * sample; from below already where the remaining step alpha*(sample - x) is less than 1.
   */
  lemma RestsAt(x: int, sample: int, a: Alpha)
    requires InUnitInterval(a) && 0 < a.num && 0 < x && 0 < sample
    ensures Smooth(x, sample, a) == x
            <==> x <= sample && a.num * (sample - x) < a.den
  {
    var n, k := a.num * sample + (a.den - a.num) * x, a.num * (sample - x);
    assert n == x * a.den + k;
    assert 0 <= n by { MulMonotone(0, sample, a.num); MulMonotone(0, x, a.den - a.num); }
    TruncDivBounds(n, a.den);
    RemainderBounds(a.den, x, k, Ewma(x, sample, a));
    ProductSign(a.num, sample - x);
  }

  lemma RemainderBounds(d: int, x: int, k: int, q: int)
    requires q * d <= x * d + k < q * d + d
    ensures q == x <==> 0 <= k < d
  {
    if 0 <= k < d {
      MulCancel(q, x, d);
      MulCancel(x, q, d);
    }
  }

  lemma ProductSign(m: int, x: int)
    requires 0 < m
    ensures 0 <= m * x <==> 0 <= x
  {
    if x < 0 { MulMonotone(x, -1, m); } else { MulMonotone(0, x, m); }
  }
}
