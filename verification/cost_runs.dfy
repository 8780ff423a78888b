/** What holds of the cost engine over whole histories, reloads and failures interleaved. */
module CostRuns {
  import opened Prelude
  import opened CostBands
  import opened CostTracks
  import opened CostModel
  import Bandwidth

  /** Only a reload reaches a peer other than the one an event is about. */
  lemma StepIsLocal(e: EngineState, ev: Event, p: string)
    ensures PeerOf(Step(e, ev), p) ==
            if ev.UpdateConfig? then
              if p in e.peers then e.peers[p].(track := Clamp(ev.params.bands, e.peers[p].track)) else NEW_PEER
            else if ev.peer == p then Touch(e.params, PeerOf(e, p), ev)
            else PeerOf(e, p)
  {
  }

  function Last(evs: seq<Event>): Event
    requires evs != []
  {
    evs[|evs| - 1]
  }

  function Init(evs: seq<Event>): seq<Event>
    requires evs != []
  {
    evs[..|evs| - 1]
  }

  lemma InitAndLast(evs: seq<Event>)
    requires evs != []
    ensures forall ev :: ev in evs <==> ev in Init(evs) || ev == Last(evs)
  {
    assert evs == Init(evs) + [Last(evs)];
  }

  /** The samples a history records for a peer, in order. */
  function Samples(evs: seq<Event>, p: string): seq<Sample> {
    if evs == [] then []
    else if Last(evs).Success? && Last(evs).peer == p then Samples(Init(evs), p) + [Last(evs).sample]
    else Samples(Init(evs), p)
  }

  // ---------------------------------------------------------------- churn

  predicate Switches(e: EngineState, ev: Event, p: string) {
    ev.Success? && ev.peer == p && Raises(e, ev)
  }

  /** The hold of the band an event switches a peer to. */
  function EnteredHold(e: EngineState, ev: Event, p: string): int
    requires Switches(e, ev, p)
  {
    var t := Smoothed(Smoothing(e.params.alpha), PeerOf(e, p).track, ev.sample);
    TargetInRange(e.params.bands, t.currentBand, t.forwardDelay);
    e.params.bands[Target(e.params.bands, t.currentBand, t.forwardDelay)].hold
  }

  /** One entry for each switch of a peer's band by a sample: the hold the entered band asks for. */
  function SwitchHolds(e: EngineState, evs: seq<Event>, p: string): seq<int> {
    if evs == [] then []
    else
      var before, earlier := Run(e, Init(evs)), SwitchHolds(e, Init(evs), p);
      if Switches(before, Last(evs), p) then earlier + [EnteredHold(before, Last(evs), p)] else earlier
  }

  function Sum(xs: seq<int>): int {
    if xs == [] then 0 else Sum(xs[..|xs| - 1]) + xs[|xs| - 1]
  }

  lemma SumAppend(xs: seq<int>, x: int)
    ensures Sum(xs + [x]) == Sum(xs) + x
  {
    assert (xs + [x])[..|xs|] == xs;
  }

  lemma {:induction false} SumAtLeast(xs: seq<int>, h: int)
    requires forall x :: x in xs ==> h <= x
    ensures h * |xs| <= Sum(xs)
  {
    if xs != [] {
      var rest := xs[..|xs| - 1];
      assert forall x :: x in rest ==> x in xs;
      SumAtLeast(rest, h);
      assert xs[|xs| - 1] in xs;
      assert h * |xs| == h * |rest| + h;
    }
  }

  lemma ChurnOnce(bands: Bands, t: Track)
    ensures var t' := Evaluate(bands, t);
            if t'.currentBand == t.currentBand then t'.holdCounter <= t.holdCounter + 1
            else
              var target := Target(bands, t.currentBand, t.forwardDelay);
              t'.currentBand == target && 0 <= target < |bands|
              && t'.holdCounter == 0 && bands[target].hold <= t.holdCounter + 1
  {
  }

  /**
   * Churn is paid for: over any history, with failures, settings and reloads to any bands
   * interleaved, the holds of all switches of a peer's band plus what its counter has saved up
   * never exceed the number of its successful probes.
   */
  lemma {:induction false} ChurnBound(e: EngineState, evs: seq<Event>, p: string)
    ensures Sum(SwitchHolds(e, evs, p)) + PeerOf(Run(e, evs), p).track.holdCounter
            <= |Samples(evs, p)| + PeerOf(e, p).track.holdCounter
    decreases |evs|
  {
    if evs != [] {
      var before, ev := Run(e, Init(evs)), Last(evs);
      ChurnBound(e, Init(evs), p);
      StepIsLocal(before, ev, p);
      if Switches(before, ev, p) {
        SumAppend(SwitchHolds(e, Init(evs), p), EnteredHold(before, ev, p));
      }
      if ev.Success? && ev.peer == p {
        ChurnOnce(before.params.bands,
                  Smoothed(Smoothing(before.params.alpha), PeerOf(before, p).track, ev.sample));
      }
    }
  }

  /** Every band in force at any time asks for at least h calls in a row. */
  predicate HoldsAtLeast(e: EngineState, evs: seq<Event>, h: int) {
    && (forall b :: b in e.params.bands ==> h <= b.hold)
    && (forall ev, b :: ev in evs && ev.UpdateConfig? && b in ev.params.bands ==> h <= b.hold)
  }

  lemma {:induction false} ParamsInForce(e: EngineState, evs: seq<Event>)
    ensures var now := Run(e, evs).params;
            now == e.params || exists ev :: ev in evs && ev.UpdateConfig? && now == ev.params
    decreases |evs|
  {
    if evs != [] {
      ParamsInForce(e, Init(evs));
      InitAndLast(evs);
    }
  }

  lemma HoldsInForce(e: EngineState, evs: seq<Event>, h: int)
    requires evs != [] && HoldsAtLeast(e, evs, h)
    ensures HoldsAtLeast(e, Init(evs), h)
    ensures forall b :: b in Run(e, Init(evs)).params.bands ==> h <= b.hold
  {
    InitAndLast(evs);
    ParamsInForce(e, Init(evs));
  }

  lemma {:induction false} SwitchHoldsAtLeast(e: EngineState, evs: seq<Event>, p: string, h: int)
    requires HoldsAtLeast(e, evs, h)
    ensures forall x :: x in SwitchHolds(e, evs, p) ==> h <= x
    decreases |evs|
  {
    if evs != [] {
      HoldsInForce(e, evs, h);
      SwitchHoldsAtLeast(e, Init(evs), p, h);
    }
  }

  /** Hence a fresh engine moves a peer's band at most once per h successful probes. */
  lemma SwitchesBounded(params: Params, evs: seq<Event>, p: string, h: int)
    requires HoldsAtLeast(InitialState(params), evs, h)
    ensures h * |SwitchHolds(InitialState(params), evs, p)| <= |Samples(evs, p)|
  {
    ChurnBound(InitialState(params), evs, p);
    SwitchHoldsAtLeast(InitialState(params), evs, p, h);
    SumAtLeast(SwitchHolds(InitialState(params), evs, p), h);
  }

  // ---------------------------------------------------------------- the smoothed delay

  predicate AlphasInUnitInterval(e: EngineState, evs: seq<Event>) {
    && InUnitInterval(e.params.alpha)
    && (forall ev :: ev in evs && ev.UpdateConfig? ==> InUnitInterval(ev.params.alpha))
  }

  function DelayOf(e: EngineState, p: string): int {
    PeerOf(e, p).track.forwardDelay
  }

  lemma DelayStep(e: EngineState, ev: Event, p: string)
    ensures DelayOf(Step(e, ev), p) ==
            if ev.Success? && ev.peer == p then Smooth(DelayOf(e, p), Delay(ev.sample), e.params.alpha)
            else DelayOf(e, p)
  {
    StepIsLocal(e, ev, p);
  }

  /**
   * However often the smoothing factor is reloaded, a peer's smoothed delay lies between the
   * extremes of the delays recorded for it, and it has one exactly from the first sample on.
   */
  lemma {:induction false} DelayWithinSamples(params: Params, evs: seq<Event>, p: string, lo: int, hi: int)
    requires AlphasInUnitInterval(InitialState(params), evs)
    requires forall s :: s in Samples(evs, p) ==> lo <= Delay(s) <= hi
    ensures var d := DelayOf(Run(InitialState(params), evs), p);
            if Samples(evs, p) == [] then d == 0 else lo <= d <= hi
    decreases |evs|
  {
    if evs != [] {
      var init, ev := Init(evs), Last(evs);
      InitAndLast(evs);
      assert forall s :: s in Samples(init, p) ==> s in Samples(evs, p);
      DelayWithinSamples(params, init, p, lo, hi);
      var before := Run(InitialState(params), init);
      DelayStep(before, ev, p);
      if ev.Success? && ev.peer == p {
        assert ev.sample in Samples(evs, p);
        ParamsInForce(InitialState(params), init);
        if DelayOf(before, p) != 0 {
          SmoothBetween(DelayOf(before, p), Delay(ev.sample), before.params.alpha, lo, hi);
        }
      }
    }
  }

  /** With positive delays a zero average means that nothing was recorded. */
  lemma ZeroOnlyWithoutSamples(params: Params, evs: seq<Event>, p: string)
    requires AlphasInUnitInterval(InitialState(params), evs)
    requires forall s :: s in Samples(evs, p) ==> 0 < Delay(s)
    ensures DelayOf(Run(InitialState(params), evs), p) == 0 <==> Samples(evs, p) == []
  {
    var hi := LargestDelay(Samples(evs, p));
    DelayWithinSamples(params, evs, p, 1, hi);
  }

  /** q is n/d cut to a whole number toward zero. */
  predicate IsCut(q: int, n: int, d: int) {
    if 0 <= n then q * d <= n < q * d + d else q * d - d < n <= q * d
  }

  /**
   * That is the weighted mean with weight alpha on the sample, the rest on the old average, cut to a
   * whole number toward zero.
   */
  lemma {:induction false} EwmaIsWeightedMean(current: int, sample: int, a: Alpha)
    ensures IsCut(Ewma(current, sample, a), a.num * sample + (a.den - a.num) * current, a.den)
  {
    TruncDivBounds(a.num * sample + (a.den - a.num) * current, a.den);
  }

  /** The delay a sample stands for: its one-way delay, or half its round trip cut toward zero if that is not positive. */
  lemma DelayOfSample(s: Sample)
    ensures 0 < s.forward ==> Delay(s) == s.forward
    ensures s.forward <= 0 ==> s.rtt - 1 <= 2 * Delay(s) <= s.rtt + 1 && 0 <= Delay(s) * s.rtt && Abs(2 * Delay(s)) <= Abs(s.rtt)
  {
    var h := Delay(s);
    if s.forward <= 0 && 0 <= s.rtt {
      MulMonotone(0, h, s.rtt);
    } else if s.forward <= 0 {
      MulMonotone(s.rtt, 0, -h);
      assert h * s.rtt == -(s.rtt * -h);
    }
  }

  /** Round trips are averaged like delays, and stay between the recorded ones. */
  lemma {:induction false} RttWithinSamples(params: Params, evs: seq<Event>, p: string, lo: int, hi: int)
    requires AlphasInUnitInterval(InitialState(params), evs)
    requires lo <= 0 <= hi && forall s :: s in Samples(evs, p) ==> lo <= s.rtt <= hi
    ensures lo <= PeerOf(Run(InitialState(params), evs), p).track.rtt <= hi
    decreases |evs|
  {
    if evs != [] {
      var init, ev := Init(evs), Last(evs);
      InitAndLast(evs);
      assert forall s :: s in Samples(init, p) ==> s in Samples(evs, p);
      RttWithinSamples(params, init, p, lo, hi);
      var before := Run(InitialState(params), init);
      StepIsLocal(before, ev, p);
      if ev.Success? && ev.peer == p {
        assert ev.sample in Samples(evs, p);
        ParamsInForce(InitialState(params), init);
        SmoothBetween(PeerOf(before, p).track.rtt, ev.sample.rtt, before.params.alpha, lo, hi);
      }
    }
  }

  function LargestDelay(ss: seq<Sample>): (hi: int)
    ensures forall s :: s in ss ==> Delay(s) <= hi
  {
    if ss == [] then 0 else Max(LargestDelay(ss[..|ss| - 1]), Delay(ss[|ss| - 1]))
  }

  // ---------------------------------------------------------------- runs between two reloads

  predicate NoReload(evs: seq<Event>) {
    forall ev :: ev in evs ==> !ev.UpdateConfig?
  }

  /** Between reloads a peer's track depends on its own samples alone: no failure, no setting, no other peer. */
  lemma {:induction false} TrackIsFed(e: EngineState, evs: seq<Event>, p: string)
    requires NoReload(evs)
    ensures Run(e, evs).params == e.params
    ensures PeerOf(Run(e, evs), p).track
            == Feed(e.params.bands, Smoothing(e.params.alpha), PeerOf(e, p).track, Samples(evs, p))
    decreases |evs|
  {
    if evs != [] {
      var init, ev := Init(evs), Last(evs);
      InitAndLast(evs);
      TrackIsFed(e, init, p);
      StepIsLocal(Run(e, init), ev, p);
      if ev.Success? && ev.peer == p {
        assert Samples(evs, p)[..|Samples(evs, p)| - 1] == Samples(init, p);
      }
    }
  }

  /**
   * So a hold is counted over successes and not over probes: with a hold of 2 the peer below moves
   * on its second success although a failure lies between the two.
   */
  lemma HoldSurvivesFailure(sample: Sample)
    requires sample.forward == 10
    ensures var params := Params([Band(0, 0, 20, 2), Band(10, 5, 50, 2)], 65535, Fraction(3, 10), 3);
            var once := Run(InitialState(params), [Success("b", sample)]);
            var before := Run(InitialState(params), [Success("b", sample), Failure("b")]);
            && !Raises(InitialState(params), Success("b", sample))
            && before == Step(once, Failure("b"))
            && Raises(before, Success("b", sample))
            && PeerOf(Step(before, Success("b", sample)), "b").track.currentBand == 1
  {
    var bands := [Band(0, 0, 20, 2), Band(10, 5, 50, 2)];
    var params := Params(bands, 65535, Fraction(3, 10), 3);
    var start := InitialState(params);
    RunSnoc(start, [], Success("b", sample));
    RunSnoc(start, [Success("b", sample)], Failure("b"));
    assert Target(bands, 0, 10) == 1;
    assert PeerOf(Step(start, Success("b", sample)), "b").track == Track(10, sample.rtt, 0, 1, 1);
    SmoothBetween(10, 10, params.alpha, 10, 10);
  }

  /** Between reloads every reachable track is one that evaluations leave. */
  lemma {:induction false} CountsBetweenReloads(params: Params, evs: seq<Event>, p: string)
    requires NoReload(evs)
    ensures Counting(params.bands, PeerOf(Run(InitialState(params), evs), p).track)
    decreases |evs|
  {
    if evs != [] {
      var init, ev := Init(evs), Last(evs);
      var e := Run(InitialState(params), init);
      InitAndLast(evs);
      CountsBetweenReloads(params, init, p);
      TrackIsFed(InitialState(params), init, p);
      StepIsLocal(e, ev, p);
      if ev.Success? && ev.peer == p {
        EvaluatedCounts(params.bands, Smoothed(Smoothing(params.alpha), PeerOf(e, p).track, ev.sample));
      }
    }
  }

  lemma RunSnoc(e: EngineState, evs: seq<Event>, ev: Event)
    ensures Run(e, evs + [ev]) == Step(Run(e, evs), ev)
  {
    assert (evs + [ev])[..|evs|] == evs;
  }

  /**
   * Window stability of the engine: while every delay of a peer stays in the window of its band,
   * no probe of that peer ever reports a change, whatever happens to it and to others in between.
   */
  lemma BandStays(e: EngineState, evs: seq<Event>, p: string, k: nat)
    requires NoReload(evs) && InUnitInterval(e.params.alpha) && k < |evs|
    requires InWindow(e.params.bands, PeerOf(e, p).track.currentBand, PeerOf(e, p).track.forwardDelay)
    requires forall s :: s in Samples(evs, p) ==> InWindow(e.params.bands, PeerOf(e, p).track.currentBand, Delay(s))
    ensures !Switches(Run(e, evs[..k]), evs[k], p)
    ensures PeerOf(Run(e, evs[..k + 1]), p).track.currentBand == PeerOf(e, p).track.currentBand
  {
    BandStaysAt(e, evs, p, k);
    BandStaysAt(e, evs, p, k + 1);
    assert Init(evs[..k + 1]) == evs[..k];
  }

  lemma BandStaysAt(e: EngineState, evs: seq<Event>, p: string, k: nat)
    requires NoReload(evs) && InUnitInterval(e.params.alpha) && k <= |evs|
    requires InWindow(e.params.bands, PeerOf(e, p).track.currentBand, PeerOf(e, p).track.forwardDelay)
    requires forall s :: s in Samples(evs, p) ==> InWindow(e.params.bands, PeerOf(e, p).track.currentBand, Delay(s))
    ensures PeerOf(Run(e, evs[..k]), p).track.currentBand == PeerOf(e, p).track.currentBand
  {
    SamplesOfPrefix(evs, p, k);
    SmoothingAverages(e.params.alpha);
    TrackIsFed(e, evs[..k], p);
    WindowStability(e.params.bands, Smoothing(e.params.alpha), PeerOf(e, p).track, Samples(evs[..k], p));
  }

  lemma {:induction false} SamplesOfPrefix(evs: seq<Event>, p: string, k: nat)
    requires k <= |evs|
    ensures Samples(evs[..k], p) <= Samples(evs, p)
    decreases |evs|
  {
    if k < |evs| {
      SamplesOfPrefix(Init(evs), p, k);
      assert Init(evs)[..k] == evs[..k];
    } else {
      assert evs[..k] == evs;
    }
  }

  /**
   * Settling of the engine: from any state, once a peer has answered often enough with one and
   * the same sample since the last reload, further such samples change nothing about its track.
   */
  lemma {:induction false} EngineSettles(e: EngineState, evs: seq<Event>, p: string, s: Sample)
    requires NoReload(evs) && InUnitInterval(e.params.alpha) && TopsHysteretic(e.params.bands)
    requires forall s' :: s' in Samples(evs, p) ==> s' == s
    requires SettlingTime(e.params.bands, PeerOf(e, p).track, s) <= |Samples(evs, p)|
    ensures var now := Run(e, evs);
            && PeerOf(Step(now, Success(p, s)), p).track == PeerOf(now, p).track
            && !Raises(now, Success(p, s))
  {
    var sm, t := Smoothing(e.params.alpha), PeerOf(e, p).track;
    TrackIsFed(e, evs, p);
    SmoothingAverages(e.params.alpha);
    FeedIsRepeat(e.params.bands, sm, t, s, Samples(evs, p));
    Settling(e.params.bands, sm, t, s, |Samples(evs, p)|);
    StepIsLocal(Run(e, evs), Success(p, s), p);
  }

  /**
   * Step response of the engine: while a peer keeps answering with one sample at or above its
   * smoothed delay, its band only ever moves up, and not past the band that sample calls for.
   */
  lemma EngineStepUp(e: EngineState, evs: seq<Event>, p: string, s: Sample, k: nat)
    requires NoReload(evs) && InUnitInterval(e.params.alpha) && TopsHysteretic(e.params.bands) && k < |evs|
    requires forall s' :: s' in Samples(evs, p) ==> s' == s
    requires DelayOf(e, p) <= Delay(s)
    requires var c := PeerOf(e, p).track.currentBand; c <= Target(e.params.bands, c, DelayOf(e, p))
    ensures var b, b' := PeerOf(Run(e, evs[..k]), p).track.currentBand,
                         PeerOf(Run(e, evs[..k + 1]), p).track.currentBand;
            var c := PeerOf(e, p).track.currentBand;
            c <= b <= b' <= Max(c, Highest(e.params.bands, Delay(s)))
  {
    var n := TrackAdvances(e, evs, p, s, k);
    SmoothingAverages(e.params.alpha);
    StepUp(e.params.bands, Smoothing(e.params.alpha), PeerOf(e, p).track, s, n);
  }

  /** The mirror image for a sample at or below the smoothed delay. */
  lemma EngineStepDown(e: EngineState, evs: seq<Event>, p: string, s: Sample, k: nat)
    requires NoReload(evs) && InUnitInterval(e.params.alpha) && TopsHysteretic(e.params.bands) && k < |evs|
    requires forall s' :: s' in Samples(evs, p) ==> s' == s
    requires Delay(s) <= DelayOf(e, p)
    requires var c := PeerOf(e, p).track.currentBand; Target(e.params.bands, c, DelayOf(e, p)) <= c
    ensures var b, b' := PeerOf(Run(e, evs[..k]), p).track.currentBand,
                         PeerOf(Run(e, evs[..k + 1]), p).track.currentBand;
            var c := PeerOf(e, p).track.currentBand;
            && Target(e.params.bands, c, Delay(s)) <= b' <= b <= c
            && (UpsOrdered(e.params.bands) ==> Min(c, Highest(e.params.bands, Delay(s))) <= b')
  {
    var n := TrackAdvances(e, evs, p, s, k);
    SmoothingAverages(e.params.alpha);
    StepDown(e.params.bands, Smoothing(e.params.alpha), PeerOf(e, p).track, s, n);
    if UpsOrdered(e.params.bands) {
      TargetFloor(e.params.bands, PeerOf(e, p).track.currentBand, Delay(s));
    }
  }

  /**
   * Where the engine lands: once such a fall has had its time, the peer is in exactly the band that
   * the scans from its first band call for at the sample, whatever the holds and the events between.
   */
  lemma {:induction false} EngineFallLands(e: EngineState, evs: seq<Event>, p: string, s: Sample)
    requires NoReload(evs) && TopsHysteretic(e.params.bands)
    requires InUnitInterval(e.params.alpha) && 0 < e.params.alpha.num
    requires forall s' :: s' in Samples(evs, p) ==> s' == s
    requires SettlingTime(e.params.bands, PeerOf(e, p).track, s) <= |Samples(evs, p)|
    requires 0 < Delay(s) <= DelayOf(e, p)
    requires var c := PeerOf(e, p).track.currentBand; Target(e.params.bands, c, DelayOf(e, p)) <= c
    ensures PeerOf(Run(e, evs), p).track.currentBand
            == Target(e.params.bands, PeerOf(e, p).track.currentBand, Delay(s))
  {
    TrackOfRepeats(e, evs, p, s);
    FallLands(e.params.bands, e.params.alpha, PeerOf(e, p).track, s, |Samples(evs, p)|);
  }

  /** A rise lands where they do at the settled delay, which alpha keeps from reaching the sample. */
  lemma {:induction false} EngineRiseLands(e: EngineState, evs: seq<Event>, p: string, s: Sample)
    requires NoReload(evs) && TopsHysteretic(e.params.bands) && InUnitInterval(e.params.alpha)
    requires forall s' :: s' in Samples(evs, p) ==> s' == s
    requires SettlingTime(e.params.bands, PeerOf(e, p).track, s) <= |Samples(evs, p)|
    requires DelayOf(e, p) <= Delay(s)
    requires var c := PeerOf(e, p).track.currentBand; c <= Target(e.params.bands, c, DelayOf(e, p))
    ensures PeerOf(Run(e, evs), p).track.currentBand
            == Target(e.params.bands, PeerOf(e, p).track.currentBand, DelayOf(Run(e, evs), p))
  {
    TrackOfRepeats(e, evs, p, s);
    SmoothingAverages(e.params.alpha);
    RiseLands(e.params.bands, Smoothing(e.params.alpha), PeerOf(e, p).track, s, |Samples(evs, p)|);
  }

  lemma TrackOfRepeats(e: EngineState, evs: seq<Event>, p: string, s: Sample)
    requires NoReload(evs) && forall s' :: s' in Samples(evs, p) ==> s' == s
    ensures PeerOf(Run(e, evs), p).track
            == Repeat(e.params.bands, Smoothing(e.params.alpha), PeerOf(e, p).track, s, |Samples(evs, p)|)
  {
    TrackRepeats(e, evs, p, s, |evs|);
    assert evs[..|evs|] == evs;
  }

  lemma TrackRepeats(e: EngineState, evs: seq<Event>, p: string, s: Sample, k: nat)
    requires NoReload(evs) && k <= |evs|
    requires forall s' :: s' in Samples(evs, p) ==> s' == s
    ensures PeerOf(Run(e, evs[..k]), p).track
            == Repeat(e.params.bands, Smoothing(e.params.alpha), PeerOf(e, p).track, s, |Samples(evs[..k], p)|)
  {
    var ss := Samples(evs[..k], p);
    SamplesOfPrefix(evs, p, k);
    forall s' | s' in ss
      ensures s' == s
    {
      assert s' in Samples(evs, p);
    }
    var bands, sm, t := e.params.bands, Smoothing(e.params.alpha), PeerOf(e, p).track;
    assert PeerOf(Run(e, evs[..k]), p).track == Feed(bands, sm, t, ss) by {
      TrackIsFed(e, evs[..k], p);
    }
    FeedIsRepeat(bands, sm, t, s, ss);
  }

  /** One event moves the track at most one repetition on. */
  lemma TrackAdvances(e: EngineState, evs: seq<Event>, p: string, s: Sample, k: nat) returns (n: nat)
    requires NoReload(evs) && k < |evs|
    requires forall s' :: s' in Samples(evs, p) ==> s' == s
    ensures var sm, t := Smoothing(e.params.alpha), PeerOf(e, p).track;
            var now, next := PeerOf(Run(e, evs[..k]), p).track, PeerOf(Run(e, evs[..k + 1]), p).track;
            && now == Repeat(e.params.bands, sm, t, s, n)
            && (next == now || next == Repeat(e.params.bands, sm, t, s, n + 1))
  {
    n := |Samples(evs[..k], p)|;
    TrackRepeats(e, evs, p, s, k);
    TrackRepeats(e, evs, p, s, k + 1);
    assert Init(evs[..k + 1]) == evs[..k];
  }

  // ---------------------------------------------------------------- cost as a function of history

  /** The probes of a peer in a history: true for a success, false for a failure. */
  function Probes(evs: seq<Event>, p: string): seq<bool> {
    if evs == [] then []
    else
      var ev, earlier := Last(evs), Probes(Init(evs), p);
      if (ev.Success? || ev.Failure?) && ev.peer == p then earlier + [ev.Success?] else earlier
  }

  /** n is the length of the run of failures at the end of the probes. */
  predicate TrailingFailures(probes: seq<bool>, n: nat) {
    && n <= |probes|
    && (forall i :: |probes| - n <= i < |probes| ==> !probes[i])
    && (n < |probes| ==> probes[|probes| - n - 1])
  }

  lemma TrailingFailuresUnique(probes: seq<bool>, m: nat, n: nat)
    requires TrailingFailures(probes, m) && TrailingFailures(probes, n)
    ensures m == n
  {
  }

  predicate Mentions(ev: Event, p: string) {
    !ev.UpdateConfig? && ev.peer == p
  }

  predicate Heard(evs: seq<Event>, p: string) {
    exists ev :: ev in evs && Mentions(ev, p)
  }

  function LastStatic(evs: seq<Event>, p: string): Option<uint32> {
    if evs == [] then None
    else if Last(evs).SetStaticCost? && Last(evs).peer == p then Some(Last(evs).cost)
    else LastStatic(Init(evs), p)
  }

  function LastFallback(evs: seq<Event>, p: string): Option<uint32> {
    if evs == [] then None
    else if Last(evs).SetFallbackCost? && Last(evs).peer == p then Some(Last(evs).cost)
    else LastFallback(Init(evs), p)
  }

  function LastPenalty(evs: seq<Event>, p: string): uint32 {
    if evs == [] then 0
    else if Last(evs).SetBandwidthPenalty? && Last(evs).peer == p then Last(evs).penalty
    else LastPenalty(Init(evs), p)
  }

  lemma {:induction false} KnownIffMentioned(params: Params, evs: seq<Event>, p: string)
    ensures p in Run(InitialState(params), evs).peers <==> Heard(evs, p)
    decreases |evs|
  {
    if evs != [] {
      KnownIffMentioned(params, Init(evs), p);
      InitAndLast(evs);
      assert Heard(evs, p) <==> Heard(Init(evs), p) || Mentions(Last(evs), p);
    }
  }

  lemma {:induction false} FailuresFromHistory(params: Params, evs: seq<Event>, p: string)
    ensures TrailingFailures(Probes(evs, p), PeerOf(Run(InitialState(params), evs), p).failures)
    decreases |evs|
  {
    if evs != [] {
      FailuresFromHistory(params, Init(evs), p);
      StepIsLocal(Run(InitialState(params), Init(evs)), Last(evs), p);
    }
  }

  lemma {:induction false} SettingsFromHistory(params: Params, evs: seq<Event>, p: string)
    ensures var s := PeerOf(Run(InitialState(params), evs), p);
            && s.staticCost == LastStatic(evs, p)
            && s.fallbackCost == LastFallback(evs, p)
            && s.bandwidthPenalty == LastPenalty(evs, p)
    decreases |evs|
  {
    if evs != [] {
      SettingsFromHistory(params, Init(evs), p);
      StepIsLocal(Run(InitialState(params), Init(evs)), Last(evs), p);
    }
  }

  /** No configuration in force is without bands. */
  predicate AlwaysBands(e: EngineState, evs: seq<Event>) {
    e.params.bands != [] && forall ev :: ev in evs && ev.UpdateConfig? ==> ev.params.bands != []
  }

  predicate InRange(bands: Bands, t: Track) {
    0 <= t.currentBand < |bands| && 0 <= t.pendingBand < |bands|
  }

  lemma {:induction false} TracksInRange(params: Params, evs: seq<Event>, p: string)
    requires AlwaysBands(InitialState(params), evs)
    ensures var e := Run(InitialState(params), evs); InRange(e.params.bands, PeerOf(e, p).track)
    decreases |evs|
  {
    if evs != [] {
      var init, ev := Init(evs), Last(evs);
      InitAndLast(evs);
      TracksInRange(params, init, p);
      StepIsLocal(Run(InitialState(params), init), ev, p);
      if ev.Success? && ev.peer == p {
        var e := Run(InitialState(params), init);
        var t := Smoothed(Smoothing(e.params.alpha), PeerOf(e, p).track, ev.sample);
        EvaluateInRange(e.params.bands, t);
      }
    }
  }

  lemma EvaluateInRange(bands: Bands, t: Track)
    requires InRange(bands, t)
    ensures InRange(bands, Evaluate(bands, t))
  {
  }

  /**
   * The cost of a peer the engine has heard of, from its history alone: the last static cost if
   * one was set; once the failures since its last success reach the limit in force, the last
   * fallback cost or else the penalty; otherwise the scaled cost of its band.  Only in an engine
   * that at some time had no bands can there be no such band; then it is the penalty as well.
   */
  lemma CostFromHistory(params: Params, evs: seq<Event>, p: string, failures: nat)
    requires Heard(evs, p)
    requires TrailingFailures(Probes(evs, p), failures)
    ensures var e := Run(InitialState(params), evs);
            var band := PeerOf(e, p).track.currentBand;
            && (AlwaysBands(InitialState(params), evs) ==> 0 <= band < |e.params.bands|)
            && CurrentCost(e, p) ==
               if LastStatic(evs, p).Some? then LastStatic(evs, p).value
               else if failures < e.params.failureLimit then
                 if 0 <= band < |e.params.bands| then
                   Bandwidth.ScaledCost(e.params.bands[band].cost, LastPenalty(evs, p))
                 else e.params.penaltyCost
               else if LastFallback(evs, p).Some? then LastFallback(evs, p).value
               else e.params.penaltyCost
  {
    KnownIffMentioned(params, evs, p);
    SettingsFromHistory(params, evs, p);
    FailuresFromHistory(params, evs, p);
    TrailingFailuresUnique(Probes(evs, p), failures, PeerOf(Run(InitialState(params), evs), p).failures);
    if AlwaysBands(InitialState(params), evs) {
      TracksInRange(params, evs, p);
    }
  }

  /**
   * Where a reload puts a peer: it keeps its band if that still exists, and is in the last one
   * otherwise.  A pending band that still exists keeps its count; another one is given up, with its
   * count.  All else of the peer is as before, and no peer is added or lost.
   */
  lemma {:induction false} ReloadLands(e: EngineState, params: Params, p: string)
    requires p in e.peers && params.bands != []
    ensures var s, e' := e.peers[p], Step(e, UpdateConfig(params));
            && e'.params == params && e'.peers.Keys == e.peers.Keys
            && var s', n := e'.peers[p], |params.bands|;
               && (s.track.currentBand < n ==> s'.track.currentBand == s.track.currentBand)
               && (n <= s.track.currentBand ==> s'.track.currentBand == n - 1)
               && (s.track.pendingBand < n ==> s'.track.pendingBand == s.track.pendingBand
                                               && s'.track.holdCounter == s.track.holdCounter)
               && (n <= s.track.pendingBand ==> s'.track.pendingBand == s'.track.currentBand && s'.track.holdCounter == 0)
               && s'.track.forwardDelay == s.track.forwardDelay && s'.track.rtt == s.track.rtt
               && s'.failures == s.failures && s'.staticCost == s.staticCost
               && s'.fallbackCost == s.fallbackCost && s'.bandwidthPenalty == s.bandwidthPenalty
  {
  }

  /** So a peer that loses its band gets none cheaper than any that is left. */
  lemma {:induction false} LostBandIsDearest(e: EngineState, params: Params, p: string, i: nat)
    requires p in e.peers && params.bands != [] && |params.bands| <= e.peers[p].track.currentBand && i < |params.bands|
    requires forall j, k :: 0 <= j < k < |params.bands| ==> params.bands[j].cost < params.bands[k].cost
    ensures var c := Step(e, UpdateConfig(params)).peers[p].track.currentBand;
            0 <= c < |params.bands| && params.bands[i].cost <= params.bands[c].cost
  {
    ReloadLands(e, params, p);
  }

  /** The parameters of the last reload of a history. */
  function LastParams(params: Params, evs: seq<Event>): Params {
    if evs == [] then params
    else if Last(evs).UpdateConfig? then Last(evs).params
    else LastParams(params, Init(evs))
  }

  /** They are the ones in force. */
  lemma {:induction false} ParamsFromHistory(params: Params, evs: seq<Event>)
    ensures Run(InitialState(params), evs).params == LastParams(params, evs)
    decreases |evs|
  {
    if evs != [] {
      ParamsFromHistory(params, Init(evs));
    }
  }

  /** Reloading the parameters in force leaves a state alone exactly if all its indices are in range. */
  lemma ReloadIsNoOpIff(e: EngineState)
    ensures Step(e, UpdateConfig(e.params)) == e
            <==> forall p :: p in e.peers ==>
                   var t := e.peers[p].track;
                   t.currentBand < |e.params.bands| && (t.pendingBand < |e.params.bands|
                     || (t.pendingBand == t.currentBand && t.holdCounter == 0))
  {
    var e' := Step(e, UpdateConfig(e.params));
    if e' == e {
      forall p | p in e.peers
        ensures e.peers[p].(track := Clamp(e.params.bands, e.peers[p].track)) == e.peers[p]
      {
        assert e'.peers[p] == e.peers[p];
      }
    }
  }

  /** With bands in force no index lies past them, whatever was in force before. */
  lemma {:induction false} IndicesBelowBands(params: Params, evs: seq<Event>, p: string)
    ensures var e := Run(InitialState(params), evs);
            e.params.bands != [] ==>
              PeerOf(e, p).track.currentBand < |e.params.bands| && PeerOf(e, p).track.pendingBand < |e.params.bands|
    decreases |evs|
  {
    if evs != [] {
      var before, ev := Run(InitialState(params), Init(evs)), Last(evs);
      IndicesBelowBands(params, Init(evs), p);
      StepIsLocal(before, ev, p);
      if ev.Success? && ev.peer == p && before.params.bands != [] {
        var t := Smoothed(Smoothing(before.params.alpha), PeerOf(before, p).track, ev.sample);
        EvaluateStaysBelow(before.params.bands, t);
      }
    }
  }

  lemma EvaluateStaysBelow(bands: Bands, t: Track)
    requires t.currentBand < |bands|
    ensures Evaluate(bands, t).currentBand < |bands| && Evaluate(bands, t).pendingBand < |bands|
  {
  }

  /** Hence it does nothing in any reachable state with bands in force ... */
  lemma {:induction false} ReloadIsNoOp(params: Params, evs: seq<Event>)
    requires Run(InitialState(params), evs).params.bands != []
    ensures var e := Run(InitialState(params), evs); Step(e, UpdateConfig(e.params)) == e
  {
    var e := Run(InitialState(params), evs);
    forall p | p in e.peers
      ensures PeerOf(e, p) == e.peers[p]
      ensures e.peers[p].track.currentBand < |e.params.bands| && e.peers[p].track.pendingBand < |e.params.bands|
    {
      IndicesBelowBands(params, evs, p);
    }
    ReloadIsNoOpIff(e);
  }

  /** ... while an engine started without bands is moved by it: the zero band falls to -1. */
  lemma ReloadWithoutBandsMoves(params: Params, p: string)
    requires params.bands == []
    ensures var e := Run(InitialState(params), [Failure(p)]); Step(e, UpdateConfig(params)) != e
  {
    var e := Run(InitialState(params), [Failure(p)]);
    assert e == Step(Run(InitialState(params), []), Failure(p));
    assert PeerOf(Step(e, UpdateConfig(params)), p).track.currentBand == -1;
  }

  // ---------------------------------------------------------------- outages

  /** One for a failure of a peer that reports a change. */
  function Alarm(e: EngineState, ev: Event, p: string): nat {
    if ev == Failure(p) && Raises(e, ev) then 1 else 0
  }

  /** How many failures of a peer in a history do. */
  function Alarms(e: EngineState, evs: seq<Event>, p: string): nat {
    if evs == [] then 0 else Alarms(e, Init(evs), p) + Alarm(Run(e, Init(evs)), Last(evs), p)
  }

  function FailureCount(evs: seq<Event>, p: string): nat {
    if evs == [] then 0 else FailureCount(Init(evs), p) + if Last(evs) == Failure(p) then 1 else 0
  }

  /** Reloads, if any, keep the failure limit. */
  predicate LimitKept(evs: seq<Event>, limit: int) {
    forall ev :: ev in evs && ev.UpdateConfig? ==> ev.params.failureLimit == limit
  }

  /**
   * An outage is reported once: while a peer only fails, whatever else happens, reloads that keep
   * the limit included, one of its failures reports a change if the count passes the limit, and no
   * other does.
   */
  lemma {:induction false} OutageReportedOnce(e: EngineState, evs: seq<Event>, p: string)
    requires LimitKept(evs, e.params.failureLimit) && Samples(evs, p) == []
    ensures Run(e, evs).params.failureLimit == e.params.failureLimit
    ensures var before, after := PeerOf(e, p).failures, PeerOf(Run(e, evs), p).failures;
            && after == before + FailureCount(evs, p)
            && Alarms(e, evs, p) == if before < e.params.failureLimit <= after then 1 else 0
    decreases |evs|
  {
    if evs != [] {
      var init := Init(evs);
      InitAndLast(evs);
      OutageReportedOnce(e, init, p);
      StepIsLocal(Run(e, init), Last(evs), p);
    }
  }

  /** A peer is down while its failures have reached the limit in force. */
  predicate Down(e: EngineState, p: string) {
    e.params.failureLimit <= PeerOf(e, p).failures
  }

  function Count(b: bool): nat {
    if b then 1 else 0
  }

  /** How often a peer comes up: by a success, or by a reload that raises the limit past its failures. */
  function Recoveries(e: EngineState, evs: seq<Event>, p: string): nat {
    if evs == [] then 0
    else
      var before := Run(e, Init(evs));
      Recoveries(e, Init(evs), p) + Count(Down(before, p) && !Down(Step(before, Last(evs)), p))
  }

  /** How often a reload takes a peer down, by lowering the limit to its failures. */
  function Demotions(e: EngineState, evs: seq<Event>, p: string): nat {
    if evs == [] then 0
    else
      var before := Run(e, Init(evs));
      Demotions(e, Init(evs), p)
      + Count(Last(evs).UpdateConfig? && !Down(before, p) && Down(Step(before, Last(evs)), p))
  }

  /**
   * The balance of reports, over any history whatever: the failures that report a change are the
   * times a peer goes down, except for the times that a reload takes it down.
   */
  lemma {:induction false} AlarmBalance(e: EngineState, evs: seq<Event>, p: string)
    ensures Count(Down(e, p)) + Alarms(e, evs, p) + Demotions(e, evs, p)
            == Count(Down(Run(e, evs), p)) + Recoveries(e, evs, p)
    decreases |evs|
  {
    if evs != [] {
      AlarmBalance(e, Init(evs), p);
      StepIsLocal(Run(e, Init(evs)), Last(evs), p);
    }
  }

  /** How often a reload brings a peer up. */
  function Promotions(e: EngineState, evs: seq<Event>, p: string): nat {
    if evs == [] then 0
    else
      var before := Run(e, Init(evs));
      Promotions(e, Init(evs), p)
      + Count(Last(evs).UpdateConfig? && Down(before, p) && !Down(Step(before, Last(evs)), p))
  }

  lemma {:induction false} OnlyReloadsPromote(e: EngineState, evs: seq<Event>, p: string)
    requires Samples(evs, p) == []
    ensures Recoveries(e, evs, p) == Promotions(e, evs, p)
    decreases |evs|
  {
    if evs != [] {
      OnlyReloadsPromote(e, Init(evs), p);
      StepIsLocal(Run(e, Init(evs)), Last(evs), p);
    }
  }

  /**
   * Exactly when an outage is reported once: over a history without a success of a peer that starts
   * out up, a report for every peer that ends down and none for one that does not, if and only if
   * reloads brought the peer up as often as they took it down.
   */
  lemma {:induction false} OutageReportedOnceIff(e: EngineState, evs: seq<Event>, p: string)
    requires Samples(evs, p) == [] && !Down(e, p)
    ensures Alarms(e, evs, p) == Count(Down(Run(e, evs), p)) <==> Promotions(e, evs, p) == Demotions(e, evs, p)
  {
    AlarmBalance(e, evs, p);
    OnlyReloadsPromote(e, evs, p);
  }

  /**
   * For a single reload that can be told beforehand: the reports stay right exactly if the failures
   * counted so far lie on the same side of the old limit and of the new one.
   */
  lemma {:induction false} ReloadKeepsReportsIff(e: EngineState, first: seq<Event>, params: Params, second: seq<Event>, p: string)
    requires LimitKept(first, e.params.failureLimit) && LimitKept(second, params.failureLimit)
    requires Samples(first, p) == Samples(second, p) == [] && !Down(e, p)
    ensures var before := Run(e, first);
            var after := Step(before, UpdateConfig(params));
            Alarms(e, first, p) + Alarms(after, second, p) == Count(Down(Run(after, second), p))
            <==> (PeerOf(before, p).failures < before.params.failureLimit
                  <==> PeerOf(before, p).failures < params.failureLimit)
  {
    var before := Run(e, first);
    OutageReportedOnce(e, first, p);
    OutageReportedOnce(Step(before, UpdateConfig(params)), second, p);
    StepIsLocal(before, UpdateConfig(params), p);
  }

  /** Both sides are reached: a limit that rises has an outage reported twice, one that falls not at all. */
  lemma {:induction false} LimitMoves(bands: Bands)
    ensures var one, two := Params(bands, 65535, Fraction(3, 10), 1), Params(bands, 65535, Fraction(3, 10), 2);
            && Alarms(InitialState(one), [Failure("b"), UpdateConfig(two), Failure("b")], "b") == 2
            && Alarms(InitialState(two), [Failure("b"), UpdateConfig(one), Failure("b")], "b") == 0
  {
    var one, two := Params(bands, 65535, Fraction(3, 10), 1), Params(bands, 65535, Fraction(3, 10), 2);
    AlarmsOfThree(InitialState(one), Failure("b"), UpdateConfig(two), Failure("b"), "b");
    AlarmsOfThree(InitialState(two), Failure("b"), UpdateConfig(one), Failure("b"), "b");
  }

  lemma AlarmsOfThree(e: EngineState, ev1: Event, ev2: Event, ev3: Event, p: string)
    ensures Alarms(e, [ev1, ev2, ev3], p)
            == Alarm(e, ev1, p) + Alarm(Step(e, ev1), ev2, p) + Alarm(Step(Step(e, ev1), ev2), ev3, p)
  {
    assert Init([ev1, ev2, ev3]) == [ev1, ev2] && Init([ev1, ev2]) == [ev1] && Init([ev1]) == [];
    assert Run(e, [ev1]) == Step(e, ev1);
    assert Run(e, [ev1, ev2]) == Step(Step(e, ev1), ev2);
    assert Alarms(e, [ev1], p) == Alarm(e, ev1, p);
    assert Alarms(e, [ev1, ev2], p) == Alarm(e, ev1, p) + Alarm(Step(e, ev1), ev2, p);
  }

  /** What a peer without a static cost costs while it is down. */
  function DownCost(params: Params, s: PeerState): uint32 {
    if s.fallbackCost.Some? then s.fallbackCost.value else params.penaltyCost
  }

  /** Being down, should the peer be, costs what its band does. */
  predicate DownMakesNoDifference(params: Params, s: PeerState)
    requires 0 <= s.track.currentBand < |params.bands|
  {
    s.failures < params.failureLimit
    || DownCost(params, s) == Bandwidth.ScaledCost(params.bands[s.track.currentBand].cost, s.bandwidthPenalty)
  }

  /**
   * When the band does not move, a success leaves the cost alone exactly if it is static, or the
   * peer was not down, or being down costs the same as its band.
   */
  lemma UnreportedRecoveryIff(e: EngineState, p: string, sample: Sample)
    requires p in e.peers && 0 < e.params.failureLimit && !Raises(e, Success(p, sample))
    requires 0 <= e.peers[p].track.currentBand < |e.params.bands|
    ensures CurrentCost(Step(e, Success(p, sample)), p) == CurrentCost(e, p)
            <==> e.peers[p].staticCost.Some? || DownMakesNoDifference(e.params, e.peers[p])
  {
    StepIsLocal(e, Success(p, sample), p);
  }

  /** A known peer whose cost probes decide, in a band that exists. */
  predicate Probed(e: EngineState, p: string) {
    && p in e.peers && e.peers[p].staticCost.None?
    && 0 <= e.peers[p].track.currentBand < |e.params.bands|
  }

  /** Costs that increase with the band and that scaling keeps apart. */
  predicate CostsApart(e: EngineState, p: string) {
    && (forall i, j :: 0 <= i < j < |e.params.bands| ==> e.params.bands[i].cost < e.params.bands[j].cost)
    && (forall b :: b in e.params.bands ==> b.cost <= Bandwidth.MAX_OSPF_COST)
    && PeerOf(e, p).bandwidthPenalty <= 6453
  }

  /** Unless a peer is down at a price of its own, a success reports exactly the changes of its cost. */
  lemma {:induction false} SuccessReportsCost(e: EngineState, p: string, sample: Sample)
    requires Probed(e, p) && CostsApart(e, p) && 0 < e.params.failureLimit
    requires DownMakesNoDifference(e.params, e.peers[p])
    ensures Raises(e, Success(p, sample)) <==> CurrentCost(Step(e, Success(p, sample)), p) != CurrentCost(e, p)
  {
    if !Raises(e, Success(p, sample)) {
      UnreportedRecoveryIff(e, p, sample);
    } else {
      var c, penalty := e.peers[p].track.currentBand, e.peers[p].bandwidthPenalty;
      var c' := BandMoves(e, p, sample);
      var cost, cost' := e.params.bands[c].cost, e.params.bands[c'].cost;
      assert e.params.bands[c] in e.params.bands && e.params.bands[c'] in e.params.bands;
      if c < c' {
        Bandwidth.ScalingStrict(cost, cost', penalty);
      } else {
        Bandwidth.ScalingStrict(cost', cost, penalty);
      }
    }
  }

  /** After a reported success the cost is that of another band that exists. */
  lemma BandMoves(e: EngineState, p: string, sample: Sample) returns (c: nat)
    requires Probed(e, p) && 0 < e.params.failureLimit && Raises(e, Success(p, sample))
    ensures c < |e.params.bands| && c != e.peers[p].track.currentBand
    ensures CurrentCost(Step(e, Success(p, sample)), p)
            == Bandwidth.ScaledCost(e.params.bands[c].cost, e.peers[p].bandwidthPenalty)
  {
    var t := Smoothed(Smoothing(e.params.alpha), e.peers[p].track, sample);
    StepIsLocal(e, Success(p, sample), p);
    ChurnOnce(e.params.bands, t);
    c := Target(e.params.bands, t.currentBand, t.forwardDelay);
  }

  /** In the window of its band, a peer that answers with its smoothed delay stays there unreported. */
  lemma SteadyAnswer(e: EngineState, p: string, rtt: int)
    requires Probed(e, p) && InUnitInterval(e.params.alpha) && 0 < DelayOf(e, p)
    requires InWindow(e.params.bands, e.peers[p].track.currentBand, DelayOf(e, p))
    ensures !Raises(e, Success(p, Sample(DelayOf(e, p), rtt)))
  {
    var d := DelayOf(e, p);
    SmoothBetween(d, d, e.params.alpha, d, d);
    TargetStaysIffInWindow(e.params.bands, e.peers[p].track.currentBand, d);
    StepIsLocal(e, Success(p, Sample(d, rtt)), p);
  }

  /**
   * The report of a success is about the band, not the cost.  For a peer in the window of its band
   * the two are the same for every valid sample if and only if the peer is not down or being down
   * costs what its band does: a recovery is otherwise a change of cost that nothing reports.
   */
  lemma {:induction false} SuccessReportsCostIff(e: EngineState, p: string)
    requires Probed(e, p) && CostsApart(e, p) && 0 < e.params.failureLimit
    requires InUnitInterval(e.params.alpha) && 0 < DelayOf(e, p)
    requires InWindow(e.params.bands, e.peers[p].track.currentBand, DelayOf(e, p))
    ensures (forall s: Sample :: 0 < s.forward ==>
               (Raises(e, Success(p, s)) <==> CurrentCost(Step(e, Success(p, s)), p) != CurrentCost(e, p)))
            <==> DownMakesNoDifference(e.params, e.peers[p])
  {
    if DownMakesNoDifference(e.params, e.peers[p]) {
      forall s: Sample | 0 < s.forward
        ensures Raises(e, Success(p, s)) <==> CurrentCost(Step(e, Success(p, s)), p) != CurrentCost(e, p)
      {
        SuccessReportsCost(e, p, s);
      }
    } else {
      var s := Sample(DelayOf(e, p), 2 * DelayOf(e, p));
      SteadyAnswer(e, p, 2 * DelayOf(e, p));
      UnreportedRecoveryIff(e, p, s);
    }
  }

  /** Such recoveries are reached: one failure at a limit of 1, then any answer. */
  lemma RecoveryGoesUnreported(sample: Sample)
    ensures var params := Params([Band(0, 0, 20, 5)], 65535, Fraction(3, 10), 1);
            var e := Run(InitialState(params), [Failure("b")]);
            && !Raises(e, Success("b", sample))
            && CurrentCost(e, "b") == 65535 && CurrentCost(Step(e, Success("b", sample)), "b") == 20
  {
    var params := Params([Band(0, 0, 20, 5)], 65535, Fraction(3, 10), 1);
    RunSnoc(InitialState(params), [], Failure("b"));
  }
}
