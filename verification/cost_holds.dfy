/** What a hold is counted over: successes in a row that find one band and call for one other. */
module CostHolds {
  import opened Prelude
  import opened CostBands
  import opened CostTracks
  import opened CostModel
  import opened CostRuns

  /** Before sample i the band is c, and with it smoothed in the scans from c call for b. */
  predicate Calls(bands: Bands, sm: Smoother, t: Track, ss: seq<Sample>, i: nat, c: BandIndex, b: BandIndex)
    requires i < |ss|
  {
    && Feed(bands, sm, t, ss[..i]).currentBand == c
    && Target(bands, c, sm(Feed(bands, sm, t, ss[..i]).forwardDelay, Delay(ss[i]))) == b
  }

  /** Each of the last n samples does. */
  predicate Streak(bands: Bands, sm: Smoother, t: Track, ss: seq<Sample>, n: nat, c: BandIndex, b: BandIndex) {
    n <= |ss| && forall i :: |ss| - n <= i < |ss| ==> Calls(bands, sm, t, ss, i, c, b)
  }

  /** How often a band must be called for in a row; a hold below 1 counts as 1. */
  function Needed(bands: Bands, b: BandIndex): nat {
    if 0 <= b < |bands| then Max(1, bands[b].hold) else 1
  }

  lemma {:induction false} CallsInPrefix(bands: Bands, sm: Smoother, t: Track, ss: seq<Sample>, i: nat, c: BandIndex, b: BandIndex)
    requires i < |ss| - 1
    ensures Calls(bands, sm, t, ss[..|ss| - 1], i, c, b) == Calls(bands, sm, t, ss, i, c, b)
  {
    assert ss[..|ss| - 1][..i] == ss[..i];
  }

  /** A streak is one that ended a sample ago, and one more call. */
  lemma {:induction false} StreakSteps(bands: Bands, sm: Smoother, t: Track, ss: seq<Sample>, n: nat, c: BandIndex, b: BandIndex)
    requires 0 < n <= |ss|
    ensures Streak(bands, sm, t, ss, n, c, b)
            <==> Streak(bands, sm, t, ss[..|ss| - 1], n - 1, c, b) && Calls(bands, sm, t, ss, |ss| - 1, c, b)
  {
    var init := ss[..|ss| - 1];
    forall i | |ss| - n <= i < |ss| - 1
      ensures Calls(bands, sm, t, init, i, c, b) == Calls(bands, sm, t, ss, i, c, b)
    {
      CallsInPrefix(bands, sm, t, ss, i, c, b);
    }
    if Streak(bands, sm, t, ss, n, c, b) {
      assert forall i :: |init| - (n - 1) <= i < |init| ==> Calls(bands, sm, t, ss, i, c, b);
    }
    if Streak(bands, sm, t, init, n - 1, c, b) {
      assert forall i :: |init| - (n - 1) <= i < |init| ==> Calls(bands, sm, t, init, i, c, b);
    }
  }

  /** What one evaluation does to count and band, given what it calls for. */
  lemma OneCall(bands: Bands, sm: Smoother, t: Track, s: Sample)
    ensures var b, t' := Target(bands, t.currentBand, sm(t.forwardDelay, Delay(s))), OnSample(bands, sm, t, s);
            var count := if b == t.pendingBand then t.holdCounter + 1 else 1;
            if b == t.currentBand then t'.currentBand == b && t'.holdCounter == 0
            else if Needed(bands, b) <= count then t'.currentBand == b && t'.holdCounter == 0
            else t'.currentBand == t.currentBand && t'.pendingBand == b && t'.holdCounter == count
  {
  }

  /** The counter is the length of a streak that calls for the pending band. */
  lemma {:induction false} CounterIsStreak(bands: Bands, sm: Smoother, t: Track, ss: seq<Sample>)
    requires t.holdCounter == 0
    ensures var u := Feed(bands, sm, t, ss);
            Streak(bands, sm, t, ss, u.holdCounter, u.currentBand, u.pendingBand)
    ensures Feed(bands, sm, t, ss).holdCounter > 0 ==>
              Feed(bands, sm, t, ss).pendingBand != Feed(bands, sm, t, ss).currentBand
    decreases |ss|
  {
    if ss != [] {
      var init, u := ss[..|ss| - 1], Feed(bands, sm, t, ss);
      var before := Feed(bands, sm, t, init);
      CounterIsStreak(bands, sm, t, init);
      OneCall(bands, sm, before, ss[|ss| - 1]);
      if u.holdCounter > 0 {
        if u.holdCounter == 1 {
          assert Streak(bands, sm, t, init, 0, u.currentBand, u.pendingBand);
        }
        StreakSteps(bands, sm, t, ss, u.holdCounter, u.currentBand, u.pendingBand);
      }
    }
  }

  /** A streak is counted, as long as it has not moved the band. */
  lemma {:induction false} StreakIsCounted(bands: Bands, sm: Smoother, t: Track, ss: seq<Sample>, n: nat, c: BandIndex, b: BandIndex)
    requires 0 < n && b != c && Streak(bands, sm, t, ss, n, c, b)
    requires Feed(bands, sm, t, ss).currentBand == c
    ensures Feed(bands, sm, t, ss).pendingBand == b && n <= Feed(bands, sm, t, ss).holdCounter
    decreases n
  {
    var init := ss[..|ss| - 1];
    StreakSteps(bands, sm, t, ss, n, c, b);
    OneCall(bands, sm, Feed(bands, sm, t, init), ss[|ss| - 1]);
    if n > 1 {
      StreakIsCounted(bands, sm, t, init, n - 1, c, b);
    }
  }

  /**
   * What a hold means: the last sample moves the band from c to b if and only if as many samples in
   * a row as b's hold, it being the last of them, all found band c and called for b.
   */
  lemma {:induction false} MovesIffStreak(bands: Bands, sm: Smoother, t: Track, ss: seq<Sample>, c: BandIndex, b: BandIndex)
    requires t.holdCounter == 0 && ss != [] && b != c
    ensures Feed(bands, sm, t, ss[..|ss| - 1]).currentBand == c && Feed(bands, sm, t, ss).currentBand == b
            <==> Streak(bands, sm, t, ss, Needed(bands, b), c, b)
  {
    var init, n := ss[..|ss| - 1], Needed(bands, b);
    var before, u := Feed(bands, sm, t, init), Feed(bands, sm, t, ss);
    OneCall(bands, sm, before, ss[|ss| - 1]);
    if before.currentBand == c && u.currentBand == b {
      CounterIsStreak(bands, sm, t, init);
      ShorterStreak(bands, sm, t, init, before.holdCounter, n - 1, c, b);
      StreakSteps(bands, sm, t, ss, n, c, b);
    }
    if Streak(bands, sm, t, ss, n, c, b) {
      StreakSteps(bands, sm, t, ss, n, c, b);
      if n > 1 {
        StreakIsCounted(bands, sm, t, init, n - 1, c, b);
      }
    }
  }

  lemma ShorterStreak(bands: Bands, sm: Smoother, t: Track, ss: seq<Sample>, m: nat, n: nat, c: BandIndex, b: BandIndex)
    requires n == 0 || (n <= m && Streak(bands, sm, t, ss, m, c, b))
    ensures Streak(bands, sm, t, ss, n, c, b)
  {
  }

  // ---------------------------------------------------------------- the engine

  /** The samples of a history that ends with a success of a peer. */
  lemma SamplesWithLast(evs: seq<Event>, p: string)
    requires evs != [] && Last(evs).Success? && Last(evs).peer == p
    ensures Samples(evs, p) != [] && Samples(evs, p)[..|Samples(evs, p)| - 1] == Samples(Init(evs), p)
  {
  }

  /**
   * The same of the engine between two reloads, whatever failures, settings and probes of other peers
   * lie between the successes: a success of a peer moves its band from c to b if and only if it
   * completes a streak as long as b's hold.
   */
  lemma {:induction false} EngineMovesIffStreak(e: EngineState, evs: seq<Event>, p: string, c: BandIndex, b: BandIndex)
    requires NoReload(evs) && evs != [] && Last(evs).Success? && Last(evs).peer == p
    requires PeerOf(e, p).track.holdCounter == 0 && b != c
    ensures PeerOf(Run(e, Init(evs)), p).track.currentBand == c && PeerOf(Run(e, evs), p).track.currentBand == b
            <==> Streak(e.params.bands, Smoothing(e.params.alpha), PeerOf(e, p).track, Samples(evs, p),
                        Needed(e.params.bands, b), c, b)
  {
    InitAndLast(evs);
    SamplesWithLast(evs, p);
    TrackIsFed(e, evs, p);
    TrackIsFed(e, Init(evs), p);
    MovesIffStreak(e.params.bands, Smoothing(e.params.alpha), PeerOf(e, p).track, Samples(evs, p), c, b);
  }

  /** One call for another band starts the count over: delays 10 and then 400 move nothing at holds of 2. */
  lemma {:induction false} OtherBandStartsOver()
    ensures var bands := [Band(0, 0, 20, 2), Band(10, 5, 50, 2), Band(100, 50, 100, 2)];
            Feed(bands, Smoothing(Fraction(3, 10)), NEW_TRACK, [Sample(10, 20), Sample(400, 800)])
            == Track(127, 254, 0, 2, 1)
  {
    var bands := [Band(0, 0, 20, 2), Band(10, 5, 50, 2), Band(100, 50, 100, 2)];
    var sm, ss := Smoothing(Fraction(3, 10)), [Sample(10, 20), Sample(400, 800)];
    assert ss[..1] == [Sample(10, 20)] && ss[..1][..0] == [];
    assert Target(bands, 0, 10) == 1 && Target(bands, 0, 127) == 2;
    assert Feed(bands, sm, NEW_TRACK, ss[..1]) == Track(10, 20, 0, 1, 1);
  }
}
