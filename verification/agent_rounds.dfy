/** A whole round of the agent: probe, record, and edit the file if something was reported. */
module AgentRounds {
  import opened Prelude
  import opened CostBands
  import opened CostTracks
  import opened CostModel
  import opened CostEngine
  import opened CostRuns
  import opened ProbeProtocol
  import opened ProbeRound
  import opened BirdRewriter
  import opened BirdTemplate
  import opened AgentCosts

  /** One result for each probed peer; a valid one has a positive delay. */
  ghost predicate IsRound(results: seq<ProbeResult>, targets: set<string>) {
    && (forall i, j :: 0 <= i < j < |results| ==> results[i].peer != results[j].peer)
    && (forall p :: p in targets <==> exists r :: r in results && r.peer == p)
    && (forall r :: r in results && r.valid ==> 0 < r.forwardDelay)
  }

  /** The file after a round: edited with the new costs if the round reports a change, else as it was. */
  ghost predicate FileAfter(e: EngineState, results: seq<ProbeResult>, ifaces: map<string, string>,
                            file: string, file': string) {
    if AnyRaises(e, Events(results)) then
      exists costs :: IsCostMap(Run(e, Events(results)), ifaces, costs) && file' == ReplaceCosts(file, costs)
    else file' == file
  }

  /** The peers a round probes. */
  ghost function Probing(e: EngineState, peerAddrs: map<string, string>): set<string> {
    set p | p in peerAddrs && PeerOf(e, p).staticCost.None?
  }

  /** The round itself; results is what probing the targets yields, fileOk whether the file can be read and written. */
  method DoProbeRound(engine: Engine, peerAddrs: map<string, string>, ifaces: map<string, string>,
                      results: seq<ProbeResult>, file: string, fileOk: bool) returns (after: string)
    requires engine.Valid() && IsRound(results, Probing(engine.Abs(), peerAddrs))
    modifies engine`state, engine.state.Values
    ensures engine.Valid() && fresh(engine.state.Values - old(engine.state.Values))
    ensures engine.Abs() == Run(old(engine.Abs()), Events(results))
    ensures if fileOk then FileAfter(old(engine.Abs()), results, ifaces, file, after) else after == file
  {
    var addrs := Targets(engine, peerAddrs);
    if addrs == map[] {
      NothingProbed(engine.Abs(), results, Probing(engine.Abs(), peerAddrs));
      return file;
    }
    var anyChanged := RecordRound(engine, results);
    if !anyChanged || !fileOk {
      return file;
    }
    var written := ApplyDynamicCosts(engine, ifaces, file);
    after := if written.Some? then written.value else file;
    ReplaceNothing(file);
  }

  lemma NothingProbed(e: EngineState, results: seq<ProbeResult>, targets: set<string>)
    requires IsRound(results, targets) && targets == {}
    ensures results == [] && Run(e, Events(results)) == e && !AnyRaises(e, Events(results))
  {
    if results != [] {
      FirstIsOfTarget(results, targets);
    }
    assert Events(results) == [];
  }

  lemma FirstIsOfTarget(results: seq<ProbeResult>, targets: set<string>)
    requires IsRound(results, targets) && results != []
    ensures results[0].peer in targets
  {
    assert results[0] in results;
  }

  /** The file with the engine's current cost for every peer. */
  function Current(d: BirdData, e: EngineState): string {
    Render(WithCosts(d, CurrentCosts(e)))
  }

  /** Everything but the costs is as before. */
  lemma OnlyCostsDiffer(d: BirdData, ifaces: map<string, string>, shown: string -> uint32, cost: string -> uint32)
    ensures var d' := WithCosts(d, shown);
            && Peers(d') == Peers(d) && WithCosts(d', cost) == WithCosts(d, cost)
            && (FieldsOneLine(d) ==> FieldsOneLine(d'))
            && (Knows(ifaces, d) ==> Knows(ifaces, d')) && (Unshared(ifaces, d) ==> Unshared(ifaces, d'))
  {
    var d' := WithCosts(d, shown);
    assert Peers(d') == Peers(d);
    assert forall p :: PeerIface(d', p) == PeerIface(d, p);
  }

  lemma {:induction false} EditIsCurrent(d: BirdData, shown: string -> uint32, e: EngineState, ifaces: map<string, string>,
                                         costs: CostMap)
    requires FieldsOneLine(d) && Knows(ifaces, d) && Unshared(ifaces, d) && IsCostMap(e, ifaces, costs)
    ensures ReplaceCosts(Render(WithCosts(d, shown)), costs) == Current(d, e)
  {
    OnlyCostsDiffer(d, ifaces, shown, CurrentCosts(e));
    TextShowsCurrentCosts(WithCosts(d, shown), e, ifaces, costs);
  }

  /** After a round that reports, the file shows the current costs, whatever it showed before. */
  lemma {:induction false} ReportedRoundIsCurrent(d: BirdData, shown: string -> uint32, e: EngineState,
                                                  ifaces: map<string, string>, results: seq<ProbeResult>, file': string)
    requires FieldsOneLine(d) && Knows(ifaces, d) && Unshared(ifaces, d) && AnyRaises(e, Events(results))
    requires FileAfter(e, results, ifaces, Render(WithCosts(d, shown)), file')
    ensures file' == Current(d, Run(e, Events(results)))
  {
    var e', file := Run(e, Events(results)), Render(WithCosts(d, shown));
    var costs :| IsCostMap(e', ifaces, costs) && file' == ReplaceCosts(file, costs);
    EditIsCurrent(d, shown, e', ifaces, costs);
  }

  /** After a silent round it does exactly if no printed peer's cost has changed. */
  lemma {:induction false} SilentRoundIsCurrentIff(d: BirdData, e: EngineState, ifaces: map<string, string>,
                                 results: seq<ProbeResult>, file': string)
    requires FieldsOneLine(d) && !AnyRaises(e, Events(results))
    requires FileAfter(e, results, ifaces, Current(d, e), file')
    ensures file' == Current(d, Run(e, Events(results)))
            <==> forall p :: p in Peers(d) ==> CurrentCost(Run(e, Events(results)), p) == CurrentCost(e, p)
  {
    RenderShowsCosts(d, CurrentCosts(e), CurrentCosts(Run(e, Events(results))));
  }

  /** What an event alone does to the cost of its peer is what the round does to it. */
  lemma CostInRound(e: EngineState, evs: seq<Event>, p: string)
    requires OneEach(evs)
    ensures Silent(evs, p) ==> CurrentCost(Run(e, evs), p) == CurrentCost(e, p)
    ensures forall ev :: ev in evs && ev.peer == p ==> CurrentCost(Run(e, evs), p) == CurrentCost(Step(e, ev), p)
  {
    PeerInRound(e, evs, p);
    forall ev | ev in evs && ev.peer == p
      ensures CurrentCost(Run(e, evs), p) == CurrentCost(Step(e, ev), p)
    {
      assert !ev.UpdateConfig?;
      assert PeerOf(Step(e, ev), p) == Touch(e.params, PeerOf(e, p), ev);
    }
  }

  /** A failure that reports nothing changes no cost of a known peer. */
  lemma SilentFailure(e: EngineState, p: string)
    requires p in e.peers && !Raises(e, Failure(p))
    ensures CurrentCost(Step(e, Failure(p)), p) == CurrentCost(e, p)
  {
    StepIsLocal(e, Failure(p), p);
  }

  lemma EventsOfRound(results: seq<ProbeResult>, targets: set<string>)
    requires IsRound(results, targets)
    ensures OneEach(Events(results))
    ensures forall p :: p !in targets ==> Silent(Events(results), p)
    ensures forall ev :: ev in Events(results) ==> ev.Success? || ev.Failure?
    ensures forall p :: p in targets ==> exists ev :: ev in Events(results) && ev.peer == p
  {
    forall ev | ev in Events(results)
      ensures (ev.Success? || ev.Failure?) && ev.peer in targets
    {
      EventsAreOfResults(results, ev);
    }
    forall p | p in targets
      ensures exists ev :: ev in Events(results) && ev.peer == p
    {
      var r :| r in results && r.peer == p;
      EventsAreOfResults(results, EventOf(r));
    }
  }

  /** A probed peer whose cost being down makes no difference to. */
  predicate PricedAlike(e: EngineState, p: string) {
    Probed(e, p) && DownMakesNoDifference(e.params, e.peers[p])
  }

  lemma SilentCost(e: EngineState, results: seq<ProbeResult>, targets: set<string>, p: string)
    requires IsRound(results, targets) && 0 < e.params.failureLimit && !AnyRaises(e, Events(results))
    requires p in targets ==> PricedAlike(e, p)
    ensures CurrentCost(Run(e, Events(results)), p) == CurrentCost(e, p)
  {
    var evs := Events(results);
    EventsOfRound(results, targets);
    CostInRound(e, evs, p);
    if p in targets {
      var ev :| ev in evs && ev.peer == p;
      RaisesInRound(e, evs);
      if ev.Failure? {
        SilentFailure(e, p);
      } else {
        UnreportedRecoveryIff(e, p, ev.sample);
      }
    }
  }

  /**
   * When a file that shows the current costs still does after a round, whatever the results: it is
   * enough that no printed peer is down at a price other than its band's.
   */
  lemma {:induction false} RoundKeepsFileCurrent(d: BirdData, e: EngineState, ifaces: map<string, string>, targets: set<string>,
                               results: seq<ProbeResult>, file': string)
    requires FieldsOneLine(d) && Knows(ifaces, d) && Unshared(ifaces, d) && 0 < e.params.failureLimit
    requires forall p :: p in targets && p in Peers(d) ==> PricedAlike(e, p)
    requires IsRound(results, targets) && FileAfter(e, results, ifaces, Current(d, e), file')
    ensures file' == Current(d, Run(e, Events(results)))
  {
    if AnyRaises(e, Events(results)) {
      ReportedRoundIsCurrent(d, CurrentCosts(e), e, ifaces, results, file');
    } else {
      forall p | p in Peers(d)
        ensures CurrentCost(Run(e, Events(results)), p) == CurrentCost(e, p)
      {
        SilentCost(e, results, targets, p);
      }
      SilentRoundIsCurrentIff(d, e, ifaces, results, file');
    }
  }

  /** A probed peer in the window of its band. */
  predicate Steady(e: EngineState, p: string) {
    Probed(e, p) && 0 < DelayOf(e, p) < TWO_TO_THE_63
    && InWindow(e.params.bands, e.peers[p].track.currentBand, DelayOf(e, p))
  }

  /** Every target answers with its smoothed delay: a round that reports nothing. */
  lemma {:induction false} SteadyRound(e: EngineState, targets: set<string>) returns (results: seq<ProbeResult>)
    requires InUnitInterval(e.params.alpha) && forall p :: p in targets ==> Steady(e, p)
    ensures IsRound(results, targets)
    ensures forall r :: r in results ==> r.valid && !Raises(e, EventOf(r))
    decreases targets
  {
    if targets == {} {
      results := [];
    } else {
      var p :| p in targets;
      var rest := SteadyRound(e, targets - {p});
      var r := ProbeResult(p, DelayOf(e, p), 0, 0, 0, true);
      SteadyAnswer(e, p, 0);
      results := rest + [r];
      assert forall q :: q in targets <==> q in targets - {p} || q == p;
    }
  }

  /** If one of them is down at another price, that round leaves the file behind. */
  lemma {:induction false} SteadyRoundLeavesFileBehind(d: BirdData, e: EngineState, ifaces: map<string, string>, targets: set<string>,
                                     p: string) returns (results: seq<ProbeResult>)
    requires FieldsOneLine(d) && 0 < e.params.failureLimit && InUnitInterval(e.params.alpha)
    requires forall q :: q in targets ==> Steady(e, q)
    requires p in targets && p in Peers(d) && !PricedAlike(e, p)
    ensures IsRound(results, targets) && FileAfter(e, results, ifaces, Current(d, e), Current(d, e))
    ensures Current(d, e) != Current(d, Run(e, Events(results)))
  {
    results := SteadyRound(e, targets);
    var evs := Events(results);
    EventsOfRound(results, targets);
    forall ev | ev in evs
      ensures ev.Success? && !Raises(e, ev)
    {
      EventsAreOfResults(results, ev);
    }
    RaisesInRound(e, evs);
    var ev :| ev in evs && ev.peer == p;
    UnreportedRecoveryIff(e, p, ev.sample);
    CostInRound(e, evs, p);
    SilentRoundIsCurrentIff(d, e, ifaces, results, Current(d, e));
  }

  /**
   * Exactly when rounds keep the file current: with all targets in the windows of their bands, a
   * file that shows the current costs still does after every possible round if and only if no
   * printed target is down at a price other than its band's.
   */
  lemma {:induction false} RoundKeepsFileCurrentIff(d: BirdData, e: EngineState, ifaces: map<string, string>, targets: set<string>)
    requires FieldsOneLine(d) && Knows(ifaces, d) && Unshared(ifaces, d)
    requires 0 < e.params.failureLimit && InUnitInterval(e.params.alpha)
    requires forall p :: p in targets ==> Steady(e, p)
    ensures (forall results, file' :: IsRound(results, targets) && FileAfter(e, results, ifaces, Current(d, e), file')
               ==> file' == Current(d, Run(e, Events(results))))
            <==> forall p :: p in targets && p in Peers(d) ==> PricedAlike(e, p)
  {
    if forall p :: p in targets && p in Peers(d) ==> PricedAlike(e, p) {
      forall results, file' | IsRound(results, targets) && FileAfter(e, results, ifaces, Current(d, e), file')
        ensures file' == Current(d, Run(e, Events(results)))
      {
        RoundKeepsFileCurrent(d, e, ifaces, targets, results, file');
      }
    } else {
      var p :| p in targets && p in Peers(d) && !PricedAlike(e, p);
      var results := SteadyRoundLeavesFileBehind(d, e, ifaces, targets, p);
    }
  }
}
