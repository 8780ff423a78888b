/** One round of the agent: probe every peer without a static cost, and feed the engine the results. */
module ProbeRound {
  import opened Prelude
  import opened Ordering
  import opened CostBands
  import opened CostTracks
  import opened CostModel
  import opened CostEngine
  import opened CostRuns
  import opened ProbeProtocol

  /** A result counts as a failure unless its forward delay is valid. */
  function EventOf(r: ProbeResult): Event {
    if r.valid then Success(r.peer, Sample(r.forwardDelay, r.rtt)) else Failure(r.peer)
  }

  function Events(results: seq<ProbeResult>): seq<Event> {
    seq(|results|, i requires 0 <= i < |results| => EventOf(results[i]))
  }

  /** The peers to probe, with their addresses. */
  method Targets(engine: Engine, peerAddrs: map<string, string>) returns (addrs: map<string, string>)
    requires engine.Valid()
    ensures forall p :: p in addrs <==> p in peerAddrs && PeerOf(engine.Abs(), p).staticCost.None?
    ensures forall p :: p in addrs ==> addrs[p] == peerAddrs[p]
  {
    addrs := map[];
    var todo := peerAddrs.Keys;
    while todo != {}
      invariant todo <= peerAddrs.Keys
      invariant forall p :: p in addrs <==> p in peerAddrs.Keys - todo && PeerOf(engine.Abs(), p).staticCost.None?
      invariant forall p :: p in addrs ==> addrs[p] == peerAddrs[p]
    {
      var peer :| peer in todo;
      todo := todo - {peer};
      var isStatic := engine.IsStatic(peer);
      if isStatic {
        continue;
      }
      addrs := addrs[peer := peerAddrs[peer]];
    }
  }

  predicate AnyRaises(e: EngineState, evs: seq<Event>) {
    if evs == [] then false else AnyRaises(e, Init(evs)) || Raises(Run(e, Init(evs)), Last(evs))
  }

  /** The result loop, in whatever order the results arrived. */
  method RecordRound(engine: Engine, results: seq<ProbeResult>) returns (anyChanged: bool)
    requires engine.Valid()
    modifies engine`state, engine.state.Values
    ensures engine.Valid() && fresh(engine.state.Values - old(engine.state.Values))
    ensures engine.Abs() == Run(old(engine.Abs()), Events(results))
    ensures anyChanged == AnyRaises(old(engine.Abs()), Events(results))
  {
    anyChanged := false;
    ghost var before := engine.Abs();
    for i := 0 to |results|
      invariant engine.Valid() && fresh(engine.state.Values - old(engine.state.Values))
      invariant engine.Abs() == Run(before, Events(results[..i]))
      invariant anyChanged == AnyRaises(before, Events(results[..i]))
    {
      var r := results[i];
      assert Init(Events(results[..i + 1])) == Events(results[..i]);
      var changed: bool;
      if !r.valid {
        changed := engine.RecordFailure(r.peer);
      } else {
        changed := engine.RecordSuccess(r.peer, Sample(r.forwardDelay, r.rtt));
      }
      if changed {
        anyChanged := true;
      }
    }
    assert results[..|results|] == results;
  }

  // ---------------------------------------------------------------- confluence

  /** One event for each of some peers, as a round of concurrent probes yields. */
  predicate OneEach(evs: seq<Event>) {
    && (forall i :: 0 <= i < |evs| ==> !evs[i].UpdateConfig?)
    && (forall i, j :: 0 <= i < j < |evs| ==> evs[i].peer != evs[j].peer)
  }

  predicate Silent(evs: seq<Event>, p: string) {
    forall ev :: ev in evs && !ev.UpdateConfig? ==> ev.peer != p
  }

  lemma OneEachInit(evs: seq<Event>)
    requires evs != [] && OneEach(evs)
    ensures OneEach(Init(evs)) && !Last(evs).UpdateConfig? && Silent(Init(evs), Last(evs).peer)
  {
  }

  /** What a round does to a peer depends on that peer's own event alone. */
  lemma {:induction false} PeerInRound(e: EngineState, evs: seq<Event>, p: string)
    requires OneEach(evs)
    ensures Run(e, evs).params == e.params
    ensures Silent(evs, p) ==> PeerOf(Run(e, evs), p) == PeerOf(e, p) && (p in Run(e, evs).peers <==> p in e.peers)
    ensures forall ev :: ev in evs && ev.peer == p
              ==> PeerOf(Run(e, evs), p) == Touch(e.params, PeerOf(e, p), ev) && p in Run(e, evs).peers
    decreases |evs|
  {
    if evs != [] {
      InitAndLast(evs);
      OneEachInit(evs);
      PeerInRound(e, Init(evs), p);
      StepIsLocal(Run(e, Init(evs)), Last(evs), p);
    }
  }

  /**
   * What a round records of a result: a valid one clears the failures and is averaged in, the way out
   * as the delay and the round trip as the round trip; another is one more failure and no sample.
   */
  lemma {:induction false} ResultRecorded(e: EngineState, results: seq<ProbeResult>, i: nat)
    requires i < |results| && forall j, k :: 0 <= j < k < |results| ==> results[j].peer != results[k].peer
    ensures var r := results[i];
            var s, s' := PeerOf(e, r.peer), PeerOf(Run(e, Events(results)), r.peer);
            && (r.valid && 0 < r.forwardDelay ==>
                  && s'.failures == 0
                  && s'.track.forwardDelay == Smooth(s.track.forwardDelay, r.forwardDelay, e.params.alpha)
                  && s'.track.rtt == Smooth(s.track.rtt, r.rtt, e.params.alpha))
            && (!r.valid ==> s'.failures == s.failures + 1 && s'.track == s.track)
            && s'.staticCost == s.staticCost && s'.fallbackCost == s.fallbackCost && s'.bandwidthPenalty == s.bandwidthPenalty
  {
    RoundTouches(e, results, i);
    RecordedOnce(e.params, PeerOf(e, results[i].peer), results[i]);
  }

  lemma RoundTouches(e: EngineState, results: seq<ProbeResult>, i: nat)
    requires i < |results| && forall j, k :: 0 <= j < k < |results| ==> results[j].peer != results[k].peer
    ensures PeerOf(Run(e, Events(results)), results[i].peer)
            == Touch(e.params, PeerOf(e, results[i].peer), EventOf(results[i]))
  {
    var evs := Events(results);
    assert OneEach(evs);
    PeerInRound(e, evs, results[i].peer);
    assert evs[i] == EventOf(results[i]) && evs[i] in evs;
  }

  lemma RecordedOnce(params: Params, s: PeerState, r: ProbeResult)
    ensures var s' := Touch(params, s, EventOf(r));
            && (r.valid && 0 < r.forwardDelay ==>
                  && s'.failures == 0
                  && s'.track.forwardDelay == Smooth(s.track.forwardDelay, r.forwardDelay, params.alpha)
                  && s'.track.rtt == Smooth(s.track.rtt, r.rtt, params.alpha))
            && (!r.valid ==> s'.failures == s.failures + 1 && s'.track == s.track)
            && s'.staticCost == s.staticCost && s'.fallbackCost == s.fallbackCost && s'.bandwidthPenalty == s.bandwidthPenalty
  {
  }

  lemma {:induction false} RaisesInRound(e: EngineState, evs: seq<Event>)
    requires OneEach(evs)
    ensures AnyRaises(e, evs) <==> exists ev :: ev in evs && Raises(e, ev)
    decreases |evs|
  {
    if evs != [] {
      var init, ev := Init(evs), Last(evs);
      InitAndLast(evs);
      OneEachInit(evs);
      RaisesInRound(e, init);
      PeerInRound(e, init, ev.peer);
      SameRaises(e, Run(e, init), ev);
    }
  }

  /** Whether an event raises depends on the parameters and on its own peer alone. */
  lemma SameRaises(e: EngineState, e': EngineState, ev: Event)
    requires !ev.UpdateConfig? && e'.params == e.params && PeerOf(e', ev.peer) == PeerOf(e, ev.peer)
    ensures Raises(e', ev) == Raises(e, ev)
  {
  }

  lemma {:induction false} RoundConfluent(e: EngineState, evs: seq<Event>, evs': seq<Event>)
    requires OneEach(evs) && OneEach(evs') && (forall ev :: ev in evs <==> ev in evs')
    ensures Run(e, evs) == Run(e, evs')
    ensures AnyRaises(e, evs) == AnyRaises(e, evs')
  {
    var r, r' := Run(e, evs), Run(e, evs');
    forall p
      ensures PeerOf(r, p) == PeerOf(r', p) && (p in r.peers <==> p in r'.peers)
    {
      PeerInRound(e, evs, p);
      PeerInRound(e, evs', p);
      if !Silent(evs, p) {
        var ev :| ev in evs && !ev.UpdateConfig? && ev.peer == p;
      }
    }
    assert r.params == r'.params by {
      PeerInRound(e, evs, "");
      PeerInRound(e, evs', "");
    }
    SameState(r, r');
    RaisesInRound(e, evs);
    RaisesInRound(e, evs');
  }

  lemma SameState(e: EngineState, e': EngineState)
    requires e.params == e'.params
    requires forall p :: PeerOf(e, p) == PeerOf(e', p) && (p in e.peers <==> p in e'.peers)
    ensures e == e'
  {
    forall p | p in e.peers
      ensures e.peers[p] == e'.peers[p]
    {
      assert PeerOf(e, p) == PeerOf(e', p);
    }
    assert e.peers.Keys == e'.peers.Keys;
    assert e.peers == e'.peers;
  }

  /**
   * Confluence: with one result for each probed peer, the order in which the results arrive
   * changes neither the engine state nor whether the round reports a change.
   */
  lemma ArrivalOrderIrrelevant(e: EngineState, results: seq<ProbeResult>, results': seq<ProbeResult>)
    requires multiset(results) == multiset(results')
    requires forall i, j :: 0 <= i < j < |results| ==> results[i].peer != results[j].peer
    ensures Run(e, Events(results)) == Run(e, Events(results'))
    ensures AnyRaises(e, Events(results)) == AnyRaises(e, Events(results'))
  {
    PermutationStaysDistinct(results, results');
    forall i, j | 0 <= i < j < |results'|
      ensures results'[i].peer != results'[j].peer
    {
      assert results'[i] in results && results'[j] in results && results'[i] != results'[j];
    }
    SameEvents(results, results');
    RoundConfluent(e, Events(results), Events(results'));
  }

  lemma SameEvents(results: seq<ProbeResult>, results': seq<ProbeResult>)
    requires forall r :: r in results <==> r in results'
    ensures forall ev :: ev in Events(results) <==> ev in Events(results')
  {
    forall ev
      ensures ev in Events(results) <==> exists r :: r in results && EventOf(r) == ev
      ensures ev in Events(results') <==> exists r :: r in results' && EventOf(r) == ev
    {
      EventsAreOfResults(results, ev);
      EventsAreOfResults(results', ev);
    }
  }

  lemma EventsAreOfResults(results: seq<ProbeResult>, ev: Event)
    ensures ev in Events(results) <==> exists r :: r in results && EventOf(r) == ev
  {
    if ev in Events(results) {
      var i :| 0 <= i < |results| && Events(results)[i] == ev;
      assert results[i] in results && EventOf(results[i]) == ev;
    }
    if r :| r in results && EventOf(r) == ev {
      var i :| 0 <= i < |results| && results[i] == r;
      assert Events(results)[i] == ev;
    }
  }
}
