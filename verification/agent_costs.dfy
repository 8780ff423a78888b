/** The agent between engine and BIRD: configuration sync into the engine, engine costs into the text. */
module AgentCosts {
  import opened Prelude
  import opened CostBands
  import opened CostModel
  import opened CostEngine
  import opened CostRuns
  import opened BirdRewriter
  import opened BirdTemplate
  import opened Generator
  import opened Inventory
  import opened Mesh

  // ---------------------------------------------------------------- configuration sync

  datatype PeerConfig = PeerConfig(name: string, iface: string, isStatic: bool, staticCost: Option<uint32>,
                                   bandwidthPenalty: uint32)

  /** The cost settings of a fetched configuration; zero stands for "not given". */
  datatype CostConfig = CostConfig(peers: seq<PeerConfig>, bands: Bands, penaltyCost: uint32, alpha: Alpha, failThreshold: int)

  const DEFAULT_PENALTY: uint32 := 65535
  const DEFAULT_ALPHA: Alpha := Fraction(3, 10)
  const DEFAULT_FAIL_THRESHOLD := 3

  /** What a synced peer does to the engine: a static cost, or else a fallback, and a penalty if there is one. */
  function PeerEvents(p: PeerConfig): seq<Event> {
    (if p.staticCost.None? then []
     else if p.isStatic then [Event.SetStaticCost(p.name, p.staticCost.value)]
     else [Event.SetFallbackCost(p.name, p.staticCost.value)])
    + (if 0 < p.bandwidthPenalty then [Event.SetBandwidthPenalty(p.name, p.bandwidthPenalty)] else [])
  }

  function PeersEvents(peers: seq<PeerConfig>): seq<Event> {
    if peers == [] then [] else PeersEvents(peers[..|peers| - 1]) + PeerEvents(peers[|peers| - 1])
  }

  function ParamsOf(c: CostConfig): Params {
    Params(c.bands, if c.penaltyCost == 0 then DEFAULT_PENALTY else c.penaltyCost,
           if c.alpha.num == 0 then DEFAULT_ALPHA else c.alpha,
           if c.failThreshold == 0 then DEFAULT_FAIL_THRESHOLD else c.failThreshold)
  }

  function SyncEvents(c: CostConfig): seq<Event> {
    PeersEvents(c.peers) + if c.bands == [] then [] else [Event.UpdateConfig(ParamsOf(c))]
  }

  lemma {:induction false} RunAppend(e: EngineState, a: seq<Event>, b: seq<Event>)
    ensures Run(e, a + b) == Run(Run(e, a), b)
    decreases |b|
  {
    if b == [] {
      assert a + b == a;
    } else {
      RunAppend(e, a, Init(b));
      assert Init(a + b) == a + Init(b) && Last(a + b) == Last(b);
    }
  }

  lemma RunOne(e: EngineState, ev: Event)
    ensures Run(e, [ev]) == Step(e, ev)
  {
    assert [ev][..0] == [];
  }

  /** One peer's settings. */
  method SyncPeer(engine: Engine, p: PeerConfig)
    requires engine.Valid()
    modifies engine`state, engine.state.Values
    ensures engine.Valid() && fresh(engine.state.Values - old(engine.state.Values))
    ensures engine.Abs() == Run(old(engine.Abs()), PeerEvents(p))
  {
    ghost var before := engine.Abs();
    ghost var setting := PeerEvents(p.(bandwidthPenalty := 0));
    if p.isStatic && p.staticCost.Some? {
      engine.SetStaticCost(p.name, p.staticCost.value);
      RunOne(before, Event.SetStaticCost(p.name, p.staticCost.value));
    } else if p.staticCost.Some? {
      engine.SetFallbackCost(p.name, p.staticCost.value);
      RunOne(before, Event.SetFallbackCost(p.name, p.staticCost.value));
    }
    assert engine.Abs() == Run(before, setting);
    ghost var between := engine.Abs();
    if 0 < p.bandwidthPenalty {
      engine.SetBandwidthPenalty(p.name, p.bandwidthPenalty);
      ghost var ev := Event.SetBandwidthPenalty(p.name, p.bandwidthPenalty);
      RunOne(between, ev);
      RunAppend(before, setting, [ev]);
      assert PeerEvents(p) == setting + [ev];
    } else {
      assert PeerEvents(p) == setting;
    }
  }

  /** The interfaces known after a sync: later entries win, old ones are never cleared. */
  function IfacesAfter(ifaces: map<string, string>, peers: seq<PeerConfig>): map<string, string> {
    if peers == [] then ifaces
    else
      var p, earlier := peers[|peers| - 1], IfacesAfter(ifaces, peers[..|peers| - 1]);
      if p.iface != "" then earlier[p.name := p.iface] else earlier
  }

  method SyncPeers(engine: Engine, peers: seq<PeerConfig>, ifaces: map<string, string>) returns (peerIfaces: map<string, string>)
    requires engine.Valid()
    modifies engine`state, engine.state.Values
    ensures engine.Valid() && fresh(engine.state.Values - old(engine.state.Values))
    ensures engine.Abs() == Run(old(engine.Abs()), PeersEvents(peers))
    ensures peerIfaces == IfacesAfter(ifaces, peers)
  {
    ghost var before := engine.Abs();
    peerIfaces := ifaces;
    for i := 0 to |peers|
      invariant engine.Valid() && fresh(engine.state.Values - old(engine.state.Values))
      invariant engine.Abs() == Run(before, PeersEvents(peers[..i]))
      invariant peerIfaces == IfacesAfter(ifaces, peers[..i])
    {
      var p := peers[i];
      assert peers[..i + 1][..i] == peers[..i];
      if p.iface != "" {
        peerIfaces := peerIfaces[p.name := p.iface];
      }
      SyncPeer(engine, p);
      RunAppend(before, PeersEvents(peers[..i]), PeerEvents(p));
    }
    assert peers[..|peers|] == peers;
  }

  /** A sync is a run of settings and, if the configuration has bands, one reload at the end. */
  method SyncCosts(engine: Engine, c: CostConfig, ifaces: map<string, string>) returns (peerIfaces: map<string, string>)
    requires engine.Valid()
    modifies engine, engine.state.Values
    ensures engine.Valid() && fresh(engine.state.Values - old(engine.state.Values))
    ensures engine.Abs() == Run(old(engine.Abs()), SyncEvents(c))
    ensures peerIfaces == IfacesAfter(ifaces, c.peers)
  {
    ghost var before, settings := engine.Abs(), PeersEvents(c.peers);
    peerIfaces := SyncPeers(engine, c.peers, ifaces);
    if 0 < |c.bands| {
      var penaltyCost := if c.penaltyCost == 0 then DEFAULT_PENALTY else c.penaltyCost;
      var alpha := if c.alpha.num == 0 then DEFAULT_ALPHA else c.alpha;
      var failThreshold := if c.failThreshold == 0 then DEFAULT_FAIL_THRESHOLD else c.failThreshold;
      engine.UpdateConfig(c.bands, penaltyCost, alpha, failThreshold);
      RunOne(Run(before, settings), Event.UpdateConfig(ParamsOf(c)));
      RunAppend(before, settings, [Event.UpdateConfig(ParamsOf(c))]);
    } else {
      assert SyncEvents(c) == settings;
    }
  }

  /** What a sync sets of a peer it names, and that it sets nothing else of it. */
  ghost predicate SetBy(p: PeerConfig, s: PeerState, s': PeerState) {
    && s'.staticCost == (if p.isStatic && p.staticCost.Some? then p.staticCost else s.staticCost)
    && s'.fallbackCost == (if !p.isStatic && p.staticCost.Some? then p.staticCost else s.fallbackCost)
    && s'.bandwidthPenalty == (if 0 < p.bandwidthPenalty then p.bandwidthPenalty else s.bandwidthPenalty)
    && s'.failures == s.failures
  }

  lemma {:induction false} OneSynced(e: EngineState, p: PeerConfig, q: string)
    ensures var e' := Run(e, PeerEvents(p));
            && e'.params == e.params && PeerOf(e', q).track == PeerOf(e, q).track
            && (if q == p.name then SetBy(p, PeerOf(e, q), PeerOf(e', q)) else PeerOf(e', q) == PeerOf(e, q))
  {
    CostSynced(e, p, q);
    PenaltySynced(e, p, q);
  }

  /** Its cost first, ... */
  lemma {:induction false} CostSynced(e: EngineState, p: PeerConfig, q: string)
    ensures var e' := Run(e, PeerEvents(p.(bandwidthPenalty := 0)));
            && e'.params == e.params && PeerOf(e', q).track == PeerOf(e, q).track
            && (if q == p.name then SetBy(p.(bandwidthPenalty := 0), PeerOf(e, q), PeerOf(e', q))
                else PeerOf(e', q) == PeerOf(e, q))
  {
    var cost := PeerEvents(p.(bandwidthPenalty := 0));
    if cost != [] {
      RunOne(e, cost[0]);
      assert cost == [cost[0]];
      StepIsLocal(e, cost[0], q);
    }
  }

  /** ... then its penalty. */
  lemma {:induction false} PenaltySynced(e: EngineState, p: PeerConfig, q: string)
    ensures var e1, e' := Run(e, PeerEvents(p.(bandwidthPenalty := 0))), Run(e, PeerEvents(p));
            && e'.params == e1.params
            && PeerOf(e', q) == if q == p.name && 0 < p.bandwidthPenalty
                                then PeerOf(e1, q).(bandwidthPenalty := p.bandwidthPenalty) else PeerOf(e1, q)
  {
    var cost, ev := PeerEvents(p.(bandwidthPenalty := 0)), Event.SetBandwidthPenalty(p.name, p.bandwidthPenalty);
    PenaltyLast(p);
    if 0 < p.bandwidthPenalty {
      RunAppend(e, cost, [ev]);
      RunOne(Run(e, cost), ev);
      PenaltyStep(Run(e, cost), p.name, p.bandwidthPenalty, q);
    }
  }

  lemma PenaltyLast(p: PeerConfig)
    ensures var cost := PeerEvents(p.(bandwidthPenalty := 0));
            PeerEvents(p) == if 0 < p.bandwidthPenalty then cost + [Event.SetBandwidthPenalty(p.name, p.bandwidthPenalty)] else cost
  {
  }

  lemma PenaltyStep(e: EngineState, name: string, penalty: uint32, q: string)
    ensures var e' := Step(e, Event.SetBandwidthPenalty(name, penalty));
            && e'.params == e.params
            && PeerOf(e', q) == if q == name then PeerOf(e, q).(bandwidthPenalty := penalty) else PeerOf(e, q)
  {
  }

  /** No peer is named twice. */
  predicate NamedOnce(peers: seq<PeerConfig>) {
    forall i, j :: 0 <= i < j < |peers| ==> peers[i].name != peers[j].name
  }

  lemma {:induction false} PeersSynced(e: EngineState, peers: seq<PeerConfig>, q: string)
    requires NamedOnce(peers)
    ensures var e' := Run(e, PeersEvents(peers));
            && e'.params == e.params && PeerOf(e', q).track == PeerOf(e, q).track
            && (forall p :: p in peers && p.name == q ==> SetBy(p, PeerOf(e, q), PeerOf(e', q)))
            && ((forall p :: p in peers ==> p.name != q) ==> PeerOf(e', q) == PeerOf(e, q))
    decreases |peers|
  {
    if peers != [] {
      var init, last := peers[..|peers| - 1], peers[|peers| - 1];
      assert peers == init + [last];
      PeersSynced(e, init, q);
      RunAppend(e, PeersEvents(init), PeerEvents(last));
      OneSynced(Run(e, PeersEvents(init)), last, q);
    }
  }

  /**
   * What a sync does to the engine: a named peer in static mode gets its static cost, in the other mode
   * the same as a fallback, and a penalty if there is one; peers not named keep all that; and with
   * bands in the configuration all its parameters are in force, zeros replaced by 65535, 3/10 and 3.
   */
  lemma {:induction false} SyncSets(e: EngineState, c: CostConfig, q: string)
    requires NamedOnce(c.peers)
    ensures var e' := Run(e, SyncEvents(c));
            && (forall p :: p in c.peers && p.name == q ==> SetBy(p, PeerOf(e, q), PeerOf(e', q)))
            && ((forall p :: p in c.peers ==> p.name != q) ==>
                  && PeerOf(e', q).staticCost == PeerOf(e, q).staticCost
                  && PeerOf(e', q).fallbackCost == PeerOf(e, q).fallbackCost
                  && PeerOf(e', q).bandwidthPenalty == PeerOf(e, q).bandwidthPenalty
                  && PeerOf(e', q).failures == PeerOf(e, q).failures)
            && (c.bands == [] ==> e'.params == e.params)
            && (c.bands != [] ==>
                  && e'.params.bands == c.bands
                  && e'.params.penaltyCost == (if c.penaltyCost == 0 then 65535 else c.penaltyCost)
                  && e'.params.alpha == (if c.alpha.num == 0 then Fraction(3, 10) else c.alpha)
                  && e'.params.failureLimit == (if c.failThreshold == 0 then 3 else c.failThreshold))
  {
    PeersSynced(e, c.peers, q);
    var e1 := Run(e, PeersEvents(c.peers));
    if c.bands != [] {
      RunAppend(e, PeersEvents(c.peers), [Event.UpdateConfig(ParamsOf(c))]);
      RunOne(e1, Event.UpdateConfig(ParamsOf(c)));
      StepIsLocal(e1, Event.UpdateConfig(ParamsOf(c)), q);
    } else {
      assert SyncEvents(c) == PeersEvents(c.peers);
    }
  }

  /** No sync ever leaves the engine without bands, whatever it fetched. */
  lemma SyncKeepsBands(c: CostConfig)
    ensures forall ev :: ev in SyncEvents(c) && ev.UpdateConfig? ==> ev.params == ParamsOf(c) && c.bands != []
  {
    SettingsOnly(c.peers);
  }

  lemma {:induction false} SettingsOnly(peers: seq<PeerConfig>)
    ensures NoReload(PeersEvents(peers))
  {
    if peers != [] {
      SettingsOnly(peers[..|peers| - 1]);
    }
  }

  // ---------------------------------------------------------------- engine costs into the text

  /** Every interface of a known peer has an entry, and it is the current cost of a peer that has the interface. */
  ghost predicate IsCostMap(e: EngineState, ifaces: map<string, string>, costs: CostMap) {
    && (forall p :: p in ifaces ==> ifaces[p] in costs)
    && (forall i :: i in costs ==> exists p :: p in ifaces && ifaces[p] == i && costs[i] == CurrentCost(e, p))
  }

  /** The map is filled in whatever order the peers come. */
  method BuildCostMap(engine: Engine, ifaces: map<string, string>) returns (costMap: CostMap)
    requires engine.Valid()
    ensures IsCostMap(engine.Abs(), ifaces, costMap)
  {
    costMap := map[];
    var todo := ifaces.Keys;
    while todo != {}
      invariant todo <= ifaces.Keys
      invariant forall p :: p in ifaces.Keys - todo ==> ifaces[p] in costMap
      invariant forall i :: i in costMap ==>
                  exists p :: p in ifaces && ifaces[p] == i && costMap[i] == CurrentCost(engine.Abs(), p)
    {
      var peer :| peer in todo;
      var cost := engine.CurrentCost(peer);
      costMap := costMap[ifaces[peer] := cost];
      todo := todo - {peer};
    }
  }

  /** The edit of the include file; nothing is written when no interface is known or nothing changes. */
  method ApplyDynamicCosts(engine: Engine, ifaces: map<string, string>, data: string) returns (written: Option<string>)
    requires engine.Valid()
    ensures exists costs :: IsCostMap(engine.Abs(), ifaces, costs)
              && var updated := ReplaceCosts(data, costs);
                 written == if costs == map[] || updated == data then None else Some(updated)
  {
    var costMap := BuildCostMap(engine, ifaces);
    if |costMap| == 0 {
      return None;
    }
    var updated := ReplaceBIRDCosts(data, costMap);
    if updated == data {
      return None;
    }
    return Some(updated);
  }

  /** The agent knows the interfaces the text was generated with. */
  predicate Knows(ifaces: map<string, string>, d: BirdData) {
    forall p :: p in Peers(d) ==> PeerIface(d, p) != "" && p in ifaces && ifaces[p] == PeerIface(d, p)
  }

  /** No other peer the agent ever heard of has the interface of one of these. */
  predicate Unshared(ifaces: map<string, string>, d: BirdData) {
    forall p, q :: p in Peers(d) && p in ifaces && q in ifaces && p != q ==> ifaces[p] != ifaces[q]
  }

  /** The collision check at generation time is what makes the names of a node's peers unshared. */
  lemma CheckedNamesAreUnshared(d: BirdData, ifaces: map<string, string>, global: Global, links: seq<Link>, node: Node)
    requires IfacesDistinct(global, links, node)
    requires forall p :: p in ifaces ==> p in PeersOf(links, node.name)
    requires forall p :: p in ifaces ==> ifaces[p] == IfaceNameForPeer(global.wgIfacePrefix, node, p)
    ensures Unshared(ifaces, d)
  {
    var peers := PeersOf(links, node.name);
    forall p, q | p in ifaces && q in ifaces && p != q
      ensures ifaces[p] != ifaces[q]
    {
      var i :| 0 <= i < |peers| && peers[i] == p;
      var j :| 0 <= j < |peers| && peers[j] == q;
      var names := IfacesFor(IfaceNaming(global, node), peers);
      assert names[i] == ifaces[p] && names[j] == ifaces[q];
    }
  }

  /**
   * End to end: where no peer shares its interface, the edited text is what the template prints
   * with the engine's current cost for every peer, so all blocks of a peer show the same cost.
   */
  lemma TextShowsCurrentCosts(d: BirdData, e: EngineState, ifaces: map<string, string>, costs: CostMap)
    requires FieldsOneLine(d) && Knows(ifaces, d) && IsCostMap(e, ifaces, costs)
    requires Unshared(ifaces, d)
    ensures ReplaceCosts(Render(d), costs) == Render(WithCosts(d, CurrentCosts(e)))
  {
    var cost := CurrentCosts(e);
    forall p | p in Peers(d)
      ensures EditedCost(d, costs, p) == cost(p)
    {
      OwnCost(d, e, ifaces, costs, p);
    }
    EditShows(d, costs, cost);
  }

  function CurrentCosts(e: EngineState): string -> uint32 {
    p => CurrentCost(e, p)
  }

  lemma OwnCost(d: BirdData, e: EngineState, ifaces: map<string, string>, costs: CostMap, p: string)
    requires p in Peers(d) && Knows(ifaces, d) && IsCostMap(e, ifaces, costs)
    requires forall q :: q in ifaces && q != p ==> ifaces[q] != ifaces[p]
    ensures EditedCost(d, costs, p) == CurrentCost(e, p)
  {
    assert ifaces[p] in costs;
    var q :| q in ifaces && ifaces[q] == ifaces[p] && costs[ifaces[p]] == CurrentCost(e, q);
  }

  /** Every peer that claims a printed interface costs what the peer printed on it does. */
  predicate SharersAgree(d: BirdData, e: EngineState, ifaces: map<string, string>) {
    forall p, q :: p in Peers(d) && q in ifaces && ifaces[q] == PeerIface(d, p) ==> CurrentCost(e, q) == CurrentCost(e, p)
  }

  /** A peer that has an interface: the given one if it does, else any. */
  ghost function Owner(ifaces: map<string, string>, iface: string, preferred: string): string
    requires iface in ifaces.Values
  {
    if preferred in ifaces && ifaces[preferred] == iface then preferred
    else var p :| p in ifaces && ifaces[p] == iface; p
  }

  /** Of peers that share an interface any may be the one whose cost is written. */
  ghost function CostsPreferring(e: EngineState, ifaces: map<string, string>, preferred: string): (costs: CostMap)
    ensures IsCostMap(e, ifaces, costs)
    ensures preferred in ifaces ==> costs[ifaces[preferred]] == CurrentCost(e, preferred)
  {
    map i | i in ifaces.Values :: CurrentCost(e, Owner(ifaces, i, preferred))
  }

  /** For one cost map: the text shows the current costs exactly if the map has them. */
  lemma {:induction false} TextIsCurrentIff(d: BirdData, e: EngineState, costs: CostMap)
    requires FieldsOneLine(d)
    ensures ReplaceCosts(Render(d), costs) == Render(WithCosts(d, CurrentCosts(e)))
            <==> forall p :: p in Peers(d) ==> EditedCost(d, costs, p) == CurrentCost(e, p)
  {
    var edited := (p: string) => EditedCost(d, costs, p);
    EditShows(d, costs, edited);
    RenderShowsCosts(d, edited, CurrentCosts(e));
  }

  /**
   * Sharing an interface, exactly: the edited text shows the current costs, whatever order the peers
   * come in, if and only if peers that claim a printed interface do not differ in cost.
   */
  lemma {:induction false} TextShowsCurrentCostsIff(d: BirdData, e: EngineState, ifaces: map<string, string>)
    requires FieldsOneLine(d) && Knows(ifaces, d)
    ensures (forall costs :: IsCostMap(e, ifaces, costs)
               ==> ReplaceCosts(Render(d), costs) == Render(WithCosts(d, CurrentCosts(e))))
            <==> SharersAgree(d, e, ifaces)
  {
    if SharersAgree(d, e, ifaces) {
      forall costs | IsCostMap(e, ifaces, costs)
        ensures ReplaceCosts(Render(d), costs) == Render(WithCosts(d, CurrentCosts(e)))
      {
        SharedCosts(d, e, ifaces, costs);
        TextIsCurrentIff(d, e, costs);
      }
    } else {
      var p, q :| p in Peers(d) && q in ifaces && ifaces[q] == PeerIface(d, p) && CurrentCost(e, q) != CurrentCost(e, p);
      var costs := CostsPreferring(e, ifaces, q);
      assert EditedCost(d, costs, p) == CurrentCost(e, q);
      TextIsCurrentIff(d, e, costs);
    }
  }

  lemma SharedCosts(d: BirdData, e: EngineState, ifaces: map<string, string>, costs: CostMap)
    requires Knows(ifaces, d) && SharersAgree(d, e, ifaces) && IsCostMap(e, ifaces, costs)
    ensures forall p :: p in Peers(d) ==> EditedCost(d, costs, p) == CurrentCost(e, p)
  {
  }

  /** An edit of an edited text, as one rendering. */
  lemma EditTwice(d: BirdData, costs1: CostMap, costs2: CostMap)
    requires FieldsOneLine(d)
    ensures ReplaceCosts(ReplaceCosts(Render(d), costs1), costs2)
            == Render(WithCosts(d, p => EditedCost(d, costs1 + costs2, p)))
  {
    ReplaceTwice(Render(d), costs1, costs2);
    EditShows(d, costs1 + costs2, p => EditedCost(d, costs1 + costs2, p));
  }

  /**
   * When a later edit leaves no trace of an earlier one: exactly if each peer's interface is in the
   * later map, or else the earlier edit had written the cost that was there before.
   */
  lemma {:induction false} LaterEditWinsIff(d: BirdData, costs1: CostMap, costs2: CostMap)
    requires FieldsOneLine(d)
    ensures ReplaceCosts(ReplaceCosts(Render(d), costs1), costs2) == ReplaceCosts(Render(d), costs2)
            <==> forall p :: p in Peers(d) ==>
                   PeerIface(d, p) in costs2 || EditedCost(d, costs1, p) == PeerCost(d, p)
  {
    var both, later := (p: string) => EditedCost(d, costs1 + costs2, p), (p: string) => EditedCost(d, costs2, p);
    EditTwice(d, costs1, costs2);
    EditShows(d, costs2, later);
    RenderShowsCosts(d, both, later);
    forall p | p in Peers(d)
      ensures both(p) == later(p) <==> PeerIface(d, p) in costs2 || EditedCost(d, costs1, p) == PeerCost(d, p)
    {
      EditedTwice(d, costs1, costs2, p);
    }
  }

  lemma EditedTwice(d: BirdData, costs1: CostMap, costs2: CostMap, p: string)
    ensures EditedCost(d, costs1 + costs2, p) == EditedCost(d, costs2, p)
            <==> PeerIface(d, p) in costs2 || EditedCost(d, costs1, p) == PeerCost(d, p)
  {
  }

  /**
   * And edits can be repeated for ever: what a later state of the engine writes depends on that state
   * alone, as long as no interface in the file that was known before is forgotten in between.
   */
  lemma {:induction false} LatestCostsWin(d: BirdData, e1: EngineState, ifaces1: map<string, string>, costs1: CostMap,
                       e2: EngineState, ifaces2: map<string, string>, costs2: CostMap)
    requires FieldsOneLine(d) && IsCostMap(e1, ifaces1, costs1) && IsCostMap(e2, ifaces2, costs2)
    requires forall p :: p in Peers(d) && PeerIface(d, p) in ifaces1.Values ==> PeerIface(d, p) in ifaces2.Values
    ensures ReplaceCosts(ReplaceCosts(Render(d), costs1), costs2) == ReplaceCosts(Render(d), costs2)
  {
    forall p | p in Peers(d)
      ensures PeerIface(d, p) in costs2 || EditedCost(d, costs1, p) == PeerCost(d, p)
    {
      if PeerIface(d, p) in costs1 {
        assert PeerIface(d, p) in ifaces1.Values;
        var q :| q in ifaces2 && ifaces2[q] == PeerIface(d, p);
      }
    }
    LaterEditWinsIff(d, costs1, costs2);
  }

  /** A sync forgets no interface unless it moves a peer to another one. */
  lemma {:induction false} SyncKeepsIfaces(ifaces: map<string, string>, peers: seq<PeerConfig>)
    requires forall c :: c in peers && c.iface != "" && c.name in ifaces ==> ifaces[c.name] == c.iface
    ensures forall p :: p in ifaces ==> p in IfacesAfter(ifaces, peers) && IfacesAfter(ifaces, peers)[p] == ifaces[p]
    decreases |peers|
  {
    if peers != [] {
      var n := |peers| - 1;
      assert peers == peers[..n] + [peers[n]];
      SyncKeepsIfaces(ifaces, peers[..n]);
    }
  }
}
