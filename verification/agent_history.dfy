/** The agent over whole histories: syncs write the generated file back, reporting rounds edit it. */
module AgentHistory {
  import opened Prelude
  import opened CostBands
  import opened CostTracks
  import opened CostModel
  import opened CostEngine
  import opened CostRuns
  import opened ProbeProtocol
  import opened ProbeRound
  import opened BirdRewriter
  import opened BirdTemplate
  import opened Mesh
  import opened AgentCosts
  import opened AgentRounds

  /** A sync with both generated files, or a round with its results. */
  datatype Action = Sync(config: CostConfig, data: BirdData) | Round(results: seq<ProbeResult>)

  datatype Agent = Agent(engine: EngineState, ifaces: map<string, string>, file: string)

  predicate Reports(a: Agent, act: Action) {
    act.Round? && AnyRaises(a.engine, Events(act.results))
  }

  ghost predicate Acts(a: Agent, act: Action, a': Agent) {
    match act
    case Sync(config, data) =>
      a' == Agent(Run(a.engine, SyncEvents(config)), IfacesAfter(a.ifaces, config.peers), Render(data))
    case Round(results) =>
      a'.engine == Run(a.engine, Events(results)) && a'.ifaces == a.ifaces
      && FileAfter(a.engine, results, a.ifaces, a.file, a'.file)
  }

  /** A sync: the generated file is put in place unless it is there already, then the engine is told. */
  method DoConfigSync(engine: Engine, config: CostConfig, ifaces: map<string, string>, generated: string, file: string)
    returns (peerIfaces: map<string, string>, after: string)
    requires engine.Valid()
    modifies engine, engine.state.Values
    ensures engine.Valid() && fresh(engine.state.Values - old(engine.state.Values))
    ensures forall data :: generated == Render(data) ==>
              Acts(Agent(old(engine.Abs()), ifaces, file), Sync(config, data), Agent(engine.Abs(), peerIfaces, after))
  {
    after := if file == generated then file else generated;
    peerIfaces := SyncCosts(engine, config, ifaces);
  }

  /** States that follow from one another by the actions. */
  ghost predicate IsHistory(agents: seq<Agent>, acts: seq<Action>) {
    |agents| == |acts| + 1 && forall i {:trigger acts[i]} :: 0 <= i < |acts| ==> Acts(agents[i], acts[i], agents[i + 1])
  }

  /** Action k is a sync, and all after it before n are rounds. */
  predicate LastSync(acts: seq<Action>, k: nat, n: nat) {
    k < n <= |acts| && acts[k].Sync? && forall i :: k < i < n ==> acts[i].Round?
  }

  function AsGenerated(d: BirdData): string -> uint32 {
    p => PeerCost(d, p)
  }

  /** Action m is the last before n to report, or the sync k itself if none did since. */
  predicate LastReport(agents: seq<Agent>, acts: seq<Action>, k: nat, m: nat, n: nat)
    requires |agents| == |acts| + 1 && n <= |acts|
  {
    k <= m < n && (m == k || Reports(agents[m], acts[m])) && forall i :: m < i < n ==> !Reports(agents[i], acts[i])
  }

  lemma {:induction false} SomeLastReport(agents: seq<Agent>, acts: seq<Action>, k: nat, n: nat) returns (m: nat)
    requires |agents| == |acts| + 1 && k < n <= |acts|
    ensures LastReport(agents, acts, k, m, n)
    decreases n
  {
    if n == k + 1 || Reports(agents[n - 1], acts[n - 1]) {
      m := n - 1;
    } else {
      m := SomeLastReport(agents, acts, k, n - 1);
    }
  }

  /** A generated file shows the generated costs. */
  lemma GeneratedCosts(d: BirdData)
    requires FieldsOneLine(d)
    ensures Render(d) == Render(WithCosts(d, AsGenerated(d)))
  {
    EditShows(d, map[], AsGenerated(d));
    ReplaceNothing(Render(d));
  }

  /** The agent knows the interfaces in the file of its last sync, and none of them is shared. */
  predicate Fits(a: Agent, d: BirdData) {
    FieldsOneLine(d) && Knows(a.ifaces, d) && Unshared(a.ifaces, d)
  }

  /** Rounds leave the interfaces alone. */
  lemma {:induction false} IfacesSinceSync(agents: seq<Agent>, acts: seq<Action>, k: nat, n: nat)
    requires IsHistory(agents, acts) && LastSync(acts, k, n)
    ensures agents[n].ifaces == agents[k + 1].ifaces
    decreases n
  {
    if k + 1 < n {
      IfacesSinceSync(agents, acts, k, n - 1);
      assert Acts(agents[n - 1], acts[n - 1], agents[n]);
    }
  }

  /** The data's file, with some costs or others. */
  ghost predicate IsFileOf(d: BirdData, file: string) {
    exists cost: string -> uint32 :: file == Render(WithCosts(d, cost))
  }

  lemma SyncedFile(a: Agent, act: Action, a': Agent)
    requires act.Sync? && Acts(a, act, a') && FieldsOneLine(act.data)
    ensures a'.file == Render(act.data) && IsFileOf(act.data, a'.file)
  {
    GeneratedCosts(act.data);
  }

  lemma SilentFile(a: Agent, act: Action, a': Agent)
    requires act.Round? && Acts(a, act, a') && !Reports(a, act)
    ensures a'.file == a.file
  {
  }

  lemma ReportedFile(d: BirdData, a: Agent, act: Action, a': Agent)
    requires act.Round? && Acts(a, act, a') && Reports(a, act) && Fits(a, d) && IsFileOf(d, a.file)
    ensures a'.file == Current(d, a'.engine) && IsFileOf(d, Current(d, a'.engine))
  {
    var shown: string -> uint32 :| a.file == Render(WithCosts(d, shown));
    ReportedRoundIsCurrent(d, shown, a.engine, a.ifaces, act.results, a'.file);
  }

  /** Silent rounds leave the file alone. */
  lemma {:induction false} SilentStretch(agents: seq<Agent>, acts: seq<Action>, m: nat, n: nat)
    requires IsHistory(agents, acts) && m < n <= |acts|
    requires forall i :: m < i < n ==> acts[i].Round? && !Reports(agents[i], acts[i])
    ensures agents[n].file == agents[m + 1].file
    decreases n
  {
    if m + 1 < n {
      SilentStretch(agents, acts, m, n - 1);
      SilentNext(agents, acts, n - 1);
    }
  }

  lemma SilentNext(agents: seq<Agent>, acts: seq<Action>, i: nat)
    requires IsHistory(agents, acts) && i < |acts| && acts[i].Round? && !Reports(agents[i], acts[i])
    ensures agents[i + 1].file == agents[i].file
  {
    ActsAt(agents, acts, i);
    SilentFile(agents[i], acts[i], agents[i + 1]);
  }

  /** Since a sync the file has been that of the sync with some costs or others. */
  lemma {:induction false} StaysFileOf(d: BirdData, agents: seq<Agent>, acts: seq<Action>, k: nat, n: nat)
    requires IsHistory(agents, acts) && LastSync(acts, k, n)
    requires Fits(agents[k + 1], d) && IsFileOf(d, agents[k + 1].file)
    ensures IsFileOf(d, agents[n].file) && Fits(agents[n], d)
    decreases n
  {
    if k + 1 < n {
      StaysFileOf(d, agents, acts, k, n - 1);
      IfacesSinceSync(agents, acts, k, n);
      IfacesSinceSync(agents, acts, k, n - 1);
      ActsAt(agents, acts, n - 1);
      RoundKeepsFileOf(d, agents[n - 1], acts[n - 1], agents[n]);
    }
  }

  lemma RoundKeepsFileOf(d: BirdData, a: Agent, act: Action, a': Agent)
    requires act.Round? && Acts(a, act, a') && Fits(a, d) && IsFileOf(d, a.file)
    ensures IsFileOf(d, a'.file)
  {
    if Reports(a, act) {
      ReportedFile(d, a, act, a');
    } else {
      SilentFile(a, act, a');
    }
  }

  /** Until a round reports the file is the generated one, ... */
  lemma {:induction false} SilentSinceSync(agents: seq<Agent>, acts: seq<Action>, k: nat, n: nat)
    requires IsHistory(agents, acts) && LastSync(acts, k, n) && FieldsOneLine(acts[k].data)
    requires forall i :: k < i < n ==> !Reports(agents[i], acts[i])
    ensures agents[n].file == Render(acts[k].data)
  {
    SilentStretch(agents, acts, k, n);
    ActsAt(agents, acts, k);
    SyncedFile(agents[k], acts[k], agents[k + 1]);
  }

  /** ... and with the report it becomes current. */
  lemma {:induction false} CurrentAfterReport(agents: seq<Agent>, acts: seq<Action>, k: nat, n: nat)
    requires IsHistory(agents, acts) && LastSync(acts, k, n + 1) && Fits(agents[k + 1], acts[k].data)
    requires k < n && Reports(agents[n], acts[n])
    ensures agents[n + 1].file == Current(acts[k].data, agents[n + 1].engine)
  {
    ActsAt(agents, acts, k);
    SyncedFile(agents[k], acts[k], agents[k + 1]);
    FileAfterReport(acts[k].data, agents, acts, k, n);
  }

  lemma {:induction false} FileAfterReport(d: BirdData, agents: seq<Agent>, acts: seq<Action>, k: nat, n: nat)
    requires IsHistory(agents, acts) && LastSync(acts, k, n + 1)
    requires Fits(agents[k + 1], d) && IsFileOf(d, agents[k + 1].file)
    requires k < n && Reports(agents[n], acts[n])
    ensures agents[n + 1].file == Current(d, agents[n + 1].engine)
  {
    StaysFileOf(d, agents, acts, k, n);
    ActsAt(agents, acts, n);
    ReportedFile(d, agents[n], acts[n], agents[n + 1]);
  }

  /**
   * What the file shows at any time, whatever happened before the last sync: the file of that sync,
   * with the costs as of the last round since then that reported a change, or as generated if none did.
   */
  lemma {:induction false} FileOverHistory(agents: seq<Agent>, acts: seq<Action>, k: nat, m: nat, n: nat)
    requires IsHistory(agents, acts) && LastSync(acts, k, n) && Fits(agents[k + 1], acts[k].data)
    requires LastReport(agents, acts, k, m, n)
    ensures agents[n].file == if m == k then Render(acts[k].data) else Current(acts[k].data, agents[m + 1].engine)
  {
    SilentStretch(agents, acts, m, n);
    if m == k {
      SilentSinceSync(agents, acts, k, n);
    } else {
      CurrentAfterReport(agents, acts, k, m);
    }
  }

  lemma ActsAt(agents: seq<Agent>, acts: seq<Action>, i: nat)
    requires IsHistory(agents, acts) && i < |acts|
    ensures Acts(agents[i], acts[i], agents[i + 1])
  {
  }

  /** So it is current exactly if every printed peer costs what it did at that report or generation. */
  lemma {:induction false} FileIsCurrentIff(agents: seq<Agent>, acts: seq<Action>, k: nat, m: nat, n: nat)
    requires IsHistory(agents, acts) && LastSync(acts, k, n) && Fits(agents[k + 1], acts[k].data)
    requires LastReport(agents, acts, k, m, n)
    ensures agents[n].file == Current(acts[k].data, agents[n].engine)
            <==> forall p :: p in Peers(acts[k].data) ==>
                   CurrentCost(agents[n].engine, p)
                   == if m == k then PeerCost(acts[k].data, p) else CurrentCost(agents[m + 1].engine, p)
  {
    var d, e := acts[k].data, agents[n].engine;
    FileOverHistory(agents, acts, k, m, n);
    if m == k {
      GeneratedIsCurrentIff(d, e);
    } else {
      RenderShowsCosts(d, CurrentCosts(agents[m + 1].engine), CurrentCosts(e));
    }
  }

  lemma {:induction false} GeneratedIsCurrentIff(d: BirdData, e: EngineState)
    requires FieldsOneLine(d)
    ensures Render(d) == Current(d, e) <==> forall p :: p in Peers(d) ==> CurrentCost(e, p) == PeerCost(d, p)
  {
    GeneratedCosts(d);
    RenderShowsCosts(d, AsGenerated(d), CurrentCosts(e));
  }

  /**
   * A sync puts the generated costs back: the file is then current exactly if every printed peer
   * happens to cost what was generated for it.
   */
  lemma {:induction false} SyncIsCurrentIff(a: Agent, config: CostConfig, d: BirdData, a': Agent)
    requires Acts(a, Sync(config, d), a') && FieldsOneLine(d)
    ensures a'.file == Current(d, a'.engine)
            <==> forall p :: p in Peers(d) ==> CurrentCost(a'.engine, p) == PeerCost(d, p)
  {
    GeneratedIsCurrentIff(d, a'.engine);
  }

  // ---------------------------------------------------------------- inputs on the failing sides

  /** A node "a" with one link, to "b". */
  function OneLink(iface: string): BirdData {
    BirdData(Remarks([], [], [], [], []), "a", "10.0.0.1", "t4", "t6", "0", 1, 4,
             [Link("a", "b", Fe80, None, None)], [Link("a", "b", Fe80, None, None)], [],
             map["b" := DEFAULT_DYNAMIC_COST], map["b" := iface])
  }

  /** An engine that has heard from "b" once, at the lowest band. */
  function HeardOnce(): EngineState {
    Run(InitialState(Params([Band(0, 0, 20, 5)], 65535, Fraction(3, 10), 3)), [Success("b", Sample(1, 2))])
  }

  lemma HeardOnceCosts()
    ensures CurrentCost(HeardOnce(), "b") == 20 && CurrentCost(HeardOnce(), "old") == 65535
  {
    RunSnoc(InitialState(Params([Band(0, 0, 20, 5)], 65535, Fraction(3, 10), 3)), [], Success("b", Sample(1, 2)));
  }

  lemma OneLinkPeers(iface: string)
    ensures Peers(OneLink(iface)) == {"b"} && FieldsOneLine(OneLink("igp-b"))
    ensures PeerCost(OneLink(iface), "b") == 100 && PeerIface(OneLink(iface), "b") == iface
  {
    var d := OneLink(iface);
    assert d.links[0] in d.links && d.links[0].PeerName("a") == "b";
  }

  /** A sync that changes nothing in the configuration takes the cost of "b" in the file from 20 to 100. */
  lemma {:induction false} SyncForgetsCosts(a: Agent, a': Agent)
    requires a == Agent(HeardOnce(), map["b" := "igp-b"], Current(OneLink("igp-b"), HeardOnce()))
    requires Acts(a, Sync(CostConfig([], [], 0, Fraction(0, 1), 0), OneLink("igp-b")), a')
    ensures a'.engine == a.engine && a'.ifaces == a.ifaces && a'.file != Current(OneLink("igp-b"), a'.engine)
  {
    var config := CostConfig([], [], 0, Fraction(0, 1), 0);
    assert SyncEvents(config) == [];
    HeardOnceCosts();
    OneLinkPeers("igp-b");
    SyncIsCurrentIff(a, config, OneLink("igp-b"), a');
  }

  /** A peer that a later configuration drops keeps its interface, and can take another's cost. */
  lemma StaleIfaceSpoils()
    ensures var gone := PeerConfig("old", "igp-b", false, None, 0);
            var ifaces := IfacesAfter(IfacesAfter(map[], [gone]), [gone.(name := "b")]);
            Knows(ifaces, OneLink("igp-b")) && !SharersAgree(OneLink("igp-b"), HeardOnce(), ifaces)
  {
    var gone := PeerConfig("old", "igp-b", false, None, 0);
    IfacesAfterOne(map[], gone);
    IfacesAfterOne(map["old" := "igp-b"], gone.(name := "b"));
    HeardOnceCosts();
    OneLinkPeers("igp-b");
  }

  lemma IfacesAfterOne(ifaces: map<string, string>, p: PeerConfig)
    requires p.iface != ""
    ensures IfacesAfter(ifaces, [p]) == ifaces[p.name := p.iface]
  {
    assert [p][..0] == [];
  }
}
