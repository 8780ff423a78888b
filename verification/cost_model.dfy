/** The state of the cost engine as a value, and what each call does to it. */
module CostModel {
  import opened Prelude
  import opened CostBands
  import opened CostTracks
  import Bandwidth

  datatype Params = Params(bands: Bands, penaltyCost: uint32, alpha: Alpha, failureLimit: int)

  datatype PeerState = PeerState(track: Track, failures: nat, staticCost: Option<uint32>,
                                 fallbackCost: Option<uint32>, bandwidthPenalty: uint32)

  const NEW_PEER := PeerState(NEW_TRACK, 0, None, None, 0)

  datatype EngineState = EngineState(params: Params, peers: map<string, PeerState>)

  datatype Event =
    | Success(peer: string, sample: Sample)
    | Failure(peer: string)
    | SetStaticCost(peer: string, cost: uint32)
    | SetFallbackCost(peer: string, cost: uint32)
    | SetBandwidthPenalty(peer: string, penalty: uint32)
    | UpdateConfig(params: Params)

  function InitialState(params: Params): EngineState {
    EngineState(params, map[])
  }

  /** A peer never heard of has the zero state. */
  function PeerOf(e: EngineState, peer: string): PeerState {
    if peer in e.peers then e.peers[peer] else NEW_PEER
  }

  /** What an event does to the state of the peer it is about. */
  function Touch(params: Params, s: PeerState, ev: Event): PeerState
    requires !ev.UpdateConfig?
  {
    match ev
    case Success(_, sample) =>
      s.(failures := 0, track := OnSample(params.bands, Smoothing(params.alpha), s.track, sample))
    case Failure(_) => s.(failures := s.failures + 1)
    case SetStaticCost(_, cost) => s.(staticCost := Some(cost))
    case SetFallbackCost(_, cost) => s.(fallbackCost := Some(cost))
    case SetBandwidthPenalty(_, penalty) => s.(bandwidthPenalty := penalty)
  }

  /** A reload keeps a track, but pulls its band indices into the new range. */
  function Clamp(bands: Bands, t: Track): Track {
    var c: BandIndex := if |bands| <= t.currentBand then |bands| - 1 else t.currentBand;
    if |bands| <= t.pendingBand then t.(currentBand := c, pendingBand := c, holdCounter := 0)
    else t.(currentBand := c)
  }

  function Step(e: EngineState, ev: Event): EngineState {
    if ev.UpdateConfig? then
      EngineState(ev.params,
                  map p | p in e.peers :: e.peers[p].(track := Clamp(ev.params.bands, e.peers[p].track)))
    else
      e.(peers := e.peers[ev.peer := Touch(e.params, PeerOf(e, ev.peer), ev)])
  }

  /** What the call for an event returns: a moved band, or the failure that reaches the limit. */
  predicate Raises(e: EngineState, ev: Event) {
    match ev
    case Success(peer, _) =>
      PeerOf(Step(e, ev), peer).track.currentBand != PeerOf(e, peer).track.currentBand
    case Failure(peer) => PeerOf(e, peer).failures + 1 == e.params.failureLimit
    case _ => false
  }

  /** The cost of a peer with state: static, else fallback or penalty once down, else its band's. */
  function Cost(params: Params, s: PeerState): uint32 {
    if s.staticCost.Some? then s.staticCost.value
    else if params.failureLimit <= s.failures then
      if s.fallbackCost.Some? then s.fallbackCost.value else params.penaltyCost
    else if s.track.currentBand < 0 || |params.bands| <= s.track.currentBand then params.penaltyCost
    else Bandwidth.ScaledCost(params.bands[s.track.currentBand].cost, s.bandwidthPenalty)
  }

  function CurrentCost(e: EngineState, peer: string): uint32 {
    if peer in e.peers then Cost(e.params, e.peers[peer]) else e.params.penaltyCost
  }

  /** The state after a history of events. */
  function Run(e: EngineState, evs: seq<Event>): EngineState {
    if evs == [] then e else Step(Run(e, evs[..|evs| - 1]), evs[|evs| - 1])
  }
}
