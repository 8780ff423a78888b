/** The cost engine and its per-peer records, updated in place. */
module CostEngine {
  import opened Prelude
  import opened CostBands
  import opened CostTracks
  import opened CostModel
  import Bandwidth

  class LinkState {
    var forwardDelay: int
    var rtt: int
    var currentBand: BandIndex
    var pendingBand: BandIndex
    var holdCounter: nat
    var failures: nat
    var staticCost: Option<uint32>
    var fallbackCost: Option<uint32>
    var bandwidthPenalty: uint32

    constructor ()
      ensures Value() == NEW_PEER
    {
      forwardDelay, rtt, currentBand, pendingBand, holdCounter := 0, 0, 0, 0, 0;
      failures, staticCost, fallbackCost, bandwidthPenalty := 0, None, None, 0;
    }

    function CurrentTrack(): Track
      reads this
    {
      Track(forwardDelay, rtt, currentBand, pendingBand, holdCounter)
    }

    function Value(): PeerState
      reads this
    {
      PeerState(CurrentTrack(), failures, staticCost, fallbackCost, bandwidthPenalty)
    }
  }

  class Engine {
    var bands: Bands
    var penaltyCost: uint32
    var alpha: Alpha
    var failureLimit: int
    var state: map<string, LinkState>

    /** No two peers share a record. */
    ghost predicate Valid()
      reads this
    {
      forall p, q :: p in state && q in state && p != q ==> state[p] != state[q]
    }

    function Settings(): Params
      reads this
    {
      Params(bands, penaltyCost, alpha, failureLimit)
    }

    /** The engine as a value. */
    ghost function Abs(): EngineState
      reads this, state.Values
    {
      EngineState(Settings(), map p | p in state :: state[p].Value())
    }

    constructor (bands: Bands, penaltyCost: uint32, alpha: Alpha, failureLimit: int)
      ensures Valid() && state == map[]
      ensures Abs() == InitialState(Params(bands, penaltyCost, alpha, failureLimit))
    {
      this.bands, this.penaltyCost, this.alpha, this.failureLimit := bands, penaltyCost, alpha, failureLimit;
      state := map[];
    }

    method GetState(peer: string) returns (s: LinkState)
      requires Valid()
      modifies this`state
      ensures Valid() && peer in state && state[peer] == s
      ensures if peer in old(state) then state == old(state) else fresh(s) && state == old(state)[peer := s]
      ensures s.Value() == PeerOf(old(Abs()), peer)
    {
      if peer in state {
        s := state[peer];
      } else {
        s := new LinkState();
        state := state[peer := s];
      }
    }

    /** Writing one peer's record, and no other, is one step of the engine as a value. */
    twostate lemma OnePeerTouched(ev: Event)
      requires !ev.UpdateConfig? && Settings() == old(Settings())
      requires state.Keys == old(state).Keys + {ev.peer}
      requires forall p :: p in old(state) && p != ev.peer ==> state[p].Value() == old(state[p].Value())
      requires state[ev.peer].Value() == Touch(Settings(), PeerOf(old(Abs()), ev.peer), ev)
      ensures Abs() == Step(old(Abs()), ev)
      ensures PeerOf(Step(old(Abs()), ev), ev.peer) == state[ev.peer].Value()
    {
    }

    method SetStaticCost(peer: string, cost: uint32)
      requires Valid()
      modifies this`state, state.Values
      ensures Valid() && fresh(state.Values - old(state.Values))
      ensures Abs() == Step(old(Abs()), Event.SetStaticCost(peer, cost))
    {
      var s := GetState(peer);
      s.staticCost := Some(cost);
      OnePeerTouched(Event.SetStaticCost(peer, cost));
    }

    method SetFallbackCost(peer: string, cost: uint32)
      requires Valid()
      modifies this`state, state.Values
      ensures Valid() && fresh(state.Values - old(state.Values))
      ensures Abs() == Step(old(Abs()), Event.SetFallbackCost(peer, cost))
    {
      var s := GetState(peer);
      s.fallbackCost := Some(cost);
      OnePeerTouched(Event.SetFallbackCost(peer, cost));
    }

    method SetBandwidthPenalty(peer: string, penalty: uint32)
      requires Valid()
      modifies this`state, state.Values
      ensures Valid() && fresh(state.Values - old(state.Values))
      ensures Abs() == Step(old(Abs()), Event.SetBandwidthPenalty(peer, penalty))
    {
      var s := GetState(peer);
      s.bandwidthPenalty := penalty;
      OnePeerTouched(Event.SetBandwidthPenalty(peer, penalty));
    }

    method RecordFailure(peer: string) returns (changed: bool)
      requires Valid()
      modifies this`state, state.Values
      ensures Valid() && fresh(state.Values - old(state.Values))
      ensures Abs() == Step(old(Abs()), Failure(peer))
      ensures changed == Raises(old(Abs()), Failure(peer))
    {
      var s := GetState(peer);
      s.failures := s.failures + 1;
      OnePeerTouched(Failure(peer));
      changed := s.failures == failureLimit;
    }

    method RecordSuccess(peer: string, sample: Sample) returns (changed: bool)
      requires Valid()
      modifies this`state, state.Values
      ensures Valid() && fresh(state.Values - old(state.Values))
      ensures Abs() == Step(old(Abs()), Success(peer, sample))
      ensures changed == Raises(old(Abs()), Success(peer, sample))
    {
      ghost var before := PeerOf(Abs(), peer);
      var s := GetState(peer);
      s.failures := 0;
      changed := Absorb(s, sample);
      assert s.Value() == Touch(Settings(), before, Success(peer, sample));
      OnePeerTouched(Success(peer, sample));
    }

    method Absorb(s: LinkState, sample: Sample) returns (changed: bool)
      modifies s`forwardDelay, s`rtt, s`currentBand, s`pendingBand, s`holdCounter
      ensures s.CurrentTrack() == OnSample(bands, Smoothing(alpha), old(s.CurrentTrack()), sample)
      ensures changed == (s.currentBand != old(s.currentBand))
    {
      SmoothIn(s, sample);
      changed := EvaluateBand(s);
    }

    /** The delay to evaluate, and both averages. */
    method SmoothIn(s: LinkState, sample: Sample)
      modifies s`forwardDelay, s`rtt
      ensures s.CurrentTrack() == Smoothed(Smoothing(alpha), old(s.CurrentTrack()), sample)
    {
      var delay := sample.forward;
      if delay <= 0 {
        delay := TruncDiv(sample.rtt, 2);
      }
      if s.forwardDelay == 0 {
        s.forwardDelay := delay;
      } else {
        s.forwardDelay := Ewma(s.forwardDelay, delay, alpha);
      }
      if s.rtt == 0 {
        s.rtt := sample.rtt;
      } else {
        s.rtt := Ewma(s.rtt, sample.rtt, alpha);
      }
    }

    /** The two scans and the hold counter. */
    method EvaluateBand(s: LinkState) returns (changed: bool)
      modifies s`currentBand, s`pendingBand, s`holdCounter
      ensures s.CurrentTrack() == Evaluate(bands, old(s.CurrentTrack()))
      ensures changed == (s.currentBand != old(s.currentBand))
    {
      var delay, target := s.forwardDelay, s.currentBand;

      var i: int := s.currentBand + 1;
      while i < |bands|
        invariant i == target + 1 && s.currentBand <= target
        invariant target == s.currentBand || target < |bands|
        invariant Climb(bands, s.currentBand, delay) == Climb(bands, target, delay)
      {
        if bands[i].up <= delay {
          target := i;
        } else {
          break;
        }
        i := i + 1;
      }
      assert target == Climb(bands, s.currentBand, delay);

      if target == s.currentBand {
        i := s.currentBand - 1;
        while 0 <= i
          invariant i == target - 1 && target <= s.currentBand
          invariant target == s.currentBand || 0 <= target < |bands|
          invariant Descend(bands, s.currentBand, delay) == Descend(bands, target, delay)
        {
          if i + 1 < |bands| && delay < bands[i + 1].down {
            target := i;
          } else {
            break;
          }
          i := i - 1;
        }
      }
      assert target == Target(bands, s.currentBand, delay);

      if target == s.currentBand {
        s.pendingBand, s.holdCounter := s.currentBand, 0;
        return false;
      }

      if target == s.pendingBand {
        s.holdCounter := s.holdCounter + 1;
      } else {
        s.pendingBand, s.holdCounter := target, 1;
      }

      var required := bands[target].hold;
      if required <= s.holdCounter {
        var oldBand := s.currentBand;
        s.currentBand, s.pendingBand, s.holdCounter := target, target, 0;
        return oldBand != s.currentBand;
      }
      return false;
    }

    /** A hot reload: new parameters, and every record clamped, in whatever order the map yields them. */
    method UpdateConfig(bands: Bands, penaltyCost: uint32, alpha: Alpha, failureLimit: int)
      requires Valid()
      modifies this, state.Values
      ensures Valid() && state == old(state)
      ensures Abs() == Step(old(Abs()), Event.UpdateConfig(Params(bands, penaltyCost, alpha, failureLimit)))
    {
      this.bands, this.penaltyCost, this.alpha, this.failureLimit := bands, penaltyCost, alpha, failureLimit;
      var todo := state.Keys;
      while todo != {}
        invariant state == old(state) && todo <= state.Keys
        invariant Settings() == Params(bands, penaltyCost, alpha, failureLimit)
        invariant forall p :: p in todo ==> state[p].Value() == old(state[p].Value())
        invariant forall p :: p in state && p !in todo ==> Clamped(bands, old(state[p].Value()), state[p].Value())
      {
        var peer :| peer in todo;
        ClampBands(state[peer], bands);
        todo := todo - {peer};
      }
      AllClamped();
    }

    ghost predicate Clamped(bands: Bands, before: PeerState, after: PeerState) {
      after == before.(track := Clamp(bands, before.track))
    }

    twostate lemma AllClamped()
      requires state == old(state)
      requires forall p :: p in state ==> Clamped(bands, old(state[p].Value()), state[p].Value())
      ensures Abs() == Step(old(Abs()), Event.UpdateConfig(Settings()))
    {
    }

    method ClampBands(s: LinkState, bands: Bands)
      modifies s`currentBand, s`pendingBand, s`holdCounter
      ensures Clamped(bands, old(s.Value()), s.Value())
    {
      if |bands| <= s.currentBand {
        s.currentBand := |bands| - 1;
      }
      if |bands| <= s.pendingBand {
        s.pendingBand := s.currentBand;
        s.holdCounter := 0;
      }
    }

    method IsStatic(peer: string) returns (isStatic: bool)
      requires Valid()
      ensures isStatic == PeerOf(Abs(), peer).staticCost.Some?
    {
      isStatic := peer in state && state[peer].staticCost.Some?;
    }

    method CurrentCost(peer: string) returns (cost: uint32)
      requires Valid()
      ensures cost == CostModel.CurrentCost(Abs(), peer)
    {
      if peer !in state {
        return penaltyCost;
      }
      var s := state[peer];
      if s.staticCost.Some? {
        return s.staticCost.value;
      }
      if failureLimit <= s.failures {
        if s.fallbackCost.Some? {
          return s.fallbackCost.value;
        }
        return penaltyCost;
      }
      if s.currentBand < 0 || |bands| <= s.currentBand {
        return penaltyCost;
      }
      cost := bands[s.currentBand].cost;
      if 0 < s.bandwidthPenalty {
        cost := cost * ((1000 + s.bandwidthPenalty * 10 % TWO_TO_THE_32) % TWO_TO_THE_32) % TWO_TO_THE_32 / 1000;
      }
    }
  }
}
