/** Cost bands on their way from the inventory to the engine: validated, cut to milliseconds, reloaded. */
module BandConfig {
  import opened Prelude
  import opened CostBands
  import opened CostTracks

  datatype BandError = NoBands | HoldNotPositive(i: nat) | UpBelowDown(i: nat) | UpNotAbove(i: nat) | CostNotAbove(i: nat)

  /** What validation promises of the bands it lets through. */
  predicate ValidBands(bands: Bands) {
    && bands != []
    && (forall i :: 0 <= i < |bands| ==> 0 < bands[i].hold)
    && Hysteretic(bands)
    && UpsStrict(bands)
    && (forall i, j :: 0 <= i < j < |bands| ==> bands[i].cost < bands[j].cost)
  }

  /** The complaint about band i, checked in the order of the code. */
  function Complaint(bands: Bands, i: nat): Option<BandError>
    requires i < |bands|
  {
    if bands[i].hold <= 0 then Some(HoldNotPositive(i))
    else if 0 < i && bands[i].up < bands[i].down then Some(UpBelowDown(i))
    else if 0 < i && bands[i].up <= bands[i - 1].up then Some(UpNotAbove(i))
    else if 0 < i && bands[i].cost <= bands[i - 1].cost then Some(CostNotAbove(i))
    else None
  }

  /** What a complaint says is the matter with the band. */
  lemma ComplaintIsTrue(bands: Bands, i: nat)
    requires i < |bands| && Complaint(bands, i).Some?
    ensures match Complaint(bands, i).value
            case NoBands => false
            case HoldNotPositive(k) => k == i && bands[i].hold < 1
            case UpBelowDown(k) => 0 < k == i && bands[i].up < bands[i].down
            case UpNotAbove(k) => 0 < k == i && bands[i].up <= bands[i - 1].up
            case CostNotAbove(k) => 0 < k == i && bands[i].cost <= bands[i - 1].cost
  {
  }

  ghost predicate FirstComplaint(bands: Bands, i: nat, err: BandError) {
    && i < |bands| && Complaint(bands, i) == Some(err)
    && (forall j :: 0 <= j < i ==> Complaint(bands, j).None?)
  }

  /** Comparing neighbours is enough to order all bands. */
  lemma {:induction false} NeighboursOrder(bands: Bands, i: nat, j: nat)
    requires forall k :: 0 <= k < |bands| ==> Complaint(bands, k).None?
    requires i < j < |bands|
    ensures bands[i].up < bands[j].up && bands[i].cost < bands[j].cost
  {
    assert Complaint(bands, j).None?;
    if i < j - 1 {
      NeighboursOrder(bands, i, j - 1);
    }
  }

  lemma UncomplainingIsValid(bands: Bands)
    requires bands != []
    ensures (forall k :: 0 <= k < |bands| ==> Complaint(bands, k).None?) <==> ValidBands(bands)
  {
    if forall k :: 0 <= k < |bands| ==> Complaint(bands, k).None? {
      forall i, j | 0 <= i < j < |bands|
        ensures bands[i].up < bands[j].up && bands[i].cost < bands[j].cost
      {
        NeighboursOrder(bands, i, j);
      }
      forall k | 0 <= k < |bands|
        ensures 0 < bands[k].hold && (0 < k ==> bands[k].down <= bands[k].up)
      {
        assert Complaint(bands, k).None?;
      }
    }
  }

  /** Validation accepts exactly the valid bands, and otherwise reports the first complaint. */
  method ValidateCostBands(bands: Bands) returns (err: Option<BandError>)
    ensures err.None? <==> ValidBands(bands)
    ensures bands == [] ==> err == Some(NoBands)
    ensures bands != [] && err.Some? ==> exists i: nat :: FirstComplaint(bands, i, err.value)
  {
    if |bands| == 0 {
      return Some(NoBands);
    }
    UncomplainingIsValid(bands);
    for i := 0 to |bands|
      invariant forall j :: 0 <= j < i ==> Complaint(bands, j).None?
    {
      var b := bands[i];
      if b.hold <= 0 {
        err := Some(HoldNotPositive(i));
      } else if 0 < i && b.up < b.down {
        err := Some(UpBelowDown(i));
      } else if 0 < i && b.up <= bands[i - 1].up {
        err := Some(UpNotAbove(i));
      } else if 0 < i && b.cost <= bands[i - 1].cost {
        err := Some(CostNotAbove(i));
      } else {
        continue;
      }
      assert FirstComplaint(bands, i, err.value);
      return;
    }
    return None;
  }

  const MILLISECOND := 1_000_000

  /** The generator writes whole milliseconds, the agent multiplies them back. */
  function InMilliseconds(nanoseconds: int): int {
    TruncDiv(nanoseconds, MILLISECOND) * MILLISECOND
  }

  function Transported(bands: Bands): Bands {
    seq(|bands|, i requires 0 <= i < |bands| =>
      bands[i].(up := InMilliseconds(bands[i].up), down := InMilliseconds(bands[i].down)))
  }

  /** A threshold loses less than a millisecond, toward zero, and comes out as whole milliseconds. */
  lemma {:induction false} MillisecondsAre(n: int)
    ensures var m := InMilliseconds(n);
            && (exists k: int :: m == k * 1_000_000)
            && (if 0 <= n then m <= n < m + 1_000_000 else m - 1_000_000 < n <= m)
  {
    TruncDivBounds(n, MILLISECOND);
    var k := TruncDiv(n, MILLISECOND);
    assert InMilliseconds(n) == k * 1_000_000;
  }

  /** Each band arrives with its own thresholds cut that way, its cost and its hold. */
  lemma TransportedBand(bands: Bands, i: nat)
    requires i < |bands|
    ensures |Transported(bands)| == |bands|
    ensures var b, b' := bands[i], Transported(bands)[i];
            && b'.cost == b.cost && b'.hold == b.hold
            && b'.up == InMilliseconds(b.up) && b'.down == InMilliseconds(b.down)
  {
  }

  lemma MillisecondsMonotone(a: int, b: int)
    requires a <= b
    ensures InMilliseconds(a) <= InMilliseconds(b)
  {
    TruncDivMonotone(a, b, MILLISECOND);
  }

  /** What survives the transport is what stability needs: ordered Ups, no Down above its Up, positive holds. */
  lemma TransportKeepsHysteresis(bands: Bands)
    requires ValidBands(bands)
    ensures var bands' := Transported(bands);
            && bands' != [] && Hysteretic(bands') && UpsOrdered(bands')
            && (forall i :: 0 <= i < |bands'| ==> 0 < bands'[i].hold)
  {
    var bands' := Transported(bands);
    forall i, j | 0 <= i <= j < |bands|
      ensures bands'[i].up <= bands'[j].up
    {
      MillisecondsMonotone(bands[i].up, bands[j].up);
    }
    forall j | 0 < j < |bands|
      ensures bands'[j].down <= bands'[j].up
    {
      MillisecondsMonotone(bands[j].down, bands[j].up);
    }
  }

  /**
   * Strict order of the Ups survives exactly if no two neighbouring Ups fall into one millisecond,
   * which the inventory shows before anything is generated ...
   */
  lemma {:induction false} TransportKeepsOrderIff(bands: Bands)
    requires ValidBands(bands)
    ensures UpsStrict(Transported(bands))
            <==> forall i :: 0 < i < |bands| ==>
                   TruncDiv(bands[i - 1].up, MILLISECOND) < TruncDiv(bands[i].up, MILLISECOND)
  {
    var bands' := Transported(bands);
    if forall i :: 0 < i < |bands| ==> TruncDiv(bands[i - 1].up, MILLISECOND) < TruncDiv(bands[i].up, MILLISECOND) {
      forall i, j | 0 <= i < j < |bands|
        ensures bands'[i].up < bands'[j].up
      {
        MillisecondsMonotone(bands[i].up, bands[j - 1].up);
        assert TruncDiv(bands[j - 1].up, MILLISECOND) < TruncDiv(bands[j].up, MILLISECOND);
      }
    }
    if UpsStrict(bands') {
      forall i | 0 < i < |bands|
        ensures TruncDiv(bands[i - 1].up, MILLISECOND) < TruncDiv(bands[i].up, MILLISECOND)
      {
        assert bands'[i - 1].up < bands'[i].up;
      }
    }
  }

  /** ... and valid bands need not: some reach the engine with two equal Ups. */
  lemma TransportMergesUps()
    ensures exists bands :: ValidBands(bands) && !UpsStrict(Transported(bands))
  {
    var bands := [Band(0, 0, 20, 5), Band(4_000_000, 2_000_000, 50, 5), Band(4_500_000, 3_000_000, 100, 5)];
    assert ValidBands(bands);
    assert InMilliseconds(4_500_000) == 4_000_000 == InMilliseconds(4_000_000);
    assert Transported(bands)[1].up == Transported(bands)[2].up;
  }

  /** So whatever inventory passes validation, every peer of the agent settles under every constant sample. */
  lemma {:induction false} ValidatedBandsSettle(bands: Bands, a: Alpha, t: Track, s: Sample, n: nat)
    requires ValidBands(bands) && InUnitInterval(a) && SettlingTime(Transported(bands), t, s) <= n
    ensures Settled(Transported(bands), Smoothing(a), Repeat(Transported(bands), Smoothing(a), t, s, n), s)
  {
    TransportKeepsHysteresis(bands);
    SmoothingAverages(a);
    Settling(Transported(bands), Smoothing(a), t, s, n);
  }
}
