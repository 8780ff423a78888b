/** The bandwidth penalty and the cost it scales, in the engine's unsigned 32-bit arithmetic. */
module Bandwidth {
  import opened Prelude

  /**
   * The penalty of a link.  Go panics on the one division the guards let through: a negative
   * bandwidth against a threshold of zero.
   */
  function CalcBandwidthPenalty(linkBw: int, threshold: int, reference: int): uint32
    requires linkBw < threshold ==> threshold != 0
  {
    if threshold <= linkBw then 0
    else
      var bw := if linkBw <= 0 then 1 else linkBw;
      var penalty := TruncDiv(reference, bw) - TruncDiv(reference, threshold);
      if penalty < 0 then 0 else penalty % TWO_TO_THE_32
  }

  /** The multiplication of a band cost by (1000 + 10*penalty)/1000, wrapping where uint32 wraps. */
  function ScaledCost(cost: uint32, penalty: uint32): uint32 {
    if penalty == 0 then cost
    else cost * ((1000 + penalty * 10 % TWO_TO_THE_32) % TWO_TO_THE_32) % TWO_TO_THE_32 / 1000
  }

  /** Reference definition for a positive threshold: how much dearer than at the threshold the link is. */
  function ExactPenalty(linkBw: int, threshold: int, reference: nat): int
    requires 0 < threshold
  {
    if threshold <= linkBw then 0 else reference / Max(1, linkBw) - reference / threshold
  }

  lemma DivMonotone(n: nat, d: int, d': int)
    requires 0 < d <= d'
    ensures n / d' <= n / d
  {
    var q := n / d';
    assert q * d' <= n;
    assert q * d <= q * d' by { MulMonotone(d, d', q); }
    MulCancel(q, n / d, d);
  }

  lemma ExactPenaltyBounds(bw: int, threshold: int, reference: nat)
    requires 0 < threshold
    ensures 0 <= ExactPenalty(bw, threshold, reference) <= reference
  {
    if bw < threshold {
      DivMonotone(reference, Max(1, bw), threshold);
      DivMonotone(reference, 1, Max(1, bw));
      assert reference / 1 == reference;
      assert 0 <= reference / threshold by { MulCancel(0, reference / threshold, threshold); }
    }
  }

  /** Less bandwidth never means less penalty. */
  lemma PenaltyAntitone(bw: int, bw': int, threshold: int, reference: nat)
    requires bw <= bw' && 0 < threshold
    ensures ExactPenalty(bw', threshold, reference) <= ExactPenalty(bw, threshold, reference)
  {
    ExactPenaltyBounds(bw, threshold, reference);
    if bw' < threshold {
      DivMonotone(reference, Max(1, bw), Max(1, bw'));
    }
  }

  lemma TruncDivNat(n: nat, d: int)
    requires 0 < d
    ensures TruncDiv(n, d) == n / d
  {
  }

  /** Below 2^32 the code computes the reference definition: neither guard ever cuts anything off. */
  lemma PenaltyIsExact(bw: int, threshold: int, reference: nat)
    requires 0 < threshold && reference < TWO_TO_THE_32
    ensures CalcBandwidthPenalty(bw, threshold, reference) == ExactPenalty(bw, threshold, reference)
  {
    ExactPenaltyBounds(bw, threshold, reference);
    TruncDivNat(reference, Max(1, bw));
    TruncDivNat(reference, threshold);
  }

  const MAX_OSPF_COST: int := 65535

  /**
   * Exactly the penalties up to 6453 keep the product of every 16-bit cost within 32 bits;
   * from 6454 on the cost 65535 comes out below what the formula asks for.
   */
  lemma NoWrapIff(penalty: nat)
    requires penalty < TWO_TO_THE_32
    ensures (forall cost: uint32 :: cost <= MAX_OSPF_COST
                ==> ScaledCost(cost, penalty) == cost * (1000 + 10 * penalty) / 1000)
            <==> penalty <= 6453
  {
    if penalty <= 6453 {
      forall cost: uint32 | cost <= MAX_OSPF_COST
        ensures ScaledCost(cost, penalty) == cost * (1000 + 10 * penalty) / 1000
      {
        NoWrap(cost, penalty);
      }
    } else {
      Wraps(penalty);
    }
  }

  lemma NoWrap(cost: uint32, penalty: nat)
    requires cost <= MAX_OSPF_COST && penalty <= 6453
    ensures ScaledCost(cost, penalty) == cost * (1000 + 10 * penalty) / 1000
  {
    var factor := 1000 + 10 * penalty;
    MulMonotone(cost, MAX_OSPF_COST, factor);
    MulMonotone(0, cost, factor);
    FitsInWord(penalty * 10);
    FitsInWord(factor);
    FitsInWord(cost * factor);
    assert penalty == 0 ==> cost * factor == 1000 * cost;
  }

  lemma FitsInWord(n: int)
    requires 0 <= n < TWO_TO_THE_32
    ensures n % TWO_TO_THE_32 == n
  {
  }

  lemma Wraps(penalty: nat)
    requires 6453 < penalty < TWO_TO_THE_32
    ensures ScaledCost(MAX_OSPF_COST, penalty) < MAX_OSPF_COST * (1000 + 10 * penalty) / 1000
  {
    var cost: uint32 := MAX_OSPF_COST;
    var n := cost * (1000 + 10 * penalty);
    assert TWO_TO_THE_32 / 1000 < n / 1000 by { assert TWO_TO_THE_32 + 1000 <= n || penalty <= 6454; }
    assert ScaledCost(cost, penalty) <= TWO_TO_THE_32 / 1000;
  }

  /** The formula does get there: a link of 1 Mbps and a reference of 6475 turn the cost 65535 into 196. */
  lemma WrapIsReached()
    ensures CalcBandwidthPenalty(1, 300, 6475) == 6454
    ensures ScaledCost(MAX_OSPF_COST, 6454) == 196 < MAX_OSPF_COST * (1000 + 10 * 6454) / 1000
  {
  }

  /**
   * The documentation adds the penalty to the cost, the code multiplies.  As long as nothing wraps,
   * the two come to the same exactly without a penalty, or for a cost of 100 or so little more that
   * the difference is lost in the division.
   */
  lemma {:induction false} AdditiveIff(cost: uint32, penalty: nat)
    requires cost <= MAX_OSPF_COST && penalty <= 6453
    ensures ScaledCost(cost, penalty) == cost + penalty
            <==> penalty == 0 || (100 <= cost && (cost - 100) * penalty < 100)
  {
    NoWrap(cost, penalty);
    assert cost * (1000 + 10 * penalty) == 1000 * (cost + penalty) + 10 * ((cost - 100) * penalty);
    if cost < 100 && 0 < penalty {
      MulMonotone(cost, 99, penalty);
      assert (cost - 100) * penalty == cost * penalty - 100 * penalty;
    }
    if 100 <= cost {
      MulMonotone(0, cost - 100, penalty);
    }
  }

  /** They differ for the least default cost: a penalty of 20 on the cost 20 gives 24, not 40. */
  lemma NotAdditive()
    ensures ScaledCost(20, 20) == 24 != 20 + 20
  {
  }

  /** What the documented formula gives in exact arithmetic, cut to a whole number at the end. */
  function DocumentedPenalty(linkBw: nat, threshold: nat, reference: nat): int
    requires 0 < linkBw && 0 < threshold
  {
    (reference * threshold - reference * linkBw) / (linkBw * threshold)
  }

  /**
   * The code cuts both quotients instead, which comes to the same exactly if the quotient by the
   * bandwidth leaves at least as large a fraction as the one by the threshold; else it is 1 more.
   */
  lemma {:induction false} PenaltyAsDocumentedIff(linkBw: nat, threshold: nat, reference: nat)
    requires 0 < linkBw < threshold && reference < TWO_TO_THE_32
    ensures CalcBandwidthPenalty(linkBw, threshold, reference) == DocumentedPenalty(linkBw, threshold, reference)
            <==> reference % threshold * linkBw <= reference % linkBw * threshold
  {
    PenaltyIsExact(linkBw, threshold, reference);
    DifferenceOfQuotients(reference, linkBw, threshold);
  }

  lemma DifferenceOfQuotients(n: nat, a: nat, b: nat)
    requires 0 < a && 0 < b
    ensures var q, x := n / a - n / b, n % a * b - n % b * a;
            (n * b - n * a) / (a * b) == if 0 <= x then q else q - 1
  {
    var q, x, d := n / a - n / b, n % a * b - n % b * a, a * b;
    Parts(n, a, b);
    Parts(n, b, a);
    assert n * b - n * a == q * d + x;
    QuotientIs(n * b - n * a, d, if 0 <= x then q else q - 1);
  }

  /** A product by the second number, in multiples of both. */
  lemma Parts(n: nat, a: nat, b: nat)
    requires 0 < a && 0 < b
    ensures n * b == n / a * (a * b) + n % a * b && 0 <= n % a * b < a * b
  {
    var q, r := n / a, n % a;
    assert n == q * a + r;
    Distribute(q, a, r, b);
    MulMonotone(r, a - 1, b);
    MulMonotone(0, r, b);
  }

  lemma Distribute(q: int, a: int, r: int, b: int)
    ensures (q * a + r) * b == q * (a * b) + r * b
  {
  }

  lemma QuotientIs(m: int, d: int, q: int)
    requires 0 < d && q * d <= m < q * d + d
    ensures m / d == q
  {
    MulCancel(q, m / d, d);
    MulCancel(m / d, q, d);
  }

  /** The documented example: with reference 1000 and threshold 300 the code gives 7 and 17, not 6 and 16. */
  lemma DocumentedExample()
    ensures CalcBandwidthPenalty(100, 300, 1000) == 7 && DocumentedPenalty(100, 300, 1000) == 6
    ensures CalcBandwidthPenalty(50, 300, 1000) == 17 && DocumentedPenalty(50, 300, 1000) == 16
  {
  }

  /** Scaling keeps costs apart, integer division notwithstanding. */
  lemma ScalingStrict(cost: uint32, cost': uint32, penalty: nat)
    requires cost < cost' <= MAX_OSPF_COST && penalty <= 6453
    ensures ScaledCost(cost, penalty) < ScaledCost(cost', penalty)
  {
    var f := 1000 + 10 * penalty;
    NoWrapIff(penalty);
    assert cost * f + 1000 <= cost' * f by {
      MulMonotone(cost + 1, cost', f);
      assert (cost + 1) * f == cost * f + f;
    }
  }

  /**
   * With the default bandwidth settings (threshold 300, reference 3000) no band cost up to the
   * highest default of 1100 scales past 33990, so every reachable link beats the penalty cost.
   */
  lemma ReachableBeatsUnreachable(cost: uint32, bw: int)
    requires cost <= 1100
    ensures ScaledCost(cost, CalcBandwidthPenalty(bw, 300, 3000)) <= 33990 < MAX_OSPF_COST
    ensures ScaledCost(1100, CalcBandwidthPenalty(1, 300, 3000)) == 33990
  {
    var p := CalcBandwidthPenalty(bw, 300, 3000);
    PenaltyIsExact(bw, 300, 3000);
    PenaltyAntitone(Min(bw, 1), bw, 300, 3000);
    PenaltyIsExact(1, 300, 3000);
    assert p <= 2990;
    NoWrapIff(p);
    NoWrapIff(2990);
    MulMonotone(cost, 1100, 1000 + 10 * p);
    MulMonotone(1000 + 10 * p, 30900, 1100);
  }
}
