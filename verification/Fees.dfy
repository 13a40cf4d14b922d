/** Fee arithmetic: the protocol and reputation fees of a task, and the four-way split of an epoch's
    collected fees. All shares are floors of basis-point fractions. */
module Fees {
  import opened Bytes

  const BPS_DENOM: nat := 10_000

  function Share(amount: nat, bps: nat): nat {
    amount * bps / BPS_DENOM
  }

  // ----- fees of one task

  datatype FeeResult = Ok(protocol: u64, solrep: u64) | ArithmeticOverflow | InvalidAmount

  function ComputeFees(amount: u64, protocolBps: u16, solrepBps: u16): FeeResult {
    var pf, sf := Share(amount, protocolBps), Share(amount, solrepBps);
    if pf >= U64_LIMIT || sf >= U64_LIMIT then ArithmeticOverflow
    else if pf + sf >= U64_LIMIT then ArithmeticOverflow
    else if pf + sf >= amount then InvalidAmount
    else Ok(pf, sf)
  }

  lemma ShareBounds(amount: nat, bps: nat)
    ensures Share(amount, bps) * BPS_DENOM <= amount * bps < (Share(amount, bps) + 1) * BPS_DENOM
  {
  }

  lemma ShareAtMost(amount: nat, bps: nat, cap: nat)
    requires bps <= cap
    ensures Share(amount, bps) * BPS_DENOM <= amount * cap
  {
    ShareBounds(amount, bps);
    assert amount * bps <= amount * cap;
  }

  /** Within the allowed rates, one percent each, fees can always be taken from a positive amount, and always leave
      something of it. */
  lemma FeesWithinCaps(amount: u64, protocolBps: u16, solrepBps: u16)
    requires protocolBps <= 100 && solrepBps <= 100
    ensures ComputeFees(amount, protocolBps, solrepBps).Ok? <==> amount >= 1
    ensures amount >= 1 ==> Share(amount, protocolBps) + Share(amount, solrepBps) < amount
  {
    ShareAtMost(amount, protocolBps, 100);
    ShareAtMost(amount, solrepBps, 100);
  }

  /** For any rates: fees are taken exactly when the two floors together stay below the amount, the
      overflow checks never decide, and each fee taken is the whole-unit part of its own rate. */
  lemma FeesTakenExactly(amount: u64, protocolBps: u16, solrepBps: u16)
    ensures
      var r := ComputeFees(amount, protocolBps, solrepBps);
      && (r.Ok? <==> Share(amount, protocolBps) + Share(amount, solrepBps) < amount)
      && (r.Ok? ==>
            && r.protocol + r.solrep < amount
            && r.protocol * BPS_DENOM <= amount * protocolBps < (r.protocol + 1) * BPS_DENOM
            && r.solrep * BPS_DENOM <= amount * solrepBps < (r.solrep + 1) * BPS_DENOM)
  {
    ShareBounds(amount, protocolBps);
    ShareBounds(amount, solrepBps);
  }

  // ----- splitting one payment into several tasks

  function Sum(xs: seq<nat>): nat {
    if |xs| == 0 then 0 else Sum(xs[..|xs| - 1]) + xs[|xs| - 1]
  }

  function ShareSum(xs: seq<nat>, bps: nat): nat {
    if |xs| == 0 then 0 else ShareSum(xs[..|xs| - 1], bps) + Share(xs[|xs| - 1], bps)
  }

  lemma ShareOfSum(a: nat, b: nat, bps: nat)
    ensures Share(a, bps) + Share(b, bps) <= Share(a + b, bps) <= Share(a, bps) + Share(b, bps) + 1
  {
    ShareBounds(a, bps);
    ShareBounds(b, bps);
    ShareBounds(a + b, bps);
    assert (a + b) * bps == a * bps + b * bps;
  }

  /** Splitting a payment never raises a fee total and lowers it by less than the number of parts. */
  lemma {:induction false} SplittingSavesLittle(xs: seq<nat>, bps: nat)
    requires |xs| > 0
    ensures ShareSum(xs, bps) <= Share(Sum(xs), bps) < ShareSum(xs, bps) + |xs|
  {
    var n := |xs| - 1;
    if n == 0 {
      assert xs[..0] == [];
    } else {
      SplittingSavesLittle(xs[..n], bps);
      ShareOfSum(Sum(xs[..n]), xs[n], bps);
    }
  }

  // ----- the four-way split

  datatype Split = Split(burn: u64, staker: u64, grant: u64, treasury: u64)

  /** The casts to 64 bits truncate; the fourth rate is not looked at. */
  function ComputeBpsSplit(total: u64, burnBps: u16, stakerBps: u16, grantBps: u16, treasuryBps: u16): Split {
    var burn := Share(total, burnBps) % U64_LIMIT;
    var staker := Share(total, stakerBps) % U64_LIMIT;
    var grant := Share(total, grantBps) % U64_LIMIT;
    Split(burn, staker, grant, SaturatingSub(SaturatingSub(SaturatingSub(total, burn), staker), grant))
  }

  lemma ShareFits(total: u64, bps: nat)
    requires bps <= BPS_DENOM
    ensures Share(total, bps) <= total && Share(total, bps) % U64_LIMIT == Share(total, bps)
  {
    ShareAtMost(total, bps, BPS_DENOM);
  }

  lemma FourShares(total: nat, a: nat, b: nat, c: nat, d: nat)
    requires a + b + c + d == BPS_DENOM
    ensures
      var floors := Share(total, a) + Share(total, b) + Share(total, c) + Share(total, d);
      floors <= total <= floors + 3
  {
    ShareBounds(total, a);
    ShareBounds(total, b);
    ShareBounds(total, c);
    ShareBounds(total, d);
    FourProducts(total, a, b, c, d);
  }

  lemma FourProducts(t: nat, a: nat, b: nat, c: nat, d: nat)
    ensures t * a + t * b + t * c + t * d == t * (a + b + c + d)
  {
  }

  /** When the four rates make up 100%, nothing is lost, nothing saturates or is truncated, and the
      treasury gets its own floor share plus at most three units of dust. */
  lemma SplitConserves(total: u64, burnBps: u16, stakerBps: u16, grantBps: u16, treasuryBps: u16)
    requires burnBps + stakerBps + grantBps as int + treasuryBps == BPS_DENOM
    ensures
      var s := ComputeBpsSplit(total, burnBps, stakerBps, grantBps, treasuryBps);
      && s.burn as int + s.staker + s.grant + s.treasury == total
      && s.burn == Share(total, burnBps) && s.staker == Share(total, stakerBps) && s.grant == Share(total, grantBps)
      && Share(total, treasuryBps) <= s.treasury <= Share(total, treasuryBps) + 3
  {
    FourShares(total, burnBps, stakerBps, grantBps, treasuryBps);
    ShareFits(total, burnBps);
    ShareFits(total, stakerBps);
    ShareFits(total, grantBps);
  }

  /** For any rates the parts add up to the total exactly when the first three do not exceed it. */
  lemma SplitConservesExactly(total: u64, burnBps: u16, stakerBps: u16, grantBps: u16, treasuryBps: u16)
    ensures
      var s := ComputeBpsSplit(total, burnBps, stakerBps, grantBps, treasuryBps);
      s.burn as int + s.staker + s.grant + s.treasury == total <==> s.burn as int + s.staker + s.grant <= total
  {
  }
}
