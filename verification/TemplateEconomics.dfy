/** The template economics simulator: expected monthly revenue of renting or forking a template, and
    the number of tasks at which a rental breaks even. */
module TemplateEconomics {
  import opened Wrappers

  const BPS: int := 10_000
  const SECONDS_PER_DAY: int := 86_400
  const MAX_TASKS: int := 1_000_000

  /** BigInt division: towards zero. */
  function TruncDiv(a: int, b: int): int
    requires b > 0
  {
    if a >= 0 then a / b else -((-a) / b)
  }

  function Clamp(value: int, lo: int, hi: int): int {
    if value < lo then lo else if value > hi then hi else value
  }

  function BpsMul(value: int, bps: int): int {
    TruncDiv(value * Clamp(bps, 0, BPS), BPS)
  }

  function CeilDiv(numerator: int, denominator: int): int
    requires denominator > 0
  {
    TruncDiv(numerator + denominator - 1, denominator)
  }

  /** Whole-number inputs; amounts are BigInts. */
  datatype Input = Input(
    tasksPerMonth: int,
    avgReward: int,
    successRateBps: int,
    disputeRateBps: int,
    royaltyBps: int,
    platformFeeBps: int,
    rentPricePerSec: int,
    rentDurationDays: int,
    forkSetup: int)

  datatype Recommendation = Rent | Fork | Wait

  datatype Result = Result(
    grossRevenue: int,
    rentNet: int,
    forkNet: int,
    fixedRentCost: int,
    perTaskContribution: int,
    breakEvenTasks: Option<int>,
    recommendation: Recommendation)

  function Simulate(i: Input): Result {
    var tasks := Clamp(i.tasksPerMonth, 0, MAX_TASKS);
    var expectedGross := i.avgReward * tasks;
    var gross := BpsMul(expectedGross, i.successRateBps);
    var disputeLoss := BpsMul(expectedGross, i.disputeRateBps);
    var royalty := BpsMul(gross, i.royaltyBps);
    var rentCost := i.rentPricePerSec * Clamp(i.rentDurationDays, 0, 3650) * SECONDS_PER_DAY;
    var platformFee := BpsMul(rentCost, i.platformFeeBps);
    var rentNet := gross - royalty - rentCost - platformFee - disputeLoss;
    var forkNet := gross - royalty - i.forkSetup - disputeLoss;
    var bestNet := if rentNet >= forkNet then rentNet else forkNet;
    var perTaskGross := BpsMul(i.avgReward, i.successRateBps);
    var perTask := perTaskGross - BpsMul(perTaskGross, i.royaltyBps) - BpsMul(i.avgReward, i.disputeRateBps);
    var fixedCost := rentCost + platformFee;
    Result(gross, rentNet, forkNet, fixedCost, perTask,
           if fixedCost > 0 && perTask > 0 then Some(CeilDiv(fixedCost, perTask)) else None,
           if bestNet <= 0 then Wait else if rentNet >= forkNet then Rent else Fork)
  }

  lemma Floor(value: int, bps: int)
    requires value >= 0
    ensures 0 <= BpsMul(value, bps)
    ensures BPS * BpsMul(value, bps) <= value * Clamp(bps, 0, BPS) < BPS * BpsMul(value, bps) + BPS
  {
    assert value * Clamp(bps, 0, BPS) >= 0;
  }

  /** A rental costs its price for every second of its days, ten years at most, and the platform's share
      of that, rounded down. */
  lemma RentalCostsExactly(i: Input)
    requires i.rentPricePerSec >= 0
    ensures
      var rent := i.rentPricePerSec * (Clamp(i.rentDurationDays, 0, 3_650) * 86_400);
      var fee := Simulate(i).fixedRentCost - rent;
      BPS * fee <= rent * Clamp(i.platformFeeBps, 0, BPS) < BPS * fee + BPS
  {
    var days := Clamp(i.rentDurationDays, 0, 3_650);
    assert i.rentPricePerSec * (days * 86_400) == i.rentPricePerSec * days * SECONDS_PER_DAY;
    assert i.rentPricePerSec * days >= 0;
    Floor(i.rentPricePerSec * days * SECONDS_PER_DAY, i.platformFeeBps);
  }

  /** The monthly share of n tasks exceeds n single shares by less than n. */
  lemma SharesAddUp(reward: int, n: int, bps: int)
    requires reward >= 0 && n >= 1
    ensures 0 <= BpsMul(reward * n, bps) - n * BpsMul(reward, bps) <= n - 1
  {
    var b := Clamp(bps, 0, BPS);
    assert reward * n >= 0;
    Floor(reward, bps);
    Floor(reward * n, bps);
    ScaledFloor(reward * b, BpsMul(reward, bps), reward * n * b, BpsMul(reward * n, bps), n) by {
      assert reward * n * b == n * (reward * b);
    }
  }

  lemma ScaledFloor(x: int, f: int, y: int, g: int, n: int)
    requires n >= 1 && y == n * x
    requires BPS * f <= x < BPS * f + BPS && BPS * g <= y < BPS * g + BPS
    ensures 0 <= g - n * f <= n - 1
  {
    var rest := x - BPS * f;
    assert y == BPS * (n * f) + n * rest;
    Scaled(n, rest);
    FloorGap(n, n * f, n * rest, g, y);
  }

  lemma Scaled(n: int, rest: int)
    requires n >= 1 && 0 <= rest < 10_000
    ensures 0 <= n * rest <= 9_999 * n
  {
    Monotone(n, 0, rest);
    Monotone(n, rest, 9_999);
  }

  lemma Monotone(n: int, a: int, b: int)
    requires n >= 0 && a <= b
    ensures n * a <= n * b
  {
  }

  lemma FloorGap(n: int, nf: int, nrest: int, g: int, y: int)
    requires y == 10_000 * nf + nrest && 0 <= nrest <= 9_999 * n && n >= 1
    requires 10_000 * g <= y < 10_000 * g + 10_000
    ensures 0 <= g - nf <= n - 1
  {
  }

  lemma KeptFloor(amount: int, bps: int)
    requires amount >= 0
    ensures 0 <= BPS * (amount - BpsMul(amount, bps)) - amount * (BPS - Clamp(bps, 0, BPS)) < BPS
  {
    Floor(amount, bps);
    SumTimes(BPS, -Clamp(bps, 0, BPS), amount);
  }

  /** The part kept after the royalty, for n tasks against n single tasks. */
  lemma KeptAddsUp(gross: int, single: int, n: int, bps: int)
    requires single >= 0 && n >= 1 && 0 <= gross - n * single <= n - 1
    ensures -n < (gross - BpsMul(gross, bps)) - n * (single - BpsMul(single, bps)) < n
  {
    var b := Clamp(bps, 0, BPS);
    AtMost(0, n, 0, single);
    KeptFloor(gross, bps);
    KeptFloor(single, bps);
    var kept, kept1 := gross - BpsMul(gross, bps), single - BpsMul(single, bps);
    KeptDifference(gross, single, n, gross - n * single, BPS - b, kept, kept1, BPS * kept - gross * (BPS - b),
                   BPS * kept1 - single * (BPS - b));
  }

  lemma KeptDifference(gross: int, single: int, n: int, e: int, u: int, kept: int, kept1: int, rest: int, rest1: int)
    requires n >= 1 && e == gross - n * single && 0 <= e <= n - 1 && 0 <= u <= BPS
    requires BPS * kept == gross * u + rest && BPS * kept1 == single * u + rest1
    requires 0 <= rest < BPS && 0 <= rest1 < BPS
    ensures -n < kept - n * kept1 < n
  {
    SumTimes(n * single, e, u);
    Regroup(n, single, u);
    Times(n, BPS, kept1, single * u, rest1);
    AtMost(e, n - 1, u, BPS);
    Scaled(n, rest1);
    KeptGap(n, kept, n * kept1, n * (single * u), e * u, rest, n * rest1);
  }

  lemma SumTimes(a: int, b: int, u: int)
    ensures (a + b) * u == a * u + b * u
  {
  }

  lemma Regroup(a: int, b: int, c: int)
    ensures (a * b) * c == a * (b * c)
  {
  }

  lemma Times(n: int, bps: int, k: int, x: int, r: int)
    requires bps * k == x + r
    ensures bps * (n * k) == n * x + n * r
  {
    assert bps * (n * k) == n * (bps * k);
    assert n * (x + r) == n * x + n * r;
  }

  lemma AtMost(a: int, a': int, b: int, b': int)
    requires 0 <= a <= a' && 0 <= b <= b'
    ensures 0 <= a * b <= a' * b'
  {
    assert a * b <= a' * b;
    assert a' * b <= a' * b';
  }

  /** All products as single quantities. */
  lemma KeptGap(n: int, kept: int, nkept1: int, nx: int, eu: int, rest: int, nrest1: int)
    requires BPS * kept == nx + eu + rest && BPS * nkept1 == nx + nrest1
    requires 0 <= eu <= (n - 1) * BPS && 0 <= rest < BPS && 0 <= nrest1 <= 9_999 * n && n >= 1
    ensures -n < kept - nkept1 < n
  {
  }

  /** The monthly result before the rental's own cost, and the same for a single task. */
  function Earned(amount: int, i: Input): int {
    var gross := BpsMul(amount, i.successRateBps);
    gross - BpsMul(gross, i.royaltyBps) - BpsMul(amount, i.disputeRateBps)
  }

  lemma EarnedAddsUp(reward: int, n: int, i: Input)
    requires reward >= 0 && n >= 1
    ensures -2 * n < Earned(reward * n, i) - n * Earned(reward, i) < n
  {
    SharesAddUp(reward, n, i.successRateBps);
    SharesAddUp(reward, n, i.disputeRateBps);
    Floor(reward, i.successRateBps);
    var single, gross := BpsMul(reward, i.successRateBps), BpsMul(reward * n, i.successRateBps);
    KeptAddsUp(gross, single, n, i.royaltyBps);
    Distribute(n, single - BpsMul(single, i.royaltyBps), BpsMul(reward, i.disputeRateBps));
  }

  lemma Distribute(n: int, a: int, b: int)
    ensures n * (a - b) == n * a - n * b
  {
  }

  /** Rounding moves the monthly rent result away from the per-task estimate by less than two units
      per task downwards and less than one per task upwards. */
  lemma RentNetNearEstimate(i: Input)
    requires 1 <= i.tasksPerMonth <= MAX_TASKS && i.avgReward >= 0
    ensures
      var r, n := Simulate(i), i.tasksPerMonth;
      -2 * n < r.rentNet + r.fixedRentCost - n * r.perTaskContribution < n
  {
    var r, n := Simulate(i), i.tasksPerMonth;
    EarnedAddsUp(i.avgReward, n, i);
    assert r.perTaskContribution == Earned(i.avgReward, i);
    assert r.rentNet + r.fixedRentCost == Earned(i.avgReward * n, i);
  }

  lemma QuotientPositive(m: int, b: int)
    requires m >= b > 0
    ensures m / b >= 1
  {
    assert m / b * b > m - b;
  }

  lemma CeilDivLeast(a: int, b: int, n: int)
    requires a > 0 && b > 0
    ensures CeilDiv(a, b) >= 1
    ensures n >= CeilDiv(a, b) <==> n * b >= a
  {
    var q, r := (a + b - 1) / b, (a + b - 1) % b;
    QuotientPositive(a + b - 1, b);
    assert a + b - 1 == q * b + r;
    if n >= q {
      assert n * b >= q * b;
    } else {
      assert n * b <= (q - 1) * b;
      assert (q - 1) * b == q * b - b;
    }
  }

  /** The break-even count, when there is one, is the least number of tasks whose contribution
      covers the fixed cost. */
  lemma BreakEvenIsLeast(i: Input, n: int)
    ensures
      var r := Simulate(i);
      && (r.breakEvenTasks.Some? <==> r.fixedRentCost > 0 && r.perTaskContribution > 0)
      && (r.breakEvenTasks.Some? ==>
            && r.breakEvenTasks.value >= 1
            && (n >= r.breakEvenTasks.value <==> n * r.perTaskContribution >= r.fixedRentCost))
  {
    var r := Simulate(i);
    if r.breakEvenTasks.Some? {
      CeilDivLeast(r.fixedRentCost, r.perTaskContribution, n);
    }
  }

  /** At the break-even count, or above it, the simulated rental loses less than two units a task. */
  lemma BreakEvenNearlyBreaksEven(i: Input)
    requires 1 <= i.tasksPerMonth <= MAX_TASKS && i.avgReward >= 0
    ensures
      var r := Simulate(i);
      r.breakEvenTasks.Some? && i.tasksPerMonth >= r.breakEvenTasks.value ==> r.rentNet > -2 * i.tasksPerMonth
  {
    RentNetNearEstimate(i);
    BreakEvenIsLeast(i, i.tasksPerMonth);
  }

  /** Renting and forking differ only in their own costs, so the recommendation is the cheaper of the
      two when what the month earns exceeds its cost, and to wait when it does not. */
  lemma RecommendationFollowsCosts(i: Input)
    ensures
      var r, tasks := Simulate(i), Clamp(i.tasksPerMonth, 0, MAX_TASKS);
      var earned := Earned(i.avgReward * tasks, i);
      match r.recommendation
      case Rent => r.fixedRentCost <= i.forkSetup && earned > r.fixedRentCost
      case Fork => i.forkSetup < r.fixedRentCost && earned > i.forkSetup
      case Wait => earned <= r.fixedRentCost && earned <= i.forkSetup
  {
  }
}
