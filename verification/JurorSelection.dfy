/** Stake-weighted juror selection of the dispute program: the pool snapshot that builds the
    cumulative stake list, the hash draw with its binary search, the cyclic probing past jurors
    already chosen, and the seating of a panel that consumes the selection. */
module JurorSelection {
  import opened Bytes
  import opened Counting

  const MAX_POOL_SIZE: nat := 256
  const MAX_ROUND2_ARBITRATORS: nat := 5

  /** What Rust's `slice::binary_search` answers: a position holding the key, or where to insert it. */
  datatype SearchResult = Found(index: nat) | Missing(index: nat)

  type SearchFn = (seq<u64>, u64) -> SearchResult

  ghost predicate Sorted(s: seq<u64>) {
    forall i, j :: 0 <= i < j < |s| ==> s[i] <= s[j]
  }

  ghost predicate StrictlySorted(s: seq<u64>) {
    forall i, j :: 0 <= i < j < |s| ==> s[i] < s[j]
  }

  /** The documented contract of `binary_search`; among equal keys any position may be reported. */
  ghost predicate Locates(s: seq<u64>, key: u64, r: SearchResult) {
    match r
    case Found(i) => i < |s| && s[i] == key
    case Missing(i) =>
      && i <= |s|
      && (forall k :: 0 <= k < i ==> s[k] < key)
      && (forall k :: i <= k < |s| ==> key < s[k])
  }

  ghost predicate IsBinarySearch(search: SearchFn) {
    forall s: seq<u64>, key: u64 :: Sorted(s) ==> Locates(s, key, search(s, key))
  }

  // ----- the pool snapshot

  datatype PoolError = PoolMissing | PoolFull | ArithmeticOverflow | PoolTooSmall | DuplicateVote

  datatype Result<T> = Ok(value: T) | Err(error: PoolError)

  datatype Pool = Pool(arbitrators: seq<Key>, cumulativeStakes: seq<u64>, totalStaked: nat)

  function Sum(stakes: seq<u64>): nat {
    if |stakes| == 0 then 0 else Sum(stakes[..|stakes| - 1]) + stakes[|stakes| - 1]
  }

  /** `cum` lists the running totals of `stakes`. */
  ghost predicate RunningTotals(stakes: seq<u64>, cum: seq<u64>) {
    && |cum| == |stakes|
    && forall i :: 0 <= i < |cum| ==> cum[i] == Sum(stakes[..i + 1])
  }

  lemma {:induction false} SumMonotone(stakes: seq<u64>, i: nat)
    requires i <= |stakes|
    ensures Sum(stakes[..i]) <= Sum(stakes)
    decreases |stakes|
  {
    if i < |stakes| {
      SumMonotone(stakes[..|stakes| - 1], i);
      assert stakes[..|stakes| - 1][..i] == stakes[..i];
    } else {
      assert stakes[..i] == stakes;
    }
  }

  lemma SumSnoc(stakes: seq<u64>, i: nat)
    requires i < |stakes|
    ensures Sum(stakes[..i + 1]) == Sum(stakes[..i]) + stakes[i]
  {
    assert stakes[..i + 1][..i] == stakes[..i];
  }

  /** The snapshot succeeds exactly when the lists agree in length, fit the pool and the stakes
      fit 64 bits; it then stores their running totals. */
  method SnapshotPool(arbitrators: seq<Key>, stakes: seq<u64>) returns (r: Result<Pool>)
    ensures r.Ok? <==> |arbitrators| == |stakes| && |arbitrators| <= 256 && Sum(stakes) < U64_LIMIT
    ensures r.Ok? ==>
      && r.value.arbitrators == arbitrators
      && r.value.totalStaked == Sum(stakes)
      && RunningTotals(stakes, r.value.cumulativeStakes)
    ensures r == Err(PoolMissing) <==> |arbitrators| != |stakes|
    ensures r == Err(PoolFull) <==> |arbitrators| == |stakes| && |arbitrators| > 256
    ensures r.Err? ==> r.error in {PoolMissing, PoolFull, ArithmeticOverflow}
  {
    if |arbitrators| != |stakes| {
      return Err(PoolMissing);
    }
    if |arbitrators| > MAX_POOL_SIZE {
      return Err(PoolFull);
    }
    var cumulative: seq<u64> := [];
    var running: u64 := 0;
    var total := 0;
    for i := 0 to |stakes|
      invariant running == total == Sum(stakes[..i])
      invariant RunningTotals(stakes[..i], cumulative)
    {
      assert stakes[..i + 1][..i] == stakes[..i];
      if running + stakes[i] >= U64_LIMIT {
        SumMonotone(stakes, i + 1);
        return Err(ArithmeticOverflow);
      }
      running := running + stakes[i];
      cumulative := cumulative + [running];
      total := total + stakes[i];
      forall k | 0 <= k < |cumulative|
        ensures cumulative[k] == Sum(stakes[..i + 1][..k + 1])
      {
        assert stakes[..i + 1][..k + 1] == stakes[..k + 1];
        if k < i {
          assert stakes[..i][..k + 1] == stakes[..k + 1];
        }
      }
    }
    assert stakes[..|stakes|] == stakes;
    return Ok(Pool(arbitrators, cumulative, total));
  }

  lemma StakeRecovered(stakes: seq<u64>, cum: seq<u64>, i: nat)
    requires RunningTotals(stakes, cum) && i < |cum|
    ensures StakeOf(cum, i) == stakes[i]
  {
    SumSnoc(stakes, i);
    assert i > 0 ==> cum[i - 1] == Sum(stakes[..i]);
  }

  lemma TotalsOrdered(stakes: seq<u64>, cum: seq<u64>, i: nat, j: nat)
    requires RunningTotals(stakes, cum) && i < j < |cum|
    ensures cum[i] as int + stakes[j] <= cum[j]
  {
    assert stakes[..j][..i + 1] == stakes[..i + 1];
    SumMonotone(stakes[..j], i + 1);
    SumSnoc(stakes, j);
  }

  /** Every stored list is sorted, as the binary search needs, and gives the stakes back as
      differences; with positive stakes it is strictly sorted and starts above zero. */
  lemma RunningTotalsSorted(stakes: seq<u64>, cum: seq<u64>)
    requires RunningTotals(stakes, cum)
    ensures Sorted(cum)
    ensures (forall i :: 0 <= i < |stakes| ==> stakes[i] > 0) ==> StrictlySorted(cum) && (|cum| > 0 ==> cum[0] > 0)
    ensures forall i :: 0 <= i < |cum| ==> StakeOf(cum, i) == stakes[i]
  {
    forall i | 0 <= i < |cum|
      ensures StakeOf(cum, i) == stakes[i]
    {
      StakeRecovered(stakes, cum, i);
    }
    forall i, j | 0 <= i < j < |cum|
      ensures cum[i] as int + stakes[j] <= cum[j]
    {
      TotalsOrdered(stakes, cum, i, j);
    }
    if |cum| > 0 {
      StakeRecovered(stakes, cum, 0);
    }
  }

  function StakeOf(cum: seq<u64>, i: nat): int
    requires i < |cum|
  {
    cum[i] as int - (if i == 0 then 0 else cum[i - 1]) as int
  }

  // ----- one draw

  /** The pseudo-random number below `total` for the given counter. */
  function Draw(hash: HashFn, vrf: bytes32, counter: nat, total: nat): (r: nat)
    requires total > 0
    ensures r < total
  {
    LeValue(hash(vrf + LeBytes(counter, 8))[..16]) % total
  }

  /** Where a draw lands in the cumulative list. */
  function Landing(search: SearchFn, cum: seq<u64>, draw: u64): (index: nat) {
    search(cum, draw).index
  }

  lemma LandingInRange(search: SearchFn, cum: seq<u64>, draw: u64)
    requires IsBinarySearch(search) && Sorted(cum)
    requires |cum| > 0 && draw < cum[|cum| - 1]
    ensures Landing(search, cum, draw) < |cum|
    ensures draw <= cum[Landing(search, cum, draw)]
    ensures Landing(search, cum, draw) > 0 ==> cum[Landing(search, cum, draw) - 1] <= draw
  {
    assert Locates(cum, draw, search(cum, draw));
  }

  /** The draws below the total that land on index i, when no juror has an empty stake. */
  ghost predicate DrawReaches(cum: seq<u64>, i: nat, draw: nat)
    requires i < |cum|
  {
    && draw < cum[|cum| - 1]
    && draw <= cum[i]
    && (i > 0 ==> cum[i - 1] < draw)
  }

  /** A draw lands on index i exactly from the interval that ends at its running total. */
  lemma LandsWhere(search: SearchFn, cum: seq<u64>, i: nat, draw: u64)
    requires IsBinarySearch(search)
    requires StrictlySorted(cum) && i < |cum| && cum[0] > 0 && draw < cum[|cum| - 1]
    ensures Landing(search, cum, draw) == i <==> DrawReaches(cum, i, draw)
  {
    var at := Landing(search, cum, draw);
    LandingInRange(search, cum, draw);
    assert Locates(cum, draw, search(cum, draw));
    if at < i {
      assert draw <= cum[at] <= cum[i - 1];
    } else if at > i {
      assert cum[i] <= cum[at - 1];
    }
  }

  /** The draws below the total that land on index i. */
  ghost function DrawsLanding(search: SearchFn, cum: seq<u64>, i: nat): set<int>
    requires i < |cum|
  {
    set draw | 0 <= draw < cum[|cum| - 1] && Landing(search, cum, draw) == i
  }

  lemma LandingRange(search: SearchFn, cum: seq<u64>, i: nat, lo: nat, hi: nat)
    requires IsBinarySearch(search) && StrictlySorted(cum) && i < |cum| && cum[0] > 0
    requires lo == if i == 0 then 0 else cum[i - 1] as int + 1
    requires hi == if i == |cum| - 1 then cum[i] as int else cum[i] as int + 1
    ensures lo <= hi && DrawsLanding(search, cum, i) == Range(lo, hi)
  {
    assert i < |cum| - 1 ==> cum[i] < cum[|cum| - 1];
    forall draw: u64 | draw < cum[|cum| - 1]
      ensures Landing(search, cum, draw) == i <==> lo <= draw < hi
    {
      LandsWhere(search, cum, i, draw);
    }
  }

  /** Exact fairness of one draw. Index i is reached from the interval closed on the right that
      ends at its running total, so the number of draws reaching it is its stake, plus one for the
      first index (draw 0), less one for the last (the total itself is never drawn). */
  lemma DrawFairness(search: SearchFn, cum: seq<u64>, i: nat)
    requires IsBinarySearch(search)
    requires StrictlySorted(cum) && i < |cum| && cum[0] > 0
    ensures forall draw: u64 :: draw < cum[|cum| - 1] ==>
      (Landing(search, cum, draw) == i <==> DrawReaches(cum, i, draw))
    ensures |DrawsLanding(search, cum, i)|
      == StakeOf(cum, i) + (if i == 0 then 1 else 0) - (if i == |cum| - 1 then 1 else 0)
  {
    forall draw: u64 | draw < cum[|cum| - 1]
      ensures Landing(search, cum, draw) == i <==> DrawReaches(cum, i, draw)
    {
      LandsWhere(search, cum, i, draw);
    }
    var lo := if i == 0 then 0 else cum[i - 1] as int + 1;
    var hi := if i == |cum| - 1 then cum[i] as int else cum[i] as int + 1;
    LandingRange(search, cum, i, lo, hi);
    RangeSize(lo, hi);
  }

  /** On every sorted list a draw lands on an index with the least running total that reaches it. */
  lemma LandsOnLeastTotal(search: SearchFn, cum: seq<u64>, draw: u64)
    requires IsBinarySearch(search) && Sorted(cum)
    requires |cum| > 0 && draw < cum[|cum| - 1]
    ensures
      var at := Landing(search, cum, draw);
      && at < |cum| && draw <= cum[at]
      && forall j :: 0 <= j < |cum| && cum[j] < cum[at] ==> cum[j] < draw
  {
    LandingInRange(search, cum, draw);
    assert Locates(cum, draw, search(cum, draw));
  }

  // ----- jurors without stake

  /** At most one draw can land on a juror without stake: its own running total. */
  lemma EmptyStakeLanding(search: SearchFn, cum: seq<u64>, i: nat, draw: u64)
    requires IsBinarySearch(search) && Sorted(cum)
    requires i < |cum| && StakeOf(cum, i) == 0 && draw < cum[|cum| - 1]
    requires Landing(search, cum, draw) == i
    ensures draw == cum[i]
  {
    LandingInRange(search, cum, draw);
  }

  function LinearSearch(s: seq<u64>, key: u64, from: nat): (r: SearchResult)
    requires from <= |s|
    decreases |s| - from
  {
    if from == |s| || key < s[from] then Missing(from)
    else if s[from] == key then Found(from)
    else LinearSearch(s, key, from + 1)
  }

  lemma {:induction false} LinearSearchLocates(s: seq<u64>, key: u64, from: nat)
    requires Sorted(s) && from <= |s| && forall k :: 0 <= k < from ==> s[k] < key
    ensures Locates(s, key, LinearSearch(s, key, from))
    decreases |s| - from
  {
    if from < |s| && s[from] < key {
      LinearSearchLocates(s, key, from + 1);
    }
  }

  /** A binary search that reports index i when it is asked for the total there. */
  function SearchReporting(cum: seq<u64>, i: nat): SearchFn
    requires i < |cum|
  {
    (s: seq<u64>, key: u64) => if s == cum && key == cum[i] then Found(i) else LinearSearch(s, key, 0)
  }

  lemma SearchReportingConforms(cum: seq<u64>, i: nat)
    requires i < |cum|
    ensures IsBinarySearch(SearchReporting(cum, i))
  {
    var search := SearchReporting(cum, i);
    forall s: seq<u64>, key: u64 | Sorted(s)
      ensures Locates(s, key, search(s, key))
    {
      LinearSearchLocates(s, key, 0);
    }
  }

  /** Some conforming binary search lets this draw land on index i. */
  ghost predicate MayLand(cum: seq<u64>, i: nat, draw: u64) {
    exists search: SearchFn :: IsBinarySearch(search) && Landing(search, cum, draw) == i
  }

  /** A juror without stake can be drawn if and only if some later juror has stake, and then by no
      other draw than its running total. */
  lemma EmptyStakeDrawnExactly(cum: seq<u64>, i: nat)
    requires Sorted(cum) && i < |cum| && StakeOf(cum, i) == 0
    ensures forall draw: u64 :: draw < cum[|cum| - 1] ==> (MayLand(cum, i, draw) <==> draw == cum[i])
    ensures (exists draw: u64 :: draw < cum[|cum| - 1] && MayLand(cum, i, draw)) <==> cum[i] < cum[|cum| - 1]
  {
    var search := SearchReporting(cum, i);
    SearchReportingConforms(cum, i);
    assert Landing(search, cum, cum[i]) == i;
    assert MayLand(cum, i, cum[i]);
    forall draw: u64 | draw < cum[|cum| - 1] && MayLand(cum, i, draw)
      ensures draw == cum[i]
    {
      var other: SearchFn :| IsBinarySearch(other) && Landing(other, cum, draw) == i;
      EmptyStakeLanding(other, cum, i, draw);
    }
  }

  /** In running totals the guard says that a later juror has stake. */
  lemma LaterStake(stakes: seq<u64>, cum: seq<u64>, i: nat)
    requires RunningTotals(stakes, cum) && i < |cum|
    ensures cum[i] < cum[|cum| - 1] <==> exists j :: i < j < |cum| && stakes[j] > 0
    decreases |cum| - i
  {
    var n := |cum| - 1;
    if i < n {
      LaterStake(stakes, cum, i + 1);
      StakeRecovered(stakes, cum, i + 1);
      if stakes[i + 1] > 0 {
        if i + 1 < n {
          TotalsOrdered(stakes, cum, i + 1, n);
        }
      } else {
        assert cum[i] == cum[i + 1];
      }
    }
  }

  /** With two jurors of which only the second has stake, every search lets the first be drawn. */
  lemma ZeroStakeCanBeDrawn(search: SearchFn)
    requires IsBinarySearch(search)
    ensures StakeOf([0, 5], 0) == 0 && Landing(search, [0, 5], 0) == 0
  {
    var cum: seq<u64> := [0, 5];
    assert Locates(cum, 0, search(cum, 0));
    assert cum[0] == 0;
  }

  // ----- the selection

  /** Position `step` places after `start`, around n places. */
  function Around(start: nat, step: nat, n: nat): nat
    requires n > 0
  {
    (start + step) % n
  }

  /** `pick` is the first index, going around from `start`, that is not in `taken`. */
  ghost predicate FirstFree(taken: seq<nat>, start: nat, n: nat, pick: nat)
    requires n > 0
  {
    && pick !in taken
    && exists d: nat :: d < n && pick == Around(start, d, n) && AllTaken(taken, start, n, d)
  }

  ghost predicate AllTaken(taken: seq<nat>, start: nat, n: nat, upTo: nat)
    requires n > 0
  {
    forall e: nat :: e < upTo ==> Around(start, e, n) in taken
  }

  /** What a selection over n jurors with the given landing places has to be. */
  ghost predicate IsSelection(landings: seq<nat>, n: nat, selected: seq<nat>) {
    && n > 0
    && |selected| == Min(|landings|, n)
    && Distinct(selected)
    && (forall i :: 0 <= i < |selected| ==> selected[i] < n)
    && (forall i :: 0 <= i < |selected| ==> FirstFree(selected[..i], landings[i], n, selected[i]))
  }

  function Landings(hash: HashFn, search: SearchFn, vrf: bytes32, cum: seq<u64>, count: nat, offset: nat): (s: seq<nat>)
    requires |cum| > 0 && cum[|cum| - 1] > 0
    ensures |s| == count
    ensures forall i :: 0 <= i < count ==>
      s[i] == Landing(search, cum, Draw(hash, vrf, offset + i, cum[|cum| - 1]))
  {
    seq<nat>(count, i requires 0 <= i => Landing(search, cum, Draw(hash, vrf, offset + i, cum[|cum| - 1])))
  }

  /** The whole relation between the inputs of a selection and its outcome. */
  ghost predicate Selects(hash: HashFn, search: SearchFn, vrf: bytes32, cum: seq<u64>, count: nat, offset: nat,
                          selected: seq<nat>)
  {
    if |cum| == 0 || count == 0 || cum[|cum| - 1] == 0 then
      selected == []
    else
      IsSelection(Landings(hash, search, vrf, cum, count, offset), |cum|, selected)
  }

  lemma AroundWraps(start: nat, step: nat, n: nat)
    requires start < n
    ensures Around(start, step, n) < n
    ensures (Around(start, step, n) + 1) % n == Around(start, step + 1, n)
  {
    var q, r := (start + step) / n, (start + step) % n;
    assert start + step + 1 == q * n + (r + 1);
    if r + 1 < n {
      ModUnique(start + step + 1, q, r + 1, n);
      ModUnique(r + 1, 0, r + 1, n);
    } else {
      assert (q + 1) * n == q * n + n;
      ModUnique(start + step + 1, q + 1, 0, n);
      ModUnique(r + 1, 1, 0, n);
    }
  }

  /** Going once around visits every index. */
  lemma AroundCovers(start: nat, n: nat, x: nat) returns (d: nat)
    requires start < n && x < n
    ensures d < n && Around(start, d, n) == x
  {
    d := if start <= x then x - start else x - start + n;
    if start <= x {
      ModUnique(start + d, 0, x, n);
    } else {
      ModUnique(start + d, 1, x, n);
    }
  }

  /** A full turn over taken places means that all n are taken. */
  lemma FullTurn(taken: seq<nat>, start: nat, n: nat)
    requires start < n && AllTaken(taken, start, n, n)
    requires Distinct(taken) && forall x :: x in taken ==> x < n
    ensures |taken| == n
  {
    forall x: nat | x < n
      ensures x in taken
    {
      var d := AroundCovers(start, n, x);
      assert Around(start, d, n) in taken;
    }
    assert Range(0, n) <= Elements(taken);
    RangeSize(0, n);
    SubsetSize(Range(0, n), Elements(taken));
    DistinctSize(taken);
    Pigeonhole(taken, n);
  }

  /** The inner loop: from a landing place, step around past the places already taken, giving up
      after n attempts. */
  method ProbeFree(selected: seq<nat>, landing: nat, n: nat) returns (idx: nat, attempts: nat)
    requires landing < n
    ensures idx < n && attempts <= n
    ensures attempts < n ==> FirstFree(selected, landing, n, idx)
    ensures attempts >= n ==> AllTaken(selected, landing, n, n)
  {
    idx, attempts := landing, 0;
    ModUnique(landing, 0, landing, n);
    while idx in selected && attempts < n
      invariant attempts <= n && idx == Around(landing, attempts, n) < n
      invariant AllTaken(selected, landing, n, attempts)
      decreases n - attempts
    {
      AroundWraps(landing, attempts, n);
      AroundWraps(landing, attempts + 1, n);
      idx := (idx + 1) % n;
      attempts := attempts + 1;
    }
  }

  /** The selection loop. It gives up only once every juror is taken, and what it returns is the
      selection that the landing places determine. A counter beyond 64 bits aborts the program. */
  method WeightedSelect(hash: HashFn, search: SearchFn, vrf: bytes32, cum: seq<u64>, count: nat, offset: nat)
    returns (selected: seq<nat>)
    requires IsBinarySearch(search) && Sorted(cum)
    requires offset + count <= U64_LIMIT
    ensures Selects(hash, search, vrf, cum, count, offset, selected)
  {
    if |cum| == 0 || count == 0 {
      return [];
    }
    var total := cum[|cum| - 1];
    if total == 0 {
      return [];
    }
    ghost var landings := Landings(hash, search, vrf, cum, count, offset);
    selected := [];
    for i := 0 to count
      invariant IsSelection(landings[..i], |cum|, selected)
      invariant |selected| == i
    {
      var randVal := Draw(hash, vrf, offset + i, total);
      var found := search(cum, randVal);
      assert found.index == landings[i];
      LandingInRange(search, cum, randVal);
      var idx, attempts := ProbeFree(selected, found.index, |cum|);
      if attempts >= |cum| {
        FullTurn(selected, found.index, |cum|);
        GaveUpWhenFull(landings, i, |cum|, selected);
        return;
      }
      ExtendSelection(landings, i, |cum|, selected, idx);
      selected := selected + [idx];
    }
    assert landings[..count] == landings;
  }

  lemma ExtendSelection(landings: seq<nat>, i: nat, n: nat, selected: seq<nat>, pick: nat)
    requires i < |landings| && n > 0
    requires IsSelection(landings[..i], n, selected) && |selected| == i
    requires pick < n && FirstFree(selected, landings[i], n, pick)
    ensures IsSelection(landings[..i + 1], n, selected + [pick])
  {
    var more := selected + [pick];
    forall k | 0 <= k < |more|
      ensures FirstFree(more[..k], landings[..i + 1][k], n, more[k])
    {
      if k < i {
        assert more[..k] == selected[..k] && landings[..i][k] == landings[k];
      } else {
        assert more[..k] == selected;
      }
    }
    Pigeonhole(more, n);
  }

  lemma GaveUpWhenFull(landings: seq<nat>, i: nat, n: nat, selected: seq<nat>)
    requires i <= |landings| && IsSelection(landings[..i], n, selected) && |selected| == n == i
    ensures IsSelection(landings, n, selected)
  {
    forall k | 0 <= k < |selected|
      ensures FirstFree(selected[..k], landings[k], n, selected[k])
    {
      assert landings[..i][k] == landings[k];
    }
  }

  /** There is only one first free index. */
  lemma FirstFreeUnique(taken: seq<nat>, start: nat, n: nat, a: nat, b: nat)
    requires n > 0 && FirstFree(taken, start, n, a) && FirstFree(taken, start, n, b)
    ensures a == b
  {
    var d: nat :| d < n && a == Around(start, d, n) && AllTaken(taken, start, n, d);
    var e: nat :| e < n && b == Around(start, e, n) && AllTaken(taken, start, n, e);
    if d < e {
      assert false;
    } else if e < d {
      assert false;
    }
  }

  /** Selections for fewer seats are prefixes of selections for more; in particular the landing
      places determine the selection. */
  lemma {:induction false} SelectionPrefix(landings: seq<nat>, k: nat, n: nat, few: seq<nat>, many: seq<nat>)
    requires k <= |landings|
    requires IsSelection(landings[..k], n, few) && IsSelection(landings, n, many)
    ensures few <= many
  {
    var i := 0;
    while i < |few|
      invariant i <= |few| <= |many| && few[..i] == many[..i]
    {
      assert FirstFree(few[..i], landings[..k][i], n, few[i]);
      assert FirstFree(many[..i], landings[i], n, many[i]);
      FirstFreeUnique(few[..i], landings[i], n, few[i], many[i]);
      assert few[..i + 1] == few[..i] + [few[i]] && many[..i + 1] == many[..i] + [many[i]];
      i := i + 1;
    }
    assert few[..|few|] == few;
  }

  /** Two runs with one VRF value and one offset: fewer seats give a prefix of the larger panel. */
  lemma PrefixStability(hash: HashFn, search: SearchFn, vrf: bytes32, cum: seq<u64>, offset: nat,
                        count: nat, more: nat, few: seq<nat>, many: seq<nat>)
    requires count <= more
    requires Selects(hash, search, vrf, cum, count, offset, few)
    requires Selects(hash, search, vrf, cum, more, offset, many)
    ensures few <= many
  {
    if |cum| > 0 && count > 0 && cum[|cum| - 1] > 0 {
      var landings := Landings(hash, search, vrf, cum, more, offset);
      assert landings[..count] == Landings(hash, search, vrf, cum, count, offset);
      SelectionPrefix(landings, count, |cum|, few, many);
    }
  }

  /** A selection of an n-juror pool with positive total has exactly min(count, n) distinct members,
      and all n of them as soon as n seats are asked for. */
  lemma SelectionSize(hash: HashFn, search: SearchFn, vrf: bytes32, cum: seq<u64>, count: nat, offset: nat,
                      selected: seq<nat>)
    requires Selects(hash, search, vrf, cum, count, offset, selected)
    ensures |cum| > 0 && cum[|cum| - 1] > 0 ==> |selected| == Min(count, |cum|)
    ensures Distinct(selected) && forall i :: 0 <= i < |selected| ==> selected[i] < |cum|
    ensures |cum| > 0 && cum[|cum| - 1] > 0 && count >= |cum| ==> forall x: nat :: x < |cum| ==> x in selected
  {
    Pigeonhole(selected, |cum|);
  }

  // ----- seating a panel

  /** A pool as snapshots leave it. */
  ghost predicate PoolStored(pool: Pool, stakes: seq<u64>) {
    && |pool.arbitrators| == |stakes| <= MAX_POOL_SIZE
    && RunningTotals(stakes, pool.cumulativeStakes)
    && pool.totalStaked == Sum(stakes)
  }

  function KeysAt(arbitrators: seq<Key>, indices: seq<nat>): (keys: seq<Key>)
    requires forall i :: 0 <= i < |indices| ==> indices[i] < |arbitrators|
    ensures |keys| == |indices| && forall i :: 0 <= i < |keys| ==> keys[i] == arbitrators[indices[i]]
  {
    if |indices| == 0 then [] else
      KeysAt(arbitrators, indices[..|indices| - 1]) + [arbitrators[indices[|indices| - 1]]]
  }

  /** Copying out the selected keys, refusing a key that comes twice. */
  method CollectKeys(arbitrators: seq<Key>, indices: seq<nat>) returns (r: Result<seq<Key>>)
    requires forall i :: 0 <= i < |indices| ==> indices[i] < |arbitrators|
    ensures r == if Distinct(KeysAt(arbitrators, indices)) then Ok(KeysAt(arbitrators, indices)) else Err(DuplicateVote)
  {
    ghost var keys := KeysAt(arbitrators, indices);
    var selected: seq<Key> := [];
    for i := 0 to |indices|
      invariant selected == keys[..i] && Distinct(selected)
    {
      var arbitrator := arbitrators[indices[i]];
      if arbitrator in selected {
        ghost var j :| 0 <= j < i && selected[j] == arbitrator;
        assert keys[j] == keys[i];
        return Err(DuplicateVote);
      }
      selected := selected + [arbitrator];
    }
    assert keys[..|indices|] == keys;
    return Ok(selected);
  }

  /** Filling the seats of a round. On a stored pool it succeeds exactly when the pool has enough
      entries, some stake unless no seat is asked for, and no selected key twice; the selection it
      used is returned beside it. */
  method SeatPanel(hash: HashFn, search: SearchFn, pool: Pool, vrf: bytes32, count: nat, firstRound: bool,
                   ghost stakes: seq<u64>)
    returns (r: Result<seq<Key>>, indices: seq<nat>)
    requires IsBinarySearch(search) && PoolStored(pool, stakes) && count < 0x100
    ensures Selects(hash, search, vrf, pool.cumulativeStakes, count,
                    if firstRound then 0 else MAX_ROUND2_ARBITRATORS, indices)
    ensures forall i :: 0 <= i < |indices| ==> indices[i] < |pool.arbitrators|
    ensures r.Ok? <==>
      && count <= |pool.arbitrators|
      && (count == 0 || pool.totalStaked > 0)
      && Distinct(KeysAt(pool.arbitrators, indices))
    ensures r.Ok? ==> |indices| == count && r.value == KeysAt(pool.arbitrators, indices)
  {
    RunningTotalsSorted(stakes, pool.cumulativeStakes);
    LastIsTotal(stakes, pool.cumulativeStakes);
    var offset := if firstRound then 0 else MAX_ROUND2_ARBITRATORS;
    indices := WeightedSelect(hash, search, vrf, pool.cumulativeStakes, count, offset);
    SelectionSize(hash, search, vrf, pool.cumulativeStakes, count, offset, indices);
    if |pool.arbitrators| < count {
      return Err(PoolTooSmall), indices;
    }
    if |indices| != count {
      return Err(PoolTooSmall), indices;
    }
    r := CollectKeys(pool.arbitrators, indices);
  }

  lemma LastIsTotal(stakes: seq<u64>, cum: seq<u64>)
    requires RunningTotals(stakes, cum)
    ensures Sum(stakes) == if |cum| == 0 then 0 else cum[|cum| - 1]
  {
    assert stakes[..|stakes|] == stakes;
  }
}
