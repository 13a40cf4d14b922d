/** From hash values to jurors: which hash a draw comes from, that no two draws share one, and how
    many of the 2^128 values of the hash's low half lead to each juror. */
module JurorDraws {
  import opened Bytes
  import opened JurorSelection

  function SeedOf(vrf: bytes32, counter: nat): bytes {
    vrf + LeBytes(counter, 8)
  }

  /** The low half of a seed's hash, as the program reads it. */
  function HashValue(hash: HashFn, vrf: bytes32, counter: nat): nat {
    LeValue(hash(SeedOf(vrf, counter))[..16])
  }

  /** A draw is what its seed's hash leaves after the total is taken away as often as it fits. */
  lemma DrawLeavesHash(hash: HashFn, vrf: bytes32, counter: nat, total: nat) returns (q: nat)
    requires total > 0
    ensures HashValue(hash, vrf, counter) == q * total + Draw(hash, vrf, counter, total)
    ensures HashValue(hash, vrf, counter) < U128_LIMIT
  {
    q := HashValue(hash, vrf, counter) / total;
    LowHalfBound(hash(SeedOf(vrf, counter)));
  }

  lemma LowHalfBound(h: bytes32)
    ensures LeValue(h[..16]) < U128_LIMIT
  {
    MachineWidths();
    LeBound(h[..16]);
  }

  // ----- no seed is used twice

  /** A seed reads back as VRF value and counter, for all counters of 64 bits. */
  lemma SeedReads(vrf: bytes32, counter: u64)
    ensures SeedOf(vrf, counter)[..32] == vrf && LeValue(SeedOf(vrf, counter)[32..]) == counter
  {
    assert SeedOf(vrf, counter)[32..] == LeBytes(counter, 8);
    LeReads(counter);
  }

  lemma SeedsDiffer(vrf: bytes32, counter: u64, vrf': bytes32, counter': u64)
    requires SeedOf(vrf, counter) == SeedOf(vrf', counter')
    ensures vrf == vrf' && counter == counter'
  {
    SeedReads(vrf, counter);
    SeedReads(vrf', counter');
  }

  /** Seat i of the first round and seat j of the second draw from one seed. */
  predicate ShareSeed(vrf: bytes32, i: nat, j: nat) {
    SeedOf(vrf, i) == SeedOf(vrf, MAX_ROUND2_ARBITRATORS + j)
  }

  /** With one VRF value the two rounds share a seed if and only if the first has more than five seats
      and the second has any. */
  lemma RoundsShareSeedExactly(vrf: bytes32, first: nat, second: nat)
    requires first <= 0x100 && second <= 0x100
    ensures (exists i: nat, j: nat :: i < first && j < second && ShareSeed(vrf, i, j)) <==> first > 5 && second > 0
  {
    if first > 5 && second > 0 {
      assert ShareSeed(vrf, 5, 0);
    } else {
      forall i: nat, j: nat | i < first && j < second
        ensures !ShareSeed(vrf, i, j)
      {
        if ShareSeed(vrf, i, j) {
          SeedsDiffer(vrf, i, vrf, MAX_ROUND2_ARBITRATORS + j);
        }
      }
    }
  }

  // ----- how many values lead where

  /** The numbers below n whose remainder falls in [lo, hi). */
  function Hits(n: nat, total: nat, lo: nat, hi: nat): set<int>
    requires total > 0
  {
    set x | 0 <= x < n && lo <= x % total < hi
  }

  lemma NextRemainder(n: nat, total: nat)
    requires total > 0
    ensures
      var q, r := n / total, n % total;
      if r + 1 < total then (n + 1) / total == q && (n + 1) % total == r + 1
      else (n + 1) / total == q + 1 && (n + 1) % total == 0
  {
    var q, r := n / total, n % total;
    if r + 1 < total {
      ModUnique(n + 1, q, r + 1, total);
    } else {
      assert (q + 1) * total == q * total + total;
      ModUnique(n + 1, q + 1, 0, total);
    }
  }

  lemma OneMoreTurn(width: int, q: int)
    ensures width * (q + 1) == width * q + width
  {
  }

  /** Every full turn hits each remainder once, and the rest hits those below its length. */
  lemma {:induction false} HitsExactly(n: nat, total: nat, lo: nat, hi: nat)
    requires total > 0 && lo <= hi <= total
    ensures |Hits(n, total, lo, hi)| == (hi - lo) * (n / total) + Min(hi, n % total) - Min(lo, n % total)
    decreases n
  {
    if n == 0 {
      ModUnique(0, 0, 0, total);
      assert Hits(n, total, lo, hi) == {};
    } else {
      HitsExactly(n - 1, total, lo, hi);
      NextRemainder(n - 1, total);
      OneMoreTurn(hi - lo, (n - 1) / total);
      NextHit(n - 1, total, lo, hi);
    }
  }

  lemma NextHit(n: nat, total: nat, lo: nat, hi: nat)
    requires total > 0
    ensures |Hits(n + 1, total, lo, hi)| == |Hits(n, total, lo, hi)| + if lo <= n % total < hi then 1 else 0
  {
    if lo <= n % total < hi {
      assert Hits(n + 1, total, lo, hi) == Hits(n, total, lo, hi) + {n};
    } else {
      assert Hits(n + 1, total, lo, hi) == Hits(n, total, lo, hi);
    }
  }

  /** The hash values that draw d. */
  function ValuesDrawing(total: nat, d: nat): set<int>
    requires total > 0
  {
    Hits(U128_LIMIT, total, d, d + 1)
  }

  /** Each draw below the total comes from the floor or the ceiling of 2^128 / total hash values. */
  lemma DrawsNearlyEven(total: nat, d: nat)
    requires d < total
    ensures |ValuesDrawing(total, d)| == U128_LIMIT / total + if d < U128_LIMIT % total then 1 else 0
  {
    HitsExactly(U128_LIMIT, total, d, d + 1);
  }

  /** Where the draw of a hash value lands. */
  function ValueLanding(search: SearchFn, cum: seq<u64>, x: nat): nat
    requires |cum| > 0 && cum[|cum| - 1] > 0
  {
    Landing(search, cum, x % cum[|cum| - 1])
  }

  /** The hash values whose draw lands on juror i. */
  ghost function ValuesFor(search: SearchFn, cum: seq<u64>, i: nat): set<int>
    requires |cum| > 0 && cum[|cum| - 1] > 0
  {
    set x | 0 <= x < U128_LIMIT && ValueLanding(search, cum, x) == i
  }

  /** The number of draws that land on juror i: its stake, with one moved from the last to the first. */
  function DrawCount(cum: seq<u64>, i: nat): int
    requires i < |cum|
  {
    StakeOf(cum, i) + (if i == 0 then 1 else 0) - (if i == |cum| - 1 then 1 else 0)
  }

  function FirstDraw(cum: seq<u64>, i: nat): nat
    requires i < |cum|
  {
    if i == 0 then 0 else cum[i - 1] as int + 1
  }

  lemma DrawsFor(search: SearchFn, cum: seq<u64>, i: nat)
    requires IsBinarySearch(search) && StrictlySorted(cum) && i < |cum| && cum[0] > 0
    ensures DrawCount(cum, i) >= 0
    ensures
      var total, lo := cum[|cum| - 1], FirstDraw(cum, i);
      && total > 0 && lo + DrawCount(cum, i) <= total
      && ValuesFor(search, cum, i) == Hits(U128_LIMIT, total, lo, lo + DrawCount(cum, i))
  {
    var total, lo := cum[|cum| - 1], FirstDraw(cum, i);
    assert i < |cum| - 1 ==> cum[i] < total;
    assert |cum| > 1 ==> cum[0] < total;
    forall x | 0 <= x < U128_LIMIT
      ensures ValueLanding(search, cum, x) == i <==> lo <= x % total < lo + DrawCount(cum, i)
    {
      LandsWhere(search, cum, i, x % total);
    }
  }

  /** Exact fairness over the hash: the draws of a juror, each as often as 2^128 holds the total, and
      once more for those that come up in the last, incomplete turn. */
  lemma HashShareExactly(search: SearchFn, cum: seq<u64>, i: nat)
    requires IsBinarySearch(search) && StrictlySorted(cum) && i < |cum| && cum[0] > 0
    ensures cum[|cum| - 1] > 0
    ensures
      var total, lo, hi := cum[|cum| - 1], FirstDraw(cum, i), FirstDraw(cum, i) + DrawCount(cum, i);
      |ValuesFor(search, cum, i)| ==
        DrawCount(cum, i) * (U128_LIMIT / total) + Min(hi, U128_LIMIT % total) - Min(lo, U128_LIMIT % total)
  {
    DrawsFor(search, cum, i);
    var total, lo, hi := cum[|cum| - 1], FirstDraw(cum, i), FirstDraw(cum, i) + DrawCount(cum, i);
    HitsExactly(U128_LIMIT, total, lo, hi);
  }

  /** Products whose first factors differ by at most one. */
  lemma OneOff(a: int, b: int, q: int)
    requires b - 1 <= a <= b + 1 && q >= 0
    ensures (b - 1) * q <= a * q <= (b + 1) * q
  {
    OneMoreTurn(q, b - 1);
    OneMoreTurn(q, b);
    assert a == b - 1 || a == b || a == b + 1;
  }

  lemma ShareBounds(n: int, stake: nat, each: nat, values: int, few: int)
    requires stake - 1 <= n <= stake + 1 && values == n * each + few && 0 <= few <= n
    ensures (stake - 1) * each <= values <= (stake + 1) * (each + 1)
  {
    OneOff(n, stake, each);
    OneMoreTurn(stake + 1, each);
  }

  /** That many hash values are the stake's worth, up to one stake unit and one value for each draw. */
  predicate NearShare(stake: nat, total: nat, values: nat)
    requires total > 0
  {
    (stake - 1) * (U128_LIMIT / total) <= values <= (stake + 1) * (U128_LIMIT / total + 1)
  }

  lemma ShareNearStake(search: SearchFn, cum: seq<u64>, i: nat, stake: nat)
    requires IsBinarySearch(search) && StrictlySorted(cum) && i < |cum| && cum[0] > 0 && stake == StakeOf(cum, i)
    ensures cum[|cum| - 1] > 0 && NearShare(stake, cum[|cum| - 1], |ValuesFor(search, cum, i)|)
  {
    HashShareExactly(search, cum, i);
    DrawsFor(search, cum, i);
    var total, lo, n := cum[|cum| - 1], FirstDraw(cum, i), DrawCount(cum, i);
    var each, rest := U128_LIMIT / total, U128_LIMIT % total;
    ShareBounds(n, stake, each, |ValuesFor(search, cum, i)|, Min(lo + n, rest) - Min(lo, rest));
  }

  /** So among positive stakes every juror is reached by nearly its stake's worth of hash values. */
  lemma HashShareFollowsStake(search: SearchFn, stakes: seq<u64>, cum: seq<u64>, i: nat)
    requires IsBinarySearch(search) && RunningTotals(stakes, cum) && i < |cum|
    requires forall k :: 0 <= k < |stakes| ==> stakes[k] > 0
    ensures cum[|cum| - 1] == Sum(stakes) > 0 && NearShare(stakes[i], Sum(stakes), |ValuesFor(search, cum, i)|)
  {
    RunningTotalsSorted(stakes, cum);
    LastIsTotal(stakes, cum);
    ShareNearStake(search, cum, i, stakes[i]);
  }

  /** Every seat goes to the juror in whose values the hash of its own seed falls, or, when that juror
      has a seat already, to the first after it that has none. */
  lemma SeatFollowsHash(hash: HashFn, search: SearchFn, vrf: bytes32, cum: seq<u64>, count: nat, offset: nat,
                        selected: seq<nat>, k: nat, i: nat)
    requires IsBinarySearch(search) && Sorted(cum) && |cum| > 0 && cum[|cum| - 1] > 0
    requires Selects(hash, search, vrf, cum, count, offset, selected) && k < |selected|
    requires HashValue(hash, vrf, offset + k) in ValuesFor(search, cum, i)
    ensures i < |cum| && FirstFree(selected[..k], i, |cum|, selected[k])
    ensures i !in selected[..k] ==> selected[k] == i
  {
    var landings, total := Landings(hash, search, vrf, cum, count, offset), cum[|cum| - 1];
    var q := DrawLeavesHash(hash, vrf, offset + k, total);
    ModUnique(HashValue(hash, vrf, offset + k), q, Draw(hash, vrf, offset + k, total), total);
    assert landings[k] == ValueLanding(search, cum, HashValue(hash, vrf, offset + k)) == i;
    LandingInRange(search, cum, HashValue(hash, vrf, offset + k) % total);
    assert FirstFree(selected[..k], i, |cum|, selected[k]);
    ModUnique(i, 0, i, |cum|);
    assert i == Around(i, 0, |cum|) && AllTaken(selected[..k], i, |cum|, 0);
    if i !in selected[..k] {
      FirstFreeUnique(selected[..k], i, |cum|, i, selected[k]);
    }
  }

  /** And every hash falls in the values of exactly one juror. */
  lemma EveryHashHasJuror(search: SearchFn, cum: seq<u64>, x: nat) returns (i: nat)
    requires IsBinarySearch(search) && Sorted(cum) && |cum| > 0 && cum[|cum| - 1] > 0 && x < U128_LIMIT
    ensures i < |cum| && forall j: nat :: x in ValuesFor(search, cum, j) <==> j == i
  {
    i := ValueLanding(search, cum, x);
    LandingInRange(search, cum, x % cum[|cum| - 1]);
  }
}
