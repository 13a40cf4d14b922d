/** Who wins an auction, in plain numbers: the cheapest revealed bid, on equal amounts the highest
    stake, and on equal stakes the numerically smallest agent key. */
module AuctionOutcome {
  import opened Wrappers
  import opened Bytes
  import opened AgentIdentity
  import opened Auction
  import opened AuctionProperties
  import opened AuctionReopening

  function AmountOf(b: Book, e: Entry): nat {
    if e.bidder in b.bids then b.bids[e.bidder].revealedAmount else 0
  }

  /** No entry is cheaper, none as cheap has more stake, and none of both alike a smaller key. */
  ghost predicate AheadOf(b: Book, e: Entry, other: Entry) {
    && AmountOf(b, e) <= AmountOf(b, other)
    && (AmountOf(b, e) == AmountOf(b, other) ==> e.agent.stake >= other.agent.stake)
    && (AmountOf(b, e) == AmountOf(b, other) && e.agent.stake == other.agent.stake ==>
          BeValue(e.agent.key) <= BeValue(other.agent.key))
  }

  lemma NotBeatenIsAhead(b: Book, e: Entry, other: Entry)
    requires e.bidder in b.bids && NotBeaten(b.bids, other, CandidateOf(b.bids, e))
    ensures AheadOf(b, e, other)
  {
    LexIsNumeric(other.agent.key, e.agent.key);
  }

  /** An accepted close over a non-empty list settles on one of the listed bids, at its revealed
      amount, and that one is ahead of every other. */
  lemma CheapestListedWins(b: Book, entries: seq<Entry>, now: int) returns (w: nat)
    requires CloseRefusal(b, entries, now).None? && |entries| > 0
    ensures w < |entries| && AfterClose(b, entries, now).phase == Settled
    ensures AfterClose(b, entries, now).winner ==
      Some(Winner(entries[w].agent.key, entries[w].bidder, entries[w].agent.did, AmountOf(b, entries[w])))
    ensures forall i :: 0 <= i < |entries| ==> AheadOf(b, entries[w], entries[i])
  {
    ScanLeads(b.bids, entries);
    var best := ScanEntries(b.bids, entries).best.value;
    w :| 0 <= w < |entries| && IsCandidate(b.bids, entries[w], best);
    forall i | 0 <= i < |entries|
      ensures AheadOf(b, entries[w], entries[i])
    {
      assert NotBeaten(b.bids, entries[i], best);
      NotBeatenIsAhead(b, entries[w], entries[i]);
    }
  }

  /** The winner is the cheapest of all who revealed. */
  ghost predicate CheapestWon(b: Book) {
    && b.winner.Some?
    && b.winner.value.bidder in RevealedBidders(b.bids)
    && b.winner.value.amount == b.bids[b.winner.value.bidder].revealedAmount
    && forall k :: k in RevealedBidders(b.bids) ==> b.winner.value.amount <= b.bids[k].revealedAmount
  }

  /** While the reveal count is right, that is the cheapest of all who revealed, listed or not. */
  lemma CheapestRevealedWins(b: Book, entries: seq<Entry>, now: int)
    requires b.revealCount == |RevealedBidders(b.bids)| && CloseRefusal(b, entries, now).None?
    ensures
      var f := AfterClose(b, entries, now);
      if RevealedBidders(b.bids) == {} then f.phase == Cancelled && f.winner.None?
      else f.phase == Settled && CheapestWon(f)
  {
    CloseAcceptsExactly(b, entries, now);
    if |entries| == 0 {
      assert RevealedBidders(b.bids) == {};
    } else {
      var w := CheapestListedWins(b, entries, now);
      assert BiddersOf(entries)[w] in RevealedBidders(b.bids);
      forall k | k in RevealedBidders(b.bids)
        ensures AfterClose(b, entries, now).winner.value.amount <= b.bids[k].revealedAmount
      {
        var i :| 0 <= i < |entries| && BiddersOf(entries)[i] == k;
        assert AheadOf(b, entries[w], entries[i]);
      }
    }
  }

  /** The stake and the key of the agent behind a bid. */
  ghost function StakeBehind(reg: Registry, hash: HashFn, stakes: Key -> u64, bid: Bid): nat {
    stakes(AgentFor(hash, reg, bid.agentDid))
  }

  ghost function KeyBehind(reg: Registry, hash: HashFn, bid: Bid): nat {
    BeValue(AgentFor(hash, reg, bid.agentDid))
  }

  /** Nobody as cheap as `k` has more stake, and nobody as cheap with the same stake a smaller key. */
  ghost predicate WinsTies(reg: Registry, hash: HashFn, stakes: Key -> u64, b: Book, k: Key, j: Key)
    requires k in b.bids && j in b.bids
  {
    var mine, other := b.bids[k], b.bids[j];
    mine.revealedAmount == other.revealedAmount ==>
      && StakeBehind(reg, hash, stakes, mine) >= StakeBehind(reg, hash, stakes, other)
      && (StakeBehind(reg, hash, stakes, mine) == StakeBehind(reg, hash, stakes, other) ==>
            KeyBehind(reg, hash, mine) <= KeyBehind(reg, hash, other))
  }

  lemma AheadWinsTie(reg: Registry, hash: HashFn, stakes: Key -> u64, b: Book, entries: seq<Entry>, w: nat, i: nat)
    requires WellPlaced(reg) && FromRegistry(hash, reg, stakes, entries) && w < |entries| && i < |entries|
    requires EntryGood(b.bids, entries[w]) && EntryGood(b.bids, entries[i]) && AheadOf(b, entries[w], entries[i])
    ensures WinsTies(reg, hash, stakes, b, entries[w].bidder, entries[i].bidder) || DidsCollide(hash, reg)
  {
    EntryStanding(reg, hash, stakes, b, entries, w);
    EntryStanding(reg, hash, stakes, b, entries, i);
  }

  /** On equal amounts the stakes decide, and then the keys, as the registry has them; or two
      registered agents have colliding DIDs. */
  lemma StakeThenKeyBreakTies(reg: Registry, hash: HashFn, stakes: Key -> u64, b: Book, entries: seq<Entry>, now: int,
                              j: Key)
    requires WellPlaced(reg) && FromRegistry(hash, reg, stakes, entries)
    requires b.revealCount == |RevealedBidders(b.bids)| && CloseRefusal(b, entries, now).None?
    requires j in RevealedBidders(b.bids)
    ensures
      var f := AfterClose(b, entries, now);
      && f.winner.Some? && f.winner.value.bidder in b.bids
      && (WinsTies(reg, hash, stakes, b, f.winner.value.bidder, j) || DidsCollide(hash, reg))
  {
    CloseAcceptsExactly(b, entries, now);
    var i :| 0 <= i < |entries| && BiddersOf(entries)[i] == j;
    var w := CheapestListedWins(b, entries, now);
    assert EntryGood(b.bids, entries[w]) && EntryGood(b.bids, entries[i]) && AheadOf(b, entries[w], entries[i]);
    AheadWinsTie(reg, hash, stakes, b, entries, w, i);
  }

  // ----- on every run

  /** What a close leaves behind. */
  ghost predicate OutcomeRight(b: Book) {
    match b.phase
    case Settled => CheapestWon(b)
    case Cancelled => b.winner.None? && RevealedBidders(b.bids) == {}
    case _ => b.winner.None?
  }

  lemma StepKeepsOutcome(hash: HashFn, b: Book, c: Command)
    requires OutcomeRight(b) && b.revealCount == |RevealedBidders(b.bids)|
    ensures OutcomeRight(Apply(hash, b, c))
  {
    match c
    case DoClose(entries, now) =>
      if CloseRefusal(b, entries, now).None? {
        CheapestRevealedWins(b, entries, now);
      }
    case DoClaim(q) =>
      if ClaimRefusal(b, q).None? {
        ClaimFrame(b, q);
      }
    case _ =>
  }

  /** Whatever happens to a book of a task without revealed leftovers: it is settled only on the
      cheapest of all the bids revealed in it, for that bid's amount, and cancelled only if there is
      none. */
  lemma {:induction false} SettledOnCheapest(hash: HashFn, w: Terms, wallets: map<Wallet, nat>,
                                             leftover: map<Key, Bid>, cs: seq<Command>)
    requires RevealedBidders(leftover) == {}
    ensures OutcomeRight(Run(hash, OpenWith(w, wallets, leftover), cs))
  {
    if |cs| > 0 {
      var before := cs[..|cs| - 1];
      SettledOnCheapest(hash, w, wallets, leftover, before);
      CountShortByLeftovers(hash, w, wallets, leftover, before);
      StepKeepsOutcome(hash, Run(hash, OpenWith(w, wallets, leftover), before), cs[|cs| - 1]);
    }
  }
}
