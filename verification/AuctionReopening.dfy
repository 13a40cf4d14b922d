/** A task can have one book after another, and bid accounts outlive the book they were committed to.
    What that does to a reopened book. */
module AuctionReopening {
  import opened Wrappers
  import opened Bytes
  import opened Counting
  import opened BidCommitment
  import opened Auction
  import opened AuctionProperties

  /** The terms of one opening of a task. */
  datatype Terms = Terms(task: Task, commitSecs: int, revealSecs: int, bond: u64, now: int)

  function OpenWith(w: Terms, wallets: map<Wallet, nat>, leftover: map<Key, Bid>): Book {
    Opened(w.task, w.commitSecs, w.revealSecs, w.bond, w.now, wallets, leftover)
  }

  predicate InRevealWindow(w: Terms, now: int) {
    w.now + w.commitSecs <= now < w.now + w.commitSecs + w.revealSecs
  }

  predicate AfterWindows(w: Terms, now: int) {
    now >= w.now + w.commitSecs && now >= w.now + w.commitSecs + w.revealSecs
  }

  /** A bid whose bond has been returned, and which can still be revealed. */
  predicate Dormant(b: Book, k: Key) {
    k in b.bids && b.bids[k].refunded && !b.bids[k].revealed && !b.bids[k].slashed
  }

  /** One commit, a close after the windows with nothing revealed, and the claim of the bond. */
  function CancelledRun(q: CommitRequest, committedAt: int, closedAt: int, claim: ClaimRequest): seq<Command> {
    [DoCommit(q, committedAt), DoClose([], closedAt), DoClaim(claim)]
  }

  lemma RunThree(hash: HashFn, b: Book, c: Command, d: Command, e: Command)
    ensures Run(hash, b, [c, d, e]) == Apply(hash, Apply(hash, Apply(hash, b, c), d), e)
  {
    RunTwo(hash, b, c, d);
    assert [c, d, e][..2] == [c, d];
  }

  lemma RunTwo(hash: HashFn, b: Book, c: Command, d: Command)
    ensures Run(hash, b, [c, d]) == Apply(hash, Apply(hash, b, c), d)
  {
    assert [c][..0] == [] && [c, d][..1] == [c];
    assert Run(hash, b, [c]) == Apply(hash, b, c);
  }

  /** After such a run, from a book without leftovers, the book can be closed for good, and the bid
      account is still there, dormant. */
  lemma CancelledLeavesDormant(hash: HashFn, w: Terms, wallets: map<Wallet, nat>, q: CommitRequest, committedAt: int,
                               closedAt: int, claim: ClaimRequest)
    requires CommitRefusal(OpenWith(w, wallets, map[]), q, committedAt).None? && AfterWindows(w, closedAt)
    requires claim.bidder == q.bidder && Wallet(claim.bidder, claim.own) in wallets
    requires claim.fee.ToWallet? ==> claim.fee.wallet in wallets
    ensures
      var f := Run(hash, OpenWith(w, wallets, map[]), CancelledRun(q, committedAt, closedAt, claim));
      && f.phase == Cancelled && CloseBookRefusal(f).None?
      && Dormant(f, q.bidder) && f.bids[q.bidder].commitHash == q.commitHash
  {
    var b := OpenWith(w, wallets, map[]);
    RunThree(hash, b, DoCommit(q, committedAt), DoClose([], closedAt), DoClaim(claim));
    var c := AfterCommit(b, q, committedAt);
    var d := AfterClose(c, [], closedAt);
    assert ScanEntries(c.bids, []) == Leader(None);
    assert d.phase == Cancelled && ClaimRefusal(d, claim).None?;
  }

  lemma OnlyEntry(bids: map<Key, Bid>, e: Entry)
    requires EntryRefusal(bids, [], e).None?
    ensures ScanEntries(bids, [e]) == Leader(Some(CandidateOf(bids, e)))
  {
    assert [e][..0] == [] && ScanEntries(bids, []) == Leader(None);
  }

  /** In the next book of the task a dormant bid can be revealed although it pays no bond there. When
      it is the only one, it wins, and the settled book holds no bond and can be closed. */
  lemma DormantBidWins(hash: HashFn, w: Terms, earlier: Book, k: Key, amount: u64, nonce: bytes32, revealedAt: int,
                       e: Entry, closedAt: int)
    requires Dormant(earlier, k) && Opens(hash, earlier.bids[k], amount, nonce)
    requires 0 < amount <= w.task.paymentAmount && InRevealWindow(w, revealedAt) && AfterWindows(w, closedAt)
    requires e.bidder == k && e.ownedByRegistry && e.agent.did == earlier.bids[k].agentDid
    ensures
      var b := OpenWith(w, earlier.wallets, earlier.bids);
      var f := Run(hash, b, [DoReveal(k, amount, nonce, revealedAt), DoClose([e], closedAt)]);
      && f.phase == Settled && f.winner.Some? && f.winner.value.bidder == k
      && f.bondAmount == w.bond && f.escrow == 0 && CloseBookRefusal(f).None?
  {
    var b := OpenWith(w, earlier.wallets, earlier.bids);
    RunTwo(hash, b, DoReveal(k, amount, nonce, revealedAt), DoClose([e], closedAt));
    var c := AfterReveal(hash, b, k, amount, nonce, revealedAt);
    assert c.bids[k].revealed && c.revealCount == 1;
    OnlyEntry(c.bids, e);
  }

  lemma StepMiscount(hash: HashFn, b: Book, c: Command)
    ensures
      var f := Apply(hash, b, c);
      f.revealCount - |RevealedBidders(f.bids)| == b.revealCount - |RevealedBidders(b.bids)|
  {
    match c
    case DoCommit(q, now) =>
      assert RevealedBidders(AfterCommit(b, q, now).bids) == RevealedBidders(b.bids);
    case DoReveal(bidder, amount, nonce, now) => RevealMiscount(hash, b, bidder, amount, nonce, now);
    case DoClose(entries, now) =>
    case DoClaim(q) =>
      if ClaimRefusal(b, q).None? {
        ClaimFrame(b, q);
      }
    case DoTransfer(from, to, paid) =>
  }

  lemma RevealedUpdate(bids: map<Key, Bid>, k: Key, bid: Bid)
    requires k in bids && !bids[k].revealed
    ensures RevealedBidders(bids[k := bid]) == RevealedBidders(bids) + if bid.revealed then {k} else {}
  {
  }

  lemma RevealMiscount(hash: HashFn, b: Book, bidder: Key, amount: u64, nonce: bytes32, now: int)
    ensures
      var f := AfterReveal(hash, b, bidder, amount, nonce, now);
      f.revealCount - |RevealedBidders(f.bids)| == b.revealCount - |RevealedBidders(b.bids)|
  {
    if RevealRefusal(hash, b, bidder, amount, nonce, now).None? {
      RevealedUpdate(b.bids, bidder, AfterReveal(hash, b, bidder, amount, nonce, now).bids[bidder]);
      assert bidder !in RevealedBidders(b.bids);
    }
  }

  /** On every run of a reopened book the reveal count is short by exactly the leftovers that were
      already revealed. So it is right, and closes are accepted exactly for complete enumerations, if
      and only if there are none. */
  lemma {:induction false} CountShortByLeftovers(hash: HashFn, w: Terms, wallets: map<Wallet, nat>,
                                                 leftover: map<Key, Bid>, cs: seq<Command>)
    ensures
      var f := Run(hash, OpenWith(w, wallets, leftover), cs);
      && f.revealCount + |RevealedBidders(leftover)| == |RevealedBidders(f.bids)|
      && (f.revealCount == |RevealedBidders(f.bids)| <==> RevealedBidders(leftover) == {})
  {
    if |cs| > 0 {
      var before := cs[..|cs| - 1];
      CountShortByLeftovers(hash, w, wallets, leftover, before);
      StepMiscount(hash, Run(hash, OpenWith(w, wallets, leftover), before), cs[|cs| - 1]);
    }
  }

  /** A leftover bid that was already revealed is not counted by the new book, so it can be enumerated
      in place of the one bid that was: the close is accepted and the honest bid is left out. */
  lemma RevealedLeftoverDisplaces(hash: HashFn, b: Book, honest: Key, e: Entry, now: int)
    requires b.phase == Reveal && now >= b.revealEnd && b.revealCount == 1
    requires honest in RevealedBidders(b.bids) && e.bidder in RevealedBidders(b.bids) && e.bidder != honest
    requires !b.bids[e.bidder].slashed && e.ownedByRegistry && e.agent.did == b.bids[e.bidder].agentDid
    ensures CloseRefusal(b, [e], now).None? && !IsEnumeration(b, [e])
    ensures AfterClose(b, [e], now).phase == Settled && AfterClose(b, [e], now).winner.value.bidder == e.bidder
  {
    OnlyEntry(b.bids, e);
    assert honest !in Elements(BiddersOf([e]));
  }

  /** How a book comes to be like that: a task is opened with a revealed leftover, and one honest bid
      is committed and revealed. */
  lemma LeftoverMiscounts(hash: HashFn, w: Terms, wallets: map<Wallet, nat>, leftover: map<Key, Bid>, r: Key,
                          q: CommitRequest, committedAt: int, amount: u64, nonce: bytes32, revealedAt: int)
    requires r in leftover && leftover[r].revealed
    requires CommitRefusal(OpenWith(w, wallets, leftover), q, committedAt).None?
    requires RevealCommitHash(hash, amount, nonce, q.agentDid) == q.commitHash
    requires 0 < amount <= w.task.paymentAmount && InRevealWindow(w, revealedAt)
    ensures
      var b := OpenWith(w, wallets, leftover);
      var f := Run(hash, b, [DoCommit(q, committedAt), DoReveal(q.bidder, amount, nonce, revealedAt)]);
      && f.phase == Reveal && f.revealCount == 1
      && q.bidder in RevealedBidders(f.bids) && r in RevealedBidders(f.bids) && r != q.bidder
  {
    var b := OpenWith(w, wallets, leftover);
    RunTwo(hash, b, DoCommit(q, committedAt), DoReveal(q.bidder, amount, nonce, revealedAt));
    var c := AfterCommit(b, q, committedAt);
    assert Opens(hash, c.bids[q.bidder], amount, nonce);
    assert RevealRefusal(hash, c, q.bidder, amount, nonce, revealedAt).None?;
  }
}
