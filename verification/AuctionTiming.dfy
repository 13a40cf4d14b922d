/** When the instructions of an auction are accepted. The windows fixed at the opening decide, and the
    phase that a book is in never gets in the way of a bidder who is in time. */
module AuctionTiming {
  import opened Wrappers
  import opened Bytes
  import opened BidCommitment
  import opened Auction
  import opened AuctionProperties
  import opened AuctionReopening

  /** The clock reading an instruction depends on. */
  function TimeOf(c: Command): Option<int> {
    match c
    case DoCommit(_, now) => Some(now)
    case DoReveal(_, _, _, now) => Some(now)
    case DoClose(_, now) => Some(now)
    case _ => None
  }

  /** The clock has not gone past `now` during these instructions. */
  ghost predicate Until(cs: seq<Command>, now: int) {
    forall i :: 0 <= i < |cs| && TimeOf(cs[i]).Some? ==> TimeOf(cs[i]).value <= now
  }

  /** The book before instruction i. */
  function At(hash: HashFn, b: Book, cs: seq<Command>, i: nat): Book
    requires i <= |cs|
  {
    Run(hash, b, cs[..i])
  }

  lemma AtNext(hash: HashFn, b: Book, cs: seq<Command>, i: nat)
    requires i < |cs|
    ensures At(hash, b, cs, i + 1) == Apply(hash, At(hash, b, cs, i), cs[i])
  {
    assert cs[..i + 1][..i] == cs[..i];
  }

  function RefusalOf(hash: HashFn, b: Book, c: Command): Option<Error> {
    match c
    case DoCommit(q, now) => CommitRefusal(b, q, now)
    case DoReveal(bidder, amount, nonce, now) => RevealRefusal(hash, b, bidder, amount, nonce, now)
    case DoClose(entries, now) => CloseRefusal(b, entries, now)
    case DoClaim(q) => ClaimRefusal(b, q)
    case DoTransfer(from, to, paid) => TransferRefusal(b, from, to, paid)
  }

  predicate Accepted(hash: HashFn, b: Book, cs: seq<Command>, i: nat) {
    i < |cs| && RefusalOf(hash, At(hash, b, cs, i), cs[i]).None?
  }

  // ----- windows and phases

  /** What no instruction changes. */
  ghost predicate TermsKept(w: Terms, b: Book) {
    && b.commitStart == w.now && b.commitEnd == w.now + w.commitSecs
    && b.revealEnd == w.now + w.commitSecs + w.revealSecs
    && b.bondAmount == w.bond && b.paymentAmount == w.task.paymentAmount
  }

  lemma StepKeepsTerms(hash: HashFn, w: Terms, b: Book, c: Command)
    requires TermsKept(w, b)
    ensures TermsKept(w, Apply(hash, b, c))
  {
  }

  lemma {:induction false} RunKeepsTerms(hash: HashFn, w: Terms, wallets: map<Wallet, nat>, leftover: map<Key, Bid>,
                                         cs: seq<Command>)
    ensures TermsKept(w, Run(hash, OpenWith(w, wallets, leftover), cs))
  {
    if |cs| > 0 {
      RunKeepsTerms(hash, w, wallets, leftover, cs[..|cs| - 1]);
      StepKeepsTerms(hash, w, Run(hash, OpenWith(w, wallets, leftover), cs[..|cs| - 1]), cs[|cs| - 1]);
    }
  }

  /** Commits are accepted only in the first window, reveals only in the second, and the close only
      after both; so no commitment is made once an amount can be out. */
  lemma AcceptedInWindow(hash: HashFn, w: Terms, wallets: map<Wallet, nat>, leftover: map<Key, Bid>,
                         cs: seq<Command>, i: nat)
    requires Accepted(hash, OpenWith(w, wallets, leftover), cs, i)
    ensures
      match cs[i]
      case DoCommit(_, now) => 0 <= now - w.now < w.commitSecs
      case DoReveal(_, _, _, now) => w.commitSecs <= now - w.now < w.commitSecs + w.revealSecs
      case DoClose(_, now) => w.commitSecs + w.revealSecs <= now - w.now
      case _ => true
  {
    RunKeepsTerms(hash, w, wallets, leftover, cs[..i]);
  }

  /** The phase says no more than the clock. */
  ghost predicate PhaseInTime(b: Book, now: int) {
    && (now < b.commitEnd && now < b.revealEnd ==> b.phase == Commit)
    && (now < b.revealEnd ==> b.phase == Commit || b.phase == Reveal)
  }

  lemma StepInTime(hash: HashFn, b: Book, c: Command, now: int)
    requires PhaseInTime(b, now) && (TimeOf(c).Some? ==> TimeOf(c).value <= now)
    ensures PhaseInTime(Apply(hash, b, c), now)
  {
  }

  lemma {:induction false} RunInTime(hash: HashFn, w: Terms, wallets: map<Wallet, nat>, leftover: map<Key, Bid>,
                                     cs: seq<Command>, now: int)
    requires Until(cs, now)
    ensures PhaseInTime(Run(hash, OpenWith(w, wallets, leftover), cs), now)
  {
    if |cs| > 0 {
      RunInTime(hash, w, wallets, leftover, cs[..|cs| - 1], now);
      StepInTime(hash, Run(hash, OpenWith(w, wallets, leftover), cs[..|cs| - 1]), cs[|cs| - 1], now);
    }
  }

  // ----- who gets in

  lemma StepCounts(hash: HashFn, b: Book, c: Command)
    ensures Apply(hash, b, c).commitCount - |Apply(hash, b, c).bids| == b.commitCount - |b.bids|
  {
    var f := Apply(hash, b, c);
    assert |f.bids| == |f.bids.Keys| && |b.bids| == |b.bids.Keys|;
    match c
    case DoCommit(q, now) =>
      if CommitRefusal(b, q, now).None? {
        CommitCounts(b, q, now);
      }
    case DoClaim(q) =>
      if ClaimRefusal(b, q).None? {
        ClaimFrame(b, q);
      }
    case _ =>
      assert f.bids.Keys == b.bids.Keys;
  }

  lemma {:induction false} CommitsCounted(hash: HashFn, w: Terms, wallets: map<Wallet, nat>, leftover: map<Key, Bid>,
                                          cs: seq<Command>)
    ensures
      var f := Run(hash, OpenWith(w, wallets, leftover), cs);
      f.commitCount + |leftover| == |f.bids|
  {
    if |cs| > 0 {
      CommitsCounted(hash, w, wallets, leftover, cs[..|cs| - 1]);
      StepCounts(hash, Run(hash, OpenWith(w, wallets, leftover), cs[..|cs| - 1]), cs[|cs| - 1]);
    }
  }

  /** The bidder has no bid yet, commits through an agent of its own, and can pay the bond. */
  predicate CanCommit(w: Terms, b: Book, q: CommitRequest) {
    && q.bidder !in b.bids
    && q.agent.operator == q.bidder && q.agent.did == q.agentDid && q.admitted
    && Wallet(q.bidder, q.source) in b.wallets && b.wallets[Wallet(q.bidder, q.source)] >= w.bond
  }

  /** On every run, whatever the phase: a new bidder gets in exactly during the commit window, while
      fewer than 64 have. */
  lemma CommitOpenExactly(hash: HashFn, w: Terms, wallets: map<Wallet, nat>, leftover: map<Key, Bid>,
                          cs: seq<Command>, q: CommitRequest, now: int)
    requires w.revealSecs >= 0 && Until(cs, now)
    ensures
      var f := Run(hash, OpenWith(w, wallets, leftover), cs);
      CommitRefusal(f, q, now).None? <==>
        CanCommit(w, f, q) && 0 <= now - w.now < w.commitSecs && |f.bids| - |leftover| < 64
  {
    RunKeepsTerms(hash, w, wallets, leftover, cs);
    RunInTime(hash, w, wallets, leftover, cs, now);
    CommitsCounted(hash, w, wallets, leftover, cs);
  }

  /** On every run, whatever the phase: a reveal attempt on an untouched bid is taken exactly during
      the reveal window, unless it opens the commitment to an amount the task cannot pay. */
  lemma RevealOpenExactly(hash: HashFn, w: Terms, wallets: map<Wallet, nat>, leftover: map<Key, Bid>,
                          cs: seq<Command>, bidder: Key, amount: u64, nonce: bytes32, now: int)
    requires Until(cs, now)
    ensures
      var f := Run(hash, OpenWith(w, wallets, leftover), cs);
      RevealRefusal(hash, f, bidder, amount, nonce, now).None? <==>
        && bidder in f.bids && !f.bids[bidder].revealed && !f.bids[bidder].slashed
        && w.commitSecs <= now - w.now < w.commitSecs + w.revealSecs
        && (Opens(hash, f.bids[bidder], amount, nonce) ==> 0 < amount <= w.task.paymentAmount)
  {
    RunKeepsTerms(hash, w, wallets, leftover, cs);
    RunInTime(hash, w, wallets, leftover, cs, now);
  }

  lemma AttemptOpensReveal(hash: HashFn, b: Book, bidder: Key, amount: u64, nonce: bytes32, now: int)
    requires RevealRefusal(hash, b, bidder, amount, nonce, now).None?
    ensures AfterReveal(hash, b, bidder, amount, nonce, now).phase == Reveal
  {
  }

  lemma RunJoins(hash: HashFn, b: Book, cs: seq<Command>, i: nat)
    requires i <= |cs|
    ensures Run(hash, b, cs) == Run(hash, At(hash, b, cs, i), cs[i..])
    decreases |cs| - i
  {
    if i == |cs| {
      assert cs[..i] == cs;
    } else {
      var n := |cs| - 1;
      RunJoins(hash, b, cs[..n], i);
      assert cs[..n][..i] == cs[..i] && cs[..n][i..] == cs[i..][..n - i] && cs[i..][n - i] == cs[n];
    }
  }

  /** The first accepted reveal, even one that only slashes its bid, seals the auction: afterwards nobody
      joins, no commitment changes, and a bid once revealed or slashed for a wrong opening stays so. */
  lemma AttemptSeals(hash: HashFn, b: Book, cs: seq<Command>, i: nat)
    requires Accepted(hash, b, cs, i) && cs[i].DoReveal?
    ensures BooksSealed(At(hash, b, cs, i + 1), Run(hash, b, cs))
  {
    var m := At(hash, b, cs, i);
    AtNext(hash, b, cs, i);
    AttemptOpensReveal(hash, m, cs[i].bidder, cs[i].amount, cs[i].nonce, cs[i].now);
    RunJoins(hash, b, cs, i + 1);
    SealedAfterFirstReveal(hash, At(hash, b, cs, i + 1), cs[i + 1..]);
  }

  // ----- an honest bid

  /** The bid as it was committed, not yet revealed or slashed. */
  ghost predicate Untouched(b: Book, q: CommitRequest) {
    && q.bidder in b.bids
    && b.bids[q.bidder].commitHash == q.commitHash && b.bids[q.bidder].agentDid == q.agentDid
    && !b.bids[q.bidder].revealed
    && (b.phase == Commit || b.phase == Reveal ==> !b.bids[q.bidder].slashed)
  }

  /** The bidder makes no reveal attempt from instruction i up to instruction j. */
  predicate NoAttempt(cs: seq<Command>, bidder: Key, i: nat, j: nat)
    requires j <= |cs|
  {
    forall k :: i <= k < j ==> !(cs[k].DoReveal? && cs[k].bidder == bidder)
  }

  lemma StepLeavesUntouched(hash: HashFn, b: Book, c: Command, q: CommitRequest)
    requires Untouched(b, q) && !(c.DoReveal? && c.bidder == q.bidder)
    ensures Untouched(Apply(hash, b, c), q)
  {
  }

  lemma {:induction false} StaysUntouched(hash: HashFn, b: Book, cs: seq<Command>, q: CommitRequest, i: nat, j: nat)
    requires i <= j <= |cs| && Untouched(At(hash, b, cs, i), q) && NoAttempt(cs, q.bidder, i, j)
    ensures Untouched(At(hash, b, cs, j), q)
    decreases j
  {
    if i < j {
      StaysUntouched(hash, b, cs, q, i, j - 1);
      AtNext(hash, b, cs, j - 1);
      StepLeavesUntouched(hash, At(hash, b, cs, j - 1), cs[j - 1], q);
    }
  }

  /** End to end: a bid committed with the hash of a payable amount is counted at that amount when the
      bidder first opens it inside the reveal window, whatever everybody else has done. */
  lemma HonestBidCounts(hash: HashFn, w: Terms, wallets: map<Wallet, nat>, leftover: map<Key, Bid>, cs: seq<Command>,
                        i: nat, amount: u64, nonce: bytes32, now: int)
    requires Until(cs, now) && Accepted(hash, OpenWith(w, wallets, leftover), cs, i) && cs[i].DoCommit?
    requires RevealCommitHash(hash, amount, nonce, cs[i].request.agentDid) == cs[i].request.commitHash
    requires 0 < amount <= w.task.paymentAmount && NoAttempt(cs, cs[i].request.bidder, i + 1, |cs|)
    ensures
      var k := cs[i].request.bidder;
      var f := AfterReveal(hash, Run(hash, OpenWith(w, wallets, leftover), cs), k, amount, nonce, now);
      k in RevealedBidders(f.bids) <==> w.commitSecs <= now - w.now < w.commitSecs + w.revealSecs
    ensures
      var k := cs[i].request.bidder;
      var f := AfterReveal(hash, Run(hash, OpenWith(w, wallets, leftover), cs), k, amount, nonce, now);
      k in RevealedBidders(f.bids) ==> f.bids[k].revealedAmount == amount
  {
    var b, q := OpenWith(w, wallets, leftover), cs[i].request;
    AtNext(hash, b, cs, i);
    assert Untouched(At(hash, b, cs, i + 1), q);
    assert cs[..|cs|] == cs;
    StaysUntouched(hash, b, cs, q, i + 1, |cs|);
    RunKeepsTerms(hash, w, wallets, leftover, cs);
    RunInTime(hash, w, wallets, leftover, cs, now);
    assert Untouched(Run(hash, b, cs), q);
  }
}
