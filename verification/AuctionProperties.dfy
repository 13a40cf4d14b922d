/** What holds of every bid book, whatever instructions and payments it has been through: the
    revealed bids are counted exactly, a close is accepted exactly for a complete enumeration of
    them, and the winner beats all of them. */
module AuctionProperties {
  import opened Wrappers
  import opened Bytes
  import opened Counting
  import opened AgentIdentity
  import opened Auction

  datatype Command =
    | DoCommit(request: CommitRequest, now: int)
    | DoReveal(bidder: Key, amount: u64, nonce: bytes32, now: int)
    | DoClose(entries: seq<Entry>, now: int)
    | DoClaim(claim: ClaimRequest)
    | DoTransfer(from: Wallet, to: Destination, paid: nat)

  function Apply(hash: HashFn, b: Book, c: Command): Book {
    match c
    case DoCommit(q, now) => AfterCommit(b, q, now)
    case DoReveal(bidder, amount, nonce, now) => AfterReveal(hash, b, bidder, amount, nonce, now)
    case DoClose(entries, now) => AfterClose(b, entries, now)
    case DoClaim(q) => AfterClaim(b, q)
    case DoTransfer(from, to, paid) => AfterTransfer(b, from, to, paid)
  }

  function Run(hash: HashFn, b: Book, cs: seq<Command>): Book {
    if |cs| == 0 then b else Apply(hash, Run(hash, b, cs[..|cs| - 1]), cs[|cs| - 1])
  }

  /** The account checks of a commit only let agents of the registry through. */
  ghost predicate Admissible(hash: HashFn, reg: Registry, c: Command) {
    c.DoCommit? ==> Genuine(hash, reg, c.request.agent)
  }

  function RevealedBidders(bids: map<Key, Bid>): set<Key> {
    set k | k in bids && bids[k].revealed
  }

  function Unrefunded(bids: map<Key, Bid>): set<Key> {
    set k | k in bids && !bids[k].refunded
  }

  predicate WinnerKeptBond(b: Book) {
    b.winner.Some? && b.winner.value.bidder in b.bids && b.bids[b.winner.value.bidder].refunded
  }

  /** Bonds still held: one for each bid not yet claimed, and the winner's once it is retained. */
  function BondsHeld(b: Book): nat {
    |Unrefunded(b.bids)| + (if WinnerKeptBond(b) then 1 else 0)
  }

  /** The bidder operates an agent with the bid's DID. */
  ghost predicate BidsFor(hash: HashFn, reg: Registry, g: Key, k: Key, did: bytes32) {
    HasDid(hash, reg, g, did) && reg.registered[g].operator == k
  }

  ghost predicate BidOk(reg: Registry, hash: HashFn, b: Book, k: Key)
    requires k in b.bids
  {
    var bid := b.bids[k];
    && (exists g :: BidsFor(hash, reg, g, k, bid.agentDid))
    && bid.bondPaid == b.bondAmount
    && (bid.revealed ==>
          && !bid.slashed
          && 0 < bid.revealedAmount <= b.paymentAmount
          && exists nonce: bytes32 :: Opens(hash, bid, bid.revealedAmount, nonce))
    && (b.phase == Commit || b.phase == Reveal ==> !bid.refunded)
  }

  ghost predicate PhaseOk(b: Book) {
    match b.phase
    case Commit => b.revealCount == 0 && b.winner.None?
    case Reveal => b.winner.None?
    case Cancelled => b.revealCount == 0 && b.winner.None?
    case Settled =>
      && b.winner.Some?
      && b.winner.value.bidder in b.bids
      && var bid := b.bids[b.winner.value.bidder];
         bid.revealed && b.winner.value.amount == bid.revealedAmount && b.winner.value.did == bid.agentDid
  }

  ghost predicate Inv(reg: Registry, hash: HashFn, b: Book) {
    && b.commitCount == |b.bids| <= MAX_BIDDERS_PER_TASK
    && b.revealCount == |RevealedBidders(b.bids)|
    && (forall k :: k in b.bids ==> BidOk(reg, hash, b, k))
    && PhaseOk(b)
    && b.escrow >= b.bondAmount * BondsHeld(b)
  }

  // ----- the invariant, instruction by instruction

  lemma CommitCounts(b: Book, q: CommitRequest, now: int)
    requires CommitRefusal(b, q, now).None?
    ensures
      var f := AfterCommit(b, q, now);
      |f.bids| == |b.bids| + 1 && RevealedBidders(f.bids) == RevealedBidders(b.bids)
  {
    var f := AfterCommit(b, q, now);
    assert f.bids.Keys == b.bids.Keys + {q.bidder};
    assert |f.bids| == |f.bids.Keys| && |b.bids| == |b.bids.Keys|;
  }

  lemma CommitKeepsInv(reg: Registry, hash: HashFn, b: Book, q: CommitRequest, now: int)
    requires Inv(reg, hash, b) && Genuine(hash, reg, q.agent)
    ensures Inv(reg, hash, AfterCommit(b, q, now))
  {
    var f := AfterCommit(b, q, now);
    if CommitRefusal(b, q, now).None? {
      CommitCounts(b, q, now);
      CommitBonds(b, q, now);
      forall k | k in f.bids
        ensures BidOk(reg, hash, f, k)
      {
        if k == q.bidder {
          assert BidsFor(hash, reg, q.agent.key, k, q.agentDid);
        } else {
          assert BidOk(reg, hash, b, k);
        }
      }
    }
  }

  lemma CommitBonds(b: Book, q: CommitRequest, now: int)
    requires CommitRefusal(b, q, now).None? && b.winner.None?
    ensures
      var f := AfterCommit(b, q, now);
      && BondsHeld(f) == BondsHeld(b) + 1
      && f.bondAmount * BondsHeld(f) == b.bondAmount * BondsHeld(b) + b.bondAmount
  {
    var f := AfterCommit(b, q, now);
    assert Unrefunded(f.bids) == Unrefunded(b.bids) + {q.bidder};
    MulSucc(b.bondAmount, BondsHeld(b));
  }

  lemma MulSucc(a: nat, n: nat)
    ensures a * (n + 1) == a * n + a
  {
  }

  lemma RevealKeepsBids(reg: Registry, hash: HashFn, b: Book, bidder: Key, amount: u64, nonce: bytes32, now: int,
                        k: Key)
    requires RevealRefusal(hash, b, bidder, amount, nonce, now).None?
    requires k in b.bids && BidOk(reg, hash, b, k)
    ensures BidOk(reg, hash, AfterReveal(hash, b, bidder, amount, nonce, now), k)
  {
    var f := AfterReveal(hash, b, bidder, amount, nonce, now);
    if k == bidder && Opens(hash, b.bids[bidder], amount, nonce) {
      assert Opens(hash, f.bids[k], f.bids[k].revealedAmount, nonce);
    }
  }

  lemma RevealCounts(hash: HashFn, b: Book, bidder: Key, amount: u64, nonce: bytes32, now: int)
    requires RevealRefusal(hash, b, bidder, amount, nonce, now).None? && b.winner.None?
    requires b.revealCount == |RevealedBidders(b.bids)|
    ensures
      var f := AfterReveal(hash, b, bidder, amount, nonce, now);
      && f.revealCount == |RevealedBidders(f.bids)|
      && f.bids.Keys == b.bids.Keys && |f.bids| == |b.bids|
      && BondsHeld(f) == BondsHeld(b)
  {
    var f := AfterReveal(hash, b, bidder, amount, nonce, now);
    assert f.bids.Keys == b.bids.Keys;
    assert |f.bids| == |f.bids.Keys| && |b.bids| == |b.bids.Keys|;
    assert Unrefunded(f.bids) == Unrefunded(b.bids);
    if Opens(hash, b.bids[bidder], amount, nonce) {
      assert RevealedBidders(f.bids) == RevealedBidders(b.bids) + {bidder};
    } else {
      assert RevealedBidders(f.bids) == RevealedBidders(b.bids);
    }
  }

  lemma RevealKeepsInv(reg: Registry, hash: HashFn, b: Book, bidder: Key, amount: u64, nonce: bytes32, now: int)
    requires Inv(reg, hash, b)
    ensures Inv(reg, hash, AfterReveal(hash, b, bidder, amount, nonce, now))
  {
    var f := AfterReveal(hash, b, bidder, amount, nonce, now);
    if RevealRefusal(hash, b, bidder, amount, nonce, now).None? {
      RevealCounts(hash, b, bidder, amount, nonce, now);
      forall k | k in f.bids
        ensures BidOk(reg, hash, f, k)
      {
        RevealKeepsBids(reg, hash, b, bidder, amount, nonce, now, k);
      }
    }
  }

  lemma CloseKeepsInv(reg: Registry, hash: HashFn, b: Book, entries: seq<Entry>, now: int)
    requires Inv(reg, hash, b)
    ensures Inv(reg, hash, AfterClose(b, entries, now))
  {
    var f := AfterClose(b, entries, now);
    if CloseRefusal(b, entries, now).None? {
      ScanLeads(b.bids, entries);
      forall k | k in f.bids
        ensures BidOk(reg, hash, f, k) && !b.bids[k].refunded
      {
        assert BidOk(reg, hash, b, k);
      }
    }
  }

  /** A claim never lacks money while the escrow covers the bonds held, and afterwards the escrow
      covers those still held. */
  lemma ClaimBonds(b: Book, q: ClaimRequest)
    requires q.bidder in b.bids && b.bids[q.bidder].bondPaid == b.bondAmount
    requires FateOf(b, q.bidder) == WinnerRetain <==> b.winner.Some? && b.winner.value.bidder == q.bidder
    requires b.escrow >= b.bondAmount * BondsHeld(b)
    ensures ClaimRefusal(b, q) != Some(InsufficientFunds)
    ensures ClaimRefusal(b, q).None? ==> HeldAfterClaim(b, q)
  {
    if !b.bids[q.bidder].refunded {
      assert q.bidder in Unrefunded(b.bids);
      MulSucc(b.bondAmount, BondsHeld(b) - 1);
      MulNonNegative(b.bondAmount, BondsHeld(b) - 1);
    }
    if ClaimRefusal(b, q).None? {
      var f := AfterClaim(b, q);
      assert Unrefunded(f.bids) == Unrefunded(b.bids) - {q.bidder};
      assert BondsHeld(f) == if FateOf(b, q.bidder) == WinnerRetain then BondsHeld(b) else BondsHeld(b) - 1;
    }
  }

  ghost predicate HeldAfterClaim(b: Book, q: ClaimRequest)
    requires q.bidder in b.bids
  {
    var f := AfterClaim(b, q);
    b.bondAmount * BondsHeld(b) ==
      b.bondAmount * BondsHeld(f) + if FateOf(b, q.bidder) == WinnerRetain then 0 else b.bondAmount
  }

  lemma MulNonNegative(a: nat, n: nat)
    ensures a * n >= 0
  {
  }

  lemma ClaimKeepsBids(reg: Registry, hash: HashFn, b: Book, q: ClaimRequest, k: Key)
    requires ClaimRefusal(b, q).None? && k in b.bids && BidOk(reg, hash, b, k)
    ensures k in AfterClaim(b, q).bids && BidOk(reg, hash, AfterClaim(b, q), k)
  {
    OpensAlike(hash, b.bids[k], AfterClaim(b, q).bids[k]);
  }

  /** A claim changes no more than the one bid's refund and slash marks, and token balances. */
  lemma ClaimFrame(b: Book, q: ClaimRequest)
    requires ClaimRefusal(b, q).None?
    ensures
      var f := AfterClaim(b, q);
      && f == b.(bids := f.bids, escrow := f.escrow, wallets := f.wallets)
      && f.bids == b.bids[q.bidder := f.bids[q.bidder]]
      && |f.bids| == |b.bids| && RevealedBidders(f.bids) == RevealedBidders(b.bids)
      && f.bids[q.bidder].revealed == b.bids[q.bidder].revealed
      && f.bids[q.bidder].revealedAmount == b.bids[q.bidder].revealedAmount
      && f.bids[q.bidder].agentDid == b.bids[q.bidder].agentDid
  {
    var f := AfterClaim(b, q);
    assert f.bids.Keys == b.bids.Keys;
    assert |f.bids| == |f.bids.Keys| && |b.bids| == |b.bids.Keys|;
  }

  lemma ClaimCovers(b: Book, q: ClaimRequest)
    requires ClaimRefusal(b, q).None? && HeldAfterClaim(b, q)
    requires b.bids[q.bidder].bondPaid == b.bondAmount && b.escrow >= b.bondAmount * BondsHeld(b)
    ensures AfterClaim(b, q).escrow >= b.bondAmount * BondsHeld(AfterClaim(b, q))
  {
    var fate := FateOf(b, q.bidder);
    assert AfterClaim(b, q).escrow >= b.escrow - if fate == WinnerRetain then 0 else b.bondAmount;
  }

  lemma ClaimKeepsInv(reg: Registry, hash: HashFn, b: Book, q: ClaimRequest)
    requires Inv(reg, hash, b)
    ensures Inv(reg, hash, AfterClaim(b, q))
    ensures ClaimRefusal(b, q) != Some(InsufficientFunds)
  {
    if q.bidder in b.bids {
      assert BidOk(reg, hash, b, q.bidder);
      ClaimBonds(b, q);
    }
    if ClaimRefusal(b, q).None? {
      ClaimFrame(b, q);
      ClaimCovers(b, q);
      forall k | k in b.bids
        ensures BidOk(reg, hash, AfterClaim(b, q), k)
      {
        ClaimKeepsBids(reg, hash, b, q, k);
      }
    }
  }

  lemma TransferKeepsInv(reg: Registry, hash: HashFn, b: Book, from: Wallet, to: Destination, paid: nat)
    requires Inv(reg, hash, b)
    ensures Inv(reg, hash, AfterTransfer(b, from, to, paid))
  {
    var f := AfterTransfer(b, from, to, paid);
    forall k | k in f.bids
      ensures BidOk(reg, hash, f, k)
    {
      assert BidOk(reg, hash, b, k);
    }
  }

  lemma OpensAlike(hash: HashFn, a: Bid, b: Bid)
    requires a.agentDid == b.agentDid && a.commitHash == b.commitHash && a.revealedAmount == b.revealedAmount
    ensures (exists n: bytes32 :: Opens(hash, a, a.revealedAmount, n)) ==>
      (exists n: bytes32 :: Opens(hash, b, b.revealedAmount, n))
  {
    if n: bytes32 :| Opens(hash, a, a.revealedAmount, n) {
      assert Opens(hash, b, b.revealedAmount, n);
    }
  }

  lemma ApplyKeepsInv(reg: Registry, hash: HashFn, b: Book, c: Command)
    requires Inv(reg, hash, b) && Admissible(hash, reg, c)
    ensures Inv(reg, hash, Apply(hash, b, c))
  {
    match c
    case DoCommit(q, t) => CommitKeepsInv(reg, hash, b, q, t);
    case DoReveal(bidder, amount, nonce, t) => RevealKeepsInv(reg, hash, b, bidder, amount, nonce, t);
    case DoClose(entries, t) => CloseKeepsInv(reg, hash, b, entries, t);
    case DoClaim(q) => ClaimKeepsInv(reg, hash, b, q);
    case DoTransfer(from, to, paid) => TransferKeepsInv(reg, hash, b, from, to, paid);
  }

  /** An opened book meets the invariant if and only if the task has no bid account left from an
      earlier book. */
  lemma OpenedInvExactly(reg: Registry, hash: HashFn, t: Task, commitSecs: int, revealSecs: int, bond: u64, now: int,
                         wallets: map<Wallet, nat>, leftover: map<Key, Bid>)
    ensures Inv(reg, hash, Opened(t, commitSecs, revealSecs, bond, now, wallets, leftover)) <==> leftover == map[]
  {
    var b := Opened(t, commitSecs, revealSecs, bond, now, wallets, leftover);
    if leftover == map[] {
      assert RevealedBidders(b.bids) == {} && Unrefunded(b.bids) == {};
    } else {
      var k :| k in leftover;
      assert leftover.Keys != {} && |leftover| == |leftover.Keys|;
    }
  }

  /** The invariant holds after every run from a book opened for a task without bid accounts. */
  lemma {:induction false} InvAlways(reg: Registry, hash: HashFn, t: Task, commitSecs: int, revealSecs: int, bond: u64,
                                     now: int, wallets: map<Wallet, nat>, cs: seq<Command>)
    requires forall i :: 0 <= i < |cs| ==> Admissible(hash, reg, cs[i])
    ensures Inv(reg, hash, Run(hash, Opened(t, commitSecs, revealSecs, bond, now, wallets, map[]), cs))
  {
    if |cs| == 0 {
      OpenedInvExactly(reg, hash, t, commitSecs, revealSecs, bond, now, wallets, map[]);
    } else {
      var before, last := cs[..|cs| - 1], cs[|cs| - 1];
      InvAlways(reg, hash, t, commitSecs, revealSecs, bond, now, wallets, before);
      ApplyKeepsInv(reg, hash, Run(hash, Opened(t, commitSecs, revealSecs, bond, now, wallets, map[]), before), last);
    }
  }

  // ----- what a scan finds

  ghost predicate EntryGood(bids: map<Key, Bid>, e: Entry) {
    && e.bidder in bids
    && bids[e.bidder].revealed && !bids[e.bidder].slashed
    && e.ownedByRegistry && e.agent.did == bids[e.bidder].agentDid
  }

  function BiddersOf(entries: seq<Entry>): (s: seq<Key>)
    ensures |s| == |entries| && forall i :: 0 <= i < |s| ==> s[i] == entries[i].bidder
  {
    seq(|entries|, i requires 0 <= i < |entries| => entries[i].bidder)
  }

  ghost predicate Leads(bids: map<Key, Bid>, entries: seq<Entry>, best: Option<Candidate>) {
    if |entries| == 0 then best.None?
    else
      && best.Some?
      && (exists i :: 0 <= i < |entries| && IsCandidate(bids, entries[i], best.value))
      && (forall i :: 0 <= i < |entries| ==> NotBeaten(bids, entries[i], best.value))
  }

  ghost predicate IsCandidate(bids: map<Key, Bid>, e: Entry, c: Candidate) {
    e.bidder in bids && c == CandidateOf(bids, e)
  }

  ghost predicate NotBeaten(bids: map<Key, Bid>, e: Entry, best: Candidate) {
    e.bidder in bids && !BidBeats(CandidateOf(bids, e), best)
  }

  ghost predicate Listable(bids: map<Key, Bid>, entries: seq<Entry>) {
    Distinct(BiddersOf(entries)) && forall i :: 0 <= i < |entries| ==> EntryGood(bids, entries[i])
  }

  lemma ListableStep(bids: map<Key, Bid>, before: seq<Entry>, last: Entry)
    ensures Listable(bids, before + [last]) <==>
      Listable(bids, before) && EntryRefusal(bids, before, last).None?
  {
    var all, n := before + [last], |before|;
    assert BiddersOf(all) == BiddersOf(before) + [last.bidder];
    if Listable(bids, all) {
      assert EntryGood(bids, all[n]);
      forall i | 0 <= i < n
        ensures EntryGood(bids, before[i]) && before[i].bidder != last.bidder
      {
        assert EntryGood(bids, all[i]);
        assert BiddersOf(all)[i] != BiddersOf(all)[n];
      }
      forall i, j | 0 <= i < j < n
        ensures BiddersOf(before)[i] != BiddersOf(before)[j]
      {
        assert BiddersOf(all)[i] != BiddersOf(all)[j];
      }
    }
  }

  /** The scan accepts exactly the duplicate-free lists of good entries, and then its leader is one
      of them that none of them beats. */
  lemma {:induction false} ScanLeads(bids: map<Key, Bid>, entries: seq<Entry>)
    ensures ScanEntries(bids, entries).Leader? <==> Listable(bids, entries)
    ensures ScanEntries(bids, entries).Leader? ==> Leads(bids, entries, ScanEntries(bids, entries).best)
  {
    if |entries| > 0 {
      var n := |entries| - 1;
      var before, last := entries[..n], entries[n];
      ScanLeads(bids, before);
      assert entries == before + [last];
      ListableStep(bids, before, last);
      if ScanEntries(bids, before).Leader? && EntryRefusal(bids, before, last).None? {
        LeaderStep(bids, before, last, ScanEntries(bids, before).best);
      }
    }
  }

  lemma LeaderStep(bids: map<Key, Bid>, before: seq<Entry>, last: Entry, best: Option<Candidate>)
    requires Leads(bids, before, best) && last.bidder in bids
    ensures Leads(bids, before + [last], Better(best, CandidateOf(bids, last)))
  {
    var all, c := before + [last], CandidateOf(bids, last);
    var b := Better(best, c).value;
    forall i | 0 <= i < |all|
      ensures NotBeaten(bids, all[i], b)
    {
      if i < |before| {
        assert NotBeaten(bids, before[i], best.value);
        NotBeatenTransitive(CandidateOf(bids, before[i]), best.value, c);
      }
      BeatsIsStrictTotalOrder(c, c, c);
      if best.Some? {
        BeatsIsStrictTotalOrder(c, best.value, c);
      }
    }
    if b == c {
      assert IsCandidate(bids, all[|before|], b);
    } else {
      var i :| 0 <= i < |before| && IsCandidate(bids, before[i], best.value);
      assert IsCandidate(bids, all[i], b);
    }
  }

  lemma NotBeatenTransitive(a: Candidate, best: Candidate, c: Candidate)
    requires !BidBeats(a, best)
    ensures BidBeats(c, best) ==> !BidBeats(a, c)
  {
    BeatsIsStrictTotalOrder(a, c, best);
  }

  // ----- the close

  /** A complete, duplicate-free enumeration of the revealed bids, each with its registry agent. */
  ghost predicate IsEnumeration(b: Book, entries: seq<Entry>) {
    && Distinct(BiddersOf(entries))
    && Elements(BiddersOf(entries)) == RevealedBidders(b.bids)
    && forall i :: 0 <= i < |entries| ==> EntryGood(b.bids, entries[i])
  }

  lemma ListedAreRevealed(b: Book, entries: seq<Entry>)
    requires forall i :: 0 <= i < |entries| ==> EntryGood(b.bids, entries[i])
    ensures Elements(BiddersOf(entries)) <= RevealedBidders(b.bids)
  {
    forall k | k in Elements(BiddersOf(entries))
      ensures k in RevealedBidders(b.bids)
    {
      var i :| 0 <= i < |entries| && BiddersOf(entries)[i] == k;
      assert EntryGood(b.bids, entries[i]);
    }
  }

  /** Although only counts and duplicates are checked, while the reveal count is right a close in time
      is accepted exactly for the complete enumerations: nothing revealed can be left out and nothing
      else slipped in. */
  lemma CloseAcceptsExactly(b: Book, entries: seq<Entry>, now: int)
    requires b.revealCount == |RevealedBidders(b.bids)|
    ensures CloseRefusal(b, entries, now).None? <==>
      (b.phase == Commit || b.phase == Reveal) && now >= b.revealEnd && IsEnumeration(b, entries)
  {
    ScanLeads(b.bids, entries);
    if Listable(b.bids, entries) {
      DistinctSize(BiddersOf(entries));
      ListedAreRevealed(b, entries);
      SubsetSize(Elements(BiddersOf(entries)), RevealedBidders(b.bids));
    }
  }

  /** The agent accounts handed in are the registry's, with the stakes of the moment. */
  ghost predicate FromRegistry(hash: HashFn, reg: Registry, stakes: Key -> u64, entries: seq<Entry>) {
    forall i :: 0 <= i < |entries| && entries[i].ownedByRegistry ==>
      Genuine(hash, reg, entries[i].agent) && entries[i].agent.stake == stakes(entries[i].agent.key)
  }

  /** The standing of a bidder, from the book and the registry alone. */
  ghost function Standing(reg: Registry, hash: HashFn, stakes: Key -> u64, b: Book, k: Key): Candidate
    requires k in b.bids
  {
    var did := b.bids[k].agentDid;
    var agent := AgentFor(hash, reg, did);
    Candidate(b.bids[k].revealedAmount, stakes(agent), agent, k, did)
  }

  /** `k` revealed, and beats everybody else who did. */
  ghost predicate BeatsAllOthers(reg: Registry, hash: HashFn, stakes: Key -> u64, b: Book, k: Key) {
    && k in RevealedBidders(b.bids)
    && forall j :: j in RevealedBidders(b.bids) && j != k ==>
         BidBeats(Standing(reg, hash, stakes, b, k), Standing(reg, hash, stakes, b, j))
  }

  lemma EntryStanding(reg: Registry, hash: HashFn, stakes: Key -> u64, b: Book, entries: seq<Entry>, i: nat)
    requires WellPlaced(reg) && FromRegistry(hash, reg, stakes, entries)
    requires i < |entries| && EntryGood(b.bids, entries[i])
    ensures
      || CandidateOf(b.bids, entries[i]) == Standing(reg, hash, stakes, b, entries[i].bidder)
      || DidsCollide(hash, reg)
  {
    var a := entries[i].agent;
    assert HasDid(hash, reg, a.key, a.did);
    OneAgentPerDid(hash, reg, a.key, AgentFor(hash, reg, a.did), a.did);
  }

  /** Bidders commit through agents they operate, so different bidders have different agents, or two
      registered agents have colliding DIDs. */
  lemma DifferentAgents(reg: Registry, hash: HashFn, stakes: Key -> u64, b: Book, j: Key, k: Key)
    requires j in b.bids && k in b.bids && j != k && BidOk(reg, hash, b, j) && BidOk(reg, hash, b, k)
    ensures Standing(reg, hash, stakes, b, j).agent != Standing(reg, hash, stakes, b, k).agent || DidsCollide(hash, reg)
  {
    AgentIsOperated(reg, hash, b, j);
    AgentIsOperated(reg, hash, b, k);
  }

  lemma AgentIsOperated(reg: Registry, hash: HashFn, b: Book, k: Key)
    requires k in b.bids && BidOk(reg, hash, b, k)
    ensures
      var g := AgentFor(hash, reg, b.bids[k].agentDid);
      DidsCollide(hash, reg) || (g in reg.registered && reg.registered[g].operator == k)
  {
    var did := b.bids[k].agentDid;
    var g :| BidsFor(hash, reg, g, k, did);
    OneRegistrationPerDid(hash, reg, g, AgentFor(hash, reg, did), did);
  }

  /** The winner that an accepted close over a non-empty enumeration has to name. */
  ghost predicate RightWinner(reg: Registry, hash: HashFn, stakes: Key -> u64, b: Book, w: Winner) {
    && BeatsAllOthers(reg, hash, stakes, b, w.bidder)
    && w.bidder in b.bids
    && var bid := b.bids[w.bidder];
       && w == Winner(AgentFor(hash, reg, bid.agentDid), w.bidder, bid.agentDid, bid.revealedAmount)
       && exists nonce: bytes32 :: Opens(hash, bid, w.amount, nonce)
  }

  /** The scan's leader stands for a revealed bid as the registry has it. */
  lemma LeaderStands(reg: Registry, hash: HashFn, stakes: Key -> u64, b: Book, entries: seq<Entry>, best: Candidate)
    requires WellPlaced(reg) && FromRegistry(hash, reg, stakes, entries)
    requires ScanEntries(b.bids, entries) == Leader(Some(best))
    ensures best.bidder in RevealedBidders(b.bids)
    ensures best == Standing(reg, hash, stakes, b, best.bidder) || DidsCollide(hash, reg)
  {
    ScanLeads(b.bids, entries);
    var w :| 0 <= w < |entries| && IsCandidate(b.bids, entries[w], best);
    assert EntryGood(b.bids, entries[w]);
    EntryStanding(reg, hash, stakes, b, entries, w);
  }

  lemma LeaderBeats(reg: Registry, hash: HashFn, stakes: Key -> u64, b: Book, entries: seq<Entry>, best: Candidate,
                    j: Key)
    requires WellPlaced(reg) && FromRegistry(hash, reg, stakes, entries)
    requires ScanEntries(b.bids, entries) == Leader(Some(best))
    requires j in BiddersOf(entries) && j != best.bidder
    ensures j in b.bids && best.bidder in b.bids
    ensures BidOk(reg, hash, b, j) && BidOk(reg, hash, b, best.bidder) ==>
      BidBeats(best, Standing(reg, hash, stakes, b, j)) || DidsCollide(hash, reg)
  {
    ScanLeads(b.bids, entries);
    LeaderStands(reg, hash, stakes, b, entries, best);
    var i :| 0 <= i < |entries| && BiddersOf(entries)[i] == j;
    assert EntryGood(b.bids, entries[i]) && NotBeaten(b.bids, entries[i], best);
    EntryStanding(reg, hash, stakes, b, entries, i);
    if BidOk(reg, hash, b, j) && BidOk(reg, hash, b, best.bidder) {
      DifferentAgents(reg, hash, stakes, b, best.bidder, j);
      BeatsIsStrictTotalOrder(best, Standing(reg, hash, stakes, b, j), best);
    }
  }

  lemma LeaderIsRight(reg: Registry, hash: HashFn, stakes: Key -> u64, b: Book, entries: seq<Entry>, best: Candidate)
    requires Inv(reg, hash, b) && WellPlaced(reg) && FromRegistry(hash, reg, stakes, entries)
    requires ScanEntries(b.bids, entries) == Leader(Some(best))
    ensures Elements(BiddersOf(entries)) == RevealedBidders(b.bids) ==>
      || RightWinner(reg, hash, stakes, b, Winner(best.agent, best.bidder, best.did, best.amount))
      || DidsCollide(hash, reg)
  {
    LeaderStands(reg, hash, stakes, b, entries, best);
    assert BidOk(reg, hash, b, best.bidder);
    if Elements(BiddersOf(entries)) == RevealedBidders(b.bids) && !DidsCollide(hash, reg) {
      forall j | j in RevealedBidders(b.bids) && j != best.bidder
        ensures BidBeats(best, Standing(reg, hash, stakes, b, j))
      {
        assert j in Elements(BiddersOf(entries));
        assert BidOk(reg, hash, b, j);
        LeaderBeats(reg, hash, stakes, b, entries, best, j);
      }
    }
  }

  /** An accepted close picks the bidder that beats every other revealed bidder, for the amount it
      committed to, and cancels exactly when nobody revealed; or else two registered agents have
      colliding DIDs. */
  lemma WinnerBeatsAll(reg: Registry, hash: HashFn, stakes: Key -> u64, b: Book, entries: seq<Entry>, now: int)
    requires Inv(reg, hash, b) && WellPlaced(reg) && FromRegistry(hash, reg, stakes, entries)
    requires CloseRefusal(b, entries, now).None?
    ensures
      var f := AfterClose(b, entries, now);
      && (f.phase == Cancelled <==> RevealedBidders(b.bids) == {})
      && (f.phase != Cancelled ==>
            f.phase == Settled && (RightWinner(reg, hash, stakes, b, f.winner.value) || DidsCollide(hash, reg)))
  {
    CloseAcceptsExactly(b, entries, now);
    ScanLeads(b.bids, entries);
    if |entries| > 0 {
      assert BiddersOf(entries)[0] in RevealedBidders(b.bids);
      LeaderIsRight(reg, hash, stakes, b, entries, ScanEntries(b.bids, entries).best.value);
    } else {
      assert RevealedBidders(b.bids) == {};
    }
  }

  lemma OneRightWinner(reg: Registry, hash: HashFn, stakes: Key -> u64, b: Book, v: Winner, w: Winner)
    requires RightWinner(reg, hash, stakes, b, v) && RightWinner(reg, hash, stakes, b, w)
    ensures v == w
  {
    if v.bidder != w.bidder {
      var j, k := Standing(reg, hash, stakes, b, v.bidder), Standing(reg, hash, stakes, b, w.bidder);
      assert BidBeats(j, k) && BidBeats(k, j);
      BeatsIsStrictTotalOrder(j, k, j);
    }
  }

  /** The outcome does not depend on the order, or on who submits the enumeration, unless two
      registered agents have colliding DIDs. */
  lemma OutcomeOrderIndependent(reg: Registry, hash: HashFn, stakes: Key -> u64, b: Book,
                                one: seq<Entry>, two: seq<Entry>, now: int, later: int)
    requires Inv(reg, hash, b) && WellPlaced(reg)
    requires FromRegistry(hash, reg, stakes, one) && FromRegistry(hash, reg, stakes, two)
    requires CloseRefusal(b, one, now).None? && CloseRefusal(b, two, later).None?
    ensures AfterClose(b, one, now) == AfterClose(b, two, later) || DidsCollide(hash, reg)
  {
    WinnerBeatsAll(reg, hash, stakes, b, one, now);
    WinnerBeatsAll(reg, hash, stakes, b, two, later);
    var f, g := AfterClose(b, one, now), AfterClose(b, two, later);
    if f.phase == Settled && !DidsCollide(hash, reg) {
      OneRightWinner(reg, hash, stakes, b, f.winner.value, g.winner.value);
    }
  }

  /** What of a bid is fixed from the moment the commit phase is over. */
  ghost predicate Sealed(a: Bid, b: Bid) {
    && b.agentDid == a.agentDid && b.commitHash == a.commitHash && b.bondPaid == a.bondPaid
    && (a.revealed ==> b.revealed && b.revealedAmount == a.revealedAmount)
    && (a.slashed && !a.revealed ==> b.slashed && !b.revealed)
  }

  ghost predicate BooksSealed(b: Book, f: Book) {
    && f.phase != Commit && f.bids.Keys == b.bids.Keys
    && forall k :: k in b.bids ==> Sealed(b.bids[k], f.bids[k])
  }

  lemma StepSeals(hash: HashFn, b: Book, c: Command)
    requires b.phase != Commit
    ensures BooksSealed(b, Apply(hash, b, c))
  {
  }

  /** From the first reveal attempt on, whatever the clock says, nobody joins the auction, no
      commitment changes, and a bid once revealed or slashed for a wrong opening stays so. */
  lemma {:induction false} SealedAfterFirstReveal(hash: HashFn, b: Book, cs: seq<Command>)
    requires b.phase != Commit
    ensures BooksSealed(b, Run(hash, b, cs))
  {
    if |cs| > 0 {
      var before := cs[..|cs| - 1];
      SealedAfterFirstReveal(hash, b, before);
      StepSeals(hash, Run(hash, b, before), cs[|cs| - 1]);
    }
  }

  /** A bidder who still can and knows the opening of its commitment gets it counted exactly in the
      reveal window and for an amount the task can pay; a wrong opening there marks it as slashed. */
  lemma RevealCountsHonestOpening(hash: HashFn, b: Book, bidder: Key, amount: u64, nonce: bytes32, now: int)
    requires bidder in b.bids && !b.bids[bidder].revealed && !b.bids[bidder].slashed
    requires b.phase == Commit || b.phase == Reveal
    ensures
      var f, inWindow := AfterReveal(hash, b, bidder, amount, nonce, now), b.commitEnd <= now < b.revealEnd;
      && (bidder in RevealedBidders(f.bids) <==>
            inWindow && Opens(hash, b.bids[bidder], amount, nonce) && 0 < amount <= b.paymentAmount)
      && (f.bids[bidder].slashed <==> inWindow && !Opens(hash, b.bids[bidder], amount, nonce))
      && (forall k :: k in b.bids && k != bidder ==> f.bids[k] == b.bids[k])
  {
  }

  /** What a close fixes for good. */
  ghost predicate Final(b: Book, f: Book) {
    && f.phase == b.phase && f.winner == b.winner && f.revealCount == b.revealCount
    && f.bids.Keys == b.bids.Keys
    && (forall k :: k in b.bids ==>
          f.bids[k].revealed == b.bids[k].revealed && f.bids[k].revealedAmount == b.bids[k].revealedAmount)
    && (forall k :: k in b.bids && b.bids[k].refunded ==> f.bids[k].refunded)
  }

  lemma StepIsFinal(hash: HashFn, b: Book, c: Command)
    requires b.phase == Settled || b.phase == Cancelled
    ensures Final(b, Apply(hash, b, c))
  {
    if c.DoClaim? && ClaimRefusal(b, c.claim).None? {
      ClaimFrame(b, c.claim);
    }
  }

  /** Once settled or cancelled, phase, winner and revealed amounts are final, and a bond returned
      stays returned. */
  lemma {:induction false} SettlementIsFinal(hash: HashFn, b: Book, cs: seq<Command>)
    requires b.phase == Settled || b.phase == Cancelled
    ensures Final(b, Run(hash, b, cs))
  {
    if |cs| > 0 {
      var before := cs[..|cs| - 1];
      SettlementIsFinal(hash, b, before);
      StepIsFinal(hash, Run(hash, b, before), cs[|cs| - 1]);
    }
  }
}
